/**
 Whole request/reply exchanges of the wire protocol: the driver writes a
 frame, the device answers with one CR LF terminated line, possibly after
 quiet polls and blank lines, and the driver's result is read off that line.
 */
module Exchanges {
  import opened Wrappers
  import opened Text
  import opened PyInt
  import opened SerialLink
  import opened FilterChanger
  import opened FilterChangerProofs

  /** The line terminator the device sends after each reply. */
  const LineEnd: string := "\r\n"

  /** A reply line as the device sends it: the text, then CR LF. */
  function ReplyLine(t: string): (a: Arrival)
    requires IsAscii(t)
    ensures a.Line? && |a.raw| == |t| + 2
  {
    var line := t + LineEnd;
    assert IsAscii(line) by {
      assert forall i :: |t| <= i < |line| ==> line[i] == LineEnd[i - |t|];
    }
    Line(AsciiEncode(line))
  }

  /** A reply line whose text has non-blank ends is read back as that
      text, terminator stripped, on the first poll. */
  lemma {:induction false} ReplyLineRead(t: string, rest: seq<Arrival>, budget: nat)
    requires IsAscii(t) && t != [] && !IsSpace(t[0]) && !IsSpace(t[|t| - 1])
    requires budget > 0
    ensures ReadResponse([ReplyLine(t)] + rest, budget) == Read(Text(t), 1)
  {
    var line := t + LineEnd;
    assert IsAscii(line) by {
      assert forall i :: |t| <= i < |line| ==> line[i] == LineEnd[i - |t|];
    }
    assert line[0] == t[0];
    assert !AllSpace(line);
    StripDropsTrailing(t, LineEnd);
    ReadResponseTakesLine(line, rest, budget);
  }

  /** The loop passes over the quiet polls and blank lines before a reply
      line and hands back the reply text without its terminator. */
  lemma {:induction false} ReplyAfterSkipped(skipped: seq<Arrival>, t: string, rest: seq<Arrival>, budget: nat)
    requires IsAscii(t) && t != [] && !IsSpace(t[0]) && !IsSpace(t[|t| - 1])
    requires forall i :: 0 <= i < |skipped| ==> Skipped(skipped[i])
    requires |skipped| < budget
    ensures ReadResponse(skipped + [ReplyLine(t)] + rest, budget) == Read(Text(t), |skipped| + 1)
    ensures (skipped + [ReplyLine(t)] + rest)[|skipped| + 1..] == rest
  {
    var q := [ReplyLine(t)] + rest;
    assert skipped + [ReplyLine(t)] + rest == skipped + q;
    ReadResponseAfterSkipped(skipped, q, budget);
    ReplyLineRead(t, rest, budget - |skipped|);
  }

  /** A move to a slot of the wheel, answered by the line `t` after fewer
      than 100 passed-over polls, returns whether `t` contains `OK`; the
      move frame is written and the arrivals after the reply stay in the
      input buffer. */
  lemma {:induction false} MoveReply(s: State, p: int, skipped: seq<Arrival>, t: string, rest: seq<Arrival>)
    requires s.ser == Open && FirstSlot <= p <= LastSlot
    requires IsAscii(t) && t != [] && !IsSpace(t[0]) && !IsSpace(t[|t| - 1])
    requires forall i :: 0 <= i < |skipped| ==> Skipped(skipped[i])
    requires |skipped| < MovePolls
    ensures MoveTo(s, p, Link(NoFault, skipped + [ReplyLine(t)] + rest))
            == (IsAck(t), s.(pending := rest, wire := s.wire + [MoveFrame(p)]))
  {
    ReplyAfterSkipped(skipped, t, rest, MovePolls);
  }

  /** The device's `OK` acknowledges the move. */
  lemma {:induction false} MoveAcknowledged(s: State, p: int, skipped: seq<Arrival>, rest: seq<Arrival>)
    requires s.ser == Open && FirstSlot <= p <= LastSlot
    requires forall i :: 0 <= i < |skipped| ==> Skipped(skipped[i])
    requires |skipped| < MovePolls
    ensures MoveTo(s, p, Link(NoFault, skipped + [ReplyLine("OK")] + rest)).0
  {
    MoveReply(s, p, skipped, "OK", rest);
    assert OccursAt("OK", "OK", 0);
  }

  /** A device that stays silent, or sends only blank lines, until the
      deadline makes the move report failure, although the frame was
      written. */
  lemma {:induction false} MoveTimesOut(s: State, p: int, skipped: seq<Arrival>)
    requires s.ser == Open && FirstSlot <= p <= LastSlot
    requires forall i :: 0 <= i < |skipped| ==> Skipped(skipped[i])
    requires |skipped| <= MovePolls
    ensures MoveTo(s, p, Link(NoFault, skipped))
            == (false, s.(pending := [], wire := s.wire + [MoveFrame(p)]))
  {
    assert skipped + [] == skipped;
    ReadResponseAfterSkipped(skipped, [], MovePolls);
  }

  /** A query answered by the line `t` after fewer than 40 passed-over
      polls returns the position parsed from `t`. */
  lemma {:induction false} QueryReply(s: State, skipped: seq<Arrival>, t: string, rest: seq<Arrival>)
    requires s.ser == Open
    requires IsAscii(t) && t != [] && !IsSpace(t[0]) && !IsSpace(t[|t| - 1])
    requires forall i :: 0 <= i < |skipped| ==> Skipped(skipped[i])
    requires |skipped| < QueryPolls
    ensures QueryPosition(s, Link(NoFault, skipped + [ReplyLine(t)] + rest))
            == (ParsePosition(t), s.(pending := rest, wire := s.wire + [QueryFrame()]))
  {
    ReplyAfterSkipped(skipped, t, rest, QueryPolls);
  }

  /** The device's report of position `n`: `F` and the decimal digits. */
  function PositionReport(n: int): (t: string)
    ensures IsAscii(t) && t != [] && !IsSpace(t[0]) && !IsSpace(t[|t| - 1])
    ensures t == "F" + Decimal(n)
  {
    var d := Decimal(n);
    var t := "F" + d;
    assert forall i :: 1 <= i < |t| ==> t[i] == d[i - 1];
    assert t[|t| - 1] == d[|d| - 1];
    t
  }

  /** The report of `n` parses back to `n`. */
  lemma {:induction false} PositionReportParses(n: int)
    requires |Decimal(n)| <= IntMaxStrDigits
    ensures ParsePosition(PositionReport(n)) == Some(n)
  {
    var d := Decimal(n);
    assert "" + "F" + d == "F" + d;
    PositionReportRoundTrip("", n);
  }

  /** The position the device reports as `F<n>` is the position the query
      returns, whatever the number. */
  lemma {:induction false} PositionReported(s: State, n: int, skipped: seq<Arrival>, rest: seq<Arrival>)
    requires s.ser == Open
    requires |Decimal(n)| <= IntMaxStrDigits
    requires forall i :: 0 <= i < |skipped| ==> Skipped(skipped[i])
    requires |skipped| < QueryPolls
    ensures QueryPosition(s, Link(NoFault, skipped + [ReplyLine(PositionReport(n))] + rest)).0 == Some(n)
  {
    QueryReply(s, skipped, PositionReport(n), rest);
    PositionReportParses(n);
  }

  /** A report of `digits` with a separator 0x1C..0x1F between the marker
      and the number. */
  function SeparatedReport(sep: char, digits: string): (t: string)
    requires 28 <= sep as int <= 31
    requires digits != [] && AllDigits(digits)
    ensures IsAscii(t) && t != [] && !IsSpace(t[0]) && !IsSpace(t[|t| - 1])
    ensures t == "F" + ([sep] + digits)
  {
    var tail := [sep] + digits;
    var t := "F" + tail;
    assert forall i :: 1 <= i < |tail| ==> tail[i] == digits[i - 1];
    assert forall i :: 1 <= i < |t| ==> t[i] == tail[i - 1];
    assert t[|t| - 1] == digits[|digits| - 1];
    t
  }

  /** The separated report carries no position. */
  lemma {:induction false} SeparatedReportRejected(sep: char, digits: string)
    requires 28 <= sep as int <= 31
    requires digits != [] && AllDigits(digits)
    ensures ParsePosition(SeparatedReport(sep, digits)) == None
  {
    var tail := [sep] + digits;
    assert "" + "F" + tail == "F" + tail;
    SeparatorAfterMarker("", sep, digits);
  }

  /** A report whose number is preceded by a separator 0x1C..0x1F, such as
      `F`, 0x1C, `5`, makes the query return no position: the reply line
      keeps the separator, and `int()` rejects it. */
  lemma {:induction false} SeparatorReported(s: State, sep: char, digits: string, skipped: seq<Arrival>, rest: seq<Arrival>)
    requires s.ser == Open
    requires 28 <= sep as int <= 31
    requires digits != [] && AllDigits(digits)
    requires forall i :: 0 <= i < |skipped| ==> Skipped(skipped[i])
    requires |skipped| < QueryPolls
    ensures QueryPosition(s, Link(NoFault, skipped + [ReplyLine(SeparatedReport(sep, digits))] + rest)).0 == None
  {
    QueryReply(s, skipped, SeparatedReport(sep, digits), rest);
    SeparatedReportRejected(sep, digits);
  }
}
