/**
 Properties of the filter-wheel driver that span several calls or hold for
 whole families of replies: no out-of-range move ever reaches the wire, the
 position parse splits at the last marker, and the request/reply exchanges
 of the wire protocol complete as intended.
 */
module FilterChangerProofs {
  import opened Wrappers
  import opened Text
  import opened PyInt
  import opened SerialLink
  import opened FilterChanger

  /** One public call on the driver, with what the port does during it. */
  datatype Op =
    | ConnectOp(attempt: OpenAttempt)
    | DisconnectOp
    | MoveOp(position: int, link: Link)
    | QueryOp(link: Link)

  function Step(s: State, op: Op): State {
    match op
    case ConnectOp(a) => Connect(s, a).1
    case DisconnectOp => Disconnect(s)
    case MoveOp(p, l) => MoveTo(s, p, l).1
    case QueryOp(l) => QueryPosition(s, l).1
  }

  /** The state after a sequence of calls, first call first. */
  function Run(s: State, ops: seq<Op>): State
    decreases |ops|
  {
    if ops == [] then s else Run(Step(s, ops[0]), ops[1..])
  }

  /** A move frame for a position outside 1..8 is not a frame the driver may
      send: it differs from every in-range move frame and from the query. */
  lemma {:induction false} OutOfRangeFrameInvalid(p: int)
    requires !(FirstSlot <= p <= LastSlot)
    ensures !ValidFrame(MoveFrame(p))
  {
    var f := MoveFrame(p);
    forall q | FirstSlot <= q <= LastSlot
      ensures f != MoveFrame(q)
    {
      if |f| == 4 {
        assert f[1] != MoveFrame(q)[1];
      }
    }
    if |f| == 4 {
      assert f[1] != QueryFrame()[1];
    }
  }

  /** Each call keeps the wire safe: it appends nothing, or one valid frame. */
  lemma {:induction false} StepKeepsWireSafe(s: State, op: Op)
    requires WireSafe(s)
    ensures WireSafe(Step(s, op))
    ensures Step(s, op).wire == s.wire || |Step(s, op).wire| == |s.wire| + 1
  {
    var s' := Step(s, op);
    match op
    case ConnectOp(a) =>
    case DisconnectOp =>
    case MoveOp(p, l) =>
      if s'.wire != s.wire {
        assert s'.wire == s.wire + [MoveFrame(p)];
        assert ValidFrame(s'.wire[|s.wire|]);
      }
    case QueryOp(l) =>
      if s'.wire != s.wire {
        assert s'.wire == s.wire + [QueryFrame()];
      }
  }

  /** Any sequence of calls keeps the wire safe. */
  lemma {:induction false} RunKeepsWireSafe(s: State, ops: seq<Op>)
    requires WireSafe(s)
    ensures WireSafe(Run(s, ops))
    decreases |ops|
  {
    if ops != [] {
      StepKeepsWireSafe(s, ops[0]);
      RunKeepsWireSafe(Step(s, ops[0]), ops[1..]);
    }
  }

  /** From start-up, whatever the calls and whatever the port and the device
      do, no move frame for a position outside 1..8 is ever written. */
  lemma {:induction false} NoOutOfRangeMoveOnWire(config: Option<Settings>, ops: seq<Op>, p: int)
    requires !(FirstSlot <= p <= LastSlot)
    ensures MoveFrame(p) !in Run(Init(config), ops).wire
  {
    RunKeepsWireSafe(Init(config), ops);
    OutOfRangeFrameInvalid(p);
  }

  /** Every call only ever adds frames at the end of the wire log. */
  lemma {:induction false} RunAppendsToWire(s: State, ops: seq<Op>)
    ensures |s.wire| <= |Run(s, ops).wire|
    ensures Run(s, ops).wire[..|s.wire|] == s.wire
    decreases |ops|
  {
    if ops != [] {
      var s1 := Step(s, ops[0]);
      assert s1.wire[..|s.wire|] == s.wire by {
        match ops[0]
        case ConnectOp(a) =>
        case DisconnectOp =>
        case MoveOp(p, l) =>
        case QueryOp(l) =>
      }
      RunAppendsToWire(s1, ops[1..]);
      assert Run(s, ops) == Run(s1, ops[1..]);
    }
  }

  /** `disconnect` twice is `disconnect` once. */
  lemma DisconnectIdempotent(s: State)
    ensures Disconnect(Disconnect(s)) == Disconnect(s)
  {
  }

  /** After `disconnect`, a move refuses and writes nothing. */
  lemma {:induction false} MoveRefusedAfterDisconnect(s: State, p: int, link: Link)
    ensures MoveTo(Disconnect(s), p, link) == (false, Disconnect(s))
  {
  }

  /** After `disconnect`, a query refuses and writes nothing. */
  lemma {:induction false} QueryRefusedAfterDisconnect(s: State, link: Link)
    ensures QueryPosition(Disconnect(s), link) == (None, Disconnect(s))
  {
  }

  /** The acknowledgement test holds exactly when the reply has an `O`
      immediately followed by a `K` somewhere in it. */
  lemma {:induction false} AckIffAdjacentOK(line: string)
    ensures IsAck(line) <==> exists i | 0 <= i < |line| - 1 :: line[i] == 'O' && line[i + 1] == 'K'
  {
    if IsAck(line) {
      var i :| 0 <= i <= |line| - 2 && OccursAt("OK", line, i);
      assert line[i..i + 2][0] == line[i] && line[i..i + 2][1] == line[i + 1];
    }
    if exists i | 0 <= i < |line| - 1 :: line[i] == 'O' && line[i + 1] == 'K' {
      var i :| 0 <= i < |line| - 1 && line[i] == 'O' && line[i + 1] == 'K';
      assert line[i..i + 2] == "OK";
      assert OccursAt("OK", line, i);
    }
  }

  /** Stale input does not influence a move: the buffer is cleared first. */
  lemma {:induction false} MoveIgnoresStaleInput(s: State, stale: seq<Arrival>, p: int, link: Link)
    ensures MoveTo(s.(pending := stale), p, link).0 == MoveTo(s, p, link).0
  {
  }

  lemma SeqAssoc<T>(a: seq<T>, b: seq<T>, c: seq<T>)
    ensures a + (b + c) == a + b + c
  {
  }

  /** Stripping the left end of `prefix + rest` stops inside `prefix` when
      `rest` starts with a non-blank character. */
  lemma {:induction false} StripLeftStopsBefore(prefix: string, rest: string)
    requires rest != [] && !IsSpace(rest[0])
    ensures exists pre :: StripLeft(prefix + rest) == pre + rest
  {
    var line := prefix + rest;
    var l := StripLeft(line);
    var k := |line| - |l|;
    assert line[|prefix|] == rest[0];
    assert k <= |prefix|;
    assert l == prefix[k..] + rest;
  }

  /** A line that ends `F` + `tail`, `tail` not ending in a blank, keeps that
      ending when stripped. */
  lemma {:induction false} StripKeepsMarkedTail(prefix: string, tail: string)
    requires tail == [] || !IsSpace(tail[|tail| - 1])
    ensures exists pre :: Strip(prefix + "F" + tail) == pre + "F" + tail
  {
    var rest := "F" + tail;
    var line := prefix + "F" + tail;
    assert line == prefix + rest;
    StripLeftStopsBefore(prefix, rest);
    var pre :| StripLeft(line) == pre + rest;
    var l := pre + rest;
    assert l[|l| - 1] == rest[|rest| - 1];
    StripRightKeeps(l);
    assert Strip(line) == l;
    SeqAssoc(pre, "F", tail);
  }

  /** The position parse reads the text after the LAST marker, whatever
      noise precedes it. */
  lemma {:induction false} ParseAfterLastMarker(prefix: string, tail: string)
    requires 'F' !in tail
    requires tail == [] || !IsSpace(tail[|tail| - 1])
    ensures ParsePosition(prefix + "F" + tail) == ParseInt(tail)
  {
    var line := prefix + "F" + tail;
    assert line[|prefix|] == 'F';
    StripKeepsMarkedTail(prefix, tail);
    var pre :| Strip(line) == pre + "F" + tail;
    LastSegmentAfterMarker(pre, 'F', tail);
  }

  /** A reported slot number is read back exactly, after any leading noise;
      the value is not range-checked. */
  lemma {:induction false} PositionReportRoundTrip(prefix: string, n: int)
    requires |Decimal(n)| <= IntMaxStrDigits
    ensures ParsePosition(prefix + "F" + Decimal(n)) == Some(n)
  {
    var d := Decimal(n);
    assert forall i :: 0 <= i < |d| ==> d[i] != 'F';
    assert !IsSpace(d[|d| - 1]);
    ParseAfterLastMarker(prefix, d);
    DecimalRoundTrip(n);
  }

  /** A plain report `F5` reads as slot 5, after any noise. */
  lemma {:induction false} PlainReport(prefix: string)
    ensures ParsePosition(prefix + "F5") == Some(5)
  {
    assert Decimal(5) == "5";
    assert prefix + "F5" == prefix + "F" + Decimal(5);
    PositionReportRoundTrip(prefix, 5);
  }

  /** Leading zeros are accepted: `int("07") == 7`. */
  lemma LeadingZeroAccepted()
    ensures ParseInt("07") == Some(7)
  {
    assert "07" == "0" + Decimal(7);
    LeadingZeroValue(Decimal(7));
    ParseDigits("07");
  }

  /** Noise before the marker is skipped and a leading zero is accepted:
      `GARBAGEF07`, or any other text ending `F07`, reads as slot 7. */
  lemma {:induction false} NoiseBeforeMarker(prefix: string)
    ensures ParsePosition(prefix + "F07") == Some(7)
  {
    assert prefix + "F07" == prefix + "F" + "07";
    ParseAfterLastMarker(prefix, "07");
    LeadingZeroAccepted();
  }

  /** A reply whose text after the last marker ends in neither a digit nor
      a blank carries no position. */
  lemma {:induction false} NonNumericTail(prefix: string, tail: string)
    requires 'F' !in tail
    requires tail != [] && !IsSpace(tail[|tail| - 1]) && !IsDigit(tail[|tail| - 1])
    ensures ParsePosition(prefix + "F" + tail) == None
  {
    ParseAfterLastMarker(prefix, tail);
    NoTrailingDigitNoInt(tail);
  }

  /** A separator 0x1C..0x1F right after the last marker is not skipped by
      `int()`, although it is whitespace to `strip`: `F`, 0x1C, `5` carries
      no position. */
  lemma {:induction false} SeparatorAfterMarker(prefix: string, sep: char, digits: string)
    requires 28 <= sep as int <= 31
    requires digits != [] && AllDigits(digits)
    ensures ParsePosition(prefix + "F" + ([sep] + digits)) == None
  {
    var tail := [sep] + digits;
    assert tail[|tail| - 1] == digits[|digits| - 1];
    assert forall i :: 1 <= i < |tail| ==> tail[i] == digits[i - 1];
    assert 'F' !in tail;
    ParseAfterLastMarker(prefix, tail);
    SeparatorNotSkipped(tail);
  }

  /** An echoed query `F?` carries no position, whatever precedes it. */
  lemma {:induction false} EchoedQuery(prefix: string)
    ensures ParsePosition(prefix + "F?") == None
  {
    assert prefix + "F?" == prefix + "F" + "?";
    NonNumericTail(prefix, "?");
  }

  /** A reply ending in a marker carries no position: the text after the
      last `F` of `F5F` is empty. */
  lemma {:induction false} TrailingMarker(prefix: string)
    ensures ParsePosition(prefix + "F") == None
  {
    assert prefix + "F" == prefix + "F" + "";
    ParseAfterLastMarker(prefix, "");
  }

  /** Slots outside the wheel are reported as read: `F9` is 9. */
  lemma {:induction false} ReportNotRangeChecked(prefix: string)
    ensures ParsePosition(prefix + "F9") == Some(9)
  {
    assert Decimal(9) == "9";
    assert prefix + "F9" == prefix + "F" + Decimal(9);
    PositionReportRoundTrip(prefix, 9);
  }
}
