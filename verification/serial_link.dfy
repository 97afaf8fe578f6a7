/**
 The serial channel as the driver sees it: bytes on the wire, ASCII
 encoding and decoding, and the poll loop that waits for one non-blank line
 from the device.

 Time is counted in polls. Each pass of the loop looks at the input once and
 then sleeps one 50 ms interval, so a timeout of T seconds is T / 0.05 polls.
 What the device sends is a sequence of `Arrival`s, one per poll: either
 nothing is waiting, or one line as `readline()` returns it.
 */
module SerialLink {
  import opened Wrappers
  import opened Text

  type byte = x: int | 0 <= x < 256

  /** What one poll of the input finds. */
  datatype Arrival = Quiet | Line(raw: seq<byte>)

  /** The reply the poll loop hands back: the stripped non-blank line, no
      line before the deadline, or a line `decode('ascii')` rejects (the
      `UnicodeDecodeError` escapes the loop). */
  datatype Reply = Text(text: string) | NoReply | Undecodable

  /** The reply, and how many arrivals the loop consumed to get it. */
  datatype Read = Read(reply: Reply, used: nat)

  predicate IsAscii(s: string) {
    forall i :: 0 <= i < |s| ==> s[i] as int < 128
  }

  /** `s.encode('ascii')` for text that is ASCII. */
  function AsciiEncode(s: string): (b: seq<byte>)
    requires IsAscii(s)
    ensures |b| == |s|
    ensures forall i :: 0 <= i < |s| ==> b[i] == s[i] as int
  {
    seq(|s|, i requires 0 <= i < |s| => s[i] as int)
  }

  /** `b.decode('ascii')`, with `None` for the `UnicodeDecodeError` a byte
      of 128 or more raises. */
  function AsciiDecode(b: seq<byte>): (r: Option<string>)
    ensures r.Some? <==> forall i :: 0 <= i < |b| ==> b[i] < 128
    ensures r.Some? ==> |r.value| == |b| && IsAscii(r.value)
    ensures r.Some? ==> forall i :: 0 <= i < |b| ==> r.value[i] as int == b[i]
  {
    if forall i :: 0 <= i < |b| ==> b[i] < 128 then
      Some(seq(|b|, i requires 0 <= i < |b| => b[i] as char))
    else None
  }

  /** Decoding what was encoded gives the text back. */
  lemma {:induction false} AsciiRoundTrip(s: string)
    requires IsAscii(s)
    ensures AsciiDecode(AsciiEncode(s)) == Some(s)
  {
    var d := AsciiDecode(AsciiEncode(s));
    assert d.Some?;
    assert forall i :: 0 <= i < |s| ==> d.value[i] == s[i];
    assert d.value == s;
  }

  /** A poll the loop passes over: nothing waiting, or a line that decodes
      to whitespace only. */
  predicate Skipped(a: Arrival) {
    a.Quiet? || (AsciiDecode(a.raw).Some? && AllSpace(AsciiDecode(a.raw).value))
  }

  /** The first `k` polls were all passed over. */
  predicate AllSkipped(q: seq<Arrival>, k: nat)
    requires k <= |q|
  {
    k == 0 || (Skipped(q[0]) && AllSkipped(q[1..], k - 1))
  }

  /** Arrival `a` is the line that ends the wait with `reply`. */
  predicate Ends(a: Arrival, reply: Reply) {
    && a.Line?
    && match reply
       case NoReply => false
       case Undecodable => AsciiDecode(a.raw).None?
       case Text(t) => AsciiDecode(a.raw).Some? && t == Strip(AsciiDecode(a.raw).value) && t != []
  }

  /** `_read_response`: polls at most `budget` times; a line that decodes and
      is non-blank once stripped ends the wait, a blank one is discarded and
      the wait goes on, a line that does not decode raises. It consumes at
      most one arrival per poll, and a line it returns is never blank and
      carries no surrounding whitespace. */
  function ReadResponse(q: seq<Arrival>, budget: nat): (r: Read)
    ensures r.used <= |q| && r.used <= budget
    ensures r.reply.Text? ==> r.reply.text != []
    ensures r.reply.Text? ==> !IsSpace(r.reply.text[0]) && !IsSpace(r.reply.text[|r.reply.text| - 1])
  {
    if budget == 0 || q == [] then Read(NoReply, 0)
    else if Skipped(q[0]) then
      var r := ReadResponse(q[1..], budget - 1);
      Read(r.reply, r.used + 1)
    else
      match AsciiDecode(q[0].raw)
      case None => Read(Undecodable, 1)
      case Some(t) => Read(Text(Strip(t)), 1)
  }

  /** The reply is decided by the first poll that is not passed over: no
      reply means every poll until the deadline or the end of the input was
      passed over; otherwise the last poll consumed holds the line that ended
      the wait, and every poll before it was passed over. */
  lemma {:induction false} ReadResponseDecided(q: seq<Arrival>, budget: nat)
    ensures ReadResponse(q, budget).reply.NoReply? ==>
              var k := ReadResponse(q, budget).used;
              AllSkipped(q, k) && (k == budget || k == |q|)
    ensures !ReadResponse(q, budget).reply.NoReply? ==>
              var k := ReadResponse(q, budget).used;
              0 < k && AllSkipped(q, k - 1) && Ends(q[k - 1], ReadResponse(q, budget).reply)
  {
    if budget > 0 && q != [] && Skipped(q[0]) {
      var r := ReadResponse(q, budget);
      var r' := ReadResponse(q[1..], budget - 1);
      assert r.reply == r'.reply && r.used == r'.used + 1;
      ReadResponseDecided(q[1..], budget - 1);
      if !r.reply.NoReply? {
        assert q[r.used - 1] == q[1..][r'.used - 1];
      }
    }
  }

  /** Polls that are passed over only spend budget: the loop then reads the
      rest of the input as if they had never come. */
  lemma {:induction false} ReadResponseAfterSkipped(skipped: seq<Arrival>, q: seq<Arrival>, budget: nat)
    requires forall i :: 0 <= i < |skipped| ==> Skipped(skipped[i])
    requires |skipped| <= budget
    ensures ReadResponse(skipped + q, budget).reply == ReadResponse(q, budget - |skipped|).reply
    ensures ReadResponse(skipped + q, budget).used == ReadResponse(q, budget - |skipped|).used + |skipped|
    decreases |skipped|
  {
    if skipped != [] {
      var all := skipped + q;
      assert all[0] == skipped[0];
      assert all[1..] == skipped[1..] + q;
      ReadResponseAfterSkipped(skipped[1..], q, budget - 1);
    } else {
      assert skipped + q == q;
    }
  }

  /** A line that decodes to text with something besides whitespace ends
      the wait at once, with the stripped text. */
  lemma {:induction false} ReadResponseTakesLine(text: string, q: seq<Arrival>, budget: nat)
    requires IsAscii(text) && !AllSpace(text) && budget > 0
    ensures ReadResponse([Line(AsciiEncode(text))] + q, budget) == Read(Text(Strip(text)), 1)
  {
    AsciiRoundTrip(text);
    var a := Line(AsciiEncode(text));
    var all := [a] + q;
    assert all[0] == a;
    assert AsciiDecode(a.raw) == Some(text);
    assert !Skipped(a);
  }
}
