/**
 The filter-wheel driver `FilterChangerController` as a state machine over an
 abstract serial port. Every operation is a pure function from the driver
 state (and what the port does during the call) to its Python result and the
 next state.
 */
module FilterChanger {
  import opened Wrappers
  import opened Text
  import opened PyInt
  import opened SerialLink

  /** The slots the wheel has; `move_to` refuses any other position. */
  const FirstSlot: int := 1
  const LastSlot: int := 8

  /** `_read_response(timeout_sec=5.0)` after a move, at one poll per 50 ms. */
  const MovePolls: nat := 100
  /** `_read_response()` with its default `timeout_sec=2.0`, at one poll per 50 ms. */
  const QueryPolls: nat := 40

  /** The `[FilterChanger]` section of the settings: port name and baud rate. */
  datatype Settings = Settings(port: string, baud: int)

  /** `self.ser`: never assigned a port object (`None`), open, or closed. */
  datatype Handle = NoHandle | Open | Closed

  /** The driver: configured port, baud rate, handle, the lines waiting in the
      input buffer, and every frame written to the wire, oldest first. */
  datatype State = State(
    port: Option<string>,
    baud: int,
    ser: Handle,
    pending: seq<Arrival>,
    wire: seq<seq<byte>>)

  /** How `serial.Serial(port, baud, timeout=1)` and the buffer reset after
      it turn out: both succeed, or one raises `SerialException`. */
  datatype OpenAttempt = Opened | Refused

  /** Where, if anywhere, the port raises during a command: at
      `reset_input_buffer()` or at `write()`. */
  datatype Fault = NoFault | ResetFails | WriteFails

  /** What the port does during one command: the fault, if any, and the
      arrivals the device produces after the command is written. */
  datatype Link = Link(fault: Fault, replies: seq<Arrival>)

  /** `__init__`: the port from the settings, or `None` when they could not be
      read; no handle yet and nothing written. */
  function Init(config: Option<Settings>): (s: State)
    ensures s.ser == NoHandle && s.pending == [] && s.wire == []
    ensures s.port.Some? <==> config.Some?
    ensures config.Some? ==> s.port == Some(config.value.port) && s.baud == config.value.baud
  {
    match config
    case Some(c) => State(Some(c.port), c.baud, NoHandle, [], [])
    case None => State(None, 0, NoHandle, [], [])
  }

  /** `f"F{position}\r\n"` as ASCII bytes. */
  function MoveFrame(p: int): (f: seq<byte>)
    ensures |f| >= 4 && f[0] == 'F' as int
    ensures f[|f| - 2] == '\r' as int && f[|f| - 1] == '\n' as int
    ensures FirstSlot <= p <= LastSlot ==> f == ['F' as int, '0' as int + p, '\r' as int, '\n' as int]
    ensures !(FirstSlot <= p <= LastSlot) ==> |f| > 4 || f[1] == '0' as int || f[1] == '9' as int
  {
    var d := Decimal(p);
    var text := "F" + d + "\r\n";
    assert forall i :: 1 <= i < |d| + 1 ==> text[i] == d[i - 1];
    AsciiEncode(text)
  }

  /** `"F?\r\n"` as ASCII bytes. */
  function QueryFrame(): (f: seq<byte>)
    ensures f == ['F' as int, '?' as int, '\r' as int, '\n' as int]
  {
    AsciiEncode("F?\r\n")
  }

  /** A frame the driver may put on the wire: a move to a slot of the wheel,
      or the position query. */
  predicate ValidFrame(f: seq<byte>) {
    f == QueryFrame() || exists p | FirstSlot <= p <= LastSlot :: f == MoveFrame(p)
  }

  /** Every frame ever written is valid. */
  predicate WireSafe(s: State) {
    forall i :: 0 <= i < |s.wire| ==> ValidFrame(s.wire[i])
  }

  /** The acknowledgement test of `move_to`: `"OK" in response`. */
  predicate IsAck(line: string) {
    IsInfix("OK", line)
  }

  /** The reply parse of `get_current_position`: `None` without an `F`,
      otherwise `int()` of the text after the last `F`. */
  function ParsePosition(line: string): (r: Option<int>)
    ensures 'F' !in line ==> r == None
    ensures r.Some? ==> 'F' in line
  {
    if 'F' in line then ParseInt(LastSegment(Strip(line), 'F')) else None
  }

  /** `connect`. */
  function Connect(s: State, attempt: OpenAttempt): (r: (bool, State))
    ensures s.port.None? ==> r == (false, s)
    ensures r.0 <==> s.port.Some? && attempt == Opened
    ensures r.0 ==> r.1 == s.(ser := Open, pending := [])
    ensures s.port.Some? && !r.0 ==> r.1 == s.(ser := NoHandle)
    ensures r.1.wire == s.wire && r.1.port == s.port
  {
    if s.port.None? then (false, s)
    else match attempt
      case Opened => (true, s.(ser := Open, pending := []))
      case Refused => (false, s.(ser := NoHandle))
  }

  /** `disconnect`: closes an open handle and leaves any other state alone. */
  function Disconnect(s: State): (s': State)
    ensures s'.ser != Open
    ensures s.ser == Open ==> s' == s.(ser := Closed)
    ensures s.ser != Open ==> s' == s
  {
    if s.ser == Open then s.(ser := Closed) else s
  }

  /** `move_to(position)`: refuses without an open handle, then refuses a
      position outside 1..8; otherwise clears the input, writes the move frame
      and reports whether the one reply it waits for contains `OK`. */
  function MoveTo(s: State, p: int, link: Link): (r: (bool, State))
    ensures s.ser != Open ==> r == (false, s)
    ensures !(FirstSlot <= p <= LastSlot) ==> r == (false, s)
    ensures r.1.port == s.port && r.1.baud == s.baud && r.1.ser == s.ser
    ensures r.1.wire == s.wire || r.1.wire == s.wire + [MoveFrame(p)]
    ensures r.1.wire != s.wire <==> s.ser == Open && FirstSlot <= p <= LastSlot && link.fault == NoFault
    ensures r.0 <==>
              && s.ser == Open && FirstSlot <= p <= LastSlot && link.fault == NoFault
              && var reply := ReadResponse(link.replies, MovePolls).reply;
                 reply.Text? && IsAck(reply.text)
  {
    if s.ser != Open then (false, s)
    else if !(FirstSlot <= p <= LastSlot) then (false, s)
    else
      match link.fault
      case ResetFails => (false, s)
      case WriteFails => (false, s.(pending := []))
      case NoFault =>
        var read := ReadResponse(link.replies, MovePolls);
        var s' := s.(pending := link.replies[read.used..], wire := s.wire + [MoveFrame(p)]);
        match read.reply
        case Text(line) => (IsAck(line), s')
        case NoReply => (false, s')
        case Undecodable => (false, s')
  }

  /** `get_current_position`: refuses without an open handle; otherwise clears
      the input, writes the query frame and parses the one reply it waits for. */
  function QueryPosition(s: State, link: Link): (r: (Option<int>, State))
    ensures s.ser != Open ==> r == (None, s)
    ensures r.1.port == s.port && r.1.baud == s.baud && r.1.ser == s.ser
    ensures r.1.wire == s.wire || r.1.wire == s.wire + [QueryFrame()]
    ensures r.1.wire != s.wire <==> s.ser == Open && link.fault == NoFault
    ensures r.0.Some? <==>
              && s.ser == Open && link.fault == NoFault
              && var reply := ReadResponse(link.replies, QueryPolls).reply;
                 reply.Text? && ParsePosition(reply.text).Some?
    ensures r.0.Some? ==> r.0 == ParsePosition(ReadResponse(link.replies, QueryPolls).reply.text)
  {
    if s.ser != Open then (None, s)
    else
      match link.fault
      case ResetFails => (None, s)
      case WriteFails => (None, s.(pending := []))
      case NoFault =>
        var read := ReadResponse(link.replies, QueryPolls);
        var s' := s.(pending := link.replies[read.used..], wire := s.wire + [QueryFrame()]);
        match read.reply
        case Text(line) => (ParsePosition(line), s')
        case NoReply => (None, s')
        case Undecodable => (None, s')
  }
}
