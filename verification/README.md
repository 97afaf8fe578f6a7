# Filter-wheel driver model

A Dafny model of `FilterChangerController`, the driver for the motorised
filter wheel of the imaging rig. The driver talks to the wheel over a serial
port in an ASCII line protocol: `F<n>` CR LF moves the wheel to slot `n`
(1 to 8), and the device answers with a line containing `OK`; `F?` CR LF asks
for the current slot, and the device answers with a line such as `F5`.

The driver is modelled as a state machine of pure functions. The state
(`FilterChanger.State`) holds:

- the configured port;
- the baud rate;
- the handle (`self.ser`): none, open or closed;
- the lines waiting in the input buffer;
- a log of every frame written to the wire.

Each public call is a function from the state, and from what the port does
during the call, to the Python return value and the next state:

- `Connect` takes an `OpenAttempt`, which says whether opening the port and clearing its buffer succeed.
- `MoveTo` and `QueryPosition` take a `Link`. It names the point where the port raises, if any: clearing the buffer or writing. It also lists the arrivals the device produces after the write.

Time is counted in polls. `_read_response` looks at the input once per
pass and then sleeps 50 ms, so within its 5.0 s timeout after a move it
polls at most 100 times, and within its default 2.0 s timeout after a query
at most 40 times, assuming the wall clock `time.time()` advances at least as
fast as the sleeps. A run that polls fewer times, because a sleep overran or
a read took time, is a `Link` with fewer arrivals. One arrival is
either a quiet poll or one line as `readline()` returns it.

Modules:

- `Text`: Python's `isspace`, `strip`, `in` and `split(c)[-1]` on ASCII text.
- `PyInt`: `int()` and `str()` in base 10. `int()` skips only the C whitespace (space, TAB, LF, VT, FF, CR) around the number, not the separators 0x1C..0x1F that `strip` also removes.
- `SerialLink`: bytes, the ASCII codec and the read loop.
- `FilterChanger`: the driver itself.
- `FilterChangerProofs`: properties over whole call sequences, and the position parse.
- `Exchanges`: complete request/reply exchanges.
- `ConfigFailure`: the constructor as written, on the path where the settings could not be read (see Findings).

The position reply is parsed with `split('F')[-1]`, which takes the text
after the LAST `F`, not the first; `FilterChangerProofs.ParseAfterLastMarker`
states this rule.

## Model

| member | source | states |
|---|---|---|
| FilterChanger.Init | src/hardware/filter_changer.py:8-18 | a fresh driver has no handle, an empty input buffer and nothing written; its port is set exactly when the settings could be read |
| FilterChanger.Connect | src/hardware/filter_changer.py:20-36 | connect succeeds exactly when a port is configured and opening it succeeds; success leaves an open handle and an empty input buffer, failure leaves no handle, and without a port nothing changes at all |
| FilterChanger.Disconnect | src/hardware/filter_changer.py:38-43 | after disconnect the handle is never open; an open handle becomes closed and any other state is left exactly as it was |
| FilterChangerProofs.DisconnectIdempotent | src/hardware/filter_changer.py:38-43 | disconnecting twice has the same effect as disconnecting once |
| FilterChanger.MoveFrame | src/hardware/filter_changer.py:79-82 | the move frame is `F`, the decimal position and CR LF as ASCII bytes; for slots 1 to 8 it is exactly the four bytes `F`, the digit, CR, LF |
| FilterChanger.QueryFrame | src/hardware/filter_changer.py:107-110 | the query frame is exactly the four bytes `F`, `?`, CR, LF |
| FilterChanger.MoveTo | src/hardware/filter_changer.py:63-95 | the move returns true exactly when the handle is open, the slot is in 1..8, the port does not raise, and the reply line contains `OK`. Without an open handle or with an out-of-range slot, nothing changes. A frame is written exactly when the buffer was cleared and the write succeeded |
| FilterChangerProofs.AckIffAdjacentOK | src/hardware/filter_changer.py:87 | the acknowledgement test holds exactly when the reply has an `O` immediately followed by a `K` |
| FilterChangerProofs.MoveIgnoresStaleInput | src/hardware/filter_changer.py:76-77 | lines left in the input buffer before a move never influence its result, because the buffer is cleared first |
| FilterChanger.QueryPosition | src/hardware/filter_changer.py:97-132 | the query returns a position exactly when the handle is open, the port does not raise and the reply line parses; the position is the parse of that line; without an open handle nothing changes, and a frame is written exactly when the buffer was cleared and the write succeeded |
| FilterChangerProofs.MoveRefusedAfterDisconnect | src/hardware/filter_changer.py:68-70 | after disconnect, a move returns false and changes nothing, so nothing is written |
| FilterChangerProofs.QueryRefusedAfterDisconnect | src/hardware/filter_changer.py:99-101 | after disconnect, a query returns no position and changes nothing, so nothing is written |
| FilterChangerProofs.OutOfRangeFrameInvalid | src/hardware/filter_changer.py:72-82 | a move frame for a position outside 1..8 is neither an in-range move frame nor the query frame |
| FilterChangerProofs.StepKeepsWireSafe | src/hardware/filter_changer.py:72-82 | each call appends at most one frame, and only a move to a slot of the wheel or the query |
| FilterChangerProofs.RunKeepsWireSafe | src/hardware/filter_changer.py:72-82 | any sequence of calls keeps every written frame a valid one |
| FilterChangerProofs.NoOutOfRangeMoveOnWire | src/hardware/filter_changer.py:72-82 | from start-up, whatever the calls and whatever the port and the device do, no move frame for a position outside 1..8 ever reaches the wire |
| FilterChangerProofs.RunAppendsToWire | src/hardware/filter_changer.py:82 | calls only ever append to what was written; earlier frames are never altered |
| SerialLink.ReadResponse | src/hardware/filter_changer.py:45-61 | the read loop consumes at most one arrival per poll and stops at the deadline; a line it returns is non-empty, with no whitespace at either end |
| SerialLink.ReadResponseDecided | src/hardware/filter_changer.py:45-61 | no reply means every poll up to the deadline, or to the end of the input, was quiet or blank; otherwise every poll before the last consumed one was passed over, and that last one is the line that decided the result: its stripped text, or a decode failure |
| SerialLink.ReadResponseAfterSkipped | src/hardware/filter_changer.py:51-57 | quiet polls and blank lines only use up the timeout: the loop then reads the rest of the input as if they had never come |
| SerialLink.ReadResponseTakesLine | src/hardware/filter_changer.py:52-56 | a line that decodes and is not all whitespace ends the wait on that poll, with the stripped text |
| SerialLink.AsciiEncode | src/hardware/filter_changer.py:82 | encoding keeps the length, and each byte is the code of the character at that index |
| SerialLink.AsciiDecode | src/hardware/filter_changer.py:53 | decoding fails exactly when some byte is 128 or more; otherwise each character has the code of the byte at that index |
| SerialLink.AsciiRoundTrip | src/hardware/filter_changer.py:53 | decoding what was encoded from ASCII text gives the text back |
| FilterChanger.ParsePosition | src/hardware/filter_changer.py:115-128 | a reply without an `F` has no position |
| FilterChangerProofs.ParseAfterLastMarker | src/hardware/filter_changer.py:115-119 | for any text before it, the position is `int()` of the text after the last `F` |
| FilterChangerProofs.PositionReportRoundTrip | src/hardware/filter_changer.py:115-122 | a reply ending in `F` and the decimal form of any number, after any noise, reads back as exactly that number, with no range check |
| FilterChangerProofs.StripKeepsMarkedTail | src/hardware/filter_changer.py:118 | stripping a reply keeps a last `F` and the non-blank text after it intact |
| FilterChangerProofs.PlainReport | src/hardware/filter_changer.py:115-122 | a reply ending in `F5` reads as slot 5 |
| FilterChangerProofs.NoiseBeforeMarker | src/hardware/filter_changer.py:117-122 | a reply ending in `F07`, such as `GARBAGEF07`, reads as slot 7: noise before the marker is ignored and a leading zero is accepted |
| FilterChangerProofs.LeadingZeroAccepted | src/hardware/filter_changer.py:119 | `int("07")` is 7 |
| FilterChangerProofs.NonNumericTail | src/hardware/filter_changer.py:119-125 | a reply whose text after the last `F` ends in neither a digit nor a blank has no position |
| FilterChangerProofs.SeparatorAfterMarker | src/hardware/filter_changer.py:118-125 | a separator 0x1C..0x1F right after the last `F`, before the digits, makes the reply carry no position |
| FilterChangerProofs.EchoedQuery | src/hardware/filter_changer.py:115-125 | an echoed query `F?` yields no position, whatever precedes it |
| FilterChangerProofs.TrailingMarker | src/hardware/filter_changer.py:118-125 | a reply ending in `F`, such as `F5F`, yields no position, because the text after the last `F` is empty |
| FilterChangerProofs.ReportNotRangeChecked | src/hardware/filter_changer.py:119-122 | a report of slot 9 is returned as 9: the query does not check the range |
| PyInt.ParseInt | src/hardware/filter_changer.py:119 | `int()` of blank text fails; a parsed number comes from text that, once its C whitespace padding is skipped, ends in a digit, and a negative one from text that then starts with `-` |
| PyInt.IntStrip | src/hardware/filter_changer.py:119 | the padding `int()` skips is C whitespace only: the result is empty exactly for all-C-whitespace text, and otherwise neither end is C whitespace |
| PyInt.IntStripLeft | src/hardware/filter_changer.py:119 | `int()` skips exactly a leading C-whitespace prefix |
| PyInt.IntStripRight | src/hardware/filter_changer.py:119 | `int()` skips exactly a trailing C-whitespace suffix |
| PyInt.IntStripSurrounded | src/hardware/filter_changer.py:119 | C whitespace on either side of text with non-blank ends is skipped and the text is read whole |
| PyInt.NoLeadingNumberNoInt | src/hardware/filter_changer.py:119 | text whose first character is neither C whitespace, a sign nor a digit does not parse |
| PyInt.SeparatorNotSkipped | src/hardware/filter_changer.py:119 | text starting with a separator 0x1C..0x1F does not parse, although `strip` counts that character as whitespace |
| PyInt.ParseSigned | src/hardware/filter_changer.py:119 | after stripping, a parsed number comes from text ending in a digit, and a negative one from text starting with `-` |
| PyInt.ParseUnsigned | src/hardware/filter_changer.py:119 | unsigned text parses exactly when it is a digit run with single underscores between digits and at most 4300 digits, and its value is the number those digits denote |
| PyInt.DropUnderscores | src/hardware/filter_changer.py:119 | removing underscores leaves no `_`, keeps every other character that occurs, and leaves text without underscores unchanged |
| PyInt.DropUnderscoresConcat | src/hardware/filter_changer.py:119 | underscores are removed piece by piece, so what is kept stays in input order |
| PyInt.DropUnderscoresSeparator | src/hardware/filter_changer.py:119 | an underscore between two digit groups is removed and nothing else: `1_0` reads as `10` |
| PyInt.ParseSignedAccepts | src/hardware/filter_changer.py:119 | an optional `+` or `-` followed by a digit run within the limit parses to the digits' value, negated after `-` |
| PyInt.ParseIntAccepts | src/hardware/filter_changer.py:119 | C whitespace, an optional sign, then a digit run with single underscores within the digit limit, then C whitespace: `int()` accepts it and gives the digits' value, negated after `-` |
| PyInt.ParseIntSound | src/hardware/filter_changer.py:119 | conversely, whatever `int()` accepts is, once its C whitespace padding is skipped, an optional sign and a digit run within the limit, and its value is the one given above |
| PyInt.NatDigits | src/hardware/filter_changer.py:80 | `str()` of a natural number is a digit string without a leading zero that denotes that number |
| PyInt.Decimal | src/hardware/filter_changer.py:80 | `str()` of an integer is non-empty digits, with a leading minus exactly for negative numbers; 0 to 9 are one digit |
| PyInt.DecimalRoundTrip | src/hardware/filter_changer.py:119 | `int(str(n)) == n` for every integer within the digit limit |
| PyInt.ParseDigits | src/hardware/filter_changer.py:119 | plain digit text parses to the number it denotes |
| PyInt.LeadingZeroValue | src/hardware/filter_changer.py:119 | a leading zero does not change the value of a digit string |
| PyInt.NoTrailingDigitNoInt | src/hardware/filter_changer.py:119 | text whose last character is neither a digit nor C whitespace does not parse |
| Text.StripLeft | src/hardware/filter_changer.py:53 | left stripping removes a whitespace-only prefix and stops at the first non-blank character |
| Text.StripRight | src/hardware/filter_changer.py:53 | right stripping removes a whitespace-only suffix and stops at the last non-blank character |
| Text.Strip | src/hardware/filter_changer.py:53 | `strip` gives empty text exactly for all-whitespace input; otherwise neither end of the result is blank |
| Text.StripIsInfix | src/hardware/filter_changer.py:53 | the result of `strip` is the part of the input between a blank prefix and a blank suffix |
| Text.StripIdempotent | src/hardware/filter_changer.py:118 | stripping twice, as the query does, is stripping once |
| Text.StripTrimmed | src/hardware/filter_changer.py:118 | text with non-blank ends is unchanged by `strip` |
| Text.StripLeftDropsBlanks | src/hardware/filter_changer.py:53 | left stripping removes exactly a blank prefix before a non-blank character |
| Text.StripSurrounded | src/hardware/filter_changer.py:118 | text with non-blank ends, with whitespace on either side, strips back to that text |
| Text.StripDropsTrailing | src/hardware/filter_changer.py:53 | a line with non-blank ends followed by trailing whitespace such as CR LF strips back to the line |
| Text.LastSegment | src/hardware/filter_changer.py:118 | the last `split` segment is a suffix that contains no separator, preceded by a separator when one occurs, and is the whole text otherwise |
| Text.LastSegmentAfterMarker | src/hardware/filter_changer.py:118 | for any text before the last separator, the last `split` segment is exactly the text after it |
| Exchanges.ReplyLineRead | src/hardware/filter_changer.py:52-56 | a reply line ending in CR LF is returned on the first poll as its text without the terminator |
| Exchanges.ReplyAfterSkipped | src/hardware/filter_changer.py:51-57 | after quiet polls and blank lines within the timeout, the reply text is returned, and the arrivals after it stay in the buffer |
| Exchanges.MoveReply | src/hardware/filter_changer.py:76-92 | a move to slot 1..8 answered within the timeout returns whether the reply contains `OK`; the frame is written and later arrivals stay buffered |
| Exchanges.MoveAcknowledged | src/hardware/filter_changer.py:85-89 | a move answered with `OK` after fewer than 100 quiet or blank polls succeeds |
| Exchanges.MoveTimesOut | src/hardware/filter_changer.py:85-92 | a device that stays quiet or sends only blank lines until the deadline makes the move fail, though its frame was written |
| Exchanges.QueryReply | src/hardware/filter_changer.py:103-128 | a query answered within the timeout returns the position parsed from the reply line, after writing the query frame |
| Exchanges.PositionReportParses | src/hardware/filter_changer.py:115-122 | the device's report `F<n>` parses back to `n` |
| Exchanges.PositionReported | src/hardware/filter_changer.py:113-122 | whatever number the device reports as `F<n>`, the query returns that number |
| Exchanges.SeparatedReportRejected | src/hardware/filter_changer.py:115-125 | a report with a separator 0x1C..0x1F between `F` and the digits carries no position |
| Exchanges.SeparatorReported | src/hardware/filter_changer.py:113-125 | a query answered by `F`, a separator 0x1C..0x1F and digits returns no position: `strip` keeps the inner separator and `int()` rejects it |
| ConfigFailure.InitAsWritten | src/hardware/filter_changer.py:8-18 | as written, the constructor assigns the handle attribute exactly when the settings were read |
| ConfigFailure.DisconnectAsWritten | src/hardware/filter_changer.py:38-43 | as written, disconnect raises exactly when the handle attribute is missing; otherwise it leaves the handle not open |
| ConfigFailure.AsWrittenAgreesWhenSettingsRead | src/hardware/filter_changer.py:10-14 | when the settings are read, the constructor as written and `Init` build the same driver, and disconnect agrees on it |
| ConfigFailure.DisconnectRaisesAfterConfigFailure | src/hardware/filter_changer.py:39 | as written, disconnect on a driver whose settings could not be read raises |
| ConfigFailure.ConfigFailureRefusesEverything | src/hardware/filter_changer.py:16-18 | with the intended constructor, a driver without settings refuses every call and writes nothing |

## Left out

- Console output (`print`) and the self-test block under `__main__` are not modelled; they do not affect results.
- Wall-clock time becomes a count of polls, bounded by 100 after a move and 40 after a query. The bound assumes `time.time()` advances at least as fast as the sleeps; a clock that is stepped back, slewed, or coarser than 50 ms (as on older Windows) can allow further polls, which the model does not bound. A real loop can poll fewer times, because `time.sleep` may oversleep and reads take time; such a run is a `Link` with fewer arrivals. `readline()` is taken to return at once. Its own one-second timeout on a line without a newline is not modelled; such a partial line counts as one arrival.
- `connect` with a baud rate the port rejects raises `ValueError`, which is not a `SerialException` and escapes `connect`. That outcome is not modelled.
- Faults: only the exceptions raised by `reset_input_buffer` and `write` are modelled, as the `Fault` of a `Link`. An exception from `in_waiting` or `readline` is not modelled; either one would make the command return its failure value.
- FilterChanger.MoveTo: a write that raises is modelled as putting no bytes on the wire, although the port may have sent part of the frame.
- FilterChanger.QueryPosition: same as `MoveTo` for a write that raises.
- `move_to` with a `bool` or `float` argument is not modelled, because positions are integers. Line 72 does not check the type: `move_to(True)` passes the range check as 1 and writes `FTrue` CR LF, and `move_to(2.5)` writes `F2.5` CR LF. `NoOutOfRangeMoveOnWire` and `RunKeepsWireSafe` therefore hold for integer positions only.
- pyserial internals, the operating system's port handling and the configuration file format are not part of this model. The configuration is given to `Init` as an optional `Settings` value.
- FilterChanger.ParsePosition: its own contract states only the no-`F` case. `ParseAfterLastMarker`, `NonNumericTail` and `PositionReportRoundTrip` state the rest.
- PyInt.ParseInt: its own contract states only necessary conditions for success. `ParseIntAccepts` and `ParseIntSound` state which texts it accepts and the value it gives.
- `int()` is modelled for ASCII text only. Non-ASCII digits and whitespace cannot reach it, because decoding rejects non-ASCII bytes.

## Findings

| source | as written | input that shows it | evidently intended | confidence | as-written member | corrected member |
|---|---|---|---|---|---|---|
| src/hardware/filter_changer.py:10-18 | `self.ser = None` is assigned only inside the `try`, after the settings were read. On the `except` path the attribute is never created, so `disconnect` (line 39), `move_to` (line 68) and `get_current_position` (line 99) raise `AttributeError` | settings that cannot be read, then `disconnect()` | the object has no handle on both paths, and every call refuses: `connect` and the commands return their failure value, and `disconnect` reports there is nothing to close | high; not executed | ConfigFailure.DisconnectRaisesAfterConfigFailure | ConfigFailure.ConfigFailureRefusesEverything |
