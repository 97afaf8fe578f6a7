/**
 The driver after its settings could not be read. `__init__` as written
 assigns `self.ser = None` only on the path where the settings were read, so
 on the failure path the object has no `ser` attribute at all, and every
 method that looks at `self.ser` before its `try` raises `AttributeError`.
 The rest of the model uses the evidently intended constructor `Init`, which
 leaves no handle on both paths, so that every command refuses instead.
 */
module ConfigFailure {
  import opened Wrappers
  import opened FilterChanger

  /** The attributes `__init__` as written leaves on the object: the port,
      and the handle, or `None` when `self.ser` was never assigned. */
  datatype Attributes = Attributes(port: Option<string>, ser: Option<Handle>)

  /** `__init__` as written. */
  function InitAsWritten(config: Option<Settings>): (a: Attributes)
    ensures a.port.Some? <==> config.Some?
    ensures a.ser.Some? <==> config.Some?
    ensures a.ser.Some? ==> a.ser.value == NoHandle
  {
    match config
    case Some(c) => Attributes(Some(c.port), Some(NoHandle))
    case None => Attributes(None, None)
  }

  /** `disconnect` as written, with `None` for the `AttributeError` that
      reading a missing `self.ser` raises. */
  function DisconnectAsWritten(a: Attributes): (r: Option<Attributes>)
    ensures r.None? <==> a.ser.None?
    ensures r.Some? ==> r.value.port == a.port && r.value.ser.Some? && r.value.ser.value != Open
  {
    match a.ser
    case None => None
    case Some(h) => Some(a.(ser := Some(if h == Open then Closed else h)))
  }

  /** When the settings were read, `__init__` as written and `Init` build
      the same object, and `disconnect` behaves the same on it. */
  lemma {:induction false} AsWrittenAgreesWhenSettingsRead(c: Settings)
    ensures InitAsWritten(Some(c)).port == Init(Some(c)).port
    ensures InitAsWritten(Some(c)).ser == Some(Init(Some(c)).ser)
    ensures DisconnectAsWritten(InitAsWritten(Some(c))) == Some(Attributes(Init(Some(c)).port, Some(Disconnect(Init(Some(c))).ser)))
  {
  }

  /** As written, `disconnect` on a driver whose settings could not be read
      raises instead of reporting that there is nothing to close. */
  lemma {:induction false} DisconnectRaisesAfterConfigFailure()
    ensures DisconnectAsWritten(InitAsWritten(None)).None?
  {
  }

  /** With `Init`, a driver whose settings could not be read refuses every
      call: `connect` fails, `disconnect` changes nothing, and the commands
      return their failure value and write nothing. */
  lemma {:induction false} ConfigFailureRefusesEverything(attempt: OpenAttempt, p: int, l1: Link, l2: Link)
    ensures Connect(Init(None), attempt) == (false, Init(None))
    ensures Disconnect(Init(None)) == Init(None)
    ensures MoveTo(Init(None), p, l1) == (false, Init(None))
    ensures QueryPosition(Init(None), l2) == (None, Init(None))
  {
  }
}
