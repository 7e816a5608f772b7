/** The BLE session flags kept by the connection callbacks
    `BleKeyboardCallbacks::onConnect` / `onDisconnect` and the output report
    callback `OutputCallbacks::onWrite`: whether a host is connected, and
    whether notifications on the input report are enabled. */
module Session {
  import opened Wrappers
  import opened Bytes

  datatype SessionState = SessionState(connected: bool, notificationsEnabled: bool)

  /** Before any host connects: `bt_client_connected = false`, and the
      input report's client configuration descriptor has notifications off. */
  const INITIAL_SESSION: SessionState := SessionState(false, false)

  /** What the transport reports to the firmware. */
  datatype LinkEvent = Connect | Disconnect | OutputWritten(data: seq<byte>)

  /** Notifications can be sent only while a host is connected and has them enabled. */
  predicate ReadyToTransmit(s: SessionState)
  {
    s.connected && s.notificationsEnabled
  }

  /** The two flags agree: the state the callbacks keep between events. */
  predicate Consistent(s: SessionState)
  {
    s.connected == s.notificationsEnabled
  }

  function OnConnect(s: SessionState): (r: SessionState)
    ensures ReadyToTransmit(r)
  {
    SessionState(true, true)
  }

  function OnDisconnect(s: SessionState): (r: SessionState)
    ensures !r.connected && !r.notificationsEnabled
  {
    SessionState(false, false)
  }

  /** The LED report the host writes is read and discarded. */
  function OnWrite(s: SessionState, data: seq<byte>): (r: SessionState)
    ensures r == s
  {
    s
  }

  /** The callback the BLE stack invokes for a transport event. */
  function HandleLink(s: SessionState, e: LinkEvent): (r: SessionState)
    ensures e.Connect? ==> ReadyToTransmit(r)
    ensures e.Disconnect? ==> !r.connected && !r.notificationsEnabled
    ensures e.OutputWritten? ==> r == s
  {
    match e
    case Connect => OnConnect(s)
    case Disconnect => OnDisconnect(s)
    case OutputWritten(data) => OnWrite(s, data)
  }

  /** The session after a sequence of transport events, in order. */
  function RunSession(s: SessionState, events: seq<LinkEvent>): SessionState
  {
    if |events| == 0 then s else HandleLink(RunSession(s, events[..|events| - 1]), events[|events| - 1])
  }

  /** Whether the most recent connect or disconnect in a sequence was a
      connect; nothing when there was neither. */
  function LastLinkChange(events: seq<LinkEvent>): Option<bool>
  {
    if |events| == 0 then None
    else
      match events[|events| - 1]
      case Connect => Some(true)
      case Disconnect => Some(false)
      case OutputWritten(_) => LastLinkChange(events[..|events| - 1])
  }

  /** The session is determined by the last connect or disconnect alone:
      both flags follow it, and output writes change nothing. */
  lemma {:induction false} RunSessionFollowsLastChange(s: SessionState, events: seq<LinkEvent>)
    ensures RunSession(s, events) == match LastLinkChange(events)
      case None => s
      case Some(c) => SessionState(c, c)
  {
    if |events| > 0 {
      RunSessionFollowsLastChange(s, events[..|events| - 1]);
    }
  }

  /** From the initial state the two flags always agree, so a connected
      session is always ready to transmit. */
  lemma {:induction false} SessionAlwaysConsistent(events: seq<LinkEvent>)
    ensures Consistent(RunSession(INITIAL_SESSION, events))
    ensures RunSession(INITIAL_SESSION, events).connected <==> ReadyToTransmit(RunSession(INITIAL_SESSION, events))
  {
    RunSessionFollowsLastChange(INITIAL_SESSION, events);
  }

  /** Every transport event keeps the flags in agreement. */
  lemma HandleLinkKeepsConsistent(s: SessionState, e: LinkEvent)
    requires Consistent(s)
    ensures Consistent(HandleLink(s, e))
  {
  }
}
