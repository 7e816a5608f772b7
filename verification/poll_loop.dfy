/** One iteration of the firmware's `loop`: poll the reader, debounce a
    detected tag against the time of the previous detection, and type the
    decoded UID followed by CR LF when a host is connected. Transport events
    interleave with polls; together they form the device's event trace. */
module PollLoop {
  import opened Wrappers
  import opened Bytes
  import opened Uid
  import opened Keystrokes
  import opened Session

  /** `NFC_DEBOUNCE_MICRO_SECONDS`, written `1000 * 200`: a detection less
      than 200 ms after the previous one is skipped. */
  const NFC_DEBOUNCE_MICRO_SECONDS: int := 1000 * 200

  /** `HID_INPUT_SUFFIX`: the line ending typed after every UID. */
  const HID_INPUT_SUFFIX: seq<byte> := [CR, LF]

  /** What one `readPassiveTargetID` poll yields. */
  datatype ScanEvent = NoTag | TagDetected(uid: seq<byte>)

  /** The loop's globals: `last_read_time` (microseconds), the tag text
      buffer `nfc_tag_uid`, and the session flags the callbacks maintain. */
  datatype LoopState = LoopState(lastReadTime: int, nfcTagUid: seq<byte>, session: SessionState)

  const INITIAL_STATE: LoopState := LoopState(0, [], INITIAL_SESSION)

  datatype StepResult = StepResult(state: LoopState, sent: seq<Notification>)

  /** A detection at `now` falls inside the debounce window. */
  predicate Debounced(s: LoopState, now: int)
  {
    now - s.lastReadTime < NFC_DEBOUNCE_MICRO_SECONDS
  }

  /** The text typed for an accepted scan: the tag buffer after `nfc_read`
      appended the UID's decimal text, followed by CR LF. */
  function ScanText(s: LoopState, uid: seq<byte>): seq<byte>
  {
    s.nfcTagUid + DecodeUid(uid) + HID_INPUT_SUFFIX
  }

  /** One pass of `loop`. The clock is read twice: `now` for the debounce
      test, `now2` when the timestamp is stored after any typing. */
  function LoopStep(keymap: Keymap, s: LoopState, scan: ScanEvent, now: int, now2: int): (r: StepResult)
    ensures scan.NoTag? ==> r.state == s && r.sent == []
    ensures scan.TagDetected? ==> r.state == LoopState(now2, [], s.session)
    ensures scan.TagDetected? && Debounced(s, now) ==> r.sent == []
    ensures scan.TagDetected? && !s.session.connected ==> r.sent == []
    ensures scan.TagDetected? && !Debounced(s, now) && s.session.connected
            ==> r.sent == HidTypeText(keymap, ScanText(s, scan.uid))
  {
    match scan
    case NoTag => StepResult(s, [])
    case TagDetected(uid) =>
      var sent :=
        if Debounced(s, now) then []
        else if s.session.connected then HidTypeText(keymap, ScanText(s, uid))
        else [];
      StepResult(LoopState(now2, [], s.session), sent)
  }

  /** `loop` as a sequence of statements, through `nfc_read` and
      `hid_type_text`; typing uses the corrected table guard of `TypeText`. */
  method Loop(keymap: Keymap, s: LoopState, scan: ScanEvent, now: int, now2: int) returns (s': LoopState, sent: seq<Notification>)
    ensures StepResult(s', sent) == LoopStep(keymap, s, scan, now, now2)
  {
    var uid := if scan.TagDetected? then scan.uid else [];
    var nfcTagRead, tagUid := NfcRead(scan.TagDetected?, uid, s.nfcTagUid);
    s' := s.(nfcTagUid := tagUid);
    sent := [];
    if nfcTagRead {
      if now - s'.lastReadTime < NFC_DEBOUNCE_MICRO_SECONDS {
        // skipped: the card has been hovering over the reader
      } else if s'.session.connected {
        sent := TypeText(keymap, s'.nfcTagUid + HID_INPUT_SUFFIX);
      }
      s' := s'.(lastReadTime := now2, nfcTagUid := []);
    }
  }

  // ---------------------------------------------------------------------
  // Event traces.

  datatype Event = Poll(scan: ScanEvent, now: int, now2: int) | Link(link: LinkEvent)

  function Dispatch(keymap: Keymap, s: LoopState, e: Event): StepResult
  {
    match e
    case Poll(scan, now, now2) => LoopStep(keymap, s, scan, now, now2)
    case Link(l) => StepResult(s.(session := HandleLink(s.session, l)), [])
  }

  /** The state after a trace of events, in order. */
  function Run(keymap: Keymap, s: LoopState, events: seq<Event>): LoopState
  {
    if |events| == 0 then s
    else Dispatch(keymap, Run(keymap, s, events[..|events| - 1]), events[|events| - 1]).state
  }

  /** What holds between loop iterations: the tag buffer is empty and the
      session flags agree. */
  predicate Invariant(s: LoopState)
  {
    s.nfcTagUid == [] && Consistent(s.session)
  }

  /** Every reachable state satisfies the invariant. */
  lemma {:induction false} RunKeepsInvariant(keymap: Keymap, events: seq<Event>)
    ensures Invariant(Run(keymap, INITIAL_STATE, events))
  {
    if |events| > 0 {
      RunKeepsInvariant(keymap, events[..|events| - 1]);
    }
  }

  /** From any reachable state, reports are sent only for an accepted
      detection while the session is ready to transmit, and what is typed is
      exactly the UID's decimal text followed by CR LF. */
  lemma SentOnlyWhenReady(keymap: Keymap, events: seq<Event>, e: Event)
    ensures var s := Run(keymap, INITIAL_STATE, events);
      var r := Dispatch(keymap, s, e);
      r.sent != [] ==>
        && ReadyToTransmit(s.session)
        && e.Poll? && e.scan.TagDetected? && !Debounced(s, e.now)
        && r.sent == HidTypeText(keymap, DecodeUid(e.scan.uid) + HID_INPUT_SUFFIX)
  {
    var s := Run(keymap, INITIAL_STATE, events);
    RunKeepsInvariant(keymap, events);
    if e.Poll? && e.scan.TagDetected? {
      assert ScanText(s, e.scan.uid) == DecodeUid(e.scan.uid) + HID_INPUT_SUFFIX;
    }
  }

  /** End to end: an accepted scan while connected, with a table covering
      the digits, CR and LF, sends two notifications per character of the
      UID's decimal text plus two for each of CR and LF; the `k`-th character
      of that text is pressed at position `2k` and released at `2k + 1`. */
  lemma {:induction false} ScanTypesUid(keymap: Keymap, s: LoopState, uid: seq<byte>, now: int, now2: int)
    requires s.nfcTagUid == [] && s.session.connected && !Debounced(s, now)
    requires |keymap| > DIGIT_ZERO + 9
    ensures var text := DecodeUid(uid) + HID_INPUT_SUFFIX;
      var r := LoopStep(keymap, s, TagDetected(uid), now, now2);
      && |r.sent| == 2 * (|DecodeUid(uid)| + 2)
      && forall k :: 0 <= k < |text| ==>
           && r.sent[2 * k] == Notification(KeyDown(keymap[text[k]]), KEY_DELAY_MS)
           && r.sent[2 * k + 1] == KEY_RELEASE
  {
    var text := DecodeUid(uid) + HID_INPUT_SUFFIX;
    assert ScanText(s, uid) == text;
    assert forall i :: 0 <= i < |text| ==> text[i] != 0 && Mapped(keymap, text[i]) by {
      forall i | 0 <= i < |text|
        ensures text[i] != 0 && Mapped(keymap, text[i])
      {
        if i < |DecodeUid(uid)| {
          assert IsDigit(DecodeUid(uid)[i]);
        }
      }
    }
    CLengthOfNulFree(text);
    assert text[..CLength(text)] == text;
    MappedCharsAll(keymap, text);
    TypeCharsShape(keymap, text);
  }

  /** The scan text never contains a character code equal to a table size
      above '9', so the guard as written and the corrected guard type the
      same reports for every scan. */
  lemma ScanTextAvoidsGuardBug(keymap: Keymap, s: LoopState, uid: seq<byte>)
    requires s.nfcTagUid == []
    requires |keymap| > DIGIT_ZERO + 9
    ensures HidTypeTextAsWritten(keymap, ScanText(s, uid)) == Some(HidTypeText(keymap, ScanText(s, uid)))
  {
  }

  /** With a table of exactly 13 entries the code of CR is the table size,
      so the guard as written lets the CR of every scan text through and the
      firmware reads one entry past the table. */
  lemma ScanHitsGuardBug(keymap: Keymap, s: LoopState, uid: seq<byte>)
    requires s.nfcTagUid == []
    requires |keymap| == CR
    ensures HidTypeTextAsWritten(keymap, ScanText(s, uid)) == None
  {
  }

  // ---------------------------------------------------------------------
  // Debouncing over time.

  /** A detection the debouncer lets through. */
  predicate Accepted(s: LoopState, e: Event)
  {
    e.Poll? && e.scan.TagDetected? && !Debounced(s, e.now)
  }

  /** The clock readings of a trace never go backwards, starting from `t`. */
  predicate ClockFrom(t: int, events: seq<Event>)
    decreases |events|
  {
    if |events| == 0 then true
    else
      match events[0]
      case Poll(_, now, now2) => t <= now <= now2 && ClockFrom(now2, events[1..])
      case Link(_) => ClockFrom(t, events[1..])
  }

  /** The times of the detections a trace accepts, in order. */
  function AcceptedTimes(keymap: Keymap, s: LoopState, events: seq<Event>): seq<int>
    decreases |events|
  {
    if |events| == 0 then []
    else
      (if Accepted(s, events[0]) then [events[0].now] else [])
      + AcceptedTimes(keymap, Dispatch(keymap, s, events[0]).state, events[1..])
  }

  predicate Spaced(times: seq<int>, gap: int)
  {
    forall i :: 0 <= i < |times| - 1 ==> times[i] + gap <= times[i + 1]
  }

  /** Accepted scans are at least 200 ms apart, and the first comes at least
      200 ms after the stored timestamp: a tag held over the reader is typed
      at most once per debounce window. */
  lemma {:induction false} AcceptedScansSpaced(keymap: Keymap, s: LoopState, t: int, events: seq<Event>)
    requires s.lastReadTime <= t
    requires ClockFrom(t, events)
    ensures var a := AcceptedTimes(keymap, s, events);
      && Spaced(a, NFC_DEBOUNCE_MICRO_SECONDS)
      && forall i :: 0 <= i < |a| ==> s.lastReadTime + NFC_DEBOUNCE_MICRO_SECONDS <= a[i]
    decreases |events|
  {
    if |events| > 0 {
      var e := events[0];
      var s' := Dispatch(keymap, s, e).state;
      var t' := if e.Poll? then e.now2 else t;
      AcceptedScansSpaced(keymap, s', t', events[1..]);
      var rest := AcceptedTimes(keymap, s', events[1..]);
      if Accepted(s, e) {
        assert s'.lastReadTime == e.now2;
        assert AcceptedTimes(keymap, s, events) == [e.now] + rest;
      } else {
        assert s.lastReadTime <= s'.lastReadTime;
        assert AcceptedTimes(keymap, s, events) == rest;
      }
    }
  }

  /** After boot the stored timestamp is 0, so no scan in the first 200 ms
      is typed. */
  lemma NoScanDuringFirstWindow(keymap: Keymap, events: seq<Event>)
    requires ClockFrom(0, events)
    ensures forall i :: 0 <= i < |AcceptedTimes(keymap, INITIAL_STATE, events)| ==>
      AcceptedTimes(keymap, INITIAL_STATE, events)[i] >= NFC_DEBOUNCE_MICRO_SECONDS
  {
    AcceptedScansSpaced(keymap, INITIAL_STATE, 0, events);
  }
}
