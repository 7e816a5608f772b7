/** The keystroke report synthesizer `hid_type_text`: every character of a
    string the keyboard table covers becomes a key-down report followed by
    the all-keys-released report, each followed by a 5 ms pause. */
module Keystrokes {
  import opened Wrappers
  import opened Bytes
  import opened Reports
  import ReportMap

  /** One row of the character table: the modifier bitmask and the HID usage
      code that type the character. */
  datatype KeymapEntry = KeymapEntry(modifier: byte, usage: byte)

  /** The character table `keymap`, indexed by character code; its length is
      `KEYMAP_SIZE`. Its contents come from a header that is not part of this
      model, so every operation takes it as a parameter. */
  type Keymap = seq<KeymapEntry>

  /** `delay(5)` after every notification. */
  const KEY_DELAY_MS: nat := 5

  /** One `input->notify()` of a report, followed by a pause. */
  datatype Notification = Notification(report: InputValue, pauseMs: nat)

  /** The report that presses the key of a table entry: the entry's modifiers,
      a zero reserved byte, the entry's usage in the first key slot. */
  function KeyDown(e: KeymapEntry): (r: InputValue)
    ensures InputBytes(r) == [e.modifier, 0, e.usage, 0, 0, 0, 0, 0]
  {
    InputValue(e.modifier, 0, [e.usage, 0, 0, 0, 0, 0])
  }

  const KEY_RELEASE: Notification := Notification(NO_KEY_PRESSED, KEY_DELAY_MS)

  /** A character the table covers. */
  predicate Mapped(keymap: Keymap, c: byte)
  {
    c < |keymap|
  }

  /** The two notifications that type one covered character. */
  function Keystroke(keymap: Keymap, c: byte): seq<Notification>
    requires Mapped(keymap, c)
  {
    [Notification(KeyDown(keymap[c]), KEY_DELAY_MS), KEY_RELEASE]
  }

  /** The covered characters of a text, in their original order. */
  function MappedChars(keymap: Keymap, text: seq<byte>): (r: seq<byte>)
    ensures |r| <= |text|
    ensures forall i :: 0 <= i < |r| ==> Mapped(keymap, r[i])
    ensures forall c :: c in r <==> c in text && Mapped(keymap, c)
  {
    if |text| == 0 then []
    else
      var last := text[|text| - 1];
      assert text == text[..|text| - 1] + [last];
      MappedChars(keymap, text[..|text| - 1]) + (if Mapped(keymap, last) then [last] else [])
  }

  /** The notifications for a character sequence, with the table guard
      `val >= KEYMAP_SIZE` that keeps every lookup inside the table. */
  function TypeChars(keymap: Keymap, text: seq<byte>): (r: seq<Notification>)
    ensures |r| == 2 * |MappedChars(keymap, text)|
    ensures forall k :: 0 <= k < |r| && k % 2 == 1 ==> r[k] == KEY_RELEASE
  {
    if |text| == 0 then []
    else
      var last := text[|text| - 1];
      var front := TypeChars(keymap, text[..|text| - 1]);
      var typed := if Mapped(keymap, last) then Keystroke(keymap, last) else [];
      assert forall k :: |front| <= k < |front| + |typed| && k % 2 == 1 ==> k - |front| == 1 by {
        assert |front| % 2 == 0;
      }
      front + typed
  }

  /** `hid_type_text` with the corrected guard: the characters before the
      string's terminating NUL are typed. */
  function HidTypeText(keymap: Keymap, text: seq<byte>): (r: seq<Notification>)
    ensures |r| % 2 == 0 && |r| <= 2 * CLength(text)
  {
    TypeChars(keymap, text[..CLength(text)])
  }

  /** Nothing after the string's first NUL is typed: appending bytes to a
      string that already holds a NUL changes none of its reports. */
  lemma HidTypeTextStopsAtNul(keymap: Keymap, text: seq<byte>, tail: seq<byte>)
    requires exists i :: 0 <= i < |text| && text[i] == 0
    ensures HidTypeText(keymap, text + tail) == HidTypeText(keymap, text)
  {
    var n, m := CLength(text), CLength(text + tail);
    assert n < |text|;
    assert (text + tail)[n] == 0;
    assert forall i :: 0 <= i < n ==> (text + tail)[i] == text[i];
    assert m == n;
    assert (text + tail)[..m] == text[..n];
  }

  /** The shape of the output: the `k`-th covered character becomes the
      key-down report of its table entry at position `2k`, and the release
      report at `2k + 1`; every notification pauses 5 ms. */
  lemma {:induction false} TypeCharsShape(keymap: Keymap, text: seq<byte>)
    ensures var r, m := TypeChars(keymap, text), MappedChars(keymap, text);
      && |r| == 2 * |m|
      && forall k :: 0 <= k < |m| ==>
           && r[2 * k] == Notification(KeyDown(keymap[m[k]]), KEY_DELAY_MS)
           && r[2 * k + 1] == KEY_RELEASE
  {
    if |text| > 0 {
      TypeCharsShape(keymap, text[..|text| - 1]);
    }
  }

  /** Typing two strings one after the other types their concatenation:
      characters are handled independently and in order. */
  lemma {:induction false} TypeCharsAppend(keymap: Keymap, a: seq<byte>, b: seq<byte>)
    ensures TypeChars(keymap, a + b) == TypeChars(keymap, a) + TypeChars(keymap, b)
    decreases |b|
  {
    if |b| == 0 {
      assert a + b == a;
    } else {
      var b', last := b[..|b| - 1], b[|b| - 1];
      assert (a + b)[..|a + b| - 1] == a + b';
      assert (a + b)[|a + b| - 1] == last;
      TypeCharsAppend(keymap, a, b');
      if Mapped(keymap, last) {
        calc {
          TypeChars(keymap, a + b);
          TypeChars(keymap, a + b') + Keystroke(keymap, last);
          TypeChars(keymap, a) + TypeChars(keymap, b') + Keystroke(keymap, last);
          TypeChars(keymap, a) + (TypeChars(keymap, b') + Keystroke(keymap, last));
        }
      } else {
        assert TypeChars(keymap, a + b) == TypeChars(keymap, a + b');
      }
    }
  }

  /** The covered characters of a concatenation are those of its parts. */
  lemma {:induction false} MappedCharsAppend(keymap: Keymap, a: seq<byte>, b: seq<byte>)
    ensures MappedChars(keymap, a + b) == MappedChars(keymap, a) + MappedChars(keymap, b)
    decreases |b|
  {
    if |b| == 0 {
      assert a + b == a;
    } else {
      var b', last := b[..|b| - 1], b[|b| - 1];
      assert (a + b)[..|a + b| - 1] == a + b';
      assert (a + b)[|a + b| - 1] == last;
      MappedCharsAppend(keymap, a, b');
      var tail := if Mapped(keymap, last) then [last] else [];
      assert MappedChars(keymap, a + b) == MappedChars(keymap, a + b') + tail;
      assert MappedChars(keymap, b) == MappedChars(keymap, b') + tail;
    }
  }

  /** A text whose characters the table all covers types two notifications
      per character; one it covers nowhere types nothing. */
  lemma {:induction false} MappedCharsAll(keymap: Keymap, text: seq<byte>)
    ensures (forall i :: 0 <= i < |text| ==> Mapped(keymap, text[i])) ==> MappedChars(keymap, text) == text
    ensures (forall i :: 0 <= i < |text| ==> !Mapped(keymap, text[i])) ==> MappedChars(keymap, text) == []
  {
    if |text| > 0 {
      MappedCharsAll(keymap, text[..|text| - 1]);
      assert text == text[..|text| - 1] + [text[|text| - 1]];
    }
  }

  /** The key-down report is the release report exactly for a table entry
      with neither modifier nor usage, so a typed character is always seen
      as a transition except for such empty entries. */
  lemma KeyDownIsRelease(e: KeymapEntry)
    ensures KeyDown(e) == NO_KEY_PRESSED <==> e.modifier == 0 && e.usage == 0
  {
  }

  /** A report the host accepts as a legal input report of `REPORT_MAP`. */
  predicate Legal(v: InputValue)
  {
    ReportMap.Conforms(ReportMap.REPORT_MAP, ReportMap.Input, InputBytes(v))
  }

  /** A key-down report is legal exactly when its entry's usage is at most
      0x65; the release report always is. */
  lemma KeyDownLegalIff(e: KeymapEntry)
    ensures Legal(KeyDown(e)) <==> e.usage <= 0x65
    ensures Legal(NO_KEY_PRESSED)
  {
    var v := KeyDown(e);
    ReportMap.InputConformsIff(v);
    assert v.pressedKeys[0] == e.usage;
    ReportMap.InputConformsIff(NO_KEY_PRESSED);
  }

  /** Every report typed for a text is legal for `REPORT_MAP` exactly when
      every table entry it uses has a usage no greater than 0x65. */
  lemma {:induction false} TypedReportsConform(keymap: Keymap, text: seq<byte>)
    ensures var r, m := TypeChars(keymap, text), MappedChars(keymap, text);
      (forall k :: 0 <= k < |r| ==> Legal(r[k].report))
      <==> (forall k :: 0 <= k < |m| ==> keymap[m[k]].usage <= 0x65)
  {
    var r, m := TypeChars(keymap, text), MappedChars(keymap, text);
    TypeCharsShape(keymap, text);
    if forall k :: 0 <= k < |m| ==> keymap[m[k]].usage <= 0x65 {
      forall k | 0 <= k < |r|
        ensures Legal(r[k].report)
      {
        var j := k / 2;
        KeyDownLegalIff(keymap[m[j]]);
        if k % 2 == 0 {
          assert k == 2 * j;
        } else {
          assert k == 2 * j + 1;
        }
      }
    }
    if forall k :: 0 <= k < |r| ==> Legal(r[k].report) {
      forall j | 0 <= j < |m|
        ensures keymap[m[j]].usage <= 0x65
      {
        KeyDownLegalIff(keymap[m[j]]);
        assert Legal(r[2 * j].report);
      }
    }
  }

  /** Typing one more character of a text appends that character's
      keystroke, or nothing when the table does not cover it. */
  lemma TypeCharsStep(keymap: Keymap, text: seq<byte>, i: nat)
    requires i < |text|
    ensures TypeChars(keymap, text[..i + 1])
         == TypeChars(keymap, text[..i]) + (if Mapped(keymap, text[i]) then Keystroke(keymap, text[i]) else [])
  {
    assert text[..i + 1][..i] == text[..i];
  }

  /** `hid_type_text` as a loop over the string up to its NUL, with the
      corrected guard `val >= KEYMAP_SIZE` in place of the firmware's
      `val > KEYMAP_SIZE` (see `TypeCharsAsWritten`). */
  method TypeText(keymap: Keymap, text: seq<byte>) returns (sent: seq<Notification>)
    ensures sent == HidTypeText(keymap, text)
  {
    var len := CLength(text);
    sent := [];
    var i := 0;
    while i < len
      invariant 0 <= i <= len
      invariant sent == TypeChars(keymap, text[..i])
    {
      var val := text[i];
      TypeCharsStep(keymap, text, i);
      if val >= |keymap| {
        i := i + 1;
        continue;
      }
      var entry := keymap[val];
      var inputValue := InputValue(entry.modifier, 0, [entry.usage, 0, 0, 0, 0, 0]);
      assert inputValue == KeyDown(entry);
      sent := sent + [Notification(inputValue, KEY_DELAY_MS)];
      sent := sent + [Notification(NO_KEY_PRESSED, KEY_DELAY_MS)];
      i := i + 1;
    }
    assert text[..CLength(text)] == text[..i];
  }

  // ---------------------------------------------------------------------
  // The guard as the firmware writes it.

  /** `hid_type_text`'s loop with its guard as written, `val > KEYMAP_SIZE`:
      a character whose code equals the table size passes the guard and its
      lookup `keymap[val]` reads one entry past the end of the table, which
      is undefined behaviour, modelled as `None`. */
  function TypeCharsAsWritten(keymap: Keymap, text: seq<byte>): (r: Option<seq<Notification>>)
    ensures r.Some? ==> |r.value| % 2 == 0 && |r.value| <= 2 * |text|
  {
    if |text| == 0 then Some([])
    else
      match TypeCharsAsWritten(keymap, text[..|text| - 1])
      case None => None
      case Some(p) =>
        var val := text[|text| - 1];
        if val > |keymap| then Some(p)
        else if val == |keymap| then None
        else Some(p + Keystroke(keymap, val))
  }

  /** `hid_type_text` as written: it goes wrong exactly when a character
      before the NUL has the table size as its code, and otherwise types
      what the corrected version types. */
  function HidTypeTextAsWritten(keymap: Keymap, text: seq<byte>): (r: Option<seq<Notification>>)
    ensures r.None? <==> exists i :: 0 <= i < CLength(text) && text[i] == |keymap|
    ensures r.Some? ==> r.value == HidTypeText(keymap, text)
  {
    var typed := text[..CLength(text)];
    AsWrittenAgrees(keymap, typed);
    assert forall i :: 0 <= i < |typed| ==> typed[i] == text[i];
    TypeCharsAsWritten(keymap, typed)
  }

  /** The counterexample: for any table of fewer than 256 entries, typing the
      one-character string whose code is the table size reads past the end. */
  lemma AsWrittenReadsPastEnd(keymap: Keymap)
    requires 0 < |keymap| < 256
    ensures HidTypeTextAsWritten(keymap, [|keymap|]) == None
  {
    var text: seq<byte> := [|keymap|];
    assert CLength(text) == 1;
    assert text[..1] == text && text[..0] == [];
  }

  /** The written guard goes wrong exactly on a character whose code is the
      table size; on every other text it types what the corrected guard
      types. */
  lemma {:induction false} AsWrittenAgrees(keymap: Keymap, text: seq<byte>)
    ensures TypeCharsAsWritten(keymap, text).Some? <==> forall i :: 0 <= i < |text| ==> text[i] != |keymap|
    ensures TypeCharsAsWritten(keymap, text).Some? ==> TypeCharsAsWritten(keymap, text).value == TypeChars(keymap, text)
  {
    if |text| > 0 {
      var p := text[..|text| - 1];
      AsWrittenAgrees(keymap, p);
      assert forall i :: 0 <= i < |p| ==> p[i] == text[i];
    }
  }
}
