/** The fixed-layout HID reports: `InputValue` (8 bytes: modifiers, a
    reserved byte, six key slots) sent on every key change, and
    `OutputValue` (1 byte of LED bits) received from the host. Their wire
    form is given by explicit serialization rather than struct memory. */
module Reports {
  import opened Wrappers
  import opened Bytes

  /** Six concurrently pressed keys, `pressedKeys[6]`. */
  type KeyArray = s: seq<byte> | |s| == 6 witness [0, 0, 0, 0, 0, 0]

  datatype InputValue = InputValue(modifiers: byte, reserved: byte, pressedKeys: KeyArray)

  datatype OutputValue = OutputValue(leds: byte)

  /** `sizeof(InputValue)` and `sizeof(OutputValue)`. */
  const INPUT_VALUE_SIZE: nat := 8
  const OUTPUT_VALUE_SIZE: nat := 1

  /** The zero-initialised report `NO_KEY_PRESSED`: every key released. */
  const NO_KEY_PRESSED: InputValue := InputValue(0, 0, [0, 0, 0, 0, 0, 0])

  /** The bytes `setValue` sends for an input report, in field order. */
  function InputBytes(v: InputValue): (r: seq<byte>)
    ensures |r| == INPUT_VALUE_SIZE
  {
    [v.modifiers, v.reserved] + v.pressedKeys
  }

  /** Reading an input report back from a buffer; only a buffer of exactly
      `sizeof(InputValue)` bytes holds one. */
  function ParseInput(b: seq<byte>): (r: Option<InputValue>)
    ensures r.Some? <==> |b| == INPUT_VALUE_SIZE
  {
    if |b| == INPUT_VALUE_SIZE then Some(InputValue(b[0], b[1], b[2..])) else None
  }

  lemma InputRoundTrip(v: InputValue)
    ensures ParseInput(InputBytes(v)) == Some(v)
  {
  }

  /** Parsing loses nothing: a buffer that parses is the serialization of
      what it parses to. */
  lemma InputBytesRoundTrip(b: seq<byte>, v: InputValue)
    requires ParseInput(b) == Some(v)
    ensures InputBytes(v) == b
  {
    assert b == [b[0], b[1]] + b[2..];
  }

  /** Serialization is injective: distinct reports are distinct on the wire. */
  lemma InputBytesInjective(v: InputValue, w: InputValue)
    requires InputBytes(v) == InputBytes(w)
    ensures v == w
  {
    InputRoundTrip(v);
    InputRoundTrip(w);
  }

  /** The release report is all-zero on the wire. */
  lemma NoKeyPressedIsZero()
    ensures InputBytes(NO_KEY_PRESSED) == seq(INPUT_VALUE_SIZE, _ => 0)
  {
  }

  function OutputBytes(v: OutputValue): (r: seq<byte>)
    ensures |r| == OUTPUT_VALUE_SIZE
  {
    [v.leds]
  }

  /** Reading the LED report the host writes; only a one-byte buffer holds one. */
  function ParseOutput(b: seq<byte>): (r: Option<OutputValue>)
    ensures r.Some? <==> |b| == OUTPUT_VALUE_SIZE
  {
    if |b| == OUTPUT_VALUE_SIZE then Some(OutputValue(b[0])) else None
  }

  lemma OutputRoundTrip(v: OutputValue)
    ensures ParseOutput(OutputBytes(v)) == Some(v)
  {
  }

  lemma OutputBytesRoundTrip(b: seq<byte>, v: OutputValue)
    requires ParseOutput(b) == Some(v)
    ensures OutputBytes(v) == b
  {
  }
}
