/** The HID report descriptor `REPORT_MAP` (the report descriptor of section
    6.2.2 of the USB Device Class Definition for HID 1.11), kept as the list
    of its main items rather than as raw bytes, together with the reading a
    host makes of a report buffer through it. */
module ReportMap {
  import opened Wrappers
  import opened Bytes
  import opened Reports

  datatype Direction = Input | Output

  /** The usages a main item's fields stand for: none (constant padding) or
      a contiguous range on one usage page. */
  datatype Usages = NoUsages | UsageRange(page: nat, min: nat, max: nat)

  /** One Input or Output main item with the global and local state in force
      when it is declared: `reportCount` fields of `reportSize` bits each. */
  datatype MainItem = MainItem(
    dir: Direction,
    reportCount: nat,
    reportSize: nat,
    constant: bool,
    variable: bool,
    logicalMin: int,
    logicalMax: int,
    usages: Usages)

  /** Usage pages, from section 10 and 11 of the HID Usage Tables. */
  const KEYBOARD_PAGE: nat := 0x07
  const LED_PAGE: nat := 0x08

  /** 8 one-bit modifier flags, Left Control (0xE0) .. Right GUI (0xE7):
      Data, Var, Abs. */
  const MODIFIERS_ITEM := MainItem(Input, 8, 1, false, true, 0, 1, UsageRange(KEYBOARD_PAGE, 0xE0, 0xE7))
  /** The reserved byte: Const, Array, Abs. */
  const RESERVED_ITEM := MainItem(Input, 1, 8, true, false, 0, 1, NoUsages)
  /** Six key slots, each a usage index 0x00 .. 0x65: Data, Array, Abs. */
  const KEYS_ITEM := MainItem(Input, 6, 8, false, false, 0, 0x65, UsageRange(KEYBOARD_PAGE, 0x00, 0x65))
  /** Five LED flags, Num Lock (1) .. Kana (5): Data, Var, Abs. */
  const LEDS_ITEM := MainItem(Output, 5, 1, false, true, 0, 1, UsageRange(LED_PAGE, 0x01, 0x05))
  /** Three bits of padding: Const, Array, Abs. */
  const PADDING_ITEM := MainItem(Output, 1, 3, true, false, 0, 1, NoUsages)

  /** The main items of `REPORT_MAP`, in declaration order. */
  const REPORT_MAP: seq<MainItem> := [MODIFIERS_ITEM, RESERVED_ITEM, KEYS_ITEM, LEDS_ITEM, PADDING_ITEM]

  /** The main items of one direction, in order. */
  function ItemsOf(items: seq<MainItem>, dir: Direction): (r: seq<MainItem>)
    ensures |r| <= |items|
    ensures forall i :: 0 <= i < |r| ==> r[i].dir == dir
  {
    if |items| == 0 then []
    else (if items[0].dir == dir then [items[0]] else []) + ItemsOf(items[1..], dir)
  }

  /** The number of bits a list of main items declares. */
  function ReportBits(items: seq<MainItem>): nat
  {
    if |items| == 0 then 0 else items[0].reportCount * items[0].reportSize + ReportBits(items[1..])
  }

  function Pow2(k: nat): (r: nat)
    ensures r >= 1
  {
    if k == 0 then 1 else 2 * Pow2(k - 1)
  }

  /** A descriptor is well formed when every variable item names one usage
      per field, every array item's logical range indexes its usage range,
      every field is wide enough for its logical maximum, and its logical
      range is not empty. */
  predicate WellFormedItem(it: MainItem)
  {
    && it.reportSize >= 1
    && 0 <= it.logicalMin <= it.logicalMax < Pow2(it.reportSize)
    && (it.variable && it.usages.UsageRange? ==> it.usages.max - it.usages.min + 1 == it.reportCount)
    && (!it.variable && it.usages.UsageRange? ==>
          it.logicalMax - it.logicalMin == it.usages.max - it.usages.min)
    && (it.constant <==> it.usages.NoUsages?)
  }

  /** The input items are the first three of `REPORT_MAP`, the output items
      the last two. */
  lemma ReportMapItems()
    ensures ItemsOf(REPORT_MAP, Input) == [MODIFIERS_ITEM, RESERVED_ITEM, KEYS_ITEM]
    ensures ItemsOf(REPORT_MAP, Output) == [LEDS_ITEM, PADDING_ITEM]
  {
    var m := REPORT_MAP;
    var m4, m3, m2, m1 := [PADDING_ITEM], [LEDS_ITEM, PADDING_ITEM], [KEYS_ITEM, LEDS_ITEM, PADDING_ITEM],
      [RESERVED_ITEM, KEYS_ITEM, LEDS_ITEM, PADDING_ITEM];
    assert m[1..] == m1 && m1[1..] == m2 && m2[1..] == m3 && m3[1..] == m4 && m4[1..] == [];
    assert ItemsOf(m4, Input) == [] && ItemsOf(m4, Output) == [PADDING_ITEM];
    assert ItemsOf(m3, Input) == [] && ItemsOf(m3, Output) == [LEDS_ITEM, PADDING_ITEM];
    assert ItemsOf(m2, Input) == [KEYS_ITEM] && ItemsOf(m2, Output) == [LEDS_ITEM, PADDING_ITEM];
    assert ItemsOf(m1, Input) == [RESERVED_ITEM, KEYS_ITEM] && ItemsOf(m1, Output) == [LEDS_ITEM, PADDING_ITEM];
  }

  /** The descriptor declares exactly the bits of the two report structs, and
      each item is well formed. */
  lemma ReportMapMatchesStructs()
    ensures ReportBits(ItemsOf(REPORT_MAP, Input)) == 8 * INPUT_VALUE_SIZE
    ensures ReportBits(ItemsOf(REPORT_MAP, Output)) == 8 * OUTPUT_VALUE_SIZE
    ensures forall i :: 0 <= i < |REPORT_MAP| ==> WellFormedItem(REPORT_MAP[i])
  {
    ReportMapItems();
    var ins := [MODIFIERS_ITEM, RESERVED_ITEM, KEYS_ITEM];
    assert ins[1..] == [RESERVED_ITEM, KEYS_ITEM] && ins[1..][1..] == [KEYS_ITEM];
    assert ReportBits([KEYS_ITEM]) == 48;
    assert ReportBits([RESERVED_ITEM, KEYS_ITEM]) == 56;
    var outs := [LEDS_ITEM, PADDING_ITEM];
    assert outs[1..] == [PADDING_ITEM];
    assert ReportBits([PADDING_ITEM]) == 3;
    assert Pow2(8) == 256;
  }

  // ---------------------------------------------------------------------
  // Reading a report through the descriptor: fields are packed from the
  // least significant bit of the first byte upward (section 5.8 of HID 1.11).

  /** `b` shifted right by `i` bits. */
  function Shift(b: nat, i: nat): nat
  {
    if i == 0 then b else Shift(b, i - 1) / 2
  }

  /** The low `n` bits of `b`, least significant first. */
  function Bits(b: nat, n: nat): (r: seq<nat>)
    ensures |r| == n
  {
    seq(n, i requires 0 <= i => Shift(b, i) % 2)
  }

  /** The bit string a report buffer carries: each byte's eight bits, least
      significant first, bytes in order. */
  function BitString(bytes: seq<byte>): (r: seq<nat>)
    ensures |r| == 8 * |bytes|
  {
    if |bytes| == 0 then [] else Bits(bytes[0], 8) + BitString(bytes[1..])
  }

  /** The unsigned value of a field's bits, least significant first. */
  function FieldValue(bits: seq<nat>): nat
  {
    if |bits| == 0 then 0 else bits[0] + 2 * FieldValue(bits[1..])
  }

  /** `n` copies of `w`. */
  function Repeat(w: nat, n: nat): (r: seq<nat>)
    ensures |r| == n
  {
    if n == 0 then [] else [w] + Repeat(w, n - 1)
  }

  function Sum(ws: seq<nat>): nat
  {
    if |ws| == 0 then 0 else ws[0] + Sum(ws[1..])
  }

  /** The width of every field a list of main items declares, in order: each
      item contributes `reportCount` fields of `reportSize` bits. */
  function FieldWidths(items: seq<MainItem>): seq<nat>
  {
    if |items| == 0 then [] else Repeat(items[0].reportSize, items[0].reportCount) + FieldWidths(items[1..])
  }

  /** The values of fields of the given widths, read one after another from
      the start of a bit string. */
  function ReadFields(bits: seq<nat>, widths: seq<nat>): (r: seq<nat>)
    requires Sum(widths) <= |bits|
    ensures |r| == |widths|
  {
    if |widths| == 0 then []
    else [FieldValue(bits[..widths[0]])] + ReadFields(bits[widths[0]..], widths[1..])
  }

  /** What a host reads from a report buffer of one direction: nothing when
      the buffer's size differs from the bits the descriptor declares,
      otherwise every field value in declaration order. */
  function DecodeReport(map_: seq<MainItem>, dir: Direction, bytes: seq<byte>): (r: Option<seq<nat>>)
    ensures r.Some? <==> Sum(FieldWidths(ItemsOf(map_, dir))) == 8 * |bytes|
    ensures r.Some? ==> |r.value| == |FieldWidths(ItemsOf(map_, dir))|
  {
    var widths := FieldWidths(ItemsOf(map_, dir));
    if Sum(widths) == 8 * |bytes| then Some(ReadFields(BitString(bytes), widths)) else None
  }

  lemma {:induction false} SumAppend(a: seq<nat>, b: seq<nat>)
    ensures Sum(a + b) == Sum(a) + Sum(b)
  {
    if |a| > 0 {
      assert (a + b)[1..] == a[1..] + b;
      SumAppend(a[1..], b);
    } else {
      assert a + b == b;
    }
  }

  lemma {:induction false} SumRepeat(w: nat, n: nat)
    ensures Sum(Repeat(w, n)) == n * w
  {
    if n > 0 {
      SumRepeat(w, n - 1);
    }
  }

  /** The field widths add up to the bits the items declare. */
  lemma {:induction false} FieldWidthsSum(items: seq<MainItem>)
    ensures Sum(FieldWidths(items)) == ReportBits(items)
  {
    if |items| > 0 {
      FieldWidthsSum(items[1..]);
      SumAppend(Repeat(items[0].reportSize, items[0].reportCount), FieldWidths(items[1..]));
      SumRepeat(items[0].reportSize, items[0].reportCount);
    }
  }

  /** Reading the fields of two width lists in a row reads the second list
      where the first one ends. */
  lemma {:induction false} ReadFieldsAppend(bits: seq<nat>, a: seq<nat>, b: seq<nat>)
    requires Sum(a + b) <= |bits|
    ensures Sum(a) + Sum(b) <= |bits|
    ensures ReadFields(bits, a + b) == ReadFields(bits, a) + ReadFields(bits[Sum(a)..], b)
    decreases |a|
  {
    SumAppend(a, b);
    if |a| > 0 {
      assert (a + b)[1..] == a[1..] + b;
      assert (a + b)[0] == a[0];
      SumAppend(a[1..], b);
      ReadFieldsAppend(bits[a[0]..], a[1..], b);
      assert bits[a[0]..][Sum(a[1..])..] == bits[Sum(a)..];
    } else {
      assert a + b == b;
    }
  }

  lemma {:induction false} ShiftBound(b: byte, i: nat)
    requires i <= 8
    ensures Shift(b, i) < Pow2(8 - i)
  {
    if i == 0 {
      assert Pow2(8) == 256;
    } else {
      ShiftBound(b, i - 1);
    }
  }

  /** The bits of a byte from bit `i` upward are worth the byte shifted
      right by `i`. */
  lemma {:induction false} BitsTailValue(b: byte, i: nat)
    requires i <= 8
    ensures FieldValue(Bits(b, 8)[i..]) == Shift(b, i)
    decreases 8 - i
  {
    if i == 8 {
      ShiftBound(b, 8);
    } else {
      BitsTailValue(b, i + 1);
      var x := Shift(b, i);
      assert Bits(b, 8)[i..][1..] == Bits(b, 8)[i + 1..];
      assert x % 2 + 2 * (x / 2) == x;
    }
  }

  /** A byte's own eight bits read back as the byte. */
  lemma ByteValue(b: byte)
    ensures FieldValue(Bits(b, 8)) == b
  {
    BitsTailValue(b, 0);
    assert Bits(b, 8)[0..] == Bits(b, 8);
  }

  /** Consecutive 8-bit fields from the start of a buffer are its bytes. */
  lemma {:induction false} ByteFields(bytes: seq<byte>, count: nat)
    requires count <= |bytes|
    ensures Sum(Repeat(8, count)) <= |BitString(bytes)|
    ensures ReadFields(BitString(bytes), Repeat(8, count)) == bytes[..count]
  {
    SumRepeat(8, count);
    if count > 0 {
      var bits := BitString(bytes);
      ByteValue(bytes[0]);
      assert bits[..8] == Bits(bytes[0], 8);
      assert bits[8..] == BitString(bytes[1..]);
      ByteFields(bytes[1..], count - 1);
      assert bytes[..count] == [bytes[0]] + bytes[1..][..count - 1];
    }
  }

  /** Consecutive one-bit fields are the bits themselves. */
  lemma {:induction false} BitFields(bits: seq<nat>, count: nat)
    requires count <= |bits|
    ensures Sum(Repeat(1, count)) <= |bits|
    ensures ReadFields(bits, Repeat(1, count)) == bits[..count]
  {
    SumRepeat(1, count);
    if count > 0 {
      BitFields(bits[1..], count - 1);
      assert FieldValue(bits[..1]) == bits[0];
      assert bits[..count] == [bits[0]] + bits[1..][..count - 1];
    }
  }

  /** The input items declare eight 1-bit fields, then seven 8-bit fields
      (the reserved byte and six key slots); the output items five 1-bit
      fields, then one 3-bit field. */
  lemma ReportMapWidths()
    ensures FieldWidths(ItemsOf(REPORT_MAP, Input)) == Repeat(1, 8) + Repeat(8, 7)
    ensures FieldWidths(ItemsOf(REPORT_MAP, Output)) == Repeat(1, 5) + Repeat(3, 1)
  {
    ReportMapItems();
    var ins := [MODIFIERS_ITEM, RESERVED_ITEM, KEYS_ITEM];
    assert ins[1..] == [RESERVED_ITEM, KEYS_ITEM] && ins[1..][1..] == [KEYS_ITEM];
    assert FieldWidths([KEYS_ITEM]) == Repeat(8, 6);
    assert FieldWidths([RESERVED_ITEM, KEYS_ITEM]) == Repeat(8, 7);
    var outs := [LEDS_ITEM, PADDING_ITEM];
    assert outs[1..] == [PADDING_ITEM];
    assert FieldWidths([PADDING_ITEM]) == Repeat(3, 1);
  }

  /** Layout agreement for the input report: reading the serialized
      `InputValue` through `REPORT_MAP` gives the eight modifier bits (Left
      Control first), then the reserved byte, then the six key slots. */
  lemma InputReportLayout(v: InputValue)
    ensures DecodeReport(REPORT_MAP, Input, InputBytes(v))
         == Some(Bits(v.modifiers, 8) + [v.reserved] + v.pressedKeys)
  {
    var bytes := InputBytes(v);
    InputBufferFields(bytes);
    assert bytes[0] == v.modifiers;
    assert bytes[1..] == [v.reserved] + v.pressedKeys;
    assert Bits(v.modifiers, 8) + bytes[1..] == Bits(v.modifiers, 8) + [v.reserved] + v.pressedKeys;
  }

  /** Any 8-byte input buffer reads as the bits of its first byte, then its
      other seven bytes. */
  lemma InputBufferFields(bytes: seq<byte>)
    requires |bytes| == INPUT_VALUE_SIZE
    ensures DecodeReport(REPORT_MAP, Input, bytes) == Some(Bits(bytes[0], 8) + bytes[1..])
  {
    ReportMapWidths();
    var bits := BitString(bytes);
    var modifiers, rest := Repeat(1, 8), Repeat(8, 7);
    SumRepeat(1, 8);
    SumRepeat(8, 7);
    SumAppend(modifiers, rest);
    ReadFieldsAppend(bits, modifiers, rest);
    BitFields(bits, 8);
    assert bits[..8] == Bits(bytes[0], 8);
    assert bits[8..] == BitString(bytes[1..]);
    ByteFields(bytes[1..], 7);
    assert bytes[1..][..7] == bytes[1..];
  }

  /** Layout agreement for the output report: reading the LED byte through
      `REPORT_MAP` gives the five LED bits (Num Lock first), then the three
      padding bits as one field. */
  lemma OutputReportLayout(v: OutputValue)
    ensures DecodeReport(REPORT_MAP, Output, OutputBytes(v))
         == Some(Bits(v.leds, 5) + [Shift(v.leds, 5)])
  {
    var bytes := OutputBytes(v);
    ReportMapWidths();
    var bits := BitString(bytes);
    assert bits == Bits(v.leds, 8) by {
      assert bytes[1..] == [];
    }
    var leds, padding := Repeat(1, 5), Repeat(3, 1);
    SumRepeat(1, 5);
    SumRepeat(3, 1);
    SumAppend(leds, padding);
    ReadFieldsAppend(bits, leds, padding);
    BitFields(bits, 5);
    assert bits[..5] == Bits(v.leds, 5);
    BitsTailValue(v.leds, 5);
    assert padding == [3];
    assert bits[5..][..3] == Bits(v.leds, 8)[5..];
    assert ReadFields(bits[5..], padding) == [Shift(v.leds, 5)];
  }

  // ---------------------------------------------------------------------
  // Legality of a report for the descriptor.

  /** Every data field of `items` holds a value in its item's logical range. */
  predicate FieldsInRange(items: seq<MainItem>, values: seq<nat>)
  {
    if |items| == 0 then values == []
    else
      var it := items[0];
      && it.reportCount <= |values|
      && (!it.constant ==> forall k :: 0 <= k < it.reportCount ==> it.logicalMin <= values[k] <= it.logicalMax)
      && FieldsInRange(items[1..], values[it.reportCount..])
  }

  /** A report buffer a host accepts as legal for the descriptor. */
  predicate Conforms(map_: seq<MainItem>, dir: Direction, bytes: seq<byte>)
  {
    var d := DecodeReport(map_, dir, bytes);
    d.Some? && FieldsInRange(ItemsOf(map_, dir), d.value)
  }

  /** An input report is legal for `REPORT_MAP` exactly when every key slot
      holds a usage no greater than 0x65; modifiers and the reserved byte
      never make it illegal. */
  lemma InputConformsIff(v: InputValue)
    ensures Conforms(REPORT_MAP, Input, InputBytes(v))
        <==> forall k :: 0 <= k < 6 ==> v.pressedKeys[k] <= 0x65
  {
    InputReportLayout(v);
    ReportMapItems();
    var bits := Bits(v.modifiers, 8);
    assert forall k :: 0 <= k < 8 ==> bits[k] <= 1;
    InputRanges(bits, v.reserved, v.pressedKeys);
  }

  lemma InputRanges(bits: seq<nat>, reserved: nat, keys: seq<nat>)
    requires |bits| == 8 && |keys| == 6
    requires forall k :: 0 <= k < 8 ==> bits[k] <= 1
    ensures FieldsInRange([MODIFIERS_ITEM, RESERVED_ITEM, KEYS_ITEM], bits + [reserved] + keys)
        <==> forall k :: 0 <= k < 6 ==> keys[k] <= 0x65
  {
    var values := bits + [reserved] + keys;
    assert values[8..] == [reserved] + keys;
    assert values[8..][1..] == keys;
    assert keys[6..] == [];
    assert [MODIFIERS_ITEM, RESERVED_ITEM, KEYS_ITEM][1..] == [RESERVED_ITEM, KEYS_ITEM];
    assert [RESERVED_ITEM, KEYS_ITEM][1..] == [KEYS_ITEM];
    assert [KEYS_ITEM][1..] == [];
    assert FieldsInRange([KEYS_ITEM], keys) <==> forall k :: 0 <= k < 6 ==> keys[k] <= 0x65;
    assert FieldsInRange([RESERVED_ITEM, KEYS_ITEM], [reserved] + keys) == FieldsInRange([KEYS_ITEM], keys);
    assert forall k :: 0 <= k < 8 ==> 0 <= values[k] <= 1;
  }
}
