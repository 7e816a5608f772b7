/** The UID decoder of `nfc_read`: every byte of a tag identifier is printed
    with `"%d"` and the pieces are concatenated in array order. */
module Uid {
  import opened Bytes

  predicate IsDigit(c: byte)
  {
    DIGIT_ZERO <= c < DIGIT_ZERO + 10
  }

  predicate AllDigits(s: seq<byte>)
  {
    forall i :: 0 <= i < |s| ==> IsDigit(s[i])
  }

  /** A digit string as `"%d"` prints it: non-empty, and without a leading
      zero unless it is the single digit zero. */
  predicate Canonical(s: seq<byte>)
  {
    && |s| >= 1
    && AllDigits(s)
    && (|s| == 1 || s[0] != DIGIT_ZERO)
  }

  /** The unsigned base-10 text of `n`, most significant digit first. */
  function DecimalText(n: nat): (r: seq<byte>)
    ensures Canonical(r)
    ensures n < 10 <==> |r| == 1
    ensures n < 100 <==> |r| <= 2
    ensures n < 1000 <==> |r| <= 3
  {
    if n < 10 then [DIGIT_ZERO + n] else DecimalText(n / 10) + [DIGIT_ZERO + n % 10]
  }

  /** The number a digit string denotes: the reading direction of `DecimalText`. */
  function DecimalValue(s: seq<byte>): nat
    requires AllDigits(s)
  {
    if |s| == 0 then 0 else DecimalValue(s[..|s| - 1]) * 10 + (s[|s| - 1] - DIGIT_ZERO)
  }

  /** Reading back the printed text of a number yields the number. */
  lemma {:induction false} DecimalRoundTrip(n: nat)
    ensures DecimalValue(DecimalText(n)) == n
  {
    var r := DecimalText(n);
    if n >= 10 {
      DecimalRoundTrip(n / 10);
      assert r[..|r| - 1] == DecimalText(n / 10);
    }
  }

  lemma {:induction false} LeadingDigitPositive(s: seq<byte>)
    requires |s| >= 1 && AllDigits(s) && s[0] != DIGIT_ZERO
    ensures DecimalValue(s) >= 1
  {
    if |s| > 1 {
      LeadingDigitPositive(s[..|s| - 1]);
    }
  }

  /** Every canonical digit string is the printed text of the number it
      denotes: `DecimalText` is a bijection onto canonical strings. */
  lemma {:induction false} CanonicalRoundTrip(s: seq<byte>)
    requires Canonical(s)
    ensures DecimalText(DecimalValue(s)) == s
  {
    var v := DecimalValue(s);
    if |s| > 1 {
      var p := s[..|s| - 1];
      LeadingDigitPositive(p);
      CanonicalRoundTrip(p);
      assert v / 10 == DecimalValue(p);
      assert v % 10 == s[|s| - 1] - DIGIT_ZERO;
      assert s == p + [s[|s| - 1]];
    }
  }

  /** Two numbers print alike only if they are equal. */
  lemma DecimalTextInjective(m: nat, n: nat)
    requires DecimalText(m) == DecimalText(n)
    ensures m == n
  {
    DecimalRoundTrip(m);
    DecimalRoundTrip(n);
  }

  /** The text `nfc_read` appends for a UID: each byte's decimal text, in
      array order, without separators. */
  function DecodeUid(uid: seq<byte>): (r: seq<byte>)
    ensures AllDigits(r)
    ensures |uid| <= |r| <= 3 * |uid|
    ensures |uid| == 0 <==> |r| == 0
  {
    if |uid| == 0 then [] else DecodeUid(uid[..|uid| - 1]) + DecimalText(uid[|uid| - 1])
  }

  /** Decoding distributes over concatenation of UIDs: the text of the whole
      is the texts of the parts, in order. */
  lemma {:induction false} DecodeUidAppend(a: seq<byte>, b: seq<byte>)
    ensures DecodeUid(a + b) == DecodeUid(a) + DecodeUid(b)
    decreases |b|
  {
    if |b| > 0 {
      var b' := b[..|b| - 1];
      assert (a + b)[..|a + b| - 1] == a + b';
      DecodeUidAppend(a, b');
    } else {
      assert a + b == a;
    }
  }

  /** The decoded text splits into the bytes' decimal texts: the byte at
      position `i` contributes the piece after the first `i` bytes' text. */
  lemma {:induction false} DecodeUidPiece(uid: seq<byte>, i: nat)
    requires i < |uid|
    ensures DecodeUid(uid) == DecodeUid(uid[..i]) + DecimalText(uid[i]) + DecodeUid(uid[i + 1..])
  {
    var front, rest := uid[..i + 1], uid[i + 1..];
    assert uid == front + rest;
    DecodeUidAppend(front, rest);
    assert front[..i] == uid[..i];
    assert DecodeUid(front) == DecodeUid(uid[..i]) + DecimalText(uid[i]);
  }

  /** Without separators, different tags can type the same text: the UIDs
      1.23.4.5 and 12.3.4.5 both decode to "12345". */
  lemma DecodeUidNotInjective()
    ensures exists a: seq<byte>, b: seq<byte> :: |a| == 4 && |b| == 4 && a != b && DecodeUid(a) == DecodeUid(b)
  {
    var a: seq<byte> := [1, 23, 4, 5];
    var b: seq<byte> := [12, 3, 4, 5];
    assert DecimalText(23) == [DIGIT_ZERO + 2, DIGIT_ZERO + 3];
    assert DecimalText(12) == [DIGIT_ZERO + 1, DIGIT_ZERO + 2];
    assert a[..1] == [1] && a[..2][..1] == [1] && a[..2] == [1, 23] && a[..3] == [1, 23, 4];
    assert b[..1] == [12] && b[..2][..1] == [12] && b[..2] == [12, 3] && b[..3] == [12, 3, 4];
    assert DecodeUid(a[..2]) == DecodeUid(b[..2]);
    assert a[..3][..2] == a[..2] && b[..3][..2] == b[..2];
    assert DecodeUid(a[..3]) == DecodeUid(a[..2]) + DecimalText(4);
    assert DecodeUid(b[..3]) == DecodeUid(b[..2]) + DecimalText(4);
    assert DecodeUid(a) == DecodeUid(a[..3]) + DecimalText(5);
    assert DecodeUid(b) == DecodeUid(b[..3]) + DecimalText(5);
    assert a[0] != b[0];
  }

  /** `nfc_read` for one poll: when a card is detected, its UID is decoded byte
      by byte onto the end of the tag buffer and true is returned; otherwise
      the buffer is left alone and false is returned. */
  method NfcRead(cardDetected: bool, uid: seq<byte>, buffer: seq<byte>) returns (detected: bool, buffer': seq<byte>)
    ensures detected == cardDetected
    ensures cardDetected ==> buffer' == buffer + DecodeUid(uid)
    ensures !cardDetected ==> buffer' == buffer
  {
    buffer' := buffer;
    if cardDetected {
      var i := 0;
      while i < |uid|
        invariant 0 <= i <= |uid|
        invariant buffer' == buffer + DecodeUid(uid[..i])
      {
        assert uid[..i + 1][..i] == uid[..i];
        buffer' := buffer' + DecimalText(uid[i]);
        i := i + 1;
      }
      assert uid[..|uid|] == uid;
      return true, buffer';
    }
    return false, buffer';
  }
}
