/** The base64 decoding that captures arrive in (section 4 of RFC 4648): the standard alphabet with
    padding, which must be canonical. */
module Base64 {
  import opened Common

  /** The value of a digit, given as the byte of its ASCII character. */
  function DigitValue(c: byte): (v: Option<nat>)
    ensures v.Some? ==> v.value < 64
  {
    if 65 <= c <= 90 then Some(c - 65)
    else if 97 <= c <= 122 then Some(c - 97 + 26)
    else if 48 <= c <= 57 then Some(c - 48 + 52)
    else if c == 43 then Some(62)
    else if c == 47 then Some(63)
    else None
  }

  const PAD: byte := 61

  const UPPER := "ABCDEFGHIJKLMNOPQRSTUVWXYZ"
  const LOWER := "abcdefghijklmnopqrstuvwxyz"
  const DECIMAL := "0123456789"

  /** The alphabet of the standard, in the order of the values; nothing else is a digit. */
  lemma DigitsAreTheAlphabet(c: byte, v: nat)
    requires v < 64
    ensures |UPPER + LOWER + DECIMAL + "+/"| == 64
    ensures DigitValue(c) == Some(v) <==> (UPPER + LOWER + DECIMAL + "+/")[v] as int == c
  {
    hide UPPER, LOWER, DECIMAL;
    Parts();
    Concatenated(UPPER, LOWER, DECIMAL, "+/", v);
    if v < 26 {
      Upper(v);
    } else if v < 52 {
      Lower(v - 26);
    } else if v < 62 {
      Decimal(v - 52);
    } else {
      assert "+/"[0] as int == 43 && "+/"[1] as int == 47;
    }
  }

  lemma Parts()
    ensures |UPPER| == 26 && |LOWER| == 26 && |DECIMAL| == 10
  {
  }

  lemma Concatenated(a: string, b: string, c: string, d: string, v: nat)
    requires |a| == 26 && |b| == 26 && |c| == 10 && |d| == 2 && v < 64
    ensures |a + b + c + d| == 64
    ensures (a + b + c + d)[v] ==
            if v < 26 then a[v] else if v < 52 then b[v - 26] else if v < 62 then c[v - 52] else d[v - 62]
  {
  }

  lemma Upper(i: nat)
    requires i < 26
    ensures i < |UPPER| && UPPER[i] as int == 65 + i
  {
  }

  lemma Lower(i: nat)
    requires i < 26
    ensures i < |LOWER| && LOWER[i] as int == 97 + i
  {
  }

  lemma Decimal(i: nat)
    requires i < 10
    ensures i < |DECIMAL| && DECIMAL[i] as int == 48 + i
  {
  }

  /** Four digits are three bytes; with padding, the bits that no byte uses must be zero. */
  function DecodeGroup(group: Bytes, last: bool): (b: Option<Bytes>)
    requires |group| == 4
    ensures b.Some? ==> 1 <= |b.value| <= 3
    ensures b.Some? && !last ==> |b.value| == 3
  {
    match (DigitValue(group[0]), DigitValue(group[1]), DigitValue(group[2]), DigitValue(group[3]))
    case (Some(v), Some(w), Some(x), Some(y)) => Some([v * 4 + w / 16, w % 16 * 16 + x / 4, x % 4 * 64 + y])
    case (Some(v), Some(w), Some(x), None) =>
      if last && group[3] == PAD && x % 4 == 0 then Some([v * 4 + w / 16, w % 16 * 16 + x / 4]) else None
    case (Some(v), Some(w), None, None) =>
      if last && group[2] == PAD && group[3] == PAD && w % 16 == 0 then Some([v * 4 + w / 16]) else None
    case _ => None
  }

  /** The digits and the bytes of a group are one number, to the base 64 and to the base 256; bytes and
      digits that are missing are zero. */
  lemma GroupIsOneNumber(group: Bytes, last: bool)
    requires |group| == 4 && DecodeGroup(group, last).Some?
    ensures var b := DecodeGroup(group, last).value;
      && (forall i | 0 <= i < 4 :: (i <= |b| <==> DigitValue(group[i]).Some?))
      && (forall i | |b| < i < 4 :: group[i] == PAD)
      && (ValueAt(group, 0) * 64 + ValueAt(group, 1)) * 4096 + ValueAt(group, 2) * 64 + ValueAt(group, 3)
         == (b[0] as int * 256 + ByteAt(b, 1)) * 256 + ByteAt(b, 2)
  {
  }

  function ByteAt(b: Bytes, i: nat): nat {
    if i < |b| then b[i] else 0
  }

  function ValueAt(group: Bytes, i: nat): nat
    requires i < |group|
  {
    if DigitValue(group[i]).Some? then DigitValue(group[i]).value else 0
  }

  function Decode(text: Bytes): Option<Bytes> {
    if text == [] then Some([])
    else if |text| < 4 then None
    else
      match (DecodeGroup(text[..4], |text| == 4), Decode(text[4..]))
      case (Some(first), Some(rest)) => Some(first + rest)
      case _ => None
  }

  /** Text that decodes stands for three bytes a group of four, less at most two of padding. */
  lemma {:induction false} DecodedLength(text: Bytes)
    requires Decode(text).Some?
    ensures |text| % 4 == 0 && |Decode(text).value| <= |text| / 4 * 3 <= |Decode(text).value| + 2
    ensures |text| != 4 && text != [] ==> |Decode(text).value| >= 3
    decreases |text|
  {
    if text == [] {
    } else {
      DecodedLength(text[4..]);
    }
  }

  // ----- the inverse

  function Digit(v: nat): (c: byte)
    requires v < 64
    ensures DigitValue(c) == Some(v)
  {
    if v < 26 then v + 65
    else if v < 52 then v - 26 + 97
    else if v < 62 then v - 52 + 48
    else if v == 62 then 43
    else 47
  }

  function EncodeGroup(b: Bytes): (group: Bytes)
    requires 1 <= |b| <= 3
    ensures |group| == 4
  {
    if |b| == 1 then [Digit(b[0] / 4), Digit(b[0] % 4 * 16), PAD, PAD]
    else if |b| == 2 then [Digit(b[0] / 4), Digit(b[0] % 4 * 16 + b[1] / 16), Digit(b[1] % 16 * 4), PAD]
    else [Digit(b[0] / 4), Digit(b[0] % 4 * 16 + b[1] / 16), Digit(b[1] % 16 * 4 + b[2] / 64), Digit(b[2] % 64)]
  }

  function Encode(b: Bytes): Bytes {
    if b == [] then []
    else if |b| <= 3 then EncodeGroup(b)
    else EncodeGroup(b[..3]) + Encode(b[3..])
  }

  lemma Split16(high: nat, low: nat)
    requires low < 16
    ensures (high * 16 + low) / 16 == high && (high * 16 + low) % 16 == low
  {
  }

  lemma Split4(high: nat, low: nat)
    requires low < 4
    ensures (high * 4 + low) / 4 == high && (high * 4 + low) % 4 == low
  {
  }

  lemma DecodeEncodedGroup(b: Bytes, last: bool)
    requires 1 <= |b| <= 3 && (!last ==> |b| == 3)
    ensures DecodeGroup(EncodeGroup(b), last) == Some(b)
  {
    hide Digit;
    Split16(b[0] % 4, if |b| > 1 then b[1] / 16 else 0);
    if |b| > 1 { Split4(b[1] % 16, if |b| > 2 then b[2] / 64 else 0); }
    assert DigitValue(PAD) == None;
    assert DecodeGroup(EncodeGroup(b), last).value == b;
  }

  /** Decoding is a left inverse of encoding. */
  lemma {:induction false} DecodeEncode(b: Bytes)
    ensures Decode(Encode(b)) == Some(b)
    decreases |b|
  {
    hide DecodeGroup, EncodeGroup;
    if b == [] {
    } else {
      var n := Min(3, |b|);
      var group := EncodeGroup(b[..n]);
      DecodeEncodedGroup(b[..n], |b| <= 3);
      DecodeEncode(b[n..]);
      assert b == b[..n] + b[n..];
      assert n == |b| ==> b[..n] == b && Encode(b[n..]) == [];
      assert Encode(b) == group + Encode(b[n..]);
      assert Encode(b)[..4] == group && Encode(b)[4..] == Encode(b[n..]);
      assert |b| > 3 ==> |Encode(b[n..])| > 0;
    }
  }
}
