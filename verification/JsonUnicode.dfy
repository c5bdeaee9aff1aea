/**
 * The lexer's `to_unicode`: surrogate pairs and UTF-8.  Shifts and masks are written as
 * division and remainder by powers of two.
 */
module JsonUnicode {
  import opened Bytes

  datatype UnicodeError = WrongLowSurrogate | AboveMaximum

  const MAX_SCALAR: nat := 0x10FFFF

  predicate IsHighSurrogate(c: nat) {
    0xD800 <= c <= 0xDBFF
  }

  predicate IsLowSurrogate(c: nat) {
    0xDC00 <= c <= 0xDFFF
  }

  /** A Unicode scalar value: a code point that is not half of a surrogate pair. */
  predicate IsScalar(c: nat) {
    c <= MAX_SCALAR && !IsHighSurrogate(c) && !IsLowSurrogate(c)
  }

  /** The code point of a surrogate pair, with all the bias taken off in one subtraction. */
  function Combine(high: nat, low: nat): (c: nat)
    requires IsHighSurrogate(high) && IsLowSurrogate(low)
    ensures 0x10000 <= c <= MAX_SCALAR
  {
    high * 0x400 + low - 0x35FDC00
  }

  /** The bytes `to_unicode` appends for a code point in range. */
  function Encode(c: nat): Text
    requires c <= MAX_SCALAR
  {
    if c < 0x80 then
      [c]
    else if c <= 0x7FF then
      [0xC0 + c / 0x40 % 0x20, 0x80 + c % 0x40]
    else if c <= 0xFFFF then
      [0xE0 + c / 0x1000 % 0x10, 0x80 + c / 0x40 % 0x40, 0x80 + c % 0x40]
    else
      [0xF0 + c / 0x40000 % 0x08, 0x80 + c / 0x1000 % 0x40, 0x80 + c / 0x40 % 0x40, 0x80 + c % 0x40]
  }

  function ToUnicode(codepoint1: nat, codepoint2: nat): Result<Text, UnicodeError> {
    if IsHighSurrogate(codepoint1) then
      if IsLowSurrogate(codepoint2) then Ok(Encode(Combine(codepoint1, codepoint2)))
      else Err(WrongLowSurrogate)
    else if codepoint1 <= MAX_SCALAR then Ok(Encode(codepoint1))
    else Err(AboveMaximum)
  }

  // ---- UTF-8 as section 4 of RFC 3629 defines it -----------------------------------

  predicate IsTail(b: Byte) {
    0x80 <= b <= 0xBF
  }

  /** The byte sequences UTF8-1 to UTF8-4 for one character. */
  predicate IsUtf8Char(s: Text) {
    || (|s| == 1 && s[0] <= 0x7F)
    || (|s| == 2 && 0xC2 <= s[0] <= 0xDF && IsTail(s[1]))
    || (|s| == 3 && IsTail(s[1]) && IsTail(s[2]) &&
        (|| (s[0] == 0xE0 && 0xA0 <= s[1])
         || 0xE1 <= s[0] <= 0xEC
         || (s[0] == 0xED && s[1] <= 0x9F)
         || 0xEE <= s[0] <= 0xEF))
    || (|s| == 4 && IsTail(s[1]) && IsTail(s[2]) && IsTail(s[3]) &&
        (|| (s[0] == 0xF0 && 0x90 <= s[1])
         || 0xF1 <= s[0] <= 0xF3
         || (s[0] == 0xF4 && s[1] <= 0x8F)))
  }

  /** The character such a sequence stands for (section 3). */
  function Decode(s: Text): nat
    requires IsUtf8Char(s)
  {
    match |s|
    case 1 => s[0]
    case 2 => (s[0] as int - 0xC0) * 0x40 + (s[1] as int - 0x80)
    case 3 => (s[0] as int - 0xE0) * 0x1000 + (s[1] as int - 0x80) * 0x40 + (s[2] as int - 0x80)
    case _ =>
      (s[0] as int - 0xF0) * 0x40000 + (s[1] as int - 0x80) * 0x1000 + (s[2] as int - 0x80) * 0x40
      + (s[3] as int - 0x80)
  }

  /** How many bytes the character that starts with `b` takes. */
  function Utf8Length(b: Byte): nat {
    if b < 0x80 then 1 else if b < 0xE0 then 2 else if b < 0xF0 then 3 else 4
  }

  /** A text is UTF-8: one character after the other. */
  predicate IsUtf8(s: Text) {
    if s == [] then true
    else
      var n := Utf8Length(s[0]);
      n <= |s| && IsUtf8Char(s[..n]) && IsUtf8(s[n..])
  }

  lemma {:induction false} Utf8OverAscii(s: Text, n: nat)
    requires n <= |s| && forall k :: 0 <= k < n ==> s[k] < 0x80
    ensures IsUtf8(s) <==> IsUtf8(s[n..])
  {
    if n == 0 {
      assert s[0..] == s;
    } else {
      Utf8OverAscii(s[1..], n - 1);
      assert s[1..][n - 1..] == s[n..];
    }
  }

  lemma Div40(c: nat, q: nat, r: nat)
    requires r < 0x40 && c == q * 0x40 + r
    ensures c / 0x40 == q && c % 0x40 == r
  {
  }

  lemma Div1000(c: nat, q: nat, r: nat)
    requires r < 0x1000 && c == q * 0x1000 + r
    ensures c / 0x1000 == q
  {
  }

  lemma Div40000(c: nat, q: nat, r: nat)
    requires r < 0x40000 && c == q * 0x40000 + r
    ensures c / 0x40000 == q
  {
  }

  /** The digits of a code point in base 64. */
  lemma Base64(c: nat, d3: nat, d2: nat, d1: nat, d0: nat)
    requires d2 < 0x40 && d1 < 0x40 && d0 < 0x40
    requires c == d3 * 0x40000 + d2 * 0x1000 + d1 * 0x40 + d0
    ensures c % 0x40 == d0 && c / 0x40 % 0x40 == d1 && c / 0x1000 % 0x40 == d2 && c / 0x40000 == d3
    ensures c / 0x40 == d3 * 0x1000 + d2 * 0x40 + d1 && c / 0x1000 == d3 * 0x40 + d2
  {
    Div40(c, d3 * 0x1000 + d2 * 0x40 + d1, d0);
    Div40(d3 * 0x1000 + d2 * 0x40 + d1, d3 * 0x40 + d2, d1);
    Div40(d3 * 0x40 + d2, d3, d2);
    Div1000(c, d3 * 0x40 + d2, d1 * 0x40 + d0);
    Div40000(c, d3, d2 * 0x1000 + d1 * 0x40 + d0);
  }

  /** `Encode` in terms of the digits. */
  lemma EncodeDigits(c: nat, d3: nat, d2: nat, d1: nat, d0: nat)
    requires c <= MAX_SCALAR && d2 < 0x40 && d1 < 0x40 && d0 < 0x40
    requires c == d3 * 0x40000 + d2 * 0x1000 + d1 * 0x40 + d0
    ensures d3 <= 4
    ensures c < 0x80 ==> d3 == d2 == 0 && d1 <= 1 && Encode(c) == [d1 * 0x40 + d0]
    ensures 0x80 <= c <= 0x7FF ==> d3 == 0 && d2 * 0x40 + d1 < 0x20 && Encode(c) == [0xC0 + (d2 * 0x40 + d1), 0x80 + d0]
    ensures 0x800 <= c <= 0xFFFF ==> d3 == 0 && d2 < 0x10 && Encode(c) == [0xE0 + d2, 0x80 + d1, 0x80 + d0]
    ensures 0x10000 <= c ==> Encode(c) == [0xF0 + d3, 0x80 + d2, 0x80 + d1, 0x80 + d0]
  {
    Base64(c, d3, d2, d1, d0);
  }

  /**
   * What `to_unicode` appends is UTF-8 exactly when the code point is a scalar value, and
   * then a decoder reads the code point back.  (A lone low surrogate is not refused.)
   */
  lemma EncodeDecodes(c: nat)
    requires c <= MAX_SCALAR
    ensures IsUtf8Char(Encode(c)) <==> IsScalar(c)
    ensures IsScalar(c) ==> Decode(Encode(c)) == c
  {
    var c1 := c / 0x40;
    var c2 := c1 / 0x40;
    var d3, d2, d1, d0 := c2 / 0x40, c2 % 0x40, c1 % 0x40, c % 0x40;
    assert c == d3 * 0x40000 + d2 * 0x1000 + d1 * 0x40 + d0;
    hide Encode;
    EncodeDigits(c, d3, d2, d1, d0);
    EncodedRange(c, d3, d2, d1);
  }

  /** Where the digits of a code point fall. */
  lemma EncodedRange(c: nat, d3: nat, d2: nat, d1: nat)
    requires c <= MAX_SCALAR && d2 < 0x40 && d1 < 0x40
    requires 0 <= c - d3 * 0x40000 - d2 * 0x1000 - d1 * 0x40 < 0x40
    ensures 0x80 <= c <= 0x7FF ==> 2 <= d2 * 0x40 + d1
    ensures 0x800 <= c <= 0xFFFF ==> (d2 == 0 ==> 0x20 <= d1) && (d2 == 13 && 0x20 <= d1 <==> 0xD800 <= c <= 0xDFFF)
    ensures 0x10000 <= c ==> (d3 == 0 ==> 0x10 <= d2) && d3 <= 4 && (d3 == 4 ==> d2 <= 0x0F)
  {
  }

  /** No other byte sequence stands for the character, so the form chosen is the shortest. */
  lemma DecodeEncodes(s: Text)
    requires IsUtf8Char(s)
    ensures IsScalar(Decode(s)) && Encode(Decode(s)) == s
  {
    hide Encode;
    var c := Decode(s);
    match |s|
    case 1 => EncodeDigits(c, 0, 0, c / 0x40, c % 0x40);
    case 2 =>
      var h: nat := s[0] - 0xC0;
      EncodeDigits(c, 0, h / 0x40, h % 0x40, s[1] - 0x80);
    case 3 => EncodeDigits(c, 0, s[0] - 0xE0, s[1] - 0x80, s[2] - 0x80);
    case _ => EncodeDigits(c, s[0] - 0xF0, s[1] - 0x80, s[2] - 0x80, s[3] - 0x80);
  }

  /** The two halves of a supplementary code point. */
  function Split(c: nat): (p: (nat, nat))
    requires 0x10000 <= c <= MAX_SCALAR
    ensures IsHighSurrogate(p.0) && IsLowSurrogate(p.1)
  {
    (0xD800 + (c - 0x10000) / 0x400, 0xDC00 + (c - 0x10000) % 0x400)
  }

  /** Surrogate pairs and supplementary code points correspond one to one. */
  lemma SurrogatesBijective(high: nat, low: nat, c: nat)
    requires IsHighSurrogate(high) && IsLowSurrogate(low)
    requires 0x10000 <= c <= MAX_SCALAR
    ensures Split(Combine(high, low)) == (high, low)
    ensures Combine(Split(c).0, Split(c).1) == c
  {
    var d := Combine(high, low) - 0x10000;
    assert d == (high - 0xD800) * 0x400 + (low - 0xDC00);
    assert d / 0x400 == high - 0xD800;
  }

  /**
   * `to_unicode` on its whole domain: it refuses exactly an unpaired high surrogate and a
   * code point out of range; otherwise a decoder recovers the scalar value the arguments
   * stand for, and the only accepted argument that is none is a lone low surrogate.
   */
  lemma ToUnicodeMeaning(c1: nat, c2: nat)
    ensures ToUnicode(c1, c2) == Err(WrongLowSurrogate) <==> IsHighSurrogate(c1) && !IsLowSurrogate(c2)
    ensures ToUnicode(c1, c2) == Err(AboveMaximum) <==> c1 > MAX_SCALAR
    ensures ToUnicode(c1, c2).Ok? && !IsLowSurrogate(c1) ==>
      var r := ToUnicode(c1, c2).value;
      IsUtf8Char(r) && Decode(r) == if IsHighSurrogate(c1) then Combine(c1, c2) else c1
    ensures IsLowSurrogate(c1) ==> ToUnicode(c1, c2).Ok? && !IsUtf8Char(ToUnicode(c1, c2).value)
  {
    if IsHighSurrogate(c1) && IsLowSurrogate(c2) {
      EncodeDecodes(Combine(c1, c2));
    } else if c1 <= MAX_SCALAR {
      EncodeDecodes(c1);
    }
  }
}
