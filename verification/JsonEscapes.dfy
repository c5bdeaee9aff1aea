/** What a string literal spells, escape by escape, in the bytes of section 7 of RFC 7159. */
module JsonEscapes {
  import opened Bytes
  import opened JsonUnicode
  import opened JsonStrings

  /** `d` is the hexadecimal digit of value `v`, in either case. */
  predicate SpellsHex(d: Byte, v: nat) {
    (v < 10 && d == 0x30 + v) || (10 <= v < 16 && (d == 0x41 + (v - 10) || d == 0x61 + (v - 10)))
  }

  /** A backslash, `u` and the four hexadecimal digits of `c`, the most significant one first. */
  predicate SpellsUnit(e: Text, c: nat) {
    && |e| == 6 && e[0] == 0x5C && e[1] == 0x75
    && SpellsHex(e[2], c / 0x1000) && SpellsHex(e[3], c / 0x100 % 0x10)
    && SpellsHex(e[4], c / 0x10 % 0x10) && SpellsHex(e[5], c % 0x10)
  }

  /** The two-byte escapes: the letter behind the backslash, and the character it stands for. */
  predicate SpellsShort(x: Byte, c: Byte) {
    || (x == 0x22 && c == 0x22)
    || (x == 0x5C && c == 0x5C)
    || (x == 0x2F && c == 0x2F)
    || (x == 0x62 && c == 0x08)
    || (x == 0x66 && c == 0x0C)
    || (x == 0x6E && c == 0x0A)
    || (x == 0x72 && c == 0x0D)
    || (x == 0x74 && c == 0x09)
  }

  /** `t` is the UTF-8 form of the character `c`. */
  predicate Utf8Of(t: Text, c: nat) {
    IsUtf8Char(t) && Decode(t) == c
  }

  /** Half of a surrogate pair that the lexer does not refuse, in the form of a character. */
  predicate LoneLow(t: Text, c: nat) {
    0xDC00 <= c <= 0xDFFF && t == [0xED, 0xB0 + (c - 0xDC00) / 0x40, 0x80 + (c - 0xDC00) % 0x40]
  }

  /** One `u` escape, which is not the first half of a pair. */
  ghost predicate SpellsAlone(e: Text, t: Text) {
    exists c: nat :: SpellsUnit(e, c) && (Utf8Of(t, c) || LoneLow(t, c))
  }

  /** The two `u` escapes of the surrogate pair of `c`. */
  predicate SpellsHalves(e: Text, c: nat) {
    && |e| == 12 && 0x10000 <= c <= 0x10FFFF
    && SpellsUnit(e[..6], 0xD800 + (c - 0x10000) / 0x400)
    && SpellsUnit(e[6..], 0xDC00 + (c - 0x10000) % 0x400)
  }

  ghost predicate SpellsPair(e: Text, t: Text) {
    exists c: nat :: SpellsHalves(e, c) && Utf8Of(t, c)
  }

  /** The bytes `e` of a literal are one character, or one byte of it, with the value `t`. */
  ghost predicate Piece(e: Text, t: Text) {
    || (|e| == 1 && t == e && 0x10 <= e[0] && e[0] != 0x22 && e[0] != 0x5C)
    || (|e| == 2 && |t| == 1 && e[0] == 0x5C && SpellsShort(e[1], t[0]))
    || SpellsAlone(e, t)
    || SpellsPair(e, t)
  }

  /** The literal `w` spells the text `s`, piece by piece. */
  ghost predicate Spells(w: Text, s: Text)
    decreases |w|
  {
    if w == [] then s == []
    else exists n: nat, m: nat | 0 < n <= |w| && m <= |s| :: Piece(w[..n], s[..m]) && Spells(w[n..], s[m..])
  }

  // ---- Digits ----------------------------------------------------------------------

  lemma HexDigits(d: Byte)
    ensures IsHexDigit(d) <==> exists v: nat :: SpellsHex(d, v)
    ensures IsHexDigit(d) ==> SpellsHex(d, HexValue(d))
  {
    if IsHexDigit(d) {
      assert SpellsHex(d, HexValue(d));
    }
  }

  lemma HexValueUnique(d: Byte, v: nat)
    requires SpellsHex(d, v)
    ensures IsHexDigit(d) && HexValue(d) == v < 16
  {
  }

  /** The digits of a number below 0x10000 in base 16. */
  lemma Base16(c: nat, d3: nat, d2: nat, d1: nat, d0: nat)
    requires d3 < 16 && d2 < 16 && d1 < 16 && d0 < 16
    requires c == d3 * 0x1000 + d2 * 0x100 + d1 * 0x10 + d0
    ensures c / 0x1000 == d3 && c / 0x100 % 0x10 == d2 && c / 0x10 % 0x10 == d1 && c % 0x10 == d0
  {
    assert c / 0x10 == d3 * 0x100 + d2 * 0x10 + d1;
    assert c / 0x100 == d3 * 0x10 + d2;
  }

  lemma DigitsOf(c: nat)
    requires c / 0x1000 < 16
    ensures c == c / 0x1000 * 0x1000 + c / 0x100 % 0x10 * 0x100 + c / 0x10 % 0x10 * 0x10 + c % 0x10
    ensures c <= 0xFFFF
  {
    var c1 := c / 0x10;
    var c2 := c1 / 0x10;
    assert c / 0x100 == c2 && c / 0x1000 == c2 / 0x10;
  }

  /** Four digits are read most significant first. */
  lemma UnitIsQuad(w: Text, i: nat, c: nat)
    requires i + 6 <= |w|
    ensures SpellsUnit(w[i..i + 6], c) <==> w[i] == BACKSLASH && UEscapeAt(w, i + 1) && HexQuad(w, i + 2) == c
  {
    var e := w[i..i + 6];
    assert forall k :: 0 <= k < 6 ==> e[k] == w[i + k];
    if SpellsUnit(e, c) {
      HexValueUnique(w[i + 2], c / 0x1000);
      HexValueUnique(w[i + 3], c / 0x100 % 0x10);
      HexValueUnique(w[i + 4], c / 0x10 % 0x10);
      HexValueUnique(w[i + 5], c % 0x10);
      DigitsOf(c);
    }
    if UEscapeAt(w, i + 1) && HexQuad(w, i + 2) == c {
      HexDigits(w[i + 2]);
      HexDigits(w[i + 3]);
      HexDigits(w[i + 4]);
      HexDigits(w[i + 5]);
      Base16(c, HexValue(w[i + 2]), HexValue(w[i + 3]), HexValue(w[i + 4]), HexValue(w[i + 5]));
    }
  }

  // ---- Characters --------------------------------------------------------------------

  lemma Utf8OfIsEncode(t: Text, c: nat)
    ensures Utf8Of(t, c) <==> IsScalar(c) && t == Encode(c)
  {
    hide Encode, Decode;
    if Utf8Of(t, c) {
      DecodeEncodes(t);
    }
    if IsScalar(c) {
      EncodeDecodes(c);
    }
  }

  lemma LoneLowIsEncode(t: Text, c: nat)
    ensures LoneLow(t, c) <==> IsLowSurrogate(c) && t == Encode(c)
  {
    if IsLowSurrogate(c) {
      var d := c - 0xDC00;
      assert c == 0 * 0x40000 + 13 * 0x1000 + (0x30 + d / 0x40) * 0x40 + d % 0x40;
      EncodeDigits(c, 0, 13, 0x30 + d / 0x40, d % 0x40);
    }
  }

  /** A literal that begins with a piece has the value of the piece in front. */
  lemma PieceIsFirst(e: Text, t: Text, rest: Text)
    requires Piece(e, t) && StringBody(rest)
    ensures e + rest != [] && StringBody(e + rest)
    ensures FirstChar(e + rest) == Ok((t, |e|))
  {
    hide Encode, Utf8Of, LoneLow, SpellsUnit, FirstChar, StringBody;
    if SpellsAlone(e, t) {
      var c: nat :| SpellsUnit(e, c) && (Utf8Of(t, c) || LoneLow(t, c));
      UnitFirst(e, c, rest);
      Utf8OfIsEncode(t, c);
      LoneLowIsEncode(t, c);
    } else if SpellsPair(e, t) {
      var c: nat :| SpellsHalves(e, c) && Utf8Of(t, c);
      Utf8OfIsEncode(t, c);
      PairFirst(e, c, rest);
    } else {
      ShortFirst(e, t, rest);
    }
  }

  /** The pieces without digits. */
  lemma ShortFirst(e: Text, t: Text, rest: Text)
    requires StringBody(rest)
    requires || (|e| == 1 && t == e && 0x10 <= e[0] && e[0] != 0x22 && e[0] != 0x5C)
             || (|e| == 2 && |t| == 1 && e[0] == 0x5C && SpellsShort(e[1], t[0]))
    ensures StringBody(e + rest) && FirstChar(e + rest) == Ok((t, |e|))
  {
    assert (e + rest)[|e|..] == rest && t == [t[0]];
  }

  lemma UnitFirst(e: Text, c: nat, rest: Text)
    requires SpellsUnit(e, c) && StringBody(rest)
    ensures |e| == 6 && StringBody(e + rest) && c <= MAX_SCALAR
    ensures !IsHighSurrogate(c) ==> FirstChar(e + rest) == Ok((Encode(c), 6))
  {
    hide Encode, HexQuad;
    var w := e + rest;
    assert w[0..0 + 6] == e && w[6..] == rest;
    hide SpellsUnit;
    UnitIsQuad(w, 0, c);
  }

  lemma PairFirst(e: Text, c: nat, rest: Text)
    requires SpellsHalves(e, c) && StringBody(rest)
    ensures |e| == 12 && IsScalar(c) && StringBody(e + rest)
    ensures FirstChar(e + rest) == Ok((Encode(c), 12))
  {
    hide Encode, HexQuad, SpellsUnit, Body;
    var w := e + rest;
    var high, low := 0xD800 + (c - 0x10000) / 0x400, 0xDC00 + (c - 0x10000) % 0x400;
    assert w[0..0 + 6] == e[..6] && w[6..6 + 6] == e[6..];
    assert e[6..] + rest == w[6..] && e[..6] + w[6..] == w;
    UnitFirst(e[6..], low, rest);
    UnitFirst(e[..6], high, w[6..]);
    UnitIsQuad(w, 0, high);
    UnitIsQuad(w, 6, low);
    assert Combine(high, low) == c;
  }

  /** The first character of a literal is a piece. */
  lemma FirstIsPiece(w: Text)
    requires w != [] && StringBody(w) && FirstChar(w).Ok?
    ensures Piece(w[..FirstChar(w).value.1], FirstChar(w).value.0)
  {
    hide Encode, Decode, SpellsUnit, HexQuad;
    if w[0] == BACKSLASH && w[1] == U {
      var c := HexQuad(w, 2);
      UnitIsQuad(w, 0, c);
      Utf8OfIsEncode(Encode(c), c);
      LoneLowIsEncode(Encode(c), c);
      if IsHighSurrogate(c) {
        PairIsPiece(w, c);
      } else {
        assert w[0..0 + 6] == w[..6];
        assert SpellsAlone(w[..6], Encode(c));
      }
    }
  }

  lemma PairIsPiece(w: Text, high: nat)
    requires w != [] && StringBody(w) && FirstChar(w).Ok?
    requires w[0] == BACKSLASH && w[1] == U && HexQuad(w, 2) == high && IsHighSurrogate(high)
    ensures FirstChar(w).value.1 == 12 <= |w| && SpellsPair(w[..12], FirstChar(w).value.0)
  {
    hide Encode, Decode, SpellsUnit, HexQuad;
    assert StringBody(w[6..]) && w[6..][6..] == w[12..];
    assert forall k :: 6 <= k < 12 ==> w[k] == w[6..][k - 6];
    var low := HexQuad(w, 8);
    var c := Combine(high, low);
    UnitIsQuad(w, 0, high);
    UnitIsQuad(w, 6, low);
    assert w[..12][..6] == w[0..0 + 6] && w[..12][6..] == w[6..6 + 6];
    assert (c - 0x10000) / 0x400 == high - 0xD800 && (c - 0x10000) % 0x400 == low - 0xDC00;
    Utf8OfIsEncode(Encode(c), c);
    assert SpellsHalves(w[..12], c);
  }

  // ---- Literals ------------------------------------------------------------------------

  /**
   * The bodies that the lexer takes and gives a value are those that are spelled from pieces, and the
   * value is the text they spell; a body without a value is refused.
   */
  lemma {:induction false} UnescapeMeaning(w: Text, s: Text)
    ensures Spells(w, s) <==> StringBody(w) && Unescape(w) == Ok(s)
    ensures StringBody(w) && Unescape(w).Err? ==> Unescape(w).error == InvalidArgument
    decreases |w|
  {
    hide Piece, FirstChar, Body;
    if w == [] {
      NothingLeft();
    } else {
      if Spells(w, s) {
        var n: nat, m: nat :| 0 < n <= |w| && m <= |s| && Piece(w[..n], s[..m]) && Spells(w[n..], s[m..]);
        UnescapeMeaning(w[n..], s[m..]);
        PieceIsFirst(w[..n], s[..m], w[n..]);
        assert w[..n] + w[n..] == w && s[..m] + s[m..] == s;
      }
      if StringBody(w) && FirstChar(w).Ok? {
        var (t, n) := FirstChar(w).value;
        FirstIsPiece(w);
        var rest := Unescape(w[n..]);
        if rest.Ok? {
          UnescapeMeaning(w[n..], rest.value);
          if t + rest.value == s {
            assert s[..|t|] == t && s[|t|..] == rest.value;
          }
        } else {
          UnescapeMeaning(w[n..], []);
        }
      }
    }
  }

  lemma NothingLeft()
    ensures StringBody([])
  {
  }

  /** A `u` escape alone: its four digits, in either case, give their character; a first half is refused. */
  lemma UnitValue(e: Text, c: nat)
    requires SpellsUnit(e, c)
    ensures StringBody(e)
    ensures 0xD800 <= c <= 0xDBFF ==> Unescape(e) == Err(InvalidArgument)
    ensures !(0xD800 <= c <= 0xDBFF) ==> Unescape(e).Ok?
    ensures !(0xD800 <= c <= 0xDFFF) ==> Utf8Of(Unescape(e).value, c)
  {
    hide Encode, Decode, HexQuad;
    assert e + [] == e && e[0..0 + 6] == e;
    UnitFirst(e, c, []);
    UnitIsQuad(e, 0, c);
    hide SpellsUnit;
    Utf8OfIsEncode(Encode(c), c);
    if !IsHighSurrogate(c) {
      assert Unescape(e[6..]) == Ok([]) && Encode(c) + [] == Encode(c);
    }
  }

  /** The two `u` escapes of a surrogate pair are one character. */
  lemma PairValue(e: Text, c: nat)
    requires SpellsHalves(e, c)
    ensures StringBody(e) && Unescape(e).Ok? && Utf8Of(Unescape(e).value, c)
  {
    hide Encode, Decode, SpellsHalves;
    assert e + [] == e;
    NothingLeft();
    PairFirst(e, c, []);
    Utf8OfIsEncode(Encode(c), c);
    assert Unescape(e[12..]) == Ok([]) && Encode(c) + [] == Encode(c);
  }

  /** Which of the forms of section 7 `escape_string` chooses for a byte. */
  lemma EscapeForms(c: Byte)
    ensures c in [0x22, 0x5C, 0x08, 0x0C, 0x0A, 0x0D, 0x09] ==>
      |EscapeByte(c)| == 2 && EscapeByte(c)[0] == 0x5C && SpellsShort(EscapeByte(c)[1], c)
    ensures c < 0x20 && c !in [0x08, 0x0C, 0x0A, 0x0D, 0x09] ==>
      SpellsUnit(EscapeByte(c), c) && EscapeByte(c)[5] !in [0x41, 0x42, 0x43, 0x44, 0x45, 0x46]
    ensures c >= 0x20 && c !in [0x22, 0x5C] ==> EscapeByte(c) == [c]
  {
    assert c < 0x20 ==> c / 0x1000 == c / 0x100 == 0;
  }
}
