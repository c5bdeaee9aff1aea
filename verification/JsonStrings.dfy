/** String literals: `escape_string`, the literals the lexer accepts, and their values. */
module JsonStrings {
  import opened Bytes
  import opened JsonUnicode

  /** Every exception of the lexer and the parser is one of these two. */
  datatype JsonError = InvalidArgument | OutOfRange

  type JsonResult<+T> = Result<T, JsonError>

  const U: Byte := 0x75

  // ---- Escaping ------------------------------------------------------------------

  /** The letter after the backslash, for the bytes that have a short escape. */
  function ShortEscape(c: Byte): Option<Byte> {
    if c == QUOTE || c == BACKSLASH then Some(c)
    else if c == 0x08 then Some(0x62)
    else if c == 0x0C then Some(0x66)
    else if c == LF then Some(0x6E)
    else if c == CR then Some(0x72)
    else if c == TAB then Some(0x74)
    else None
  }

  function Hexify(v: nat): Byte
    requires v < 16
  {
    if v < 10 then 0x30 + v else 0x61 + v - 10
  }

  function EscapeByte(c: Byte): (r: Text)
    ensures |r| > 0
  {
    match ShortEscape(c)
    case Some(x) => [BACKSLASH, x]
    case None =>
      if c <= 0x1F then [BACKSLASH, U, 0x30, 0x30, Hexify(c / 16), Hexify(c % 16)] else [c]
  }

  function Escape(s: Text): (r: Text)
    ensures |r| >= |s|
  {
    if s == [] then [] else EscapeByte(s[0]) + Escape(s[1..])
  }

  lemma {:induction false} EscapeAppend(a: Text, b: Text)
    ensures Escape(a + b) == Escape(a) + Escape(b)
  {
    if a == [] {
      assert a + b == b;
    } else {
      assert (a + b)[1..] == a[1..] + b;
      EscapeAppend(a[1..], b);
    }
  }

  /** Cutting a text before byte `i` cuts its escaped form before that byte's escape. */
  lemma EscapeSplit(s: Text, i: nat)
    requires i < |s|
    ensures Escape(s[..i + 1]) == Escape(s[..i]) + EscapeByte(s[i])
    ensures Escape(s[i..]) == EscapeByte(s[i]) + Escape(s[i + 1..])
  {
    assert s[..i + 1] == s[..i] + [s[i]];
    EscapeAppend(s[..i], [s[i]]);
    assert Escape([s[i]]) == EscapeByte(s[i]) + Escape([]);
    assert s[i..][1..] == s[i + 1..];
  }

  /** The number of bytes escaping adds. */
  method ExtraSpace(s: Text) returns (result: nat)
    ensures result == |Escape(s)| - |s|
  {
    result := 0;
    for i := 0 to |s|
      invariant result == |Escape(s[..i])| - i
    {
      EscapeSplit(s, i);
      var c := s[i];
      if c == QUOTE || c == BACKSLASH || c == 0x08 || c == 0x0C || c == LF || c == CR || c == TAB {
        result := result + 1;
      } else if c <= 0x1F {
        result := result + 5;
      }
    }
    assert s[..|s|] == s;
  }

  lemma {:induction false} NothingToEscape(s: Text)
    requires |Escape(s)| == |s|
    ensures Escape(s) == s
  {
    if s != [] {
      NothingToEscape(s[1..]);
      assert s == [s[0]] + s[1..];
    }
  }

  /**
   * The body of the escaping loop: the buffer still holds backslashes from `pos` on, and
   * only the bytes of the escape that are none are written.
   */
  method PutEscaped(result: array<Byte>, pos: nat, c: Byte) returns (next: nat)
    requires pos + |EscapeByte(c)| <= result.Length
    requires forall k :: pos <= k < result.Length ==> result[k] == BACKSLASH
    modifies result
    ensures next == pos + |EscapeByte(c)|
    ensures forall k :: pos <= k < next ==> result[k] == EscapeByte(c)[k - pos]
    ensures forall k :: 0 <= k < pos || next <= k < result.Length ==> result[k] == old(result[k])
  {
    next := pos + 2;
    if c == QUOTE {
      result[pos + 1] := QUOTE;
    } else if c == BACKSLASH {
    } else if c == 0x08 {
      result[pos + 1] := 0x62;
    } else if c == 0x0C {
      result[pos + 1] := 0x66;
    } else if c == LF {
      result[pos + 1] := 0x6E;
    } else if c == CR {
      result[pos + 1] := 0x72;
    } else if c == TAB {
      result[pos + 1] := 0x74;
    } else if c <= 0x1F {
      result[pos + 1] := U;
      result[pos + 2] := 0x30;
      result[pos + 3] := 0x30;
      result[pos + 4] := Hexify(c / 16);
      result[pos + 5] := Hexify(c % 16);
      next := pos + 6;
    } else {
      result[pos] := c;
      next := pos + 1;
    }
  }

  /** Every write is in bounds, and the writes end at the end of the buffer. */
  method EscapeString(s: Text) returns (r: Text)
    ensures r == Escape(s)
  {
    var space := ExtraSpace(s);
    if space == 0 {
      NothingToEscape(s);
      return s;
    }
    var result := new Byte[|s| + space](_ => BACKSLASH);
    var pos := 0;
    ghost var written: Text := [];
    for i := 0 to |s|
      invariant written == Escape(s[..i]) && pos == |written|
      invariant pos + |Escape(s[i..])| == result.Length
      invariant forall k :: 0 <= k < pos ==> result[k] == written[k]
      invariant forall k :: pos <= k < result.Length ==> result[k] == BACKSLASH
    {
      EscapeSplit(s, i);
      pos := PutEscaped(result, pos, s[i]);
      written := written + EscapeByte(s[i]);
    }
    assert s[..|s|] == s;
    assert result[..] == written;
    return result[..];
  }

  // ---- Literals ------------------------------------------------------------------

  /** The letters that may follow a backslash, other than `u`. */
  function Unletter(b: Byte): Option<Byte> {
    if b == QUOTE || b == BACKSLASH || b == SLASH then Some(b)
    else if b == 0x62 then Some(0x08)
    else if b == 0x66 then Some(0x0C)
    else if b == 0x6E then Some(LF)
    else if b == 0x72 then Some(CR)
    else if b == 0x74 then Some(TAB)
    else None
  }

  /** `u` and four hexadecimal digits stand at position `i`. */
  predicate UEscapeAt(w: Text, i: nat) {
    i + 5 <= |w| && w[i] == U && forall k :: i < k < i + 5 ==> IsHexDigit(w[k])
  }

  /** What may stand between the quotes when `low` is the least byte that needs no escape. */
  predicate Body(w: Text, low: Byte) {
    if w == [] then true
    else if w[0] == BACKSLASH then
      || (|w| >= 2 && Unletter(w[1]).Some? && Body(w[2..], low))
      || (UEscapeAt(w, 1) && Body(w[6..], low))
    else w[0] != QUOTE && low <= w[0] && Body(w[1..], low)
  }

  /** The lexer's table lets the control characters 0x10 to 0x1F stand unescaped. */
  predicate StringBody(w: Text) {
    Body(w, 0x10)
  }

  /** Nor a control character: every byte that stands for itself is at least 0x20. */
  predicate PrintableBody(w: Text) {
    Body(w, 0x20)
  }

  /**
   * Section 7 of RFC 7159, over UTF-8: escapes, and characters that are neither a quote, nor a
   * backslash, nor a control character.
   */
  predicate RfcBody(w: Text) {
    if w == [] then true
    else if w[0] == BACKSLASH then
      || (|w| >= 2 && Unletter(w[1]).Some? && RfcBody(w[2..]))
      || (UEscapeAt(w, 1) && RfcBody(w[6..]))
    else
      var n := Utf8Length(w[0]);
      w[0] != QUOTE && 0x20 <= w[0] && n <= |w| && IsUtf8Char(w[..n]) && RfcBody(w[n..])
  }

  lemma {:induction false} PrintableMeaning(w: Text)
    ensures PrintableBody(w) <==> StringBody(w) && forall i :: 0 <= i < |w| ==> w[i] >= 0x20
  {
    if w != [] {
      var n := if w[0] != BACKSLASH then 1 else if |w| >= 2 && Unletter(w[1]).Some? then 2 else 6;
      if n <= |w| {
        var rest := w[n..];
        PrintableMeaning(rest);
        if StringBody(w) && forall i :: 0 <= i < |w| ==> w[i] >= 0x20 {
          assert forall i :: 0 <= i < |rest| ==> rest[i] == w[i + n];
        }
        if PrintableBody(w) {
          forall i | 0 <= i < |w| ensures w[i] >= 0x20 {
            assert i >= n ==> w[i] == rest[i - n];
          }
        }
      }
    }
  }

  /** Bytes from 0x80 on stand for themselves. */
  lemma {:induction false} BodyOverHighBytes(w: Text, n: nat)
    requires n <= |w| && forall k :: 0 <= k < n ==> w[k] >= 0x80
    ensures PrintableBody(w) <==> PrintableBody(w[n..])
  {
    if n > 0 {
      BodyOverHighBytes(w[1..], n - 1);
      assert w[1..][n - 1..] == w[n..];
    } else {
      assert w[0..] == w;
    }
  }

  /** A body over bytes is one of the RFC exactly when it is UTF-8. */
  lemma {:induction false} RfcIsUtf8Body(w: Text)
    ensures RfcBody(w) <==> PrintableBody(w) && IsUtf8(w)
  {
    if w != [] {
      if w[0] == BACKSLASH {
        if |w| >= 2 && Unletter(w[1]).Some? {
          RfcIsUtf8Body(w[2..]);
          Utf8OverAscii(w, 2);
        } else if UEscapeAt(w, 1) {
          RfcIsUtf8Body(w[6..]);
          Utf8OverAscii(w, 6);
        }
      } else {
        var n := Utf8Length(w[0]);
        if n <= |w| && IsUtf8Char(w[..n]) {
          RfcIsUtf8Body(w[n..]);
          if n > 1 {
            assert forall k :: 0 <= k < n ==> w[k] == w[..n][k];
            BodyOverHighBytes(w, n);
          }
        }
      }
    }
  }

  /**
   * The lexer's string bodies are those of the RFC, and beyond them exactly those with a raw byte
   * 0x10 to 0x1F and those that are not UTF-8.
   */
  lemma BodyIsRfcOrControl(w: Text)
    ensures RfcBody(w) <==> StringBody(w) && (forall i :: 0 <= i < |w| ==> w[i] >= 0x20) && IsUtf8(w)
  {
    PrintableMeaning(w);
    RfcIsUtf8Body(w);
  }

  function HexQuad(w: Text, i: nat): (c: nat)
    requires i + 4 <= |w| && forall k :: i <= k < i + 4 ==> IsHexDigit(w[k])
    ensures c <= 0xFFFF
  {
    HexValue(w[i]) * 0x1000 + HexValue(w[i + 1]) * 0x100 + HexValue(w[i + 2]) * 0x10 + HexValue(w[i + 3])
  }

  function Prepend(t: Text, r: JsonResult<Text>): JsonResult<Text> {
    match r
    case Ok(s) => Ok(t + s)
    case Err(e) => Err(e)
  }

  function Lift(r: Result<Text, UnicodeError>): JsonResult<Text> {
    match r
    case Ok(s) => Ok(s)
    case Err(WrongLowSurrogate) => Err(InvalidArgument)
    case Err(AboveMaximum) => Err(OutOfRange)
  }

  /** The first character of a literal: its value and the bytes it takes. */
  function FirstChar(w: Text): (r: JsonResult<(Text, nat)>)
    requires w != [] && StringBody(w)
    ensures r.Ok? ==> 0 < r.value.1 <= |w| && StringBody(w[r.value.1..])
    ensures r.Err? ==> r.error == InvalidArgument
  {
    if w[0] != BACKSLASH then Ok(([w[0]], 1))
    else if w[1] != U then Ok(([Unletter(w[1]).value], 2))
    else
      var c := HexQuad(w, 2);
      if IsHighSurrogate(c) then
        var v := w[6..];
        assert StringBody(v);
        if |v| < 2 || v[0] != BACKSLASH || v[1] != U then Err(InvalidArgument)
        else
          assert v[6..] == w[12..];
          assert forall k :: 8 <= k < 12 ==> w[k] == v[k - 6];
          match Lift(ToUnicode(c, HexQuad(w, 8)))
          case Ok(t) => Ok((t, 12))
          case Err(e) => Err(e)
      else Ok((Encode(c), 6))
  }

  /** The value of a literal. */
  function Unescape(w: Text): (r: JsonResult<Text>)
    requires StringBody(w)
    decreases |w|
  {
    if w == [] then Ok([])
    else
      match FirstChar(w)
      case Ok((t, n)) => Prepend(t, Unescape(w[n..]))
      case Err(e) => Err(e)
  }

  // ---- Escaping and reading back -----------------------------------------------------

  lemma HexifyValue(v: nat)
    requires v < 16
    ensures IsHexDigit(Hexify(v)) && HexValue(Hexify(v)) == v
  {
  }

  /** One escaped byte in front of a literal is read as that byte. */
  lemma EscapeByteRoundTrip(c: Byte, rest: Text)
    requires PrintableBody(rest)
    ensures PrintableBody(EscapeByte(c) + rest)
    ensures StringBody(rest) && StringBody(EscapeByte(c) + rest)
    ensures FirstChar(EscapeByte(c) + rest) == Ok(([c], |EscapeByte(c)|))
  {
    var w := EscapeByte(c) + rest;
    var n := |EscapeByte(c)|;
    assert w[n..] == rest;
    HexifyValue(c / 16);
    HexifyValue(c % 16);
    PrintableMeaning(rest);
    PrintableMeaning(w);
  }

  /** Escaped text is a literal without control characters, and its value is the text. */
  lemma {:induction false} EscapeRoundTrip(s: Text)
    ensures PrintableBody(Escape(s))
    ensures StringBody(Escape(s)) && Unescape(Escape(s)) == Ok(s)
  {
    if s != [] {
      EscapeRoundTrip(s[1..]);
      EscapeByteRoundTrip(s[0], Escape(s[1..]));
      var w := Escape(s);
      assert w[|EscapeByte(s[0])|..] == Escape(s[1..]);
      assert s == [s[0]] + s[1..];
    }
  }

  lemma EscapedByteRange(c: Byte)
    ensures c >= 0x80 ==> EscapeByte(c) == [c]
    ensures c < 0x80 ==> forall k :: 0 <= k < |EscapeByte(c)| ==> EscapeByte(c)[k] < 0x80
  {
  }

  lemma FirstHighByte(s: Text)
    requires (s != [] && s[0] >= 0x80) || (Escape(s) != [] && Escape(s)[0] >= 0x80)
    ensures s != [] && s[0] >= 0x80 && Escape(s) == [s[0]] + Escape(s[1..])
  {
    EscapedByteRange(s[0]);
  }

  /** Escaping leaves a run of bytes from 0x80 on alone, seen from the text or from the result. */
  lemma {:induction false} EscapeKeepsHighBytes(s: Text, n: nat)
    requires (n <= |s| && forall k :: 0 <= k < n ==> s[k] >= 0x80)
          || (n <= |Escape(s)| && forall k :: 0 <= k < n ==> Escape(s)[k] >= 0x80)
    ensures n <= |s| && Escape(s) == s[..n] + Escape(s[n..])
  {
    hide Escape;
    if n == 0 {
      assert s[0..] == s && s[..0] + Escape(s) == Escape(s);
    } else {
      FirstHighByte(s);
      var t, rest := s[1..], Escape(s[1..]);
      assert forall k :: 0 <= k < |t| ==> t[k] == s[k + 1];
      assert forall k :: 0 <= k < |rest| ==> rest[k] == Escape(s)[k + 1];
      EscapeKeepsHighBytes(t, n - 1);
      assert t[n - 1..] == s[n..] && s[..n] == [s[0]] + t[..n - 1];
    }
  }

  /** Escaping keeps text UTF-8, and does not make it so. */
  lemma {:induction false} EscapeKeepsUtf8(s: Text)
    ensures IsUtf8(Escape(s)) <==> IsUtf8(s)
  {
    if s != [] {
      EscapedByteRange(s[0]);
      if s[0] < 0x80 {
        EscapeKeepsUtf8(s[1..]);
        Utf8OverAscii(s, 1);
        var w, k := Escape(s), |EscapeByte(s[0])|;
        assert w[k..] == Escape(s[1..]);
        Utf8OverAscii(w, k);
      } else {
        HighCharacter(s);
      }
    }
  }

  lemma {:induction false} HighCharacter(s: Text)
    requires s != [] && s[0] >= 0x80
    ensures IsUtf8(Escape(s)) <==> IsUtf8(s)
    decreases s, 0
  {
    var w, n := Escape(s), Utf8Length(s[0]);
    EscapedByteRange(s[0]);
    assert w[0] == s[0];
    if (n <= |s| && IsUtf8Char(s[..n])) || (n <= |w| && IsUtf8Char(w[..n])) {
      if n <= |s| && IsUtf8Char(s[..n]) {
        Utf8CharIsHigh(s[..n]);
        assert forall k :: 0 <= k < n ==> s[k] == s[..n][k];
      } else {
        Utf8CharIsHigh(w[..n]);
        assert forall k :: 0 <= k < n ==> w[k] == w[..n][k];
      }
      EscapeKeepsHighBytes(s, n);
      assert w[..n] == s[..n] && w[n..] == Escape(s[n..]);
      EscapeKeepsUtf8(s[n..]);
    }
  }

  lemma Utf8CharIsHigh(c: Text)
    requires IsUtf8Char(c) && c[0] >= 0x80
    ensures forall k :: 0 <= k < |c| ==> c[k] >= 0x80
  {
  }

  /** What is printed between quotes is a string of the RFC exactly when the text is UTF-8. */
  lemma EscapedIsRfc(s: Text)
    ensures RfcBody(Escape(s)) <==> IsUtf8(s)
  {
    EscapeRoundTrip(s);
    RfcIsUtf8Body(Escape(s));
    EscapeKeepsUtf8(s);
  }

  /** Escaped text is free of control characters. */
  lemma EscapedIsPrintable(s: Text, i: nat)
    requires i < |Escape(s)|
    ensures Escape(s)[i] >= 0x20
  {
    EscapeRoundTrip(s);
    PrintableMeaning(Escape(s));
  }

  /** Different texts have different escaped forms. */
  lemma EscapeInjective(s: Text, t: Text)
    requires Escape(s) == Escape(t)
    ensures s == t
  {
    EscapeRoundTrip(s);
    EscapeRoundTrip(t);
  }
}
