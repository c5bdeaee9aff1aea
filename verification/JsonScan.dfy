/** What the automaton recognises: strings, numbers, literals, punctuation and blanks. */
module JsonScan {
  import opened Bytes
  import opened JsonStrings
  import opened JsonDfa

  // ---- Strings ---------------------------------------------------------------------

  /** From inside a string, the automaton runs over the rest of a literal to its quote. */
  lemma {:induction false} RunOverBody(s: Text, i: nat, w: Text, start: nat, marker: Option<nat>)
    requires Scanning(s, InString, i, start, marker, ParseError)
    requires StringBody(w) && Occurs(s, i, w + [QUOTE])
    ensures Run(s, InString, i, start, marker, ParseError) == Lexeme(ValueString, start, i + |w| + 1)
    decreases |w|
  {
    hide Run;
    OccursAt(s, i, w + [QUOTE]);
    if w == [] {
      assert s[i + 0] == QUOTE;
      StepEmit(s, InString, i, start, marker, ParseError, ValueString);
    } else {
      var n := CharLength(w);
      RunOverChar(s, i, w, start, marker, n);
      assert w + [QUOTE] == w[..n] + (w[n..] + [QUOTE]);
      OccursSplit(s, i, w[..n], w[n..] + [QUOTE]);
      RunOverBody(s, i + n, w[n..], start, marker);
    }
  }

  /** The number of bytes of the first character of a literal. */
  function CharLength(w: Text): nat
    requires w != []
  {
    if w[0] != BACKSLASH then 1 else if |w| >= 2 && Unletter(w[1]).Some? then 2 else 6
  }

  lemma OccursAt(s: Text, i: nat, w: Text)
    requires Occurs(s, i, w)
    ensures forall k :: 0 <= k < |w| ==> s[i + k] == w[k]
  {
    forall k | 0 <= k < |w| ensures s[i + k] == w[k] {
      assert s[i..i + |w|][k] == s[i + k];
    }
  }

  /** One character of a literal takes the automaton back to the state it was in. */
  lemma RunOverChar(s: Text, i: nat, w: Text, start: nat, marker: Option<nat>, n: nat)
    requires Scanning(s, InString, i, start, marker, ParseError)
    requires w != [] && StringBody(w) && i + |w| < |s|
    requires forall k :: 0 <= k < |w| ==> s[i + k] == w[k]
    requires n == CharLength(w)
    ensures n <= |w| && StringBody(w[n..])
    ensures Run(s, InString, i, start, marker, ParseError) == Run(s, InString, i + n, start, marker, ParseError)
  {
    hide Run;
    assert s[i + 0] == w[0];
    if n == 1 {
      StepAdvance(s, InString, i, start, marker, ParseError, InString);
    } else if n == 2 {
      assert s[i + 1] == w[1];
      StepAdvance(s, InString, i, start, marker, ParseError, Escaped);
      StepAdvance(s, Escaped, i + 1, start, marker, ParseError, InString);
    } else {
      assert UEscapeAt(w, 1);
      assert s[i + 1] == w[1] && s[i + 2] == w[2] && s[i + 3] == w[3] && s[i + 4] == w[4] && s[i + 5] == w[5];
      StepAdvance(s, InString, i, start, marker, ParseError, Escaped);
      StepAdvance(s, Escaped, i + 1, start, marker, ParseError, Hex1);
      StepAdvance(s, Hex1, i + 2, start, marker, ParseError, Hex2);
      StepAdvance(s, Hex2, i + 3, start, marker, ParseError, Hex3);
      StepAdvance(s, Hex3, i + 4, start, marker, ParseError, Hex4);
      StepAdvance(s, Hex4, i + 5, start, marker, ParseError, InString);
    }
  }

  /** After the opening quote only the bytes up to 0x0F are treated differently. */
  lemma OpenedIsInString(s: Text, i: nat, start: nat)
    requires start < i <= |s| && At(s, i) > 0x0F
    ensures Run(s, Opened, i, start, Some(i), ParseError) == Run(s, InString, i, start, Some(i), ParseError)
  {
    hide Delta;
    assert Delta(Opened, At(s, i)) == Delta(InString, At(s, i)) by {
      OpenedDelta(At(s, i));
    }
  }

  lemma OpenedDelta(c: Byte)
    requires c > 0x0F
    ensures Delta(Opened, c) == Delta(InString, c)
  {
  }

  /** A quoted literal is one string token, whatever follows it. */
  lemma ScanString(s: Text, p: nat, w: Text)
    requires StringBody(w) && Occurs(s, p, [QUOTE] + w + [QUOTE])
    ensures Scan(s, p) == Lexeme(ValueString, p, p + |w| + 2)
  {
    hide Run;
    OccursAt(s, p, [QUOTE] + w + [QUOTE]);
    assert s[p + 0] == QUOTE;
    assert [QUOTE] + w + [QUOTE] == [QUOTE] + (w + [QUOTE]);
    OccursSplit(s, p, [QUOTE], w + [QUOTE]);
    OccursAt(s, p + 1, w + [QUOTE]);
    assert s[p + 1 + 0] == (w + [QUOTE])[0];
    StepMark(s, Start, p, p, None, ParseError, Opened, ParseError);
    OpenedIsInString(s, p + 1, p);
    RunOverBody(s, p + 1, w, p, Some(p + 1));
  }

  /**
   * The part of a string consumed so far: an opening quote, complete characters, and then
   * the first `n` bytes of an escape.
   */
  predicate Consumed(w: Text, n: nat) {
    && |w| >= 1 + n && w[0] == QUOTE && StringBody(w[1..|w| - n])
    && (n >= 1 ==> w[|w| - n] == BACKSLASH)
    && (n >= 2 ==> w[|w| - n + 1] == U)
    && (forall k :: |w| - n + 2 <= k < |w| ==> IsHexDigit(w[k]))
  }

  function EscapeBytes(q: State): nat {
    match q
    case Escaped => 1
    case Hex1 => 2
    case Hex2 => 3
    case Hex3 => 4
    case Hex4 => 5
    case _ => 0
  }

  predicate StringState(q: State) {
    q.Opened? || q.InString? || q.Escaped? || q.Hex1? || q.Hex2? || q.Hex3? || q.Hex4?
  }

  lemma {:induction false} BodyAppend(a: Text, b: Text)
    requires StringBody(a) && StringBody(b)
    ensures StringBody(a + b)
    decreases |a|
  {
    if a == [] {
      assert a + b == b;
    } else {
      var n := CharLength(a);
      BodyAppend(a[n..], b);
      assert (a + b)[n..] == a[n..] + b;
    }
  }

  /** An escape, complete or not yet, stays where it is when a byte is added. */
  lemma Recut(w: Text, n: nat, c: Byte)
    requires 1 + n <= |w|
    ensures (w + [c])[1..|w| - n] == w[1..|w| - n]
    ensures (w + [c])[1..] == w[1..|w| - n] + (w[|w| - n..] + [c])
  {
  }

  /** Consuming one more byte of an escape that stays open. */
  lemma ConsumeOpen(w: Text, n: nat, c: Byte)
    requires n < 5 && Consumed(w, n)
    requires if n == 0 then c == BACKSLASH else if n == 1 then c == U else IsHexDigit(c)
    ensures Consumed(w + [c], n + 1)
  {
    Recut(w, n, c);
  }

  /** Consuming the byte that completes a character. */
  lemma ConsumeLast(w: Text, n: nat, c: Byte)
    requires Consumed(w, n)
    requires if n == 0 then IsPlain(c) else if n == 1 then Unletter(c).Some? else n == 5 && IsHexDigit(c)
    ensures Consumed(w + [c], 0)
  {
    Recut(w, n, c);
    var tail := w[|w| - n..] + [c];
    assert StringBody(tail) by {
      if n == 5 {
        assert UEscapeAt(tail, 1);
        assert tail[6..] == [];
      } else if n == 1 {
        assert tail[2..] == [];
      } else {
        assert tail[1..] == [];
      }
    }
    BodyAppend(w[1..|w| - n], tail);
    assert (w + [c])[1..|w + [c]| - 0] == (w + [c])[1..];
  }

  /** What the byte that the automaton advances over does to an escape. */
  lemma StringAdvance(q: State, c: Byte, q': State)
    requires StringState(q) && Delta(q, c) == Advance(q')
    ensures StringState(q') && EscapeBytes(q) <= 5
    ensures
      var n := EscapeBytes(q);
      if EscapeBytes(q') == 0 then
        if n == 0 then IsPlain(c) else if n == 1 then Unletter(c).Some? else n == 5 && IsHexDigit(c)
      else
        && EscapeBytes(q') == n + 1 && n < 5
        && if n == 0 then c == BACKSLASH else if n == 1 then c == U else IsHexDigit(c)
  {
  }

  /** Consuming one more byte of a string. */
  lemma ConsumeByte(w: Text, q: State, c: Byte, q': State)
    requires StringState(q) && Consumed(w, EscapeBytes(q))
    requires Delta(q, c) == Advance(q')
    ensures StringState(q') && Consumed(w + [c], EscapeBytes(q'))
  {
    hide *;
    StringAdvance(q, c, q');
    if EscapeBytes(q') == 0 {
      ConsumeLast(w, EscapeBytes(q), c);
    } else {
      ConsumeOpen(w, EscapeBytes(q), c);
    }
  }

  /** The range [start, end) is a literal between its quotes. */
  ghost predicate QuotedLiteral(s: Text, start: nat, end: nat) {
    && start + 2 <= end <= |s|
    && s[start] == QUOTE && s[end - 1] == QUOTE
    && StringBody(s[start + 1..end - 1])
  }

  /** How strings begin and end. */
  lemma StringSteps(q: State, c: Byte)
    ensures Delta(q, c).Advance? ==> c != NUL && StringState(Delta(q, c).q) == StringState(q)
    ensures Delta(q, c).Mark? ==>
      && c != NUL && !StringState(q)
      && (StringState(Delta(q, c).q) ==> q.Start? && c == QUOTE && EscapeBytes(Delta(q, c).q) == 0)
    ensures Delta(q, c) == Emit(ValueString) ==> StringState(q) && EscapeBytes(q) == 0 && c == QUOTE
    ensures Delta(q, c) != Stop(ValueString)
    ensures Delta(q, c).Rescan? ==> !StringState(q)
  {
  }

  lemma QuoteConsumed(s: Text, i: nat)
    requires i < |s| && s[i] == QUOTE
    ensures Consumed(s[i..i + 1], 0)
  {
    var w := s[i..i + 1];
    assert w[1..|w| - 0] == [];
  }

  lemma LiteralConsumed(s: Text, start: nat, i: nat)
    requires start < i < |s| && s[i] == QUOTE && Consumed(s[start..i], 0)
    ensures QuotedLiteral(s, start, i + 1)
  {
    hide StringBody;
    var w := s[start..i];
    assert w[1..|w| - 0] == s[start + 1..i];
  }

  lemma OneMore(s: Text, start: nat, i: nat)
    requires start <= i < |s|
    ensures s[start..i + 1] == s[start..i] + [s[i]]
  {
  }

  lemma StringBegins(
    s: Text, q: State, i: nat, start: nat, marker: Option<nat>, accept: TokenKind, q': State, k: TokenKind)
    requires Scanning(s, q, i, start, marker, accept) && Delta(q, At(s, i)) == Mark(q', k) && StringState(q')
    ensures i < |s| && Consumed(s[start..i + 1], EscapeBytes(q'))
  {
    hide Delta, Consumed, StringState;
    StringSteps(q, At(s, i));
    QuoteConsumed(s, i);
  }

  lemma StringEnds(s: Text, q: State, i: nat, start: nat, marker: Option<nat>, accept: TokenKind)
    requires Scanning(s, q, i, start, marker, accept) && Delta(q, At(s, i)) == Emit(ValueString)
    requires StringState(q) ==> Consumed(s[start..i], EscapeBytes(q))
    ensures QuotedLiteral(s, start, i + 1)
  {
    hide Delta, Consumed, StringState, EscapeBytes, QuotedLiteral;
    StringSteps(q, At(s, i));
    StartIsNoString();
    LiteralConsumed(s, start, i);
  }

  lemma {:induction false} RunStringSound(s: Text, q: State, i: nat, start: nat, marker: Option<nat>, accept: TokenKind)
    requires Scanning(s, q, i, start, marker, accept)
    requires StringState(q) ==> Consumed(s[start..i], EscapeBytes(q))
    ensures
      var r := Run(s, q, i, start, marker, accept);
      r.kind == ValueString ==> QuotedLiteral(s, r.start, r.end)
    decreases |s| - i, if q.Blank? then 1 else 0
  {
    hide Delta, Run, Scan, Scanning, Consumed, StringState, EscapeBytes, QuotedLiteral;
    Inside(s, q, i, start, marker, accept);
    var c := At(s, i);
    StringSteps(q, c);
    StartIsNoString();
    match Delta(q, c)
    case Advance(q') =>
      StepAdvance(s, q, i, start, marker, accept, q');
      if StringState(q) {
        OneMore(s, start, i);
        ConsumeByte(s[start..i], q, c, q');
      }
      RunStringSound(s, q', i + 1, start, marker, accept);
    case Mark(q', k) =>
      StepMark(s, q, i, start, marker, accept, q', k);
      if StringState(q') {
        StringBegins(s, q, i, start, marker, accept, q', k);
      }
      RunStringSound(s, q', i + 1, start, Some(i + 1), k);
    case Rescan(n) =>
      RunRescan(s, q, i, start, marker, accept, n);
      StartScans(s, i + n);
      RunStringSound(s, Start, i + n, i + n, None, ParseError);
    case Emit(k) =>
      StepEmit(s, q, i, start, marker, accept, k);
      if k == ValueString {
        StringEnds(s, q, i, start, marker, accept);
      }
    case Stop(k) =>
      StepStop(s, q, i, start, marker, accept, k);
    case Back =>
      StepBack(s, q, i, start, marker, accept);
  }

  lemma Inside(s: Text, q: State, i: nat, start: nat, marker: Option<nat>, accept: TokenKind)
    requires Scanning(s, q, i, start, marker, accept)
    ensures start <= i <= |s| && accept != ValueString
  {
  }

  lemma StartScans(s: Text, p: nat)
    requires p <= |s|
    ensures Scanning(s, Start, p, p, None, ParseError)
  {
  }

  lemma StartIsNoString()
    ensures !StringState(Start)
  {
  }

  /** Every string token is a quoted literal, so its value is defined. */
  lemma ScanStringSound(s: Text, p: nat)
    requires p <= |s| && Scan(s, p).kind == ValueString
    ensures QuotedLiteral(s, Scan(s, p).start, Scan(s, p).end)
  {
    RunStringSound(s, Start, p, p, None, ParseError);
  }

  // ---- Blanks ------------------------------------------------------------------------

  lemma {:induction false} RunBlank(s: Text, i: nat, start: nat, accept: TokenKind)
    requires Scanning(s, Blank, i, start, None, accept)
    ensures Run(s, Blank, i, start, None, accept) == Scan(s, i)
    decreases |s| - i
  {
    hide Run;
    if IsBlank(At(s, i)) {
      StepAdvance(s, Blank, i, start, None, accept, Blank);
      StepAdvance(s, Start, i, i, None, ParseError, Blank);
      RunBlank(s, i + 1, start, accept);
      RunBlank(s, i + 1, i, ParseError);
    } else {
      StepRescan(s, Blank, i, start, None, accept, 0);
    }
  }

  lemma ScanBlank(s: Text, p: nat)
    requires p < |s| && IsBlank(s[p])
    ensures Scan(s, p) == Scan(s, p + 1)
  {
    hide Run;
    StepStart(s, p);
    StepAdvance(s, Start, p, p, None, ParseError, Blank);
    RunBlank(s, p + 1, p, ParseError);
  }

  /** Blanks in front of a token do not matter. */
  lemma {:induction false} ScanBlanks(s: Text, p: nat, n: nat)
    requires p + n <= |s| && forall k :: p <= k < p + n ==> IsBlank(s[k])
    ensures Scan(s, p) == Scan(s, p + n)
    decreases n
  {
    if n > 0 {
      hide Scan;
      ScanBlank(s, p);
      ScanBlanks(s, p + 1, n - 1);
    }
  }

  // ---- Literals and punctuation ---------------------------------------------------------

  // The rows of the table that spell the literals.

  lemma NullTable(c: Byte)
    ensures c == 0x6E ==> Delta(Start, c) == Mark(N1, ParseError)
    ensures Delta(N1, c) == if c == 0x75 then Advance(N2) else Stop(ParseError)
    ensures Delta(N2, c) == if c == 0x6C then Advance(N3) else Back
    ensures Delta(N3, c) == if c == 0x6C then Emit(LiteralNull) else Back
  {
  }

  lemma TrueTable(c: Byte)
    ensures c == 0x74 ==> Delta(Start, c) == Mark(T1, ParseError)
    ensures Delta(T1, c) == if c == 0x72 then Advance(T2) else Stop(ParseError)
    ensures Delta(T2, c) == if c == 0x75 then Advance(T3) else Back
    ensures Delta(T3, c) == if c == 0x65 then Emit(LiteralTrue) else Back
  {
  }

  lemma FalseTable(c: Byte)
    ensures c == 0x66 ==> Delta(Start, c) == Mark(F1, ParseError)
    ensures Delta(F1, c) == if c == 0x61 then Advance(F2) else Stop(ParseError)
    ensures Delta(F2, c) == if c == 0x6C then Advance(F3) else Back
    ensures Delta(F3, c) == if c == 0x73 then Advance(F4) else Back
    ensures Delta(F4, c) == if c == 0x65 then Emit(LiteralFalse) else Back
  {
  }

  /** A literal is one token. */
  lemma ScanNull(s: Text, p: nat)
    requires Occurs(s, p, NULL_TEXT)
    ensures Scan(s, p) == Lexeme(LiteralNull, p, p + |NULL_TEXT|)
  {
    hide Run, Delta;
    OccursAt(s, p, NULL_TEXT);
    assert s[p + 0] == 0x6E && s[p + 1] == 0x75 && s[p + 2] == 0x6C && s[p + 3] == 0x6C;
    NullTable(s[p]);
    NullTable(s[p + 1]);
    NullTable(s[p + 2]);
    NullTable(s[p + 3]);
    StepMark(s, Start, p, p, None, ParseError, N1, ParseError);
    StepAdvance(s, N1, p + 1, p, Some(p + 1), ParseError, N2);
    StepAdvance(s, N2, p + 2, p, Some(p + 1), ParseError, N3);
    StepEmit(s, N3, p + 3, p, Some(p + 1), ParseError, LiteralNull);
  }

  lemma ScanTrue(s: Text, p: nat)
    requires Occurs(s, p, TRUE_TEXT)
    ensures Scan(s, p) == Lexeme(LiteralTrue, p, p + |TRUE_TEXT|)
  {
    hide Run, Delta;
    OccursAt(s, p, TRUE_TEXT);
    assert s[p + 0] == 0x74 && s[p + 1] == 0x72 && s[p + 2] == 0x75 && s[p + 3] == 0x65;
    TrueTable(s[p]);
    TrueTable(s[p + 1]);
    TrueTable(s[p + 2]);
    TrueTable(s[p + 3]);
    StepMark(s, Start, p, p, None, ParseError, T1, ParseError);
    StepAdvance(s, T1, p + 1, p, Some(p + 1), ParseError, T2);
    StepAdvance(s, T2, p + 2, p, Some(p + 1), ParseError, T3);
    StepEmit(s, T3, p + 3, p, Some(p + 1), ParseError, LiteralTrue);
  }

  lemma ScanFalse(s: Text, p: nat)
    requires Occurs(s, p, FALSE_TEXT)
    ensures Scan(s, p) == Lexeme(LiteralFalse, p, p + |FALSE_TEXT|)
  {
    hide Run, Delta;
    OccursAt(s, p, FALSE_TEXT);
    assert s[p + 0] == 0x66 && s[p + 1] == 0x61 && s[p + 2] == 0x6C && s[p + 3] == 0x73 && s[p + 4] == 0x65;
    FalseTable(s[p]);
    FalseTable(s[p + 1]);
    FalseTable(s[p + 2]);
    FalseTable(s[p + 3]);
    FalseTable(s[p + 4]);
    StepMark(s, Start, p, p, None, ParseError, F1, ParseError);
    StepAdvance(s, F1, p + 1, p, Some(p + 1), ParseError, F2);
    StepAdvance(s, F2, p + 2, p, Some(p + 1), ParseError, F3);
    StepAdvance(s, F3, p + 3, p, Some(p + 1), ParseError, F4);
    StepEmit(s, F4, p + 4, p, Some(p + 1), ParseError, LiteralFalse);
  }

  /** The tokens of one byte. */
  function Punctuation(c: Byte): Option<TokenKind> {
    if c == LBRACE then Some(BeginObject)
    else if c == RBRACE then Some(EndObject)
    else if c == LBRACKET then Some(BeginArray)
    else if c == RBRACKET then Some(EndArray)
    else if c == COLON then Some(NameSeparator)
    else if c == COMMA then Some(ValueSeparator)
    else None
  }

  lemma ScanPunctuation(s: Text, p: nat)
    requires p < |s| && Punctuation(s[p]).Some?
    ensures Scan(s, p) == Lexeme(Punctuation(s[p]).value, p, p + 1)
  {
    hide Run;
    StepEmit(s, Start, p, p, None, ParseError, Punctuation(s[p]).value);
  }

  /** The scan ends at the end of the text or at a NUL byte inside it. */
  lemma ScanEnd(s: Text, p: nat)
    requires p <= |s| && At(s, p) == NUL
    ensures Scan(s, p) == Lexeme(EndOfInput, p, p + 1)
  {
    hide Run;
    StepEmit(s, Start, p, p, None, ParseError, EndOfInput);
  }

  // ---- Integers --------------------------------------------------------------------------

  /** A byte that ends a number. */
  predicate EndsNumber(c: Byte) {
    !IsDigit(c) && c != DOT && !IsExp(c)
  }

  predicate AllDigits(w: Text) {
    forall k :: 0 <= k < |w| ==> IsDigit(w[k])
  }

  /** A decimal integer as RFC 7159 writes it, without fraction and exponent. */
  predicate IsInteger(w: Text) {
    var d := if w != [] && w[0] == MINUS then w[1..] else w;
    d != [] && AllDigits(d) && (|d| > 1 ==> d[0] != 0x30)
  }

  lemma {:induction false} RunOverDigits(s: Text, i: nat, n: nat, start: nat)
    requires start < i && i + n <= |s|
    requires forall k :: i <= k < i + n ==> IsDigit(s[k])
    requires EndsNumber(At(s, i + n))
    ensures Run(s, Integral, i, start, Some(i), ValueNumber) == Lexeme(ValueNumber, start, i + n)
    decreases n
  {
    hide Run;
    if n == 0 {
      StepStop(s, Integral, i, start, Some(i), ValueNumber, ValueNumber);
    } else {
      StepMark(s, Integral, i, start, Some(i), ValueNumber, Integral, ValueNumber);
      RunOverDigits(s, i + 1, n - 1, start);
    }
  }

  /** An integer up to a byte that ends a number is one token. */
  lemma ScanInteger(s: Text, p: nat, w: Text)
    requires Occurs(s, p, w) && IsInteger(w) && EndsNumber(At(s, p + |w|))
    ensures Scan(s, p) == Lexeme(ValueNumber, p, p + |w|)
  {
    hide Run;
    OccursAt(s, p, w);
    assert s[p + 0] == w[0];
    if w[0] == MINUS {
      assert w[1] == w[1..][0] && s[p + 1] == w[1];
      StepAdvance(s, Start, p, p, None, ParseError, Minus);
      ScanMagnitude(s, Minus, p, p + 1, w[1..]);
    } else {
      ScanMagnitude(s, Start, p, p, w);
    }
  }

  lemma ScanMagnitude(s: Text, q: State, p: nat, i: nat, d: Text)
    requires (q == Start && i == p) || (q == Minus && i == p + 1)
    requires i + |d| <= |s| && EndsNumber(At(s, i + |d|))
    requires forall k :: 0 <= k < |d| ==> s[i + k] == d[k]
    requires d != [] && AllDigits(d) && (|d| > 1 ==> d[0] != 0x30)
    ensures Run(s, q, i, p, None, ParseError) == Lexeme(ValueNumber, p, i + |d|)
  {
    hide Run;
    assert s[i + 0] == d[0];
    if d[0] == 0x30 {
      StepMark(s, q, i, p, None, ParseError, Zero, ValueNumber);
      StepStop(s, Zero, i + 1, p, Some(i + 1), ValueNumber, ValueNumber);
    } else {
      StepMark(s, q, i, p, None, ParseError, Integral, ValueNumber);
      forall k | i + 1 <= k < i + |d| ensures IsDigit(s[k]) {
        assert s[i + (k - i)] == d[k - i];
      }
      RunOverDigits(s, i + 1, |d| - 1, p);
    }
  }
}
