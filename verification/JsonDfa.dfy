/**
 * The scanner's automaton.  A state is a label of the generated code at which the next
 * byte is examined; `Delta` is what the code does with that byte.
 */
module JsonDfa {
  import opened Bytes
  import opened JsonStrings

  datatype TokenKind =
    | LiteralTrue | LiteralFalse | LiteralNull
    | ValueString | ValueNumber
    | BeginArray | BeginObject | EndArray | EndObject
    | NameSeparator | ValueSeparator
    | ParseError | EndOfInput

  datatype State =
    | Start
    | Blank                                     // label 6
    | Opened | InString | Escaped               // labels 9, 32, 36
    | Hex1 | Hex2 | Hex3 | Hex4                 // labels 43, 54, 60, 63
    | Minus | Zero | Integral                   // labels 12, 13, 15
    | Point | Fraction | Exponent               // labels 37, 44, 38
    | ExponentSign | ExponentDigits             // labels 46, 47
    | F1 | F2 | F3 | F4                         // labels 23, 39, 49, 55
    | N1 | N2 | N3                              // labels 24, 40, 50
    | T1 | T2 | T3                              // labels 25, 41, 51
    | Bom1 | Bom2                               // labels 30, 42

  datatype Action =
    | Advance(q: State)                         // ++m_cursor, then examine the next byte in q
    | Mark(q: State, accept: TokenKind)         // the same, remembering the place and yyaccept
    | Emit(kind: TokenKind)                     // ++m_cursor, then return
    | Stop(kind: TokenKind)                     // return without consuming the byte
    | Back                                      // label 33: return to the remembered place
    | Rescan(consumed: nat)                     // return scan()

  predicate IsBlank(c: Byte) {
    c == TAB || c == LF || c == CR || c == SPACE
  }

  /** Bytes that stand for themselves in a string. */
  predicate IsPlain(c: Byte) {
    c >= 0x10 && c != QUOTE && c != BACKSLASH
  }

  predicate IsExp(c: Byte) {
    c == 0x45 || c == 0x65
  }

  function Initial(c: Byte): Action {
    if IsBlank(c) then Advance(Blank)
    else if c == NUL then Emit(EndOfInput)
    else if c == QUOTE then Mark(Opened, ParseError)
    else if c == COMMA then Emit(ValueSeparator)
    else if c == MINUS then Advance(Minus)
    else if c == 0x30 then Mark(Zero, ValueNumber)
    else if IsDigit(c) then Mark(Integral, ValueNumber)
    else if c == COLON then Emit(NameSeparator)
    else if c == LBRACKET then Emit(BeginArray)
    else if c == RBRACKET then Emit(EndArray)
    else if c == 0x66 then Mark(F1, ParseError)
    else if c == 0x6E then Mark(N1, ParseError)
    else if c == 0x74 then Mark(T1, ParseError)
    else if c == LBRACE then Emit(BeginObject)
    else if c == RBRACE then Emit(EndObject)
    else if c == 0xEF then Mark(Bom1, ParseError)
    else Emit(ParseError)
  }

  function InsideString(c: Byte): Action {
    if IsPlain(c) then Advance(InString)
    else if c <= 0x0F then Back
    else if c == QUOTE then Emit(ValueString)
    else Advance(Escaped)
  }

  function Hex(c: Byte, q: State): Action {
    if IsHexDigit(c) then Advance(q) else Back
  }

  /** The second and later letters of a literal. */
  function Letter(c: Byte, expected: Byte, next: Action): Action {
    if c == expected then next else Back
  }

  function Delta(q: State, c: Byte): Action {
    match q
    case Start => Initial(c)
    case Blank => if IsBlank(c) then Advance(Blank) else Rescan(0)
    case Opened => if c <= 0x0F then Stop(ParseError) else InsideString(c)
    case InString => InsideString(c)
    case Escaped =>
      if Unletter(c).Some? then Advance(InString) else if c == U then Advance(Hex1) else Back
    case Hex1 => Hex(c, Hex2)
    case Hex2 => Hex(c, Hex3)
    case Hex3 => Hex(c, Hex4)
    case Hex4 => Hex(c, InString)
    case Minus =>
      if c == 0x30 then Mark(Zero, ValueNumber)
      else if IsDigit(c) then Mark(Integral, ValueNumber)
      else Stop(ParseError)
    case Zero =>
      if c == DOT then Advance(Point) else if IsExp(c) then Advance(Exponent) else Stop(ValueNumber)
    case Integral =>
      if IsDigit(c) then Mark(Integral, ValueNumber)
      else if c == DOT then Advance(Point)
      else if IsExp(c) then Advance(Exponent)
      else Stop(ValueNumber)
    case Point => if IsDigit(c) then Mark(Fraction, ValueNumber) else Back
    case Fraction =>
      if IsDigit(c) then Mark(Fraction, ValueNumber)
      else if IsExp(c) then Advance(Exponent)
      else Stop(ValueNumber)
    case Exponent =>
      if c == PLUS || c == MINUS then Advance(ExponentSign)
      else if IsDigit(c) then Advance(ExponentDigits)
      else Back
    case ExponentSign => if IsDigit(c) then Advance(ExponentDigits) else Back
    case ExponentDigits => if IsDigit(c) then Advance(ExponentDigits) else Stop(ValueNumber)
    case F1 => if c == 0x61 then Advance(F2) else Stop(ParseError)
    case F2 => Letter(c, 0x6C, Advance(F3))
    case F3 => Letter(c, 0x73, Advance(F4))
    case F4 => Letter(c, 0x65, Emit(LiteralFalse))
    case N1 => if c == 0x75 then Advance(N2) else Stop(ParseError)
    case N2 => Letter(c, 0x6C, Advance(N3))
    case N3 => Letter(c, 0x6C, Emit(LiteralNull))
    case T1 => if c == 0x72 then Advance(T2) else Stop(ParseError)
    case T2 => Letter(c, 0x75, Advance(T3))
    case T3 => Letter(c, 0x65, Emit(LiteralTrue))
    case Bom1 => if c == 0xBB then Advance(Bom2) else Stop(ParseError)
    case Bom2 => Letter(c, 0xBF, Rescan(1))
  }

  /** A token: the range [m_start, m_cursor) and its kind. */
  datatype Lexeme = Lexeme(kind: TokenKind, start: nat, end: nat)

  /** States in which label 33 can be reached, so that a place must have been remembered. */
  predicate NeedsMark(q: State) {
    !(q.Start? || q.Blank? || q.Minus?)
  }

  /** Start, cursor and marker of a scan in progress. */
  ghost predicate Scanning(s: Text, q: State, i: nat, start: nat, marker: Option<nat>, accept: TokenKind) {
    && start <= i <= |s|
    && (q.Start? <==> i == start)
    && (NeedsMark(q) ==> marker.Some?)
    && (marker.Some? ==> start < marker.value <= i)
    && (accept == ParseError || accept == ValueNumber)
  }

  /** What the table must guarantee for a scan to stay inside the text and its marker to be set. */
  lemma DeltaSafe(q: State, c: Byte)
    ensures Delta(q, c).Advance? ==>
      c != NUL && !Delta(q, c).q.Start? && (NeedsMark(Delta(q, c).q) ==> NeedsMark(q))
    ensures Delta(q, c).Mark? ==>
      c != NUL && !Delta(q, c).q.Start? && (Delta(q, c).accept == ParseError || Delta(q, c).accept == ValueNumber)
    ensures Delta(q, c).Emit? ==> (c == NUL <==> Delta(q, c).kind == EndOfInput)
    ensures Delta(q, c).Stop? ==> !q.Start? && Delta(q, c).kind != EndOfInput
    ensures Delta(q, c).Back? ==> NeedsMark(q)
    ensures Delta(q, c).Rescan? ==>
      if q.Blank? then Delta(q, c).consumed == 0 else c != NUL && Delta(q, c).consumed == 1
  {
  }

  /** The scan from state `q` at position `i` on. */
  function Run(s: Text, q: State, i: nat, start: nat, marker: Option<nat>, accept: TokenKind): (r: Lexeme)
    requires Scanning(s, q, i, start, marker, accept)
    ensures start <= r.start < r.end
    ensures r.end <= |s| || (r.kind == EndOfInput && r.end == |s| + 1)
    decreases |s| - i, if q.Blank? then 1 else 0
  {
    hide Delta;
    DeltaSafe(q, At(s, i));
    match Delta(q, At(s, i))
    case Advance(q') => Run(s, q', i + 1, start, marker, accept)
    case Mark(q', k) => Run(s, q', i + 1, start, Some(i + 1), k)
    case Emit(k) => Lexeme(k, start, i + 1)
    case Stop(k) => Lexeme(k, start, i)
    case Back => Lexeme(accept, start, marker.value)
    case Rescan(n) => Run(s, Start, i + n, i + n, None, ParseError)
  }

  /** The token found when scanning starts at position `p`. */
  function Scan(s: Text, p: nat): (r: Lexeme)
    requires p <= |s|
    ensures p <= r.start < r.end
    ensures r.end <= |s| || (r.kind == EndOfInput && r.end == |s| + 1)
  {
    Run(s, Start, p, p, None, ParseError)
  }

  // One step of a scan, action by action.

  lemma StepStart(s: Text, p: nat)
    requires p <= |s|
    ensures Scan(s, p) == Run(s, Start, p, p, None, ParseError)
  {
    hide Run;
  }

  lemma StepAdvance(s: Text, q: State, i: nat, start: nat, marker: Option<nat>, accept: TokenKind, q': State)
    requires Scanning(s, q, i, start, marker, accept) && Delta(q, At(s, i)) == Advance(q')
    ensures i < |s| && Scanning(s, q', i + 1, start, marker, accept)
    ensures Run(s, q, i, start, marker, accept) == Run(s, q', i + 1, start, marker, accept)
  {
    hide Delta;
    DeltaSafe(q, At(s, i));
  }

  lemma StepMark(s: Text, q: State, i: nat, start: nat, marker: Option<nat>, accept: TokenKind, q': State, k: TokenKind)
    requires Scanning(s, q, i, start, marker, accept) && Delta(q, At(s, i)) == Mark(q', k)
    ensures i < |s| && Scanning(s, q', i + 1, start, Some(i + 1), k)
    ensures Run(s, q, i, start, marker, accept) == Run(s, q', i + 1, start, Some(i + 1), k)
  {
    hide Delta;
    DeltaSafe(q, At(s, i));
  }

  lemma RunRescan(s: Text, q: State, i: nat, start: nat, marker: Option<nat>, accept: TokenKind, n: nat)
    requires Scanning(s, q, i, start, marker, accept) && Delta(q, At(s, i)) == Rescan(n)
    ensures n == (if q.Blank? then 0 else 1) && i + n <= |s|
    ensures Run(s, q, i, start, marker, accept) == Run(s, Start, i + n, i + n, None, ParseError)
  {
    hide Delta;
    DeltaSafe(q, At(s, i));
  }

  lemma StepRescan(s: Text, q: State, i: nat, start: nat, marker: Option<nat>, accept: TokenKind, n: nat)
    requires Scanning(s, q, i, start, marker, accept) && Delta(q, At(s, i)) == Rescan(n)
    ensures n == (if q.Blank? then 0 else 1) && i + n <= |s|
    ensures Run(s, q, i, start, marker, accept) == Scan(s, i + n)
  {
    hide Run, Delta;
    RunRescan(s, q, i, start, marker, accept, n);
  }

  lemma StepEmit(s: Text, q: State, i: nat, start: nat, marker: Option<nat>, accept: TokenKind, k: TokenKind)
    requires Scanning(s, q, i, start, marker, accept) && Delta(q, At(s, i)) == Emit(k)
    ensures Run(s, q, i, start, marker, accept) == Lexeme(k, start, i + 1)
  {
    hide Delta;
  }

  lemma StepStop(s: Text, q: State, i: nat, start: nat, marker: Option<nat>, accept: TokenKind, k: TokenKind)
    requires Scanning(s, q, i, start, marker, accept) && Delta(q, At(s, i)) == Stop(k)
    ensures Run(s, q, i, start, marker, accept) == Lexeme(k, start, i)
  {
    hide Delta;
  }

  lemma StepBack(s: Text, q: State, i: nat, start: nat, marker: Option<nat>, accept: TokenKind)
    requires Scanning(s, q, i, start, marker, accept) && Delta(q, At(s, i)) == Back
    ensures marker.Some? && Run(s, q, i, start, marker, accept) == Lexeme(accept, start, marker.value)
  {
    hide Delta;
    DeltaSafe(q, At(s, i));
  }
}
