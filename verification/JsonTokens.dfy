/** The scanner as a whole: which token it returns at which place. */
module JsonTokens {
  import opened Bytes
  import opened JsonStrings
  import opened JsonDfa
  import opened JsonScan
  import opened JsonNumberTokens

  /** The byte order mark in UTF-8. */
  const BOM: Text := [0xEF, 0xBB, 0xBF]

  /** The position after blanks, and after byte order marks anywhere between tokens. */
  function Skip(s: Text, p: nat): (r: nat)
    requires p <= |s|
    ensures p <= r <= |s|
    decreases |s| - p
  {
    if p < |s| && IsBlank(s[p]) then Skip(s, p + 1)
    else if Occurs(s, p, BOM) then Skip(s, p + 3)
    else p
  }

  /**
   * The range `l` of `s` starts at `p` and is a token as RFC 7159 spells it, except that a string may
   * hold the bytes that `BodyIsRfcOrControl` names.
   */
  ghost predicate Legal(s: Text, p: nat, l: Lexeme)
    requires p <= |s|
  {
    && l.start == p
    && match l.kind
       case LiteralTrue => l.end == p + |TRUE_TEXT| && Occurs(s, p, TRUE_TEXT)
       case LiteralFalse => l.end == p + |FALSE_TEXT| && Occurs(s, p, FALSE_TEXT)
       case LiteralNull => l.end == p + |NULL_TEXT| && Occurs(s, p, NULL_TEXT)
       case ValueString => QuotedLiteral(s, p, l.end)
       case ValueNumber => NumberAt(s, p) && l.end == NumberEnd(s, p)
       case BeginArray | BeginObject | EndArray | EndObject | NameSeparator | ValueSeparator =>
         p < |s| && Punctuation(s[p]) == Some(l.kind) && l.end == p + 1
       case EndOfInput => At(s, p) == NUL && l.end == p + 1
       case ParseError => false
  }

  lemma ScanBom(s: Text, p: nat)
    requires Occurs(s, p, BOM)
    ensures Scan(s, p) == Scan(s, p + 3)
  {
    hide Run;
    OccursAt(s, p, BOM);
    assert s[p + 0] == 0xEF && s[p + 1] == 0xBB && s[p + 2] == 0xBF;
    StepMark(s, Start, p, p, None, ParseError, Bom1, ParseError);
    StepAdvance(s, Bom1, p + 1, p, Some(p + 1), ParseError, Bom2);
    StepRescan(s, Bom2, p + 2, p, Some(p + 1), ParseError, 1);
  }

  lemma {:induction false} ScanSkips(s: Text, p: nat)
    requires p <= |s|
    ensures Scan(s, p) == Scan(s, Skip(s, p))
    decreases |s| - p
  {
    hide Scan;
    if p < |s| && IsBlank(s[p]) {
      ScanBlanks(s, p, 1);
      ScanSkips(s, p + 1);
    } else if Occurs(s, p, BOM) {
      ScanBom(s, p);
      ScanSkips(s, p + 3);
    }
  }

  // ---- No token --------------------------------------------------------------------------------

  lemma SpelledOut(s: Text, p: nat)
    requires p + 3 <= |s|
    ensures Occurs(s, p, BOM) <==> s[p] == 0xEF && s[p + 1] == 0xBB && s[p + 2] == 0xBF
    ensures p + 4 <= |s| ==> s[p..p + 4] == [s[p], s[p + 1], s[p + 2], s[p + 3]]
    ensures p + 5 <= |s| ==> s[p..p + 5] == [s[p], s[p + 1], s[p + 2], s[p + 3], s[p + 4]]
  {
    assert s[p..p + 3] == [s[p], s[p + 1], s[p + 2]];
  }

  lemma NotNull(s: Text, p: nat)
    requires p < |s| && s[p] == 0x6E && !Occurs(s, p, NULL_TEXT)
    ensures Scan(s, p).kind == ParseError
  {
    hide Run, Delta;
    NullTable(s[p]);
    if p + 3 <= |s| { SpelledOut(s, p); }
    StepMark(s, Start, p, p, None, ParseError, N1, ParseError);
    NullTable(At(s, p + 1));
    if At(s, p + 1) != 0x75 {
      StepStop(s, N1, p + 1, p, Some(p + 1), ParseError, ParseError);
      return;
    }
    StepAdvance(s, N1, p + 1, p, Some(p + 1), ParseError, N2);
    NullTable(At(s, p + 2));
    if At(s, p + 2) != 0x6C {
      StepBack(s, N2, p + 2, p, Some(p + 1), ParseError);
      return;
    }
    StepAdvance(s, N2, p + 2, p, Some(p + 1), ParseError, N3);
    NullTable(At(s, p + 3));
    StepBack(s, N3, p + 3, p, Some(p + 1), ParseError);
  }

  lemma NotTrue(s: Text, p: nat)
    requires p < |s| && s[p] == 0x74 && !Occurs(s, p, TRUE_TEXT)
    ensures Scan(s, p).kind == ParseError
  {
    hide Run, Delta;
    TrueTable(s[p]);
    if p + 3 <= |s| { SpelledOut(s, p); }
    StepMark(s, Start, p, p, None, ParseError, T1, ParseError);
    TrueTable(At(s, p + 1));
    if At(s, p + 1) != 0x72 {
      StepStop(s, T1, p + 1, p, Some(p + 1), ParseError, ParseError);
      return;
    }
    StepAdvance(s, T1, p + 1, p, Some(p + 1), ParseError, T2);
    TrueTable(At(s, p + 2));
    if At(s, p + 2) != 0x75 {
      StepBack(s, T2, p + 2, p, Some(p + 1), ParseError);
      return;
    }
    StepAdvance(s, T2, p + 2, p, Some(p + 1), ParseError, T3);
    TrueTable(At(s, p + 3));
    StepBack(s, T3, p + 3, p, Some(p + 1), ParseError);
  }

  lemma NotFalse(s: Text, p: nat)
    requires p < |s| && s[p] == 0x66 && !Occurs(s, p, FALSE_TEXT)
    ensures Scan(s, p).kind == ParseError
  {
    hide Run, Delta;
    FalseTable(s[p]);
    if p + 3 <= |s| { SpelledOut(s, p); }
    StepMark(s, Start, p, p, None, ParseError, F1, ParseError);
    FalseTable(At(s, p + 1));
    if At(s, p + 1) != 0x61 {
      StepStop(s, F1, p + 1, p, Some(p + 1), ParseError, ParseError);
      return;
    }
    StepAdvance(s, F1, p + 1, p, Some(p + 1), ParseError, F2);
    FalseTable(At(s, p + 2));
    if At(s, p + 2) != 0x6C {
      StepBack(s, F2, p + 2, p, Some(p + 1), ParseError);
      return;
    }
    StepAdvance(s, F2, p + 2, p, Some(p + 1), ParseError, F3);
    FalseTable(At(s, p + 3));
    if At(s, p + 3) != 0x73 {
      StepBack(s, F3, p + 3, p, Some(p + 1), ParseError);
      return;
    }
    StepAdvance(s, F3, p + 3, p, Some(p + 1), ParseError, F4);
    FalseTable(At(s, p + 4));
    StepBack(s, F4, p + 4, p, Some(p + 1), ParseError);
  }

  /** A byte order mark that is not complete, or a byte that starts no token. */
  lemma NoToken(s: Text, p: nat)
    requires p < |s| && !Occurs(s, p, BOM)
    requires s[p] == 0xEF || Initial(s[p]) == Emit(ParseError)
    ensures Scan(s, p).kind == ParseError
  {
    hide Run;
    if s[p] != 0xEF {
      StepEmit(s, Start, p, p, None, ParseError, ParseError);
      return;
    }
    if p + 3 <= |s| { SpelledOut(s, p); }
    StepMark(s, Start, p, p, None, ParseError, Bom1, ParseError);
    if At(s, p + 1) != 0xBB {
      StepStop(s, Bom1, p + 1, p, Some(p + 1), ParseError, ParseError);
      return;
    }
    StepAdvance(s, Bom1, p + 1, p, Some(p + 1), ParseError, Bom2);
    StepBack(s, Bom2, p + 2, p, Some(p + 1), ParseError);
  }

  /** What starts like a string ends as a string or as an error. */
  lemma {:induction false} RunStringKind(s: Text, q: State, i: nat, start: nat, marker: nat)
    requires Scanning(s, q, i, start, Some(marker), ParseError) && StringState(q)
    ensures
      var r := Run(s, q, i, start, Some(marker), ParseError);
      r.start == start && (r.kind == ValueString || r.kind == ParseError)
    decreases |s| - i
  {
    hide Delta, Run;
    var c := At(s, i);
    StringSteps(q, c);
    StringOutcomes(q, c);
    match Delta(q, c)
    case Advance(q') =>
      StepAdvance(s, q, i, start, Some(marker), ParseError, q');
      RunStringKind(s, q', i + 1, start, marker);
    case Emit(k) => StepEmit(s, q, i, start, Some(marker), ParseError, k);
    case Stop(k) => StepStop(s, q, i, start, Some(marker), ParseError, k);
    case Back => StepBack(s, q, i, start, Some(marker), ParseError);
  }

  lemma StringOutcomes(q: State, c: Byte)
    requires StringState(q)
    ensures !Delta(q, c).Mark? && !Delta(q, c).Rescan?
    ensures Delta(q, c).Emit? ==> Delta(q, c).kind == ValueString
    ensures Delta(q, c).Stop? ==> Delta(q, c).kind == ParseError
  {
  }

  lemma StringOrError(s: Text, p: nat)
    requires p < |s| && s[p] == QUOTE
    ensures Scan(s, p).kind != ParseError ==> Legal(s, p, Scan(s, p))
  {
    hide Run;
    StepMark(s, Start, p, p, None, ParseError, Opened, ParseError);
    RunStringKind(s, Opened, p + 1, p, p + 1);
    if Scan(s, p).kind == ValueString {
      ScanStringSound(s, p);
    }
  }

  // ---- The theorem ---------------------------------------------------------------------------------

  lemma ScanIsLegal(s: Text, p: nat)
    requires p <= |s| && Skip(s, p) == p && Scan(s, p).kind != ParseError
    ensures Legal(s, p, Scan(s, p))
  {
    hide Scan, NumberEnd;
    if At(s, p) == NUL {
      ScanEnd(s, p);
    } else if Punctuation(s[p]).Some? {
      ScanPunctuation(s, p);
    } else if IsDigit(s[p]) || s[p] == MINUS {
      ScanNumber(s, p);
    } else if s[p] == QUOTE {
      StringOrError(s, p);
    } else if s[p] == 0x6E {
      if Occurs(s, p, NULL_TEXT) { ScanNull(s, p); } else { NotNull(s, p); }
    } else if s[p] == 0x74 {
      if Occurs(s, p, TRUE_TEXT) { ScanTrue(s, p); } else { NotTrue(s, p); }
    } else if s[p] == 0x66 {
      if Occurs(s, p, FALSE_TEXT) { ScanFalse(s, p); } else { NotFalse(s, p); }
    } else {
      NoToken(s, p);
    }
  }

  lemma LegalIsScanned(s: Text, p: nat, l: Lexeme)
    requires p <= |s| && Legal(s, p, l)
    ensures Scan(s, p) == l
  {
    hide Scan, NumberEnd;
    match l.kind
    case LiteralTrue => ScanTrue(s, p);
    case LiteralFalse => ScanFalse(s, p);
    case LiteralNull => ScanNull(s, p);
    case ValueString => LegalString(s, p, l.end);
    case ValueNumber => LegalNumber(s, p);
    case BeginArray | BeginObject | EndArray | EndObject | NameSeparator | ValueSeparator => ScanPunctuation(s, p);
    case EndOfInput => ScanEnd(s, p);
  }

  lemma LegalString(s: Text, p: nat, e: nat)
    requires QuotedLiteral(s, p, e)
    ensures Scan(s, p) == Lexeme(ValueString, p, e)
  {
    hide Scan, StringBody;
    var w := s[p + 1..e - 1];
    assert s[p..e] == [QUOTE] + w + [QUOTE];
    ScanString(s, p, w);
  }

  lemma LegalNumber(s: Text, p: nat)
    requires p <= |s| && NumberAt(s, p)
    ensures Scan(s, p) == Lexeme(ValueNumber, p, NumberEnd(s, p))
  {
    hide Scan, NumberEnd;
    ScanNumber(s, p);
  }

  /** The bytes of the grammar, as sections 2, 3, 6 and 7 of RFC 7159 list them. */
  lemma Alphabet(c: Byte)
    ensures IsBlank(c) <==> c == 0x20 || c == 0x09 || c == 0x0A || c == 0x0D
    ensures IsDigit(c) <==> 0x30 <= c <= 0x39
    ensures IsHexDigit(c) <==> 0x30 <= c <= 0x39 || 0x41 <= c <= 0x46 || 0x61 <= c <= 0x66
    ensures IsExp(c) <==> c == 0x65 || c == 0x45
    ensures IsSign(c) <==> c == 0x2D || c == 0x2B
    ensures NUL == 0x00 && QUOTE == 0x22 && MINUS == 0x2D && DOT == 0x2E && BOM == [0xEF, 0xBB, 0xBF]
    ensures Punctuation(c) ==
      if c == 0x5B then Some(BeginArray) else if c == 0x5D then Some(EndArray)
      else if c == 0x7B then Some(BeginObject) else if c == 0x7D then Some(EndObject)
      else if c == 0x3A then Some(NameSeparator) else if c == 0x2C then Some(ValueSeparator)
      else None
    ensures NULL_TEXT == [0x6E, 0x75, 0x6C, 0x6C] && TRUE_TEXT == [0x74, 0x72, 0x75, 0x65]
    ensures FALSE_TEXT == [0x66, 0x61, 0x6C, 0x73, 0x65]
  {
  }

  /**
   * Behind blanks and byte order marks the scanner returns the token that stands there, and an
   * error exactly when none does.
   */
  lemma ScanMeaning(s: Text, p: nat, l: Lexeme)
    requires p <= |s| && l.kind != ParseError
    ensures Scan(s, p) == l <==> Legal(s, Skip(s, p), l)
  {
    hide Scan, Legal;
    var q := Skip(s, p);
    ScanSkips(s, p);
    SkipTwice(s, p);
    if Legal(s, q, l) {
      LegalIsScanned(s, q, l);
    }
    if Scan(s, q) == l {
      ScanIsLegal(s, q);
    }
  }

  lemma {:induction false} SkipTwice(s: Text, p: nat)
    requires p <= |s|
    ensures Skip(s, Skip(s, p)) == Skip(s, p)
    decreases |s| - p
  {
    if p < |s| && IsBlank(s[p]) {
      SkipTwice(s, p + 1);
    } else if Occurs(s, p, BOM) {
      SkipTwice(s, p + 3);
    }
  }

  /** A byte that is not UTF-8 is scanned as a string, although the RFC has no such string. */
  lemma IllFormedString()
    ensures Scan([QUOTE, 0xFF, QUOTE], 0) == Lexeme(ValueString, 0, 3)
    ensures StringBody([0xFF]) && !RfcBody([0xFF]) && Escape([0xFF]) == [0xFF]
  {
    var s: Text := [QUOTE, 0xFF, QUOTE];
    assert s == [QUOTE] + [0xFF] + [QUOTE] && s[0..3] == s;
    ScanString(s, 0, [0xFF]);
  }
}
