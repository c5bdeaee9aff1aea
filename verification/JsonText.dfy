/** From bytes to values: which texts are accepted, and where reading stops. */
module JsonText {
  import opened Bytes
  import opened JsonStrings
  import opened JsonValue
  import opened JsonNumbers
  import opened JsonDfa
  import opened JsonScan
  import opened JsonTokens
  import opened JsonGrammar
  import JsonEscapes

  // ---- The texts that are accepted -----------------------------------------------------------

  /**
   * From position `p` on, `s` is spelled by these tokens: each stands where the one before it ends,
   * behind blanks and byte order marks, and the last one is the end of the input.
   */
  ghost predicate Spells(s: Text, p: nat, ls: seq<Lexeme>)
    requires p <= |s|
    decreases |ls|
  {
    && ls != []
    && Legal(s, JsonTokens.Skip(s, p), ls[0])
    && if ls[0].kind == EndOfInput then |ls| == 1 else ls[0].end <= |s| && Spells(s, ls[0].end, ls[1..])
  }

  lemma LegalIsToken(s: Text, p: nat, l: Lexeme)
    requires p <= |s| && Legal(s, JsonTokens.Skip(s, p), l)
    ensures IsToken(s, l) && Scan(s, p) == l
  {
    hide Scan, Legal;
    LegalKind(s, JsonTokens.Skip(s, p), l);
    ScanMeaning(s, p, l);
    ScannedIsToken(s, p);
  }

  lemma LegalKind(s: Text, p: nat, l: Lexeme)
    requires p <= |s| && Legal(s, p, l)
    ensures l.kind != ParseError
  {
  }

  /** The tokens of a spelling, with their values. */
  ghost function Tokens(s: Text, p: nat, ls: seq<Lexeme>): seq<Token>
    requires p <= |s| && Spells(s, p, ls)
    decreases |ls|
  {
    LegalIsToken(s, p, ls[0]);
    [TokenOf(s, ls[0])] + if ls[0].kind == EndOfInput then [] else Tokens(s, ls[0].end, ls[1..])
  }

  /** A spelling is what the lexer finds. */
  lemma {:induction false} SpellingIsLexed(s: Text, p: nat, ls: seq<Lexeme>)
    requires p <= |s| && Spells(s, p, ls)
    ensures Lex(s, p) == Tokens(s, p, ls)
    decreases |ls|
  {
    hide Scan, Legal, TokenOf;
    LegalIsToken(s, p, ls[0]);
    LegalKind(s, JsonTokens.Skip(s, p), ls[0]);
    if ls[0].kind != EndOfInput {
      SpellingIsLexed(s, ls[0].end, ls[1..]);
    }
  }

  /** The end of the input is the last token, and when it is found the tokens spell the text. */
  lemma {:induction false} LexedIsSpelled(s: Text, p: nat, k: nat) returns (ls: seq<Lexeme>)
    requires p <= |s| && k < |Lex(s, p)| && Lex(s, p)[k] == END_TOKEN
    ensures k == |Lex(s, p)| - 1
    ensures Spells(s, p, ls) && Lex(s, p) == Tokens(s, p, ls)
    decreases |s| + 1 - p
  {
    hide Scan, Legal;
    var l := Scan(s, p);
    ScannedIsToken(s, p);
    TokenKinds(s, l);
    if l.kind == EndOfInput {
      ls := [l];
    } else {
      hide TokenOf;
      assert k > 0 && l.kind != ParseError;
      var others := LexedIsSpelled(s, l.end, k - 1);
      ls := [l] + others;
      assert ls[1..] == others;
    }
    ScanMeaning(s, p, l);
    SpellingIsLexed(s, p, ls);
  }

  lemma TokenKinds(s: Text, l: Lexeme)
    requires IsToken(s, l)
    ensures TokenOf(s, l) == END_TOKEN <==> l.kind == EndOfInput
  {
  }

  /** The text is spelled by the tokens of the derivation and the end of the input. */
  ghost predicate Derives(s: Text, tree: Tree, ls: seq<Lexeme>) {
    Spells(s, 0, ls) && Tokens(s, 0, ls) == Yield(tree) + [END_TOKEN]
  }

  /** What is accepted has such a derivation. */
  lemma AcceptedDerives(s: Text, v: Json) returns (tree: Tree, ls: seq<Lexeme>)
    requires ParseText(Lex(s, 0)) == Ok(v)
    ensures Derives(s, tree, ls) && Value(tree) == v
  {
    hide Lex, Yield, Value, Spells, Tokens, ParseValue;
    var t := Lex(s, 0);
    tree := ParsedHasTree(t);
    var w, rest := Yield(tree), ParseValue(t).value.1;
    assert t[|w|] == rest[0] == END_TOKEN;
    ls := LexedIsSpelled(s, 0, |w|);
    assert rest == [END_TOKEN];
  }

  lemma DerivedAccepts(s: Text, v: Json, tree: Tree, ls: seq<Lexeme>)
    requires Derives(s, tree, ls) && Value(tree) == v
    ensures ParseText(Lex(s, 0)) == Ok(v)
  {
    hide Lex, Yield, Value, Spells, Tokens, ParseValue;
    SpellingIsLexed(s, 0, ls);
    ParseYield(tree, [END_TOKEN]);
  }

  /**
   * `parse` accepts a text with a value if and only if the text is spelled by tokens, one behind the
   * other up to the end of the input, that the grammar derives with that value.
   */
  lemma AcceptedTexts(s: Text, v: Json)
    ensures ParseText(Lex(s, 0)) == Ok(v) <==> exists tree, ls :: Derives(s, tree, ls) && Value(tree) == v
  {
    hide *;
    if ParseText(Lex(s, 0)) == Ok(v) {
      var tree, ls := AcceptedDerives(s, v);
    }
    if tree, ls :| Derives(s, tree, ls) && Value(tree) == v {
      DerivedAccepts(s, v, tree, ls);
    }
  }

  // ---- Why texts are refused -----------------------------------------------------------------------

  /** A token whose value could not be made is refused with `std::invalid_argument`. */
  predicate Ordinary(t: seq<Token>) {
    forall k :: 0 <= k < |t| ==>
      && (t[k].Str? && t[k].text.Err? ==> t[k].text.error == InvalidArgument)
      && (t[k].Num? && t[k].number.Err? ==> t[k].number.error == InvalidArgument)
  }

  lemma TokenIsOrdinary(s: Text, l: Lexeme)
    requires IsToken(s, l)
    ensures Ordinary([TokenOf(s, l)])
  {
    hide NumberValue;
    if l.kind == ValueString {
      JsonEscapes.UnescapeMeaning(s[l.start + 1..l.end - 1], []);
    } else if l.kind == ValueNumber {
      NumberFails(s, l.start, l.end);
    }
  }

  lemma NumberFails(s: Text, start: nat, end: nat)
    requires start < end <= |s|
    ensures NumberValue(s, start, end).Err? ==> NumberValue(s, start, end).error == InvalidArgument
  {
    hide Strtoull, Strtoll, StrtodEnd;
  }

  lemma {:induction false} LexIsOrdinary(s: Text, p: nat)
    requires p <= |s|
    ensures Ordinary(Lex(s, p))
    decreases |s| + 1 - p
  {
    hide Scan, TokenOf;
    var l := Scan(s, p);
    ScannedIsToken(s, p);
    TokenIsOrdinary(s, l);
    if l.kind != EndOfInput && l.kind != ParseError {
      LexIsOrdinary(s, l.end);
    }
  }

  lemma {:induction false} ValueFails(t: seq<Token>)
    requires Ordinary(t)
    ensures ParseValue(t).Err? ==> ParseValue(t).error == InvalidArgument
    ensures ParseValue(t).Ok? ==> Ordinary(ParseValue(t).value.1)
    decreases |t|, 0
  {
    hide ParseItems, ParsePairs;
    if t != [] {
      ItemsFail(t[1..], []);
      PairsFail(t[1..], []);
    }
  }

  lemma {:induction false} ItemsFail(t: seq<Token>, acc: seq<Json>)
    requires Ordinary(t)
    ensures ParseItems(t, acc).Err? ==> ParseItems(t, acc).error == InvalidArgument
    ensures ParseItems(t, acc).Ok? ==> Ordinary(ParseItems(t, acc).value.1)
    decreases |t|, 1
  {
    hide ParseValue;
    var u := JsonGrammar.Skip(t, COMMA_TOKEN);
    ValueFails(u);
    if ParseValue(u).Ok? && Starts(ParseValue(u).value.1, COMMA_TOKEN) {
      ItemsFail(ParseValue(u).value.1, acc + [ParseValue(u).value.0]);
    }
  }

  lemma {:induction false} MemberFails(u: seq<Token>)
    requires Ordinary(u)
    ensures ParseMember(u).Err? ==> ParseMember(u).error == InvalidArgument
    ensures ParseMember(u).Ok? ==> Ordinary(ParseMember(u).value.1)
    decreases |u|, 1
  {
    hide ParseValue;
    if |u| >= 2 {
      ValueFails(u[1..][1..]);
    }
  }

  lemma {:induction false} PairsFail(t: seq<Token>, acc: seq<Member>)
    requires Ordinary(t)
    ensures ParsePairs(t, acc).Err? ==> ParsePairs(t, acc).error == InvalidArgument
    ensures ParsePairs(t, acc).Ok? ==> Ordinary(ParsePairs(t, acc).value.1)
    decreases |t|, 2
  {
    hide ParseMember, Insert;
    var u := JsonGrammar.Skip(t, COMMA_TOKEN);
    MemberFails(u);
    if ParseMember(u).Ok? && Starts(ParseMember(u).value.1, COMMA_TOKEN) {
      var (m, rest) := ParseMember(u).value;
      PairsFail(rest, Insert(acc, m.key, m.value));
    }
  }

  /** A text that is not accepted is refused with `std::invalid_argument`; `std::out_of_range` does not occur. */
  lemma RefusedTexts(s: Text)
    ensures ParseText(Lex(s, 0)).Err? ==> ParseText(Lex(s, 0)) == Err(InvalidArgument)
  {
    hide Lex, ParseValue;
    LexIsOrdinary(s, 0);
    ValueFails(Lex(s, 0));
  }

  // ---- Where reading stops -----------------------------------------------------------------------

  /** Position `k` holds the first NUL byte. */
  predicate FirstNul(s: Text, k: nat) {
    k < |s| && s[k] == NUL && forall i :: 0 <= i < k ==> s[i] != NUL
  }

  lemma PrefixScans(s: Text, k: nat, q: State, i: nat, start: nat, marker: Option<nat>, accept: TokenKind)
    requires i <= k <= |s| && Scanning(s, q, i, start, marker, accept)
    ensures Scanning(s[..k], q, i, start, marker, accept)
  {
  }

  lemma {:induction false} RunStops(
    s: Text, k: nat, q: State, i: nat, start: nat, marker: Option<nat>, accept: TokenKind)
    requires FirstNul(s, k) && i <= k && Scanning(s, q, i, start, marker, accept)
    ensures Scanning(s[..k], q, i, start, marker, accept)
    ensures Run(s, q, i, start, marker, accept) == Run(s[..k], q, i, start, marker, accept)
    decreases |s| - i, if q.Blank? then 1 else 0
  {
    hide Delta, Run, Scanning, NeedsMark, Scan;
    var u, c := s[..k], At(s, i);
    PrefixScans(s, k, q, i, start, marker, accept);
    assert At(u, i) == c && (c != NUL ==> i < k);
    hide At, FirstNul;
    DeltaSafe(q, c);
    match Delta(q, c)
    case Advance(q') =>
      StepAdvance(s, q, i, start, marker, accept, q');
      StepAdvance(u, q, i, start, marker, accept, q');
      RunStops(s, k, q', i + 1, start, marker, accept);
    case Mark(q', a) =>
      StepMark(s, q, i, start, marker, accept, q', a);
      StepMark(u, q, i, start, marker, accept, q', a);
      RunStops(s, k, q', i + 1, start, Some(i + 1), a);
    case Rescan(n) =>
      RunRescan(s, q, i, start, marker, accept, n);
      RunRescan(u, q, i, start, marker, accept, n);
      StartScans(s, i + n);
      RunStops(s, k, Start, i + n, i + n, None, ParseError);
    case _ => RunEnds(s, u, q, i, start, marker, accept);
  }

  /** Where a scan ends, only the byte that ends it matters. */
  lemma RunEnds(s: Text, u: Text, q: State, i: nat, start: nat, marker: Option<nat>, accept: TokenKind)
    requires Scanning(s, q, i, start, marker, accept) && Scanning(u, q, i, start, marker, accept)
    requires At(s, i) == At(u, i)
    requires Delta(q, At(s, i)).Emit? || Delta(q, At(s, i)).Stop? || Delta(q, At(s, i)).Back?
    ensures Run(s, q, i, start, marker, accept) == Run(u, q, i, start, marker, accept)
  {
    var c := At(s, i);
    hide Run, Delta, Scanning;
    match Delta(q, c)
    case Emit(a) =>
      StepEmit(s, q, i, start, marker, accept, a);
      StepEmit(u, q, i, start, marker, accept, a);
    case Stop(a) =>
      StepStop(s, q, i, start, marker, accept, a);
      StepStop(u, q, i, start, marker, accept, a);
    case Back =>
      StepBack(s, q, i, start, marker, accept);
      StepBack(u, q, i, start, marker, accept);
  }

  lemma {:induction false} DigitsStopAtNul(s: Text, k: nat, i: nat)
    requires FirstNul(s, k) && i <= k
    ensures DigitsEnd(s[..k], i) == DigitsEnd(s, i) <= k
    decreases k - i
  {
    if i < k && IsDigit(s[i]) {
      DigitsStopAtNul(s, k, i + 1);
    }
  }

  /** The C library functions stop at the NUL byte too. */
  lemma NumberStops(s: Text, k: nat, start: nat, end: nat)
    requires FirstNul(s, k) && start < end <= k
    ensures NumberValue(s, start, end) == NumberValue(s[..k], start, end)
  {
    hide DigitsEnd, DigitsValue, StrtodEnd;
    var u, p := s[..k], start;
    DigitsStopAtNul(s, k, p);
    DigitsStopAtNul(s, k, p + 1);
    StrtodStops(s, k, p);
    Slice(s, k, p, DigitsEnd(s, p));
    Slice(s, k, p + 1, DigitsEnd(s, p + 1));
    Slice(s, k, start, end);
  }

  lemma Slice(s: Text, k: nat, i: nat, j: nat)
    requires i <= j <= k <= |s|
    ensures s[..k][i..j] == s[i..j]
  {
  }

  /** A byte before the NUL, or the NUL itself, is the same in both texts. */
  lemma SameByte(s: Text, k: nat, i: nat)
    requires FirstNul(s, k) && i <= k
    ensures i <= |s| && At(s[..k], i) == At(s, i) && (i < k <==> At(s, i) != NUL)
  {
  }

  lemma StrtodStops(s: Text, k: nat, p: nat)
    requires FirstNul(s, k) && p <= k
    ensures StrtodEnd(s, p) == StrtodEnd(s[..k], p)
  {
    hide DigitsEnd, FirstNul, At;
    NulIsNothing();
    SameByte(s, k, p);
    var i := if At(s, p) == MINUS then p + 1 else p;
    DigitsStopAtNul(s, k, i);
    var j := DigitsEnd(s, i);
    SameByte(s, k, j);
    var e := j;
    if At(s, j) == DOT {
      DigitsStopAtNul(s, k, j + 1);
      e := DigitsEnd(s, j + 1);
    }
    SameByte(s, k, e);
    if IsExp(At(s, e)) {
      SameByte(s, k, e + 1);
      var m := if At(s, e + 1) == PLUS || At(s, e + 1) == MINUS then e + 2 else e + 1;
      SameByte(s, k, m);
      if IsDigit(At(s, m)) {
        DigitsStopAtNul(s, k, m);
      }
    }
  }

  lemma NulIsNothing()
    ensures !IsExp(NUL) && !IsDigit(NUL)
  {
  }

  /** What stands behind the first NUL byte makes no difference. */
  lemma {:induction false} LexStops(s: Text, k: nat, p: nat)
    requires FirstNul(s, k) && p <= k
    ensures Lex(s, p) == Lex(s[..k], p)
    decreases k - p
  {
    hide Run, TokenOf;
    var u := s[..k];
    StepStart(s, p);
    StepStart(u, p);
    RunStops(s, k, Start, p, p, None, ParseError);
    var l := Scan(s, p);
    hide Scan;
    ScannedIsToken(s, p);
    ScannedIsToken(u, p);
    TokenStops(s, k, l);
    if l.kind != EndOfInput && l.kind != ParseError {
      LexStops(s, k, l.end);
    }
  }

  lemma TokenStops(s: Text, k: nat, l: Lexeme)
    requires FirstNul(s, k) && IsToken(s, l) && IsToken(s[..k], l)
    ensures TokenOf(s, l) == TokenOf(s[..k], l)
  {
    hide NumberValue, Unescape;
    if l.kind == ValueNumber {
      NumberStops(s, k, l.start, l.end);
    } else if l.kind == ValueString {
      assert s[l.start + 1..l.end - 1] == s[..k][l.start + 1..l.end - 1];
    }
  }

  /** A text means what the part before its first NUL byte means. */
  lemma NulEndsText(s: Text, k: nat)
    requires FirstNul(s, k)
    ensures ParseText(Lex(s, 0)) == ParseText(Lex(s[..k], 0))
  {
    hide ParseText, Lex;
    LexStops(s, k, 0);
  }
}
