/** Parsing what `dump` prints gives back an equal value. */
module JsonRoundTrip {
  import opened Bytes
  import opened JsonStrings
  import opened JsonValue
  import opened JsonNumbers
  import opened JsonDfa
  import opened JsonScan
  import opened JsonGrammar
  import opened JsonDump
  import JsonOrder

  // ---- The value that comes back ---------------------------------------------------

  /** A number without a minus sign is read as unsigned. */
  function Reread(v: Json): Json
    decreases v
  {
    match v
    case Integer(i) => if i < 0 then v else Unsigned(i)
    case Array(xs) => Array(RereadItems(xs))
    case Object(ms) => Object(RereadMembers(ms))
    case _ => v
  }

  function RereadItems(xs: seq<Json>): (ys: seq<Json>)
    ensures |ys| == |xs| && forall i :: 0 <= i < |xs| ==> ys[i] == Reread(xs[i])
    decreases xs
  {
    if xs == [] then [] else [Reread(xs[0])] + RereadItems(xs[1..])
  }

  function RereadMembers(ms: seq<Member>): (ns: seq<Member>)
    ensures |ns| == |ms|
    ensures forall i :: 0 <= i < |ms| ==> ns[i] == Member(ms[i].key, Reread(ms[i].value))
    decreases ms
  {
    if ms == [] then [] else [Member(ms[0].key, Reread(ms[0].value))] + RereadMembers(ms[1..])
  }

  /** It is equal to the value printed under `operator==`. */
  lemma {:induction false} RereadIsEqual(v: Json)
    requires FloatFree(v)
    ensures FloatFree(Reread(v)) && JsonOrder.Eq(v, Reread(v))
    decreases v
  {
    match v
    case Array(xs) =>
      forall i | 0 <= i < |xs| ensures FloatFree(Reread(xs[i])) && JsonOrder.Eq(xs[i], Reread(xs[i])) {
        RereadIsEqual(xs[i]);
      }
    case Object(ms) =>
      forall i | 0 <= i < |ms|
        ensures FloatFree(Reread(ms[i].value)) && JsonOrder.Eq(ms[i].value, Reread(ms[i].value))
      {
        RereadIsEqual(ms[i].value);
      }
    case _ =>
  }

  /** No signed number that is not negative, at any depth. */
  predicate Canonical(v: Json) {
    match v
    case Integer(i) => i < 0
    case Array(xs) => forall x | x in xs :: Canonical(x)
    case Object(ms) => forall m | m in ms :: Canonical(m.value)
    case _ => true
  }

  /** The value that comes back is the very value printed exactly when that one is canonical. */
  lemma {:induction false} RereadIdentity(v: Json)
    ensures Canonical(Reread(v))
    ensures Reread(v) == v <==> Canonical(v)
    decreases v
  {
    match v
    case Array(xs) =>
      var ys := RereadItems(xs);
      forall i | 0 <= i < |xs| ensures Canonical(ys[i]) && (ys[i] == xs[i] <==> Canonical(xs[i])) {
        RereadIdentity(xs[i]);
      }
    case Object(ms) =>
      var ns := RereadMembers(ms);
      forall i | 0 <= i < |ms| ensures Canonical(ns[i].value) && (ns[i] == ms[i] <==> Canonical(ms[i].value)) {
        RereadIdentity(ms[i].value);
      }
    case _ =>
  }

  // ---- The derivation of a printed value -----------------------------------------------

  function TreeOf(v: Json): Tree
    requires FloatFree(v)
    decreases v
  {
    match v
    case Null => TreeNull
    case Boolean(b) => TreeBoolean(b)
    case Integer(i) => TreeNumber(Reread(v))
    case Unsigned(u) => TreeNumber(v)
    case String(s) => TreeString(s)
    case Array(xs) => TreeArray(TreesOf(xs))
    case Object(ms) => TreeObject(PairsOf(ms))
  }

  function TreesOf(xs: seq<Json>): (ts: seq<Tree>)
    requires forall x | x in xs :: FloatFree(x)
    ensures |ts| == |xs|
    decreases xs
  {
    if xs == [] then [] else [TreeOf(xs[0])] + TreesOf(xs[1..])
  }

  function PairsOf(ms: seq<Member>): (ps: seq<Pair>)
    requires forall m | m in ms :: FloatFree(m.value)
    ensures |ps| == |ms|
    decreases ms
  {
    if ms == [] then [] else [Pair(ms[0].key, TreeOf(ms[0].value))] + PairsOf(ms[1..])
  }

  /** The members of a map are inserted in ascending order, so each goes to the end. */
  lemma {:induction false} ValueOfTree(v: Json)
    requires FloatFree(v) && WellFormed(v)
    ensures Value(TreeOf(v)) == Reread(v)
    decreases v
  {
    match v
    case Array(xs) => ValuesOfTrees(xs);
    case Object(ms) =>
      BuildOfPairs(ms, []);
      assert [] + RereadMembers(ms) == RereadMembers(ms);
    case _ =>
  }

  lemma {:induction false} ValuesOfTrees(xs: seq<Json>)
    requires forall x | x in xs :: FloatFree(x) && WellFormed(x)
    ensures Values(TreesOf(xs)) == RereadItems(xs)
    decreases xs
  {
    if xs != [] {
      ValueOfTree(xs[0]);
      ValuesOfTrees(xs[1..]);
      assert TreesOf(xs)[1..] == TreesOf(xs[1..]);
    }
  }

  /** Every key of `acc` comes before every key of `ms`. */
  ghost predicate Before(acc: seq<Member>, ms: seq<Member>) {
    forall i, j :: 0 <= i < |acc| && 0 <= j < |ms| ==> TextLess(acc[i].key, ms[j].key)
  }

  lemma BeforeStep(acc: seq<Member>, ms: seq<Member>, m: Member)
    requires ms != [] && Sorted(ms) && Before(acc, ms) && m.key == ms[0].key
    ensures Sorted(ms[1..]) && Before(acc + [m], ms[1..])
    ensures forall i :: 0 <= i < |acc| ==> TextLess(acc[i].key, m.key)
  {
    hide TextLess;
    assert forall j :: 0 <= j < |ms[1..]| ==> ms[1..][j] == ms[j + 1];
  }

  lemma {:induction false} BuildOfPairs(ms: seq<Member>, acc: seq<Member>)
    requires forall m | m in ms :: FloatFree(m.value) && WellFormed(m.value)
    requires Sorted(ms) && Before(acc, ms)
    ensures Build(PairsOf(ms), acc) == acc + RereadMembers(ms)
    decreases ms
  {
    hide *;
    if ms == [] {
      BuildNone(acc);
    } else {
      var m := Member(ms[0].key, Reread(ms[0].value));
      FirstMember(ms);
      ValueOfTree(ms[0].value);
      BuildCons(Pair(m.key, TreeOf(ms[0].value)), PairsOf(ms[1..]), acc);
      BeforeStep(acc, ms, m);
      InsertLast(acc, m.key, m.value);
      BuildOfPairs(ms[1..], acc + [m]);
      var others := RereadMembers(ms[1..]);
      assert acc + [m] + others == acc + ([m] + others);
    }
  }

  lemma FirstMember(ms: seq<Member>)
    requires ms != [] && forall m | m in ms :: FloatFree(m.value)
    ensures PairsOf(ms) == [Pair(ms[0].key, TreeOf(ms[0].value))] + PairsOf(ms[1..])
    ensures RereadMembers(ms) == [Member(ms[0].key, Reread(ms[0].value))] + RereadMembers(ms[1..])
  {
    hide TreeOf, Reread, FloatFree;
  }

  lemma BuildNone(acc: seq<Member>)
    ensures Build(PairsOf([]), acc) == acc + RereadMembers([])
  {
    assert acc + [] == acc;
  }

  lemma BuildCons(first: Pair, others: seq<Pair>, acc: seq<Member>)
    ensures Build([first] + others, acc) == Build(others, Insert(acc, first.key, Value(first.tree)))
  {
    assert ([first] + others)[1..] == others;
  }

  // ---- Scanning a printed value -----------------------------------------------------------

  /** From `p` on, the text `w` is scanned as the tokens `t`. */
  ghost predicate Lexes(s: Text, p: nat, w: Text, t: seq<Token>) {
    p + |w| <= |s| && Lex(s, p) == t + Lex(s, p + |w|)
  }

  lemma Chain(s: Text, p: nat, a: Text, t: seq<Token>, b: Text, u: seq<Token>)
    requires Lexes(s, p, a, t) && Lexes(s, p + |a|, b, u)
    ensures Lexes(s, p, a + b, t + u)
    ensures t == [] ==> Lexes(s, p, a + b, u)
  {
    hide Lex;
    assert t + (u + Lex(s, p + |a| + |b|)) == (t + u) + Lex(s, p + |a| + |b|);
    assert t == [] ==> t + u == u;
  }

  /** A token that is not the last one, and what follows it. */
  lemma LexToken(s: Text, p: nat, l: Lexeme)
    requires p <= |s| && Scan(s, p) == l && l.kind != EndOfInput && l.kind != ParseError
    ensures IsToken(s, l) && l.end <= |s|
    ensures Lex(s, p) == [TokenOf(s, l)] + Lex(s, l.end)
  {
    hide Scan, TokenOf;
    ScannedIsToken(s, p);
  }

  lemma LexBlanks(s: Text, p: nat, n: nat)
    requires p + n <= |s| && forall k :: p <= k < p + n ==> IsBlank(s[k])
    ensures Lex(s, p) == Lex(s, p + n)
  {
    hide Scan, From;
    ScanBlanks(s, p, n);
  }

  lemma LexPunctuation(s: Text, p: nat, c: Byte)
    requires Occurs(s, p, [c]) && Punctuation(c).Some?
    ensures Lexes(s, p, [c], [Plain(Punctuation(c).value)])
  {
    hide Scan;
    OccursAt(s, p, [c]);
    assert s[p + 0] == c;
    ScanPunctuation(s, p);
    LexToken(s, p, Lexeme(Punctuation(c).value, p, p + 1));
  }

  lemma LexQuoted(s: Text, p: nat, t: Text)
    requires Occurs(s, p, Quoted(t))
    ensures Lexes(s, p, Quoted(t), [Str(Ok(t))])
  {
    hide Scan, Escape, StringBody, Unescape;
    var w := Escape(t);
    EscapeRoundTrip(t);
    ScanString(s, p, w);
    LexToken(s, p, Lexeme(ValueString, p, p + |w| + 2));
    OccursSplit(s, p, [QUOTE], w + [QUOTE]) by {
      assert [QUOTE] + w + [QUOTE] == [QUOTE] + (w + [QUOTE]);
    }
    OccursSplit(s, p + 1, w, [QUOTE]);
    assert s[p + 1..p + |w| + 2 - 1] == w;
  }

  /** Blanks: the newline and the indentation of pretty printing. */
  predicate AllBlank(w: Text) {
    forall k :: 0 <= k < |w| ==> IsBlank(w[k])
  }

  lemma LexOverBlanks(s: Text, p: nat, w: Text)
    requires Occurs(s, p, w) && AllBlank(w)
    ensures Lexes(s, p, w, [])
  {
    hide Lex;
    assert [] + Lex(s, p + |w|) == Lex(s, p + |w|);
    OccursAt(s, p, w);
    forall k | p <= k < p + |w| ensures IsBlank(s[k]) {
      assert s[p + (k - p)] == w[k - p];
    }
    LexBlanks(s, p, |w|);
  }

  /** A printed value, up to a byte that ends a number, is scanned as the tokens of its derivation. */
  lemma {:induction false} LexPrinted(s: Text, p: nat, v: Json, pretty: bool, step: uint32, cur: uint32)
    requires FloatFree(v)
    requires Occurs(s, p, Print(v, pretty, step, cur))
    requires EndsNumber(At(s, p + |Print(v, pretty, step, cur)|))
    ensures Lexes(s, p, Print(v, pretty, step, cur), Yield(TreeOf(v)))
    decreases v, 0
  {
    hide Lex, Scan, PrintItems, PrintMembers, PrintInt, Quoted, TreesOf, PairsOf, YieldItems, YieldPairs;
    match v
    case Null =>
      ScanNull(s, p);
      LexLiteral(s, p, Lexeme(LiteralNull, p, p + |NULL_TEXT|));
    case Boolean(b) =>
      if b {
        ScanTrue(s, p);
        LexLiteral(s, p, Lexeme(LiteralTrue, p, p + |TRUE_TEXT|));
      } else {
        ScanFalse(s, p);
        LexLiteral(s, p, Lexeme(LiteralFalse, p, p + |FALSE_TEXT|));
      }
    case Integer(i) => LexInteger(s, p, i);
    case Unsigned(u) => LexInteger(s, p, u);
    case String(t) => LexQuoted(s, p, t);
    case Array(xs) => LexArray(s, p, xs, pretty, step, cur);
    case Object(ms) => LexObject(s, p, ms, pretty, step, cur);
  }

  lemma LexLiteral(s: Text, p: nat, l: Lexeme)
    requires p <= |s| && Scan(s, p) == l && l.kind in {LiteralNull, LiteralTrue, LiteralFalse}
    ensures l.end <= |s| && Lex(s, p) == [Plain(l.kind)] + Lex(s, l.end)
  {
    hide Scan, Lex;
    LexToken(s, p, l);
  }

  lemma LexInteger(s: Text, p: nat, n: int)
    requires -MIN_MAGNITUDE <= n <= MAX_UNSIGNED
    requires Occurs(s, p, PrintInt(n)) && EndsNumber(At(s, p + |PrintInt(n)|))
    ensures Lexes(s, p, PrintInt(n), [Num(Ok(if n < 0 then Integer(n) else Unsigned(n)))])
  {
    hide Scan, NumberValue, PrintInt;
    PrintedIntegerIsRead(s, p, n);
    LexToken(s, p, Lexeme(ValueNumber, p, p + |PrintInt(n)|));
  }

  lemma {:induction false} LexArray(s: Text, p: nat, xs: seq<Json>, pretty: bool, step: uint32, cur: uint32)
    requires forall x | x in xs :: FloatFree(x)
    requires Occurs(s, p, Print(Array(xs), pretty, step, cur))
    ensures Lexes(s, p, Print(Array(xs), pretty, step, cur), Yield(TreeOf(Array(xs))))
    decreases xs, 2
  {
    hide *;
    Brackets();
    PrintArray(xs, pretty, step, cur);
    if xs == [] {
      NoTrees();
      LexEmpty(s, p, LBRACKET, RBRACKET);
    } else {
      var ind := if pretty then Deeper(cur, step) else cur;
      var w := PrintItems(xs, pretty, step, ind);
      var q := p + 1 + |Newline(pretty)|;
      OccursEnclosed(s, p, LBRACKET, w, RBRACKET, pretty, cur);
      LexItems(s, q, xs, pretty, step, ind);
      LexEnclosed(s, p, LBRACKET, w, YieldItems(TreesOf(xs)), RBRACKET, pretty, cur);
    }
  }

  lemma PrintArray(xs: seq<Json>, pretty: bool, step: uint32, cur: uint32)
    requires forall x | x in xs :: FloatFree(x)
    ensures FloatFree(Array(xs))
    ensures Print(Array(xs), pretty, step, cur) ==
      if xs == [] then [LBRACKET, RBRACKET]
      else
        var w := PrintItems(xs, pretty, step, if pretty then Deeper(cur, step) else cur);
        [LBRACKET] + (Newline(pretty) + (w + (Newline(pretty) + (Spaces(cur) + [RBRACKET]))))
    ensures Yield(TreeOf(Array(xs))) == [Plain(BeginArray)] + YieldItems(TreesOf(xs)) + [Plain(EndArray)]
  {
    hide PrintItems, TreesOf, YieldItems, Spaces, Newline;
  }

  lemma PrintObject(ms: seq<Member>, pretty: bool, step: uint32, cur: uint32)
    requires forall m | m in ms :: FloatFree(m.value)
    ensures FloatFree(Object(ms))
    ensures Print(Object(ms), pretty, step, cur) ==
      if ms == [] then [LBRACE, RBRACE]
      else
        var w := PrintMembers(ms, pretty, step, if pretty then Deeper(cur, step) else cur);
        [LBRACE] + (Newline(pretty) + (w + (Newline(pretty) + (Spaces(cur) + [RBRACE]))))
    ensures Yield(TreeOf(Object(ms))) == [Plain(BeginObject)] + YieldPairs(PairsOf(ms)) + [Plain(EndObject)]
  {
    hide PrintMembers, PairsOf, YieldPairs, Spaces, Newline;
  }

  lemma NoTrees()
    ensures TreesOf([]) == [] && PairsOf([]) == [] && YieldItems([]) == YieldPairs([]) == []
  {
  }

  lemma Brackets()
    ensures Punctuation(LBRACKET) == Some(BeginArray) && Punctuation(RBRACKET) == Some(EndArray)
    ensures Punctuation(LBRACE) == Some(BeginObject) && Punctuation(RBRACE) == Some(EndObject)
  {
  }

  /** An empty array or object. */
  lemma LexEmpty(s: Text, p: nat, open: Byte, close: Byte)
    requires Punctuation(open).Some? && Punctuation(close).Some?
    requires Occurs(s, p, [open, close])
    ensures
      Lexes(s, p, [open, close], [Plain(Punctuation(open).value)] + [] + [Plain(Punctuation(close).value)])
  {
    hide Lexes, Punctuation;
    assert [open] + [close] == [open, close];
    OccursSplit(s, p, [open], [close]);
    LexPunctuation(s, p, open);
    LexPunctuation(s, p + 1, close);
    Chain(s, p, [open], [Plain(Punctuation(open).value)], [close], [Plain(Punctuation(close).value)]);
    assert [Plain(Punctuation(open).value)] + [] == [Plain(Punctuation(open).value)];
  }

  /** Contents between brackets, with the line breaks and the indentation. */
  lemma LexEnclosed(
    s: Text, p: nat, open: Byte, w: Text, t: seq<Token>, close: Byte, pretty: bool, cur: uint32)
    requires Punctuation(open).Some? && Punctuation(close).Some?
    requires Occurs(s, p, [open] + (Newline(pretty) + (w + (Newline(pretty) + (Spaces(cur) + [close])))))
    requires Lexes(s, p + 1 + |Newline(pretty)|, w, t)
    ensures
      Lexes(s, p, [open] + (Newline(pretty) + (w + (Newline(pretty) + (Spaces(cur) + [close])))),
            [Plain(Punctuation(open).value)] + t + [Plain(Punctuation(close).value)])
  {
    hide Lexes, Spaces, Newline, Punctuation;
    var line := Newline(pretty);
    var tail := line + (Spaces(cur) + [close]);
    var first, last := Plain(Punctuation(open).value), Plain(Punctuation(close).value);
    NewlineBlank(pretty, cur);
    OccursSplit(s, p, [open], line + (w + tail));
    OccursSplit(s, p + 1, line, w + tail);
    OccursSplit(s, p + 1 + |line|, w, tail);
    var q := p + 1 + |line| + |w|;
    OccursSplit(s, q, line, Spaces(cur) + [close]);
    OccursSplit(s, q + |line|, Spaces(cur), [close]);
    LexPunctuation(s, q + |line| + |Spaces(cur)|, close);
    LexOverBlanks(s, q + |line|, Spaces(cur));
    Chain(s, q + |line|, Spaces(cur), [], [close], [last]);
    LexOverBlanks(s, q, line);
    Chain(s, q, line, [], Spaces(cur) + [close], [last]);
    Chain(s, p + 1 + |line|, w, t, tail, [last]);
    LexOverBlanks(s, p + 1, line);
    Chain(s, p + 1, line, [], w + tail, t + [last]);
    LexPunctuation(s, p, open);
    Chain(s, p, [open], [first], line + (w + tail), t + [last]);
    assert [first] + (t + [last]) == [first] + t + [last];
  }

  /** What follows the contents between brackets ends a number. */
  lemma OccursEnclosed(s: Text, p: nat, open: Byte, w: Text, close: Byte, pretty: bool, cur: uint32)
    requires close == RBRACKET || close == RBRACE
    requires Occurs(s, p, [open] + (Newline(pretty) + (w + (Newline(pretty) + (Spaces(cur) + [close])))))
    ensures Occurs(s, p + 1 + |Newline(pretty)|, w)
    ensures EndsNumber(At(s, p + 1 + |Newline(pretty)| + |w|))
  {
    hide Occurs, EndsNumber, Newline, Spaces;
    var tail := Newline(pretty) + (Spaces(cur) + [close]);
    Occurs3(s, p, [open], Newline(pretty), w + tail);
    OccursSplit(s, p + 1 + |Newline(pretty)|, w, tail);
    CloseEndsNumber(s, p + 1 + |Newline(pretty)| + |w|, close, pretty, cur);
  }

  lemma NewlineBlank(pretty: bool, n: nat)
    ensures AllBlank(Newline(pretty)) && AllBlank(Spaces(n))
  {
  }

  lemma CloseEndsNumber(s: Text, p: nat, bracket: Byte, pretty: bool, cur: uint32)
    requires bracket == RBRACKET || bracket == RBRACE
    requires Occurs(s, p, Newline(pretty) + (Spaces(cur) + [bracket]))
    ensures EndsNumber(At(s, p))
  {
    var w := Newline(pretty) + (Spaces(cur) + [bracket]);
    OccursAt(s, p, w);
    assert s[p + 0] == w[0];
  }

  lemma Occurs3(s: Text, p: nat, a: Text, b: Text, c: Text)
    requires Occurs(s, p, a + (b + c))
    ensures Occurs(s, p, a) && Occurs(s, p + |a|, b) && Occurs(s, p + |a| + |b|, c)
  {
    hide Occurs;
    OccursSplit(s, p, a, b + c);
    OccursSplit(s, p + |a|, b, c);
  }

  /** Blanks and two parts after them. */
  lemma Chain3(s: Text, p: nat, a: Text, b: Text, t: seq<Token>, c: Text, u: seq<Token>)
    requires Occurs(s, p, a) && AllBlank(a)
    requires Lexes(s, p + |a|, b, t) && Lexes(s, p + |a| + |b|, c, u)
    ensures Lexes(s, p, a + (b + c), t + u)
  {
    hide Lexes, Occurs;
    LexOverBlanks(s, p, a);
    Chain(s, p + |a|, b, t, c, u);
    Chain(s, p, a, [], b + c, t + u);
  }

  lemma {:induction false} LexItems(s: Text, p: nat, xs: seq<Json>, pretty: bool, step: uint32, ind: uint32)
    requires xs != [] && forall x | x in xs :: FloatFree(x)
    requires Occurs(s, p, PrintItems(xs, pretty, step, ind))
    requires EndsNumber(At(s, p + |PrintItems(xs, pretty, step, ind)|))
    ensures Lexes(s, p, PrintItems(xs, pretty, step, ind), YieldItems(TreesOf(xs)))
    decreases xs, 1
  {
    hide Occurs, Lexes, Print, TreeOf, TreesOf, Yield, YieldItems, PrintItems, Spaces, Separator;
    hide EndsNumber, AllBlank, FloatFree;
    var first, t := Print(xs[0], pretty, step, ind), Yield(TreeOf(xs[0]));
    var q := p + |Spaces(ind)|;
    NewlineBlank(pretty, ind);
    if |xs| == 1 {
      OneItem(xs, pretty, step, ind);
      OccursSplit(s, p, Spaces(ind), first);
      LexOverBlanks(s, p, Spaces(ind));
      LexPrinted(s, q, xs[0], pretty, step, ind);
      Chain(s, p, Spaces(ind), [], first, t);
    } else {
      var others, u := PrintItems(xs[1..], pretty, step, ind), YieldItems(TreesOf(xs[1..]));
      var rest := Separator(pretty) + others;
      MoreItems(xs, pretty, step, ind);
      Occurs3(s, p, Spaces(ind), first, rest);
      LexSeparator(s, q + |first|, pretty, others);
      LexPrinted(s, q, xs[0], pretty, step, ind);
      LexItems(s, q + |first| + |Separator(pretty)|, xs[1..], pretty, step, ind);
      Chain(s, q + |first|, Separator(pretty), [COMMA_TOKEN], others, u);
      Chain3(s, p, Spaces(ind), first, t, rest, [COMMA_TOKEN] + u);
    }
  }

  lemma OneItem(xs: seq<Json>, pretty: bool, step: uint32, ind: uint32)
    requires |xs| == 1 && forall x | x in xs :: FloatFree(x)
    ensures PrintItems(xs, pretty, step, ind) == Spaces(ind) + Print(xs[0], pretty, step, ind)
    ensures YieldItems(TreesOf(xs)) == Yield(TreeOf(xs[0]))
  {
    hide Print, TreeOf, Yield;
    ItemsOne(TreeOf(xs[0]));
    assert TreesOf(xs) == [TreeOf(xs[0])];
  }

  lemma MoreItems(xs: seq<Json>, pretty: bool, step: uint32, ind: uint32)
    requires |xs| > 1 && forall x | x in xs :: FloatFree(x)
    ensures PrintItems(xs, pretty, step, ind)
      == Spaces(ind) + (Print(xs[0], pretty, step, ind) + (Separator(pretty) + PrintItems(xs[1..], pretty, step, ind)))
    ensures YieldItems(TreesOf(xs)) == Yield(TreeOf(xs[0])) + ([COMMA_TOKEN] + YieldItems(TreesOf(xs[1..])))
  {
    hide Print, TreeOf, Yield;
    ItemsCons(TreeOf(xs[0]), TreesOf(xs[1..]));
    var t, u := Yield(TreeOf(xs[0])), YieldItems(TreesOf(xs[1..]));
    assert t + [COMMA_TOKEN] + u == t + ([COMMA_TOKEN] + u);
  }

  /** The comma between two values. */
  lemma LexSeparator(s: Text, p: nat, pretty: bool, rest: Text)
    requires Occurs(s, p, Separator(pretty) + rest)
    ensures EndsNumber(At(s, p))
    ensures Occurs(s, p + |Separator(pretty)|, rest)
    ensures Lexes(s, p, Separator(pretty), [COMMA_TOKEN])
  {
    hide Lexes;
    OccursSplit(s, p, Separator(pretty), rest);
    assert Separator(pretty) == [COMMA] + Newline(pretty);
    OccursSplit(s, p, [COMMA], Newline(pretty));
    OccursAt(s, p, [COMMA]);
    assert s[p + 0] == COMMA;
    LexPunctuation(s, p, COMMA);
    LexOverBlanks(s, p + 1, Newline(pretty));
    Chain(s, p, [COMMA], [COMMA_TOKEN], Newline(pretty), []);
    assert [COMMA_TOKEN] + [] == [COMMA_TOKEN];
  }

  lemma {:induction false} LexObject(s: Text, p: nat, ms: seq<Member>, pretty: bool, step: uint32, cur: uint32)
    requires forall m | m in ms :: FloatFree(m.value)
    requires Occurs(s, p, Print(Object(ms), pretty, step, cur))
    ensures Lexes(s, p, Print(Object(ms), pretty, step, cur), Yield(TreeOf(Object(ms))))
    decreases ms, 2
  {
    hide *;
    Brackets();
    PrintObject(ms, pretty, step, cur);
    if ms == [] {
      NoTrees();
      LexEmpty(s, p, LBRACE, RBRACE);
    } else {
      var ind := if pretty then Deeper(cur, step) else cur;
      var w := PrintMembers(ms, pretty, step, ind);
      var q := p + 1 + |Newline(pretty)|;
      OccursEnclosed(s, p, LBRACE, w, RBRACE, pretty, cur);
      LexMembers(s, q, ms, pretty, step, ind);
      LexEnclosed(s, p, LBRACE, w, YieldPairs(PairsOf(ms)), RBRACE, pretty, cur);
    }
  }

  lemma {:induction false} LexMembers(s: Text, p: nat, ms: seq<Member>, pretty: bool, step: uint32, ind: uint32)
    requires ms != [] && forall m | m in ms :: FloatFree(m.value)
    requires Occurs(s, p, PrintMembers(ms, pretty, step, ind))
    requires EndsNumber(At(s, p + |PrintMembers(ms, pretty, step, ind)|))
    ensures Lexes(s, p, PrintMembers(ms, pretty, step, ind), YieldPairs(PairsOf(ms)))
    decreases ms, 1
  {
    hide Occurs, Lexes, Print, TreeOf, PairsOf, Yield, YieldPairs, PrintMembers, Spaces, Separator, KeyText;
    hide EndsNumber, AllBlank, FloatFree;
    var key, k := KeyText(ms[0].key, pretty), [Str(Ok(ms[0].key)), COLON_TOKEN];
    var first, t := Print(ms[0].value, pretty, step, ind), Yield(TreeOf(ms[0].value));
    var q := p + |Spaces(ind)|;
    var r := q + |key|;
    NewlineBlank(pretty, ind);
    if |ms| == 1 {
      OneMember(ms, pretty, step, ind);
      Occurs3(s, p, Spaces(ind), key, first);
      LexKey(s, q, ms[0].key, pretty);
      LexPrinted(s, r, ms[0].value, pretty, step, ind);
      Chain3(s, p, Spaces(ind), key, k, first, t);
    } else {
      var others, u := PrintMembers(ms[1..], pretty, step, ind), YieldPairs(PairsOf(ms[1..]));
      var rest := Separator(pretty) + others;
      MoreMembers(ms, pretty, step, ind);
      Occurs3(s, p, Spaces(ind), key, first + rest);
      LexKey(s, q, ms[0].key, pretty);
      OccursSplit(s, r, first, rest);
      LexSeparator(s, r + |first|, pretty, others);
      LexPrinted(s, r, ms[0].value, pretty, step, ind);
      LexMembers(s, r + |first| + |Separator(pretty)|, ms[1..], pretty, step, ind);
      Chain(s, r + |first|, Separator(pretty), [COMMA_TOKEN], others, u);
      Chain(s, r, first, t, rest, [COMMA_TOKEN] + u);
      Chain3(s, p, Spaces(ind), key, k, first + rest, t + ([COMMA_TOKEN] + u));
    }
  }

  lemma OneMember(ms: seq<Member>, pretty: bool, step: uint32, ind: uint32)
    requires |ms| == 1 && forall m | m in ms :: FloatFree(m.value)
    ensures PrintMembers(ms, pretty, step, ind)
      == Spaces(ind) + (KeyText(ms[0].key, pretty) + Print(ms[0].value, pretty, step, ind))
    ensures YieldPairs(PairsOf(ms)) == [Str(Ok(ms[0].key)), COLON_TOKEN] + Yield(TreeOf(ms[0].value))
  {
    hide Print, TreeOf, Yield, KeyText;
    var p := Pair(ms[0].key, TreeOf(ms[0].value));
    PairsOne(p, []);
    assert PairsOf(ms) == [p];
  }

  lemma MoreMembers(ms: seq<Member>, pretty: bool, step: uint32, ind: uint32)
    requires |ms| > 1 && forall m | m in ms :: FloatFree(m.value)
    ensures PrintMembers(ms, pretty, step, ind)
      == Spaces(ind) + (KeyText(ms[0].key, pretty) + (Print(ms[0].value, pretty, step, ind)
         + (Separator(pretty) + PrintMembers(ms[1..], pretty, step, ind))))
    ensures YieldPairs(PairsOf(ms))
      == [Str(Ok(ms[0].key)), COLON_TOKEN]
         + (Yield(TreeOf(ms[0].value)) + ([COMMA_TOKEN] + YieldPairs(PairsOf(ms[1..]))))
  {
    hide Print, TreeOf, Yield, KeyText;
    PairsCons(Pair(ms[0].key, TreeOf(ms[0].value)), PairsOf(ms[1..]), []);
    var k, t, u := [Str(Ok(ms[0].key)), COLON_TOKEN], Yield(TreeOf(ms[0].value)), YieldPairs(PairsOf(ms[1..]));
    assert k + t + [COMMA_TOKEN] + u == k + (t + ([COMMA_TOKEN] + u));
  }

  /** A key and its colon. */
  lemma LexKey(s: Text, p: nat, key: Text, pretty: bool)
    requires Occurs(s, p, KeyText(key, pretty))
    ensures Lexes(s, p, KeyText(key, pretty), [Str(Ok(key)), COLON_TOKEN])
  {
    hide Lexes, Quoted;
    var blank: Text := if pretty then [SPACE] else [];
    assert KeyText(key, pretty) == Quoted(key) + ([COLON] + blank);
    OccursSplit(s, p, Quoted(key), [COLON] + blank);
    LexQuoted(s, p, key);
    var q := p + |Quoted(key)|;
    OccursSplit(s, q, [COLON], blank);
    LexPunctuation(s, q, COLON);
    LexOverBlanks(s, q + 1, blank);
    Chain(s, q, [COLON], [COLON_TOKEN], blank, []);
    Chain(s, p, Quoted(key), [Str(Ok(key))], [COLON] + blank, [COLON_TOKEN] + []);
    assert [Str(Ok(key))] + ([COLON_TOKEN] + []) == [Str(Ok(key)), COLON_TOKEN];
  }

  // ---- The round trip ---------------------------------------------------------------------

  /**
   * Parsing a dumped value, compact or pretty at any indentation, succeeds and gives a value
   * equal to it under `operator==`.
   */
  lemma RoundTrip(v: Json, indent: int)
    requires FloatFree(v) && WellFormed(v) && indent < 0x8000_0000
    ensures ParseText(Lex(DumpText(v, indent), 0)) == Ok(Reread(v))
    ensures FloatFree(Reread(v)) && JsonOrder.Eq(v, Reread(v))
  {
    hide Print, Lex, Yield, TreeOf, ParseValue;
    var s := DumpText(v, indent);
    assert s[0..0 + |s|] == s;
    if indent >= 0 {
      LexPrinted(s, 0, v, true, indent, 0);
    } else {
      LexPrinted(s, 0, v, false, 0, 0);
    }
    LexEnd(s);
    ParseYield(TreeOf(v), Lex(s, |s|));
    ValueOfTree(v);
    RereadIsEqual(v);
  }

  lemma LexEnd(s: Text)
    ensures Lex(s, |s|) == [END_TOKEN]
  {
    hide Scan;
    ScanEnd(s, |s|);
  }

  /** Parsing loses nothing that dumping shows: a second dump prints the same text. */
  lemma {:induction false} PrintReread(v: Json, pretty: bool, step: uint32, cur: uint32)
    requires FloatFree(v) && FloatFree(Reread(v))
    ensures Print(Reread(v), pretty, step, cur) == Print(v, pretty, step, cur)
    decreases v, 0
  {
    match v
    case Array(xs) =>
      PrintRereadItems(xs, pretty, step, if pretty then Deeper(cur, step) else cur);
    case Object(ms) =>
      PrintRereadMembers(ms, pretty, step, if pretty then Deeper(cur, step) else cur);
    case _ =>
  }

  lemma {:induction false} PrintRereadItems(xs: seq<Json>, pretty: bool, step: uint32, ind: uint32)
    requires forall x | x in xs :: FloatFree(x)
    requires forall y | y in RereadItems(xs) :: FloatFree(y)
    ensures PrintItems(RereadItems(xs), pretty, step, ind) == PrintItems(xs, pretty, step, ind)
    decreases xs, 1
  {
    if xs != [] {
      var ys := RereadItems(xs);
      assert ys[1..] == RereadItems(xs[1..]);
      PrintReread(xs[0], pretty, step, ind);
      PrintRereadItems(xs[1..], pretty, step, ind);
    }
  }

  lemma {:induction false} PrintRereadMembers(ms: seq<Member>, pretty: bool, step: uint32, ind: uint32)
    requires forall m | m in ms :: FloatFree(m.value)
    requires forall n | n in RereadMembers(ms) :: FloatFree(n.value)
    ensures PrintMembers(RereadMembers(ms), pretty, step, ind) == PrintMembers(ms, pretty, step, ind)
    decreases ms, 1
  {
    if ms != [] {
      var ns := RereadMembers(ms);
      assert ns[1..] == RereadMembers(ms[1..]);
      PrintReread(ms[0].value, pretty, step, ind);
      PrintRereadMembers(ms[1..], pretty, step, ind);
    }
  }

  // ---- Equal values and equal texts -----------------------------------------------------------

  /** Two values are printed alike exactly when they come back as the same value. */
  lemma SameTextSameReread(v: Json, w: Json, indent: int)
    requires FloatFree(v) && WellFormed(v) && FloatFree(w) && WellFormed(w) && indent < 0x8000_0000
    ensures DumpText(v, indent) == DumpText(w, indent) <==> Reread(v) == Reread(w)
  {
    hide Print, Reread, Lex, ParseText, FloatFree, WellFormed, JsonOrder.Eq;
    RoundTrip(v, indent);
    RoundTrip(w, indent);
    if Reread(v) == Reread(w) {
      var pretty, step := indent >= 0, if indent >= 0 then indent else 0;
      PrintReread(v, pretty, step, 0);
      PrintReread(w, pretty, step, 0);
    }
  }

  /** Values that come back as the same value are equal. */
  lemma {:induction false} SameRereadEqual(v: Json, w: Json)
    requires FloatFree(v) && FloatFree(w) && Reread(v) == Reread(w)
    ensures JsonOrder.Eq(v, w)
    decreases v
  {
    if v.Array? && w.Array? {
      var xs, ys := v.elems, w.elems;
      assert |RereadItems(xs)| == |RereadItems(ys)|;
      forall i | 0 <= i < |xs| ensures JsonOrder.Eq(xs[i], ys[i]) {
        assert RereadItems(xs)[i] == RereadItems(ys)[i];
        SameRereadEqual(xs[i], ys[i]);
      }
    } else if v.Object? && w.Object? {
      var ms, ns := v.members, w.members;
      assert |RereadMembers(ms)| == |RereadMembers(ns)|;
      forall i | 0 <= i < |ms| ensures ms[i].key == ns[i].key && JsonOrder.Eq(ms[i].value, ns[i].value) {
        assert RereadMembers(ms)[i] == RereadMembers(ns)[i];
        SameRereadEqual(ms[i].value, ns[i].value);
      }
    }
  }

  /** No negative number, and no unsigned number that equals one under the cast. */
  predicate Twinless(v: Json) {
    match v
    case Integer(i) => i >= 0
    case Unsigned(u) => u <= JsonOrder.MAX_SIGNED
    case Array(xs) => forall x | x in xs :: Twinless(x)
    case Object(ms) => forall m | m in ms :: Twinless(m.value)
    case _ => true
  }

  lemma {:induction false} EqualSameReread(v: Json, w: Json)
    requires FloatFree(v) && FloatFree(w) && JsonOrder.Eq(v, w)
    requires (JsonOrder.Ordered(v) && JsonOrder.Ordered(w)) || Twinless(v)
    ensures Reread(v) == Reread(w)
    decreases v
  {
    if v.Array? {
      forall i | 0 <= i < |v.elems| ensures RereadItems(v.elems)[i] == RereadItems(w.elems)[i] {
        EqualSameReread(v.elems[i], w.elems[i]);
      }
      assert RereadItems(v.elems) == RereadItems(w.elems);
    } else if v.Object? {
      forall i | 0 <= i < |v.members| ensures RereadMembers(v.members)[i] == RereadMembers(w.members)[i] {
        EqualSameReread(v.members[i].value, w.members[i].value);
      }
      assert RereadMembers(v.members) == RereadMembers(w.members);
    }
  }

  /**
   * Values that are printed alike are equal, and on values whose unsigned numbers survive the cast to
   * signed ones it is the other way round too.
   */
  lemma EqualPrintAlike(v: Json, w: Json, indent: int)
    requires FloatFree(v) && WellFormed(v) && FloatFree(w) && WellFormed(w) && indent < 0x8000_0000
    ensures DumpText(v, indent) == DumpText(w, indent) ==> JsonOrder.Eq(v, w)
    ensures JsonOrder.Ordered(v) && JsonOrder.Ordered(w) ==>
      (JsonOrder.Eq(v, w) <==> DumpText(v, indent) == DumpText(w, indent))
  {
    hide *;
    SameTextSameReread(v, w, indent);
    if Reread(v) == Reread(w) {
      SameRereadEqual(v, w);
    } else if JsonOrder.Ordered(v) && JsonOrder.Ordered(w) && JsonOrder.Eq(v, w) {
      EqualSameReread(v, w);
    }
  }

  /** The value with every number replaced by the other one that equals it under the cast. */
  function Twin(v: Json): Json
    decreases v
  {
    match v
    case Integer(i) => if i < 0 then Unsigned(i + JsonOrder.TWO_TO_THE_64) else v
    case Unsigned(u) => if u > JsonOrder.MAX_SIGNED then Integer(u - JsonOrder.TWO_TO_THE_64) else v
    case Array(xs) => Array(TwinItems(xs))
    case Object(ms) => Object(TwinMembers(ms))
    case _ => v
  }

  function TwinItems(xs: seq<Json>): (ys: seq<Json>)
    ensures |ys| == |xs| && forall i :: 0 <= i < |xs| ==> ys[i] == Twin(xs[i])
    decreases xs
  {
    if xs == [] then [] else [Twin(xs[0])] + TwinItems(xs[1..])
  }

  function TwinMembers(ms: seq<Member>): (ns: seq<Member>)
    ensures |ns| == |ms|
    ensures forall i :: 0 <= i < |ms| ==> ns[i] == Member(ms[i].key, Twin(ms[i].value))
    decreases ms
  {
    if ms == [] then [] else [Member(ms[0].key, Twin(ms[0].value))] + TwinMembers(ms[1..])
  }

  lemma {:induction false} TwinIsEqual(v: Json)
    requires FloatFree(v) && WellFormed(v)
    ensures FloatFree(Twin(v)) && WellFormed(Twin(v)) && JsonOrder.Eq(v, Twin(v))
    ensures !Twinless(v) ==> Reread(Twin(v)) != Reread(v)
    decreases v
  {
    match v
    case Array(xs) => TwinOfItems(xs);
    case Object(ms) => TwinOfMembers(ms);
    case _ =>
  }

  lemma {:induction false} TwinOfItems(xs: seq<Json>)
    requires FloatFree(Array(xs)) && WellFormed(Array(xs))
    ensures
      var v, t := Array(xs), Array(TwinItems(xs));
      FloatFree(t) && WellFormed(t) && JsonOrder.Eq(v, t) && (!Twinless(v) ==> Reread(t) != Reread(v))
    decreases xs
  {
    hide Twin, Reread;
    var ys := TwinItems(xs);
    forall i | 0 <= i < |xs|
      ensures FloatFree(ys[i]) && WellFormed(ys[i]) && JsonOrder.Eq(xs[i], ys[i])
      ensures !Twinless(xs[i]) ==> Reread(ys[i]) != Reread(xs[i])
    {
      TwinIsEqual(xs[i]);
    }
    if i :| 0 <= i < |xs| && !Twinless(xs[i]) {
      assert RereadItems(ys)[i] != RereadItems(xs)[i];
    }
    RereadArray(xs);
    RereadArray(ys);
  }

  lemma RereadArray(xs: seq<Json>)
    ensures Reread(Array(xs)) == Array(RereadItems(xs))
  {
  }

  lemma {:induction false} TwinOfMembers(ms: seq<Member>)
    requires FloatFree(Object(ms)) && WellFormed(Object(ms))
    ensures
      var v, t := Object(ms), Object(TwinMembers(ms));
      FloatFree(t) && WellFormed(t) && JsonOrder.Eq(v, t) && (!Twinless(v) ==> Reread(t) != Reread(v))
    decreases ms
  {
    var ns := TwinMembers(ms);
    forall i | 0 <= i < |ms|
      ensures FloatFree(ms[i].value)
      ensures FloatFree(ns[i].value) && WellFormed(ns[i].value) && JsonOrder.Eq(ms[i].value, ns[i].value)
      ensures !Twinless(ms[i].value) ==> Reread(ns[i].value) != Reread(ms[i].value)
    {
      assert ms[i] in ms;
      TwinIsEqual(ms[i].value);
    }
    TwinMap(ms, ns);
    hide Twin, Reread, WellFormed;
    if !Twinless(Object(ms)) {
      hide JsonOrder.Eq, FloatFree;
      TwinDiffers(ms, ns);
    }
  }

  /** Replacing the values of a map leaves a map. */
  lemma TwinMap(ms: seq<Member>, ns: seq<Member>)
    requires WellFormed(Object(ms)) && |ns| == |ms|
    requires forall i :: 0 <= i < |ms| ==> ns[i].key == ms[i].key && WellFormed(ns[i].value)
    ensures WellFormed(Object(ns))
  {
    hide TextLess;
  }

  lemma TwinDiffers(ms: seq<Member>, ns: seq<Member>)
    requires |ns| == |ms| && !Twinless(Object(ms))
    requires forall i :: 0 <= i < |ms| ==> !Twinless(ms[i].value) ==> Reread(ns[i].value) != Reread(ms[i].value)
    ensures Reread(Object(ns)) != Reread(Object(ms))
  {
    RereadObject(ms);
    RereadObject(ns);
    hide Reread;
    var i :| 0 <= i < |ms| && !Twinless(ms[i].value);
    assert RereadMembers(ns)[i] != RereadMembers(ms)[i];
  }

  lemma RereadObject(ms: seq<Member>)
    ensures Reread(Object(ms)) == Object(RereadMembers(ms))
  {
  }

  /**
   * Without that restriction: all values equal to `v` are printed like it exactly when `v` holds no
   * negative number and no unsigned number above 2^63-1.  (2^64 - 1 equals -1, and is printed otherwise.)
   */
  lemma EqualityShows(v: Json, indent: int)
    requires FloatFree(v) && WellFormed(v) && indent < 0x8000_0000
    ensures Twinless(v) <==>
      forall w | FloatFree(w) && WellFormed(w) && JsonOrder.Eq(v, w) :: DumpText(w, indent) == DumpText(v, indent)
  {
    hide *;
    if Twinless(v) {
      forall w | FloatFree(w) && WellFormed(w) && JsonOrder.Eq(v, w)
        ensures DumpText(w, indent) == DumpText(v, indent)
      {
        EqualSameReread(v, w);
        SameTextSameReread(w, v, indent);
      }
    } else {
      TwinIsEqual(v);
      SameTextSameReread(Twin(v), v, indent);
    }
  }
}
