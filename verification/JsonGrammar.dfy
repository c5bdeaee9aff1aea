/**
 * The grammar of sections 2, 4 and 5 of RFC 7159 over tokens, the parser as a function of
 * the token sequence, and the proof that the two agree.
 */
module JsonGrammar {
  import opened Bytes
  import opened JsonStrings
  import opened JsonValue
  import opened JsonNumbers
  import opened JsonDfa
  import opened JsonScan

  /** A token as the parser sees it: strings and numbers come with their value. */
  datatype Token =
    | Plain(kind: TokenKind)
    | Str(text: JsonResult<Text>)
    | Num(number: JsonResult<Json>)

  const COMMA_TOKEN := Plain(ValueSeparator)
  const COLON_TOKEN := Plain(NameSeparator)
  const END_TOKEN := Plain(EndOfInput)

  /** What holds of every range the scanner returns, see `ScannedIsToken`. */
  ghost predicate IsToken(s: Text, l: Lexeme) {
    && l.start < l.end <= |s| + 1
    && (l.kind != EndOfInput ==> l.end <= |s|)
    && (l.kind == ValueString ==> QuotedLiteral(s, l.start, l.end))
  }

  lemma ScannedIsToken(s: Text, p: nat)
    requires p <= |s|
    ensures IsToken(s, Scan(s, p))
  {
    hide Scan;
    if Scan(s, p).kind == ValueString {
      ScanStringSound(s, p);
    }
  }

  /** A range of the text as a token with its value. */
  function TokenOf(s: Text, l: Lexeme): Token
    requires IsToken(s, l)
  {
    if l.kind == ValueString then Str(Unescape(s[l.start + 1..l.end - 1]))
    else if l.kind == ValueNumber then Num(NumberValue(s, l.start, l.end))
    else Plain(l.kind)
  }

  /** The token `l` and all that follow it, up to the end of the input or the first error. */
  function From(s: Text, l: Lexeme): (t: seq<Token>)
    requires IsToken(s, l)
    ensures t != [] && t[0] == TokenOf(s, l)
    decreases |s| + 1 - l.end, 1
  {
    [TokenOf(s, l)] + if l.kind == EndOfInput || l.kind == ParseError then [] else Lex(s, l.end)
  }

  /** All tokens from position `p` on. */
  function Lex(s: Text, p: nat): (t: seq<Token>)
    requires p <= |s|
    ensures t != []
    decreases |s| + 1 - p, 0
  {
    ScannedIsToken(s, p);
    From(s, Scan(s, p))
  }

  // ---- The grammar -------------------------------------------------------------------

  /** A derivation of the rule `value`. */
  datatype Tree =
    | TreeNull
    | TreeBoolean(b: bool)
    | TreeString(s: Text)
    | TreeNumber(v: Json)
    | TreeArray(items: seq<Tree>)
    | TreeObject(pairs: seq<Pair>)

  datatype Pair = Pair(key: Text, tree: Tree)

  /** The token sequence a derivation derives. */
  function Yield(t: Tree): (w: seq<Token>)
    ensures w != []
  {
    match t
    case TreeNull => [Plain(LiteralNull)]
    case TreeBoolean(b) => [Plain(if b then LiteralTrue else LiteralFalse)]
    case TreeString(s) => [Str(Ok(s))]
    case TreeNumber(v) => [Num(Ok(v))]
    case TreeArray(items) => [Plain(BeginArray)] + YieldItems(items) + [Plain(EndArray)]
    case TreeObject(pairs) => [Plain(BeginObject)] + YieldPairs(pairs) + [Plain(EndObject)]
  }

  /** Values separated by commas. */
  function YieldItems(items: seq<Tree>): seq<Token> {
    if items == [] then []
    else if |items| == 1 then Yield(items[0])
    else Yield(items[0]) + [COMMA_TOKEN] + YieldItems(items[1..])
  }

  function YieldPair(p: Pair): seq<Token> {
    [Str(Ok(p.key)), COLON_TOKEN] + Yield(p.tree)
  }

  /** Members separated by commas. */
  function YieldPairs(pairs: seq<Pair>): seq<Token> {
    if pairs == [] then []
    else if |pairs| == 1 then YieldPair(pairs[0])
    else YieldPair(pairs[0]) + [COMMA_TOKEN] + YieldPairs(pairs[1..])
  }

  /** The value a derivation stands for; a later member replaces an earlier one of its name. */
  function Value(t: Tree): Json {
    match t
    case TreeNull => Null
    case TreeBoolean(b) => Boolean(b)
    case TreeString(s) => String(s)
    case TreeNumber(v) => v
    case TreeArray(items) => Array(Values(items))
    case TreeObject(pairs) => Object(Build(pairs, []))
  }

  function Values(items: seq<Tree>): seq<Json> {
    if items == [] then [] else [Value(items[0])] + Values(items[1..])
  }

  function Build(pairs: seq<Pair>, acc: seq<Member>): seq<Member> {
    if pairs == [] then acc
    else Build(pairs[1..], Insert(acc, pairs[0].key, Value(pairs[0].tree)))
  }

  // ---- The parser as a function --------------------------------------------------------

  /** A value and the tokens behind it. */
  type Parsed = JsonResult<(Json, seq<Token>)>

  predicate Starts(t: seq<Token>, token: Token) {
    t != [] && t[0] == token
  }

  function Skip(t: seq<Token>, token: Token): seq<Token> {
    if Starts(t, token) then t[1..] else t
  }

  function ParseValue(t: seq<Token>): (r: Parsed)
    ensures r.Ok? ==> |r.value.1| < |t|
    decreases |t|, 0
  {
    if t == [] then Err(InvalidArgument)
    else
      var rest := t[1..];
      match t[0]
      case Str(Ok(s)) => Ok((String(s), rest))
      case Str(Err(e)) => Err(e)
      case Num(Ok(v)) => Ok((v, rest))
      case Num(Err(e)) => Err(e)
      case Plain(k) =>
        match k
        case LiteralNull => Ok((Null, rest))
        case LiteralTrue => Ok((Boolean(true), rest))
        case LiteralFalse => Ok((Boolean(false), rest))
        case BeginArray =>
          if Starts(rest, Plain(EndArray)) then Ok((Array([]), rest[1..]))
          else if Starts(rest, COMMA_TOKEN) then Err(InvalidArgument)
          else ParseItems(rest, [])
        case BeginObject =>
          if Starts(rest, Plain(EndObject)) then Ok((Object([]), rest[1..]))
          else if Starts(rest, COMMA_TOKEN) then Err(InvalidArgument)
          else ParsePairs(rest, [])
        case _ => Err(InvalidArgument)
  }

  /** The rest of an array: one more value, perhaps after a comma. */
  function ParseItems(t: seq<Token>, acc: seq<Json>): (r: Parsed)
    ensures r.Ok? ==> |r.value.1| < |t|
    decreases |t|, 1
  {
    match ParseValue(Skip(t, COMMA_TOKEN))
    case Err(e) => Err(e)
    case Ok((v, rest)) =>
      if Starts(rest, COMMA_TOKEN) then ParseItems(rest, acc + [v])
      else if Starts(rest, Plain(EndArray)) then Ok((Array(acc + [v]), rest[1..]))
      else Err(InvalidArgument)
  }

  /** A key, a colon and a value. */
  function ParseMember(u: seq<Token>): (r: JsonResult<(Member, seq<Token>)>)
    ensures r.Ok? ==> |r.value.1| < |u|
    decreases |u|, 1
  {
    if u == [] || !u[0].Str? then Err(InvalidArgument)
    else if u[0].text.Err? then Err(u[0].text.error)
    else if !Starts(u[1..], COLON_TOKEN) then Err(InvalidArgument)
    else
      match ParseValue(u[1..][1..])
      case Err(e) => Err(e)
      case Ok((v, rest)) => Ok((Member(u[0].text.value, v), rest))
  }

  /** The rest of an object: one more member, perhaps after a comma. */
  function ParsePairs(t: seq<Token>, acc: seq<Member>): (r: Parsed)
    ensures r.Ok? ==> |r.value.1| < |t|
    decreases |t|, 2
  {
    match ParseMember(Skip(t, COMMA_TOKEN))
    case Err(e) => Err(e)
    case Ok((m, rest)) =>
      var members := Insert(acc, m.key, m.value);
      if Starts(rest, COMMA_TOKEN) then ParsePairs(rest, members)
      else if Starts(rest, Plain(EndObject)) then Ok((Object(members), rest[1..]))
      else Err(InvalidArgument)
  }

  /** A value and then the end of the input. */
  function ParseText(t: seq<Token>): JsonResult<Json> {
    match ParseValue(t)
    case Err(e) => Err(e)
    case Ok((v, rest)) => if Starts(rest, END_TOKEN) then Ok(v) else Err(InvalidArgument)
  }

  // ---- Every derivation is parsed ------------------------------------------------------

  lemma YieldStart(t: Tree)
    ensures !Starts(Yield(t), COMMA_TOKEN) && !Starts(Yield(t), Plain(EndArray)) && !Starts(Yield(t), Plain(EndObject))
  {
  }

  /** The parser reads exactly the tokens of a derivation and returns its value. */
  lemma {:induction false} ParseYield(t: Tree, rest: seq<Token>)
    ensures ParseValue(Yield(t) + rest) == Ok((Value(t), rest))
    decreases t
  {
    var w := Yield(t) + rest;
    match t
    case TreeArray(items) =>
      assert w[1..] == YieldItems(items) + ([Plain(EndArray)] + rest);
      if items != [] {
        ParseYieldItems(items, [], rest);
        YieldItemsStart(items, [Plain(EndArray)] + rest);
        assert [] + Values(items) == Values(items);
      }
    case TreeObject(pairs) =>
      assert w[1..] == YieldPairs(pairs) + ([Plain(EndObject)] + rest);
      if pairs != [] {
        ParseYieldPairs(pairs, [], rest);
      }
    case _ => assert w[1..] == rest;
  }

  lemma YieldItemsStart(items: seq<Tree>, rest: seq<Token>)
    requires items != []
    ensures
      var w := YieldItems(items) + rest;
      !Starts(w, COMMA_TOKEN) && !Starts(w, Plain(EndArray))
  {
    YieldStart(items[0]);
    assert (YieldItems(items) + rest)[0] == Yield(items[0])[0];
  }

  lemma {:induction false} ParseYieldItems(items: seq<Tree>, acc: seq<Json>, rest: seq<Token>)
    requires items != []
    ensures ParseItems(YieldItems(items) + ([Plain(EndArray)] + rest), acc) == Ok((Array(acc + Values(items)), rest))
    decreases items
  {
    hide ParseValue, Yield, Value;
    var after := [Plain(EndArray)] + rest;
    var w := YieldItems(items) + after;
    var v := Value(items[0]);
    YieldItemsStart(items, after);
    if |items| == 1 {
      ParseYield(items[0], after);
      assert Values(items) == [v];
    } else {
      var next := [COMMA_TOKEN] + (YieldItems(items[1..]) + after);
      assert w == Yield(items[0]) + next;
      ParseYield(items[0], next);
      ParseYieldItems(items[1..], acc + [v], rest);
      YieldItemsStart(items[1..], after);
      ItemsAfterComma(YieldItems(items[1..]) + after, acc + [v]);
      assert acc + [v] + Values(items[1..]) == acc + Values(items);
    }
  }

  /** A comma in front of the next value is skipped. */
  lemma ItemsAfterComma(t: seq<Token>, acc: seq<Json>)
    requires !Starts(t, COMMA_TOKEN)
    ensures ParseItems([COMMA_TOKEN] + t, acc) == ParseItems(t, acc)
  {
    assert ([COMMA_TOKEN] + t)[1..] == t;
  }

  lemma PairsAfterComma(t: seq<Token>, acc: seq<Member>)
    requires !Starts(t, COMMA_TOKEN)
    ensures ParsePairs([COMMA_TOKEN] + t, acc) == ParsePairs(t, acc)
  {
    assert ([COMMA_TOKEN] + t)[1..] == t;
  }

  lemma {:induction false} ParseYieldPairs(pairs: seq<Pair>, acc: seq<Member>, rest: seq<Token>)
    requires pairs != []
    ensures ParsePairs(YieldPairs(pairs) + ([Plain(EndObject)] + rest), acc) == Ok((Object(Build(pairs, acc)), rest))
    decreases pairs
  {
    hide ParseMember, YieldPair, Value, Insert, YieldPairs, Build;
    var after := [Plain(EndObject)] + rest;
    var first, others := pairs[0], pairs[1..];
    assert pairs == [first] + others;
    var members := Insert(acc, first.key, Value(first.tree));
    if others == [] {
      PairsOne(first, acc);
      assert pairs == [first];
      ParseYieldPair(first, after);
    } else {
      PairsCons(first, others, acc);
      var next := [COMMA_TOKEN] + (YieldPairs(others) + after);
      assert YieldPairs(pairs) + after == YieldPair(first) + next;
      ParseYieldPair(first, next);
      ParseYieldPairs(others, members, rest);
      PairsStart(others, after);
      PairsAfterComma(YieldPairs(others) + after, members);
    }
  }

  lemma {:induction false} ParseYieldPair(p: Pair, next: seq<Token>)
    ensures !Starts(YieldPair(p) + next, COMMA_TOKEN)
    ensures ParseMember(YieldPair(p) + next) == Ok((Member(p.key, Value(p.tree)), next))
    decreases p
  {
    var u := YieldPair(p) + next;
    assert u[0] == Str(Ok(p.key)) && u[1] == COLON_TOKEN;
    assert u[1..][1..] == Yield(p.tree) + next;
    ParseYield(p.tree, next);
  }

  lemma PairsStart(pairs: seq<Pair>, rest: seq<Token>)
    requires pairs != []
    ensures !Starts(YieldPairs(pairs) + rest, COMMA_TOKEN)
  {
    var first := YieldPair(pairs[0]);
    assert first[0] == Str(Ok(pairs[0].key));
    hide YieldPair;
    if |pairs| == 1 {
      assert YieldPairs(pairs) == first;
    } else {
      assert YieldPairs(pairs) == first + [COMMA_TOKEN] + YieldPairs(pairs[1..]);
    }
  }

  // ---- Everything parsed has a derivation ------------------------------------------------

  /** What was read of `t` is the yield of the derivation returned. */
  lemma {:induction false} ParsedHasTree(t: seq<Token>) returns (tree: Tree)
    requires ParseValue(t).Ok?
    ensures t == Yield(tree) + ParseValue(t).value.1
    ensures Value(tree) == ParseValue(t).value.0
    decreases |t|, 0
  {
    hide ParseItems, ParsePairs, YieldItems, YieldPairs, Values, Build;
    var rest := t[1..];
    assert t == [t[0]] + rest;
    if t[0] == Plain(BeginArray) {
      tree := ParsedArray(t);
    } else if t[0] == Plain(BeginObject) {
      tree := ParsedObject(t);
    } else {
      tree :=
        match t[0]
        case Str(r) => TreeString(r.value)
        case Num(r) => TreeNumber(r.value)
        case Plain(k) => if k == LiteralNull then TreeNull else TreeBoolean(k == LiteralTrue);
    }
  }

  lemma {:induction false} ParsedArray(t: seq<Token>) returns (tree: Tree)
    requires ParseValue(t).Ok? && t[0] == Plain(BeginArray)
    ensures t == Yield(tree) + ParseValue(t).value.1
    ensures Value(tree) == ParseValue(t).value.0
    decreases |t| - 1, 3
  {
    hide ParseItems, YieldItems, Values;
    var rest := t[1..];
    assert t == [t[0]] + rest;
    if Starts(rest, Plain(EndArray)) {
      tree := TreeArray([]);
      NoItems();
    } else {
      var items := ParsedItems(rest, []);
      tree := TreeArray(items);
      assert [] + Values(items) == Values(items);
    }
  }

  lemma {:induction false} ParsedObject(t: seq<Token>) returns (tree: Tree)
    requires ParseValue(t).Ok? && t[0] == Plain(BeginObject)
    ensures t == Yield(tree) + ParseValue(t).value.1
    ensures Value(tree) == ParseValue(t).value.0
    decreases |t| - 1, 3
  {
    hide ParsePairs, YieldPairs, Build;
    var rest := t[1..];
    assert t == [t[0]] + rest;
    if Starts(rest, Plain(EndObject)) {
      tree := TreeObject([]);
      NoItems();
    } else {
      var pairs := ParsedPairs(rest, []);
      tree := TreeObject(pairs);
    }
  }

  lemma {:induction false} ParsedItems(t: seq<Token>, acc: seq<Json>) returns (items: seq<Tree>)
    requires ParseItems(t, acc).Ok?
    ensures items != []
    ensures Skip(t, COMMA_TOKEN) == YieldItems(items) + [Plain(EndArray)] + ParseItems(t, acc).value.1
    ensures ParseItems(t, acc).value.0 == Array(acc + Values(items))
    decreases |t|, 1
  {
    hide ParseValue, Yield, Value, YieldItems, Values;
    var u := Skip(t, COMMA_TOKEN);
    var first := ParsedHasTree(u);
    var (v, rest) := ParseValue(u).value;
    if Starts(rest, COMMA_TOKEN) {
      var others := ParsedItems(rest, acc + [v]);
      items := [first] + others;
      ItemsCons(first, others);
      assert acc + [v] + Values(others) == acc + ([v] + Values(others));
      assert rest == [COMMA_TOKEN] + rest[1..];
    } else {
      items := [first];
      ItemsOne(first);
    }
  }

  lemma NoItems()
    ensures YieldItems([]) == YieldPairs([]) == [] && Values([]) == [] && Build([], []) == []
  {
  }

  lemma ItemsCons(first: Tree, others: seq<Tree>)
    requires others != []
    ensures YieldItems([first] + others) == Yield(first) + [COMMA_TOKEN] + YieldItems(others)
    ensures Values([first] + others) == [Value(first)] + Values(others)
  {
    assert ([first] + others)[1..] == others;
  }

  lemma ItemsOne(first: Tree)
    ensures YieldItems([first]) == Yield(first) && Values([first]) == [Value(first)]
  {
    assert [first][1..] == [];
  }

  lemma {:induction false} ParsedPairs(t: seq<Token>, acc: seq<Member>) returns (pairs: seq<Pair>)
    requires ParsePairs(t, acc).Ok?
    ensures pairs != []
    ensures Skip(t, COMMA_TOKEN) == YieldPairs(pairs) + [Plain(EndObject)] + ParsePairs(t, acc).value.1
    ensures ParsePairs(t, acc).value.0 == Object(Build(pairs, acc))
    decreases |t|, 2
  {
    hide ParseMember, Value, YieldPair, Insert, YieldPairs, Build;
    var u := Skip(t, COMMA_TOKEN);
    var first := ParsedMember(u);
    var (m, rest) := ParseMember(u).value;
    if Starts(rest, COMMA_TOKEN) {
      var others := ParsedPairs(rest, Insert(acc, m.key, m.value));
      pairs := [first] + others;
      PairsCons(first, others, acc);
      assert rest == [COMMA_TOKEN] + rest[1..];
    } else {
      pairs := [first];
      PairsOne(first, acc);
    }
  }

  lemma {:induction false} ParsedMember(u: seq<Token>) returns (p: Pair)
    requires ParseMember(u).Ok?
    ensures u == YieldPair(p) + ParseMember(u).value.1
    ensures Member(p.key, Value(p.tree)) == ParseMember(u).value.0
    decreases |u|, 1
  {
    hide ParseValue, Yield, Value;
    var tree := ParsedHasTree(u[1..][1..]);
    p := Pair(u[0].text.value, tree);
    assert u == [u[0]] + u[1..];
    assert u[1..] == [COLON_TOKEN] + u[1..][1..];
  }

  lemma PairsCons(first: Pair, others: seq<Pair>, acc: seq<Member>)
    requires others != []
    ensures YieldPairs([first] + others) == YieldPair(first) + [COMMA_TOKEN] + YieldPairs(others)
    ensures Build([first] + others, acc) == Build(others, Insert(acc, first.key, Value(first.tree)))
  {
    assert ([first] + others)[1..] == others;
  }

  lemma PairsOne(first: Pair, acc: seq<Member>)
    ensures YieldPairs([first]) == YieldPair(first)
    ensures Build([first], acc) == Insert(acc, first.key, Value(first.tree))
  {
    assert [first][1..] == [];
    assert Build([], Insert(acc, first.key, Value(first.tree))) == Insert(acc, first.key, Value(first.tree));
  }

  /**
   * The parser accepts exactly the token sequences of the grammar, with the value of their
   * derivation; so there is no leading, trailing or doubled comma.
   */
  lemma AcceptsExactlyTheGrammar(t: seq<Token>, v: Json)
    ensures ParseText(t) == Ok(v) <==>
      exists tree, tail :: t == Yield(tree) + ([END_TOKEN] + tail) && Value(tree) == v
  {
    if ParseText(t) == Ok(v) {
      var tree := ParsedHasTree(t);
      var rest := ParseValue(t).value.1;
      assert rest == [END_TOKEN] + rest[1..];
    }
    forall tree, tail | t == Yield(tree) + ([END_TOKEN] + tail) && Value(tree) == v
      ensures ParseText(t) == Ok(v)
    {
      ParseYield(tree, [END_TOKEN] + tail);
    }
  }
}
