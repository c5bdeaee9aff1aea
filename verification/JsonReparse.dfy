/** Values that come from a text: what the parser guarantees, and dumping them again. */
module JsonReparse {
  import opened Bytes
  import opened JsonValue
  import opened JsonNumbers
  import opened JsonDfa
  import opened JsonScan
  import opened JsonGrammar
  import opened JsonDump
  import opened JsonRoundTrip

  /** The numbers among the tokens are numbers. */
  predicate NumbersOnly(t: seq<Token>) {
    forall k :: 0 <= k < |t| && t[k].Num? && t[k].number.Ok? ==> !t[k].number.value.Structured()
  }

  lemma {:induction false} LexNumbers(s: Text, p: nat)
    requires p <= |s|
    ensures NumbersOnly(Lex(s, p))
    decreases |s| + 1 - p
  {
    hide Scan, NumberValue, QuotedLiteral;
    ScannedIsToken(s, p);
    var l := Scan(s, p);
    TokenNumber(s, l);
    if l.kind != EndOfInput && l.kind != ParseError {
      LexNumbers(s, l.end);
    }
  }

  lemma TokenNumber(s: Text, l: Lexeme)
    requires IsToken(s, l)
    ensures NumbersOnly([TokenOf(s, l)])
  {
  }

  lemma NumbersSplit(t: seq<Token>, u: seq<Token>)
    requires NumbersOnly(t + u)
    ensures NumbersOnly(t) && NumbersOnly(u)
  {
    assert forall k :: 0 <= k < |t| ==> t[k] == (t + u)[k];
    assert forall k :: 0 <= k < |u| ==> u[k] == (t + u)[|t| + k];
  }

  /** Whatever the order of the names in the text, the value of a derivation holds maps only. */
  lemma {:induction false} ValueWellFormed(tree: Tree)
    requires NumbersOnly(Yield(tree))
    ensures WellFormed(Value(tree))
    decreases tree
  {
    hide NumbersOnly, Sorted;
    match tree
    case TreeArray(items) =>
      NumbersSplit([Plain(BeginArray)] + YieldItems(items), [Plain(EndArray)]);
      NumbersSplit([Plain(BeginArray)], YieldItems(items));
      ValuesWellFormed(items);
    case TreeObject(pairs) =>
      NumbersSplit([Plain(BeginObject)] + YieldPairs(pairs), [Plain(EndObject)]);
      NumbersSplit([Plain(BeginObject)], YieldPairs(pairs));
      Empty();
      BuildWellFormed(pairs, []);
    case TreeNumber(v) => NumberWellFormed(v);
    case _ =>
  }

  lemma Empty()
    ensures WellFormed(Object([]))
  {
  }

  lemma NumberWellFormed(v: Json)
    requires NumbersOnly([Num(Ok(v))])
    ensures WellFormed(v)
  {
    assert [Num(Ok(v))][0].number.value == v;
  }

  lemma {:induction false} ValuesWellFormed(items: seq<Tree>)
    requires NumbersOnly(YieldItems(items))
    ensures forall v | v in Values(items) :: WellFormed(v)
    decreases items
  {
    hide NumbersOnly, WellFormed, Yield, Value;
    if items != [] {
      if |items| > 1 {
        NumbersSplit(Yield(items[0]) + [COMMA_TOKEN], YieldItems(items[1..]));
        NumbersSplit(Yield(items[0]), [COMMA_TOKEN]);
        ValuesWellFormed(items[1..]);
      }
      ValueWellFormed(items[0]);
    }
  }

  lemma {:induction false} BuildWellFormed(pairs: seq<Pair>, acc: seq<Member>)
    requires NumbersOnly(YieldPairs(pairs)) && WellFormed(Object(acc))
    ensures WellFormed(Object(Build(pairs, acc)))
    decreases pairs
  {
    hide NumbersOnly, WellFormed, YieldPair, Value, Insert;
    if pairs != [] {
      var p := pairs[0];
      if |pairs| > 1 {
        NumbersSplit(YieldPair(p) + [COMMA_TOKEN], YieldPairs(pairs[1..]));
        NumbersSplit(YieldPair(p), [COMMA_TOKEN]);
      }
      PairNumbers(p);
      ValueWellFormed(p.tree);
      InsertWellFormed(acc, p.key, Value(p.tree));
      if |pairs| > 1 {
        BuildWellFormed(pairs[1..], Insert(acc, p.key, Value(p.tree)));
      }
    }
  }

  lemma PairNumbers(p: Pair)
    requires NumbersOnly(YieldPair(p))
    ensures NumbersOnly(Yield(p.tree))
  {
    NumbersSplit([Str(Ok(p.key)), COLON_TOKEN], Yield(p.tree));
  }

  lemma InsertWellFormed(ms: seq<Member>, key: Text, v: Json)
    requires WellFormed(Object(ms)) && WellFormed(v)
    ensures WellFormed(Object(Insert(ms, key, v)))
  {
    hide WellFormed, Insert;
    ObjectWellFormed(ms);
    ObjectWellFormed(Insert(ms, key, v));
    InsertMeaning(ms, key, v);
    InsertMembers(ms, key, v);
  }

  lemma ObjectWellFormed(ms: seq<Member>)
    ensures WellFormed(Object(ms)) <==> Sorted(ms) && forall m | m in ms :: WellFormed(m.value)
  {
  }

  lemma {:induction false} InsertMembers(ms: seq<Member>, key: Text, v: Json)
    ensures forall m | m in Insert(ms, key, v) :: m in ms || m == Member(key, v)
  {
    if ms != [] {
      InsertMembers(ms[1..], key, v);
    }
  }

  /** Every object that comes out of the parser is a map, at any depth. */
  lemma ParsedIsWellFormed(s: Text, v: Json)
    requires ParseText(Lex(s, 0)) == Ok(v)
    ensures WellFormed(v)
  {
    hide Lex, NumbersOnly;
    var t := Lex(s, 0);
    LexNumbers(s, 0);
    var tree := ParsedHasTree(t);
    NumbersSplit(Yield(tree), ParseValue(t).value.1);
    ValueWellFormed(tree);
  }

  /**
   * A text that has been parsed can be dumped and parsed again: the value that comes back is equal,
   * and from then on nothing changes any more.
   */
  lemma DumpOfParsed(s: Text, v: Json, indent: int)
    requires ParseText(Lex(s, 0)) == Ok(v) && FloatFree(v) && indent < 0x8000_0000
    ensures
      var w := Reread(v);
      && ParseText(Lex(DumpText(v, indent), 0)) == Ok(w)
      && FloatFree(w) && JsonOrder.Eq(v, w)
      && ParseText(Lex(DumpText(w, indent), 0)) == Ok(w)
  {
    hide Lex, ParseText, DumpText;
    ParsedIsWellFormed(s, v);
    RoundTrip(v, indent);
    var w := Reread(v);
    ParsedIsWellFormed(DumpText(v, indent), w);
    RoundTrip(w, indent);
    RereadIdentity(v);
    RereadIdentity(w);
  }
}
