/** Where `dump` puts line breaks, indentation and spaces, in terms of the bytes of its text. */
module JsonLayout {
  import opened Bytes
  import opened JsonStrings
  import opened JsonValue
  import opened JsonNumbers
  import opened JsonScan
  import opened JsonDump

  // ---- Reading the text byte by byte ------------------------------------------------------

  datatype Mode = Outside | Quoting | Escaping

  /** Brackets opened and not closed, and whether the place is inside quotes. */
  datatype Place = Place(depth: int, mode: Mode)

  predicate Opens(b: Byte) {
    b == 0x5B || b == 0x7B
  }

  predicate Closes(b: Byte) {
    b == 0x5D || b == 0x7D
  }

  predicate Blank(b: Byte) {
    b == 0x20 || b == 0x0A || b == 0x0D || b == 0x09
  }

  function Over(p: Place, b: Byte): Place {
    match p.mode
    case Outside =>
      if b == 0x22 then Place(p.depth, Quoting)
      else if Opens(b) then Place(p.depth + 1, Outside)
      else if Closes(b) then Place(p.depth - 1, Outside)
      else p
    case Quoting =>
      if b == 0x22 then Place(p.depth, Outside) else if b == 0x5C then Place(p.depth, Escaping) else p
    case Escaping => Place(p.depth, Quoting)
  }

  /** The place in front of byte `i`. */
  function PlaceAt(t: Text, i: nat): Place
    requires i <= |t|
  {
    if i == 0 then Place(0, Outside) else Over(PlaceAt(t, i - 1), t[i - 1])
  }

  // ---- The layout ---------------------------------------------------------------------------

  /** Exactly `n` spaces and then something else stand behind byte `i`. */
  predicate Indented(t: Text, i: nat, n: nat) {
    i + n + 1 < |t| && (forall k :: i < k <= i + n ==> t[k] == 0x20) && !Blank(t[i + n + 1])
  }

  /** The indentation at a depth; the counter is 32 bits wide. */
  function Width(step: uint32, depth: int): nat {
    (step * depth) % 0x1_0000_0000
  }

  /**
   * The line behind byte `i`, a line break at this depth, is indented by its depth.  It begins with an element
   * or a member, behind a comma or an opening bracket, or with a closing bracket, indented by the depth behind it.
   */
  predicate LineRule(t: Text, i: nat, step: uint32, depth: int)
    requires i < |t|
  {
    var width, outer := Width(step, depth), Width(step, depth - 1);
    || (Indented(t, i, width) && !Closes(t[i + width + 1]) && i > 0 && (t[i - 1] == 0x2C || Opens(t[i - 1])))
    || (Indented(t, i, outer) && Closes(t[i + outer + 1]))
  }

  /** What holds of byte `i`, outside quotes, of pretty text. */
  predicate PrettyRule(t: Text, i: nat, step: uint32, depth: int)
    requires i < |t|
  {
    var b := t[i];
    && b != 0x09 && b != 0x0D
    && (b == 0x0A ==> LineRule(t, i, step, depth))
    && (b == 0x2C ==> i + 1 < |t| && t[i + 1] == 0x0A)
    && (b == 0x5B ==> i + 1 < |t| && (t[i + 1] == 0x0A || t[i + 1] == 0x5D))
    && (b == 0x7B ==> i + 1 < |t| && (t[i + 1] == 0x0A || t[i + 1] == 0x7D))
    && (Closes(b) ==> i > 0 && (Opens(t[i - 1]) || t[i - 1] == 0x0A || t[i - 1] == 0x20))
    && (b == 0x3A ==> i + 2 < |t| && t[i + 1] == 0x20 && !Blank(t[i + 2]))
    && (b == 0x20 ==> i > 0 && (t[i - 1] == 0x3A || t[i - 1] == 0x0A || t[i - 1] == 0x20))
  }

  predicate Rule(t: Text, i: nat, pretty: bool, step: uint32, depth: int)
    requires i < |t|
  {
    if pretty then PrettyRule(t, i, step, depth) else !Blank(t[i])
  }

  /** Every byte outside quotes from `i` up to `j` keeps the rule. */
  ghost predicate LaidOut(t: Text, i: nat, j: nat, pretty: bool, step: uint32)
    requires j <= |t|
  {
    forall k: nat :: i <= k < j && PlaceAt(t, k).mode == Outside ==> Rule(t, k, pretty, step, PlaceAt(t, k).depth)
  }

  /** From `p` on, outside quotes at this depth, `w` is laid out, and leads back to the same depth. */
  ghost predicate Laid(t: Text, p: nat, w: Text, pretty: bool, step: uint32, depth: int) {
    && p + |w| <= |t|
    && PlaceAt(t, p + |w|) == Place(depth, Outside)
    && LaidOut(t, p, p + |w|, pretty, step)
  }

  lemma LaidChain(t: Text, p: nat, a: Text, b: Text, pretty: bool, step: uint32, depth: int)
    requires Laid(t, p, a, pretty, step, depth) && Laid(t, p + |a|, b, pretty, step, depth)
    ensures Laid(t, p, a + b, pretty, step, depth)
  {
    hide Rule, PlaceAt;
  }

  lemma NextPlace(t: Text, i: nat)
    requires i < |t|
    ensures PlaceAt(t, i + 1) == Over(PlaceAt(t, i), t[i])
  {
  }

  // ---- Leaves -----------------------------------------------------------------------------------

  /** A byte of a number or a literal. */
  predicate Ordinary(b: Byte) {
    !Blank(b) && !Opens(b) && !Closes(b) && b != 0x22 && b != 0x2C && b != 0x3A
  }

  lemma {:induction false} LaidPlain(t: Text, p: nat, w: Text, pretty: bool, step: uint32, depth: int)
    requires Occurs(t, p, w) && PlaceAt(t, p) == Place(depth, Outside)
    requires forall k :: 0 <= k < |w| ==> Ordinary(w[k])
    ensures Laid(t, p, w, pretty, step, depth)
    decreases |w|
  {
    hide PlaceAt;
    if w != [] {
      assert w == [w[0]] + w[1..];
      OccursSplit(t, p, [w[0]], w[1..]);
      OccursAt(t, p, w);
      assert t[p + 0] == w[0];
      NextPlace(t, p);
      LaidPlain(t, p + 1, w[1..], pretty, step, depth);
      LaidByte(t, p, pretty, step, depth);
      LaidChain(t, p, [w[0]], w[1..], pretty, step, depth);
    }
  }

  /** One byte that does not change the place and keeps the rule. */
  lemma LaidByte(t: Text, p: nat, pretty: bool, step: uint32, depth: int)
    requires p < |t| && PlaceAt(t, p) == Place(depth, Outside) == Over(Place(depth, Outside), t[p])
    requires Rule(t, p, pretty, step, depth)
    ensures Laid(t, p, [t[p]], pretty, step, depth)
  {
    NextPlace(t, p);
  }

  /** The bytes of one escape leave the reader inside the quotes. */
  lemma EscapeStays(t: Text, i: nat, c: Byte, depth: int)
    requires Occurs(t, i, EscapeByte(c)) && PlaceAt(t, i) == Place(depth, Quoting)
    ensures PlaceAt(t, i + |EscapeByte(c)|) == Place(depth, Quoting)
    ensures forall k: nat :: i <= k < i + |EscapeByte(c)| ==> PlaceAt(t, k).mode != Outside
  {
    var e := EscapeByte(c);
    OccursAt(t, i, e);
    assert t[i + 0] == e[0];
    NextPlace(t, i);
    if |e| == 2 {
      assert t[i + 1] == e[1];
      NextPlace(t, i + 1);
    } else if |e| > 2 {
      assert t[i + 1] == e[1] && t[i + 2] == e[2] && t[i + 3] == e[3] && t[i + 4] == e[4] && t[i + 5] == e[5];
      hide EscapeByte;
      UnitStays(t, i, depth);
    }
  }

  lemma UnitStays(t: Text, i: nat, depth: int)
    requires i + 6 <= |t| && PlaceAt(t, i) == Place(depth, Quoting) && t[i] == BACKSLASH
    requires forall k :: i + 2 <= k < i + 6 ==> t[k] != QUOTE && t[k] != BACKSLASH
    ensures PlaceAt(t, i + 6) == Place(depth, Quoting)
    ensures forall k: nat :: i <= k < i + 6 ==> PlaceAt(t, k).mode != Outside
  {
    hide PlaceAt;
    NextPlace(t, i);
    NextPlace(t, i + 1);
    NextPlace(t, i + 2);
    NextPlace(t, i + 3);
    NextPlace(t, i + 4);
    NextPlace(t, i + 5);
  }

  lemma {:induction false} EscapedStays(t: Text, i: nat, s: Text, depth: int)
    requires Occurs(t, i, Escape(s)) && PlaceAt(t, i) == Place(depth, Quoting)
    ensures PlaceAt(t, i + |Escape(s)|) == Place(depth, Quoting)
    ensures forall k: nat :: i <= k < i + |Escape(s)| ==> PlaceAt(t, k).mode != Outside
    decreases |s|
  {
    hide PlaceAt, EscapeByte;
    if s != [] {
      OccursSplit(t, i, EscapeByte(s[0]), Escape(s[1..]));
      EscapeStays(t, i, s[0], depth);
      EscapedStays(t, i + |EscapeByte(s[0])|, s[1..], depth);
    }
  }

  lemma LaidQuoted(t: Text, p: nat, s: Text, pretty: bool, step: uint32, depth: int)
    requires Occurs(t, p, Quoted(s)) && PlaceAt(t, p) == Place(depth, Outside)
    ensures Laid(t, p, Quoted(s), pretty, step, depth)
  {
    hide PlaceAt, Escape, Laid, Occurs;
    var w := Escape(s);
    assert Quoted(s) == [QUOTE] + (w + [QUOTE]);
    OccursSplit(t, p, [QUOTE], w + [QUOTE]);
    OccursSplit(t, p + 1, w, [QUOTE]);
    QuoteAt(t, p);
    QuoteAt(t, p + 1 + |w|);
    NextPlace(t, p);
    EscapedStays(t, p + 1, s, depth);
    QuotesEnclose(t, p, w, pretty, step, depth);
  }

  lemma QuoteAt(t: Text, i: nat)
    requires Occurs(t, i, [QUOTE])
    ensures i < |t| && t[i] == QUOTE
  {
    OccursAt(t, i, [QUOTE]);
    assert t[i + 0] == QUOTE;
  }

  lemma QuotesEnclose(t: Text, p: nat, w: Text, pretty: bool, step: uint32, depth: int)
    requires p + |w| + 2 <= |t| && t[p] == QUOTE && t[p + 1 + |w|] == QUOTE
    requires forall k: nat :: p < k < p + 1 + |w| ==> PlaceAt(t, k).mode != Outside
    requires PlaceAt(t, p + 1 + |w|) == Place(depth, Quoting)
    ensures Laid(t, p, [QUOTE] + (w + [QUOTE]), pretty, step, depth)
  {
    hide PlaceAt;
    NextPlace(t, p + 1 + |w|);
  }

  // ---- Blanks -------------------------------------------------------------------------------------

  lemma {:induction false} LaidSpaces(t: Text, p: nat, n: nat, step: uint32, depth: int)
    requires Occurs(t, p, Spaces(n)) && PlaceAt(t, p) == Place(depth, Outside)
    requires p > 0 && (t[p - 1] == LF || t[p - 1] == SPACE)
    ensures Laid(t, p, Spaces(n), true, step, depth)
    decreases n
  {
    hide PlaceAt;
    if n > 0 {
      assert Spaces(n) == [SPACE] + Spaces(n - 1);
      OccursSplit(t, p, [SPACE], Spaces(n - 1));
      OccursAt(t, p, [SPACE]);
      assert t[p + 0] == SPACE;
      NextPlace(t, p);
      LaidByte(t, p, true, step, depth);
      LaidSpaces(t, p + 1, n - 1, step, depth);
      LaidChain(t, p, [SPACE], Spaces(n - 1), true, step, depth);
    }
  }

  /** A line of a value or a member: the indentation, and then neither a blank nor a closing bracket. */
  predicate StartsLine(w: Text, ind: nat) {
    ind < |w| && (forall k :: 0 <= k < ind ==> w[k] == SPACE) && !Blank(w[ind]) && !Closes(w[ind])
  }

  /** The indentation counter belongs to the depth; it stays zero in compact text. */
  predicate Follows(pretty: bool, step: uint32, cur: uint32, depth: int) {
    cur == if pretty then Width(step, depth) else 0
  }

  lemma Wrap(a: int, step: uint32)
    ensures (a % 0x1_0000_0000 + step) % 0x1_0000_0000 == (a + step) % 0x1_0000_0000
  {
  }

  lemma OneMore(step: int, depth: int)
    ensures step * (depth + 1) == step * depth + step
  {
  }

  lemma FollowsDeeper(pretty: bool, step: uint32, cur: uint32, depth: int)
    requires Follows(pretty, step, cur, depth)
    ensures Follows(pretty, step, if pretty then Deeper(cur, step) else cur, depth + 1)
  {
    OneMore(step, depth);
    var a := step * depth;
    Wrap(a, step);
    assert Width(step, depth) == a % 0x1_0000_0000;
    assert Width(step, depth + 1) == (a + step) % 0x1_0000_0000;
  }

  lemma FirstByte(v: Json, pretty: bool, step: uint32, cur: uint32)
    requires FloatFree(v)
    ensures
      var b := Print(v, pretty, step, cur)[0];
      !Blank(b) && !Closes(b)
  {
    hide PrintItems, PrintMembers;
    if v.Integer? && v.i >= 0 {
      assert PrintInt(v.i) == PrintNat(v.i);
    }
  }

  lemma ItemsStartLine(xs: seq<Json>, pretty: bool, step: uint32, ind: uint32)
    requires xs != [] && forall x | x in xs :: FloatFree(x)
    ensures StartsLine(PrintItems(xs, pretty, step, ind), ind)
  {
    hide Print;
    FirstByte(xs[0], pretty, step, ind);
  }

  lemma MembersStartLine(ms: seq<Member>, pretty: bool, step: uint32, ind: uint32)
    requires ms != [] && forall m | m in ms :: FloatFree(m.value)
    ensures StartsLine(PrintMembers(ms, pretty, step, ind), ind)
  {
    hide Print;
    assert KeyText(ms[0].key, pretty)[0] == QUOTE;
    hide KeyText;
  }

  /** The rule of a line break in front of such a line. */
  lemma LineBreak(t: Text, i: nat, w: Text, ind: uint32, step: uint32, depth: int)
    requires i < |t| && t[i] == LF && Occurs(t, i + 1, w) && StartsLine(w, ind) && Follows(true, step, ind, depth)
    requires i > 0 && (t[i - 1] == COMMA || Opens(t[i - 1]))
    ensures Rule(t, i, true, step, depth)
  {
    OccursAt(t, i + 1, w);
    forall k | i < k <= i + ind ensures t[k] == 0x20 {
      assert t[i + 1 + (k - i - 1)] == w[k - i - 1];
    }
    assert t[i + 1 + ind] == w[ind];
  }

  // ---- Arrays and objects ---------------------------------------------------------------------------

  predicate Pair(open: Byte, close: Byte) {
    (open == LBRACKET && close == RBRACKET) || (open == LBRACE && close == RBRACE)
  }

  lemma LaidOpen(t: Text, p: nat, open: Byte, w: Text, pretty: bool, step: uint32, ind: uint32, depth: int)
    requires Opens(open) && Occurs(t, p, [open] + (Newline(pretty) + w))
    requires PlaceAt(t, p) == Place(depth, Outside) && StartsLine(w, ind) && Follows(pretty, step, ind, depth + 1)
    ensures
      var q := p + 1 + |Newline(pretty)|;
      && q <= |t| && Occurs(t, q, w) && PlaceAt(t, q) == Place(depth + 1, Outside)
      && LaidOut(t, p, q, pretty, step) && (pretty ==> t[q - 1] == LF)
  {
    hide PlaceAt, StartsLine, Follows, Width, LineRule;
    OccursSplit(t, p, [open], Newline(pretty) + w);
    OccursSplit(t, p + 1, Newline(pretty), w);
    OccursAt(t, p, [open]);
    assert t[p + 0] == open;
    NextPlace(t, p);
    if pretty {
      OccursAt(t, p + 1, [LF]);
      assert t[p + 1 + 0] == LF;
      NextPlace(t, p + 1);
      hide Rule;
      LineBreak(t, p + 1, w, ind, step, depth + 1);
      OpenRule(t, p, step, depth);
    }
  }

  lemma OpenRule(t: Text, p: nat, step: uint32, depth: int)
    requires p + 1 < |t| && Opens(t[p]) && t[p + 1] == LF
    ensures Rule(t, p, true, step, depth)
  {
  }

  lemma ClosingLine(t: Text, r: nat, cur: uint32, step: uint32, depth: int)
    requires r + cur + 1 < |t| && t[r] == LF && Closes(t[r + cur + 1]) && Follows(true, step, cur, depth - 1)
    requires forall k :: r < k <= r + cur ==> t[k] == SPACE
    ensures Rule(t, r, true, step, depth) && Rule(t, r + cur + 1, true, step, depth)
  {
    assert Indented(t, r, cur);
    assert t[r + cur] == LF || t[r + cur] == SPACE;
  }

  lemma LaidClose(t: Text, r: nat, close: Byte, pretty: bool, step: uint32, cur: uint32, depth: int)
    requires Closes(close) && Occurs(t, r, Newline(pretty) + (Spaces(cur) + [close]))
    requires PlaceAt(t, r) == Place(depth + 1, Outside) && Follows(pretty, step, cur, depth)
    ensures Laid(t, r, Newline(pretty) + (Spaces(cur) + [close]), pretty, step, depth)
  {
    if pretty {
      hide Follows, Spaces, PlaceAt;
      PrettyClose(t, r, close, step, cur, depth);
    } else {
      hide PlaceAt;
      var w := Newline(pretty) + (Spaces(cur) + [close]);
      assert w == [close];
      OccursAt(t, r, [close]);
      assert t[r + 0] == close;
      NextPlace(t, r);
    }
  }

  lemma PrettyClose(t: Text, r: nat, close: Byte, step: uint32, cur: uint32, depth: int)
    requires Closes(close) && Occurs(t, r, [LF] + (Spaces(cur) + [close]))
    requires PlaceAt(t, r) == Place(depth + 1, Outside) && Follows(true, step, cur, depth)
    ensures Laid(t, r, [LF] + (Spaces(cur) + [close]), true, step, depth)
  {
    hide PlaceAt, Rule, Follows, Laid;
    var e := r + 1 + cur;
    OccursSplit(t, r, [LF], Spaces(cur) + [close]);
    OccursSplit(t, r + 1, Spaces(cur), [close]);
    OccursAt(t, r, [LF]);
    OccursAt(t, r + 1, Spaces(cur));
    OccursAt(t, e, [close]);
    assert t[r + 0] == LF && t[e + 0] == close;
    hide Occurs;
    forall k | r < k < e ensures t[k] == SPACE {
      assert t[r + 1 + (k - r - 1)] == Spaces(cur)[k - r - 1];
    }
    NextPlace(t, r);
    ClosingLine(t, r, cur, step, depth + 1);
    LaidSpaces(t, r + 1, cur, step, depth + 1);
    LaidEnd(t, r + 1, Spaces(cur), true, step, depth + 1);
    NextPlace(t, e);
    ClosedLine(t, r, cur, close, step, depth);
  }

  /** The three parts of a closing line together. */
  lemma ClosedLine(t: Text, r: nat, cur: uint32, close: Byte, step: uint32, depth: int)
    requires r + cur + 2 <= |t| && Laid(t, r + 1, Spaces(cur), true, step, depth + 1)
    requires PlaceAt(t, r) == Place(depth + 1, Outside) && Rule(t, r, true, step, depth + 1)
    requires Rule(t, r + cur + 1, true, step, depth + 1) && PlaceAt(t, r + cur + 2) == Place(depth, Outside)
    ensures Laid(t, r, [LF] + (Spaces(cur) + [close]), true, step, depth)
  {
    hide PlaceAt, Rule;
  }

  /** Contents between brackets, with their line breaks. */
  lemma LaidEnclosed(
    t: Text, p: nat, open: Byte, w: Text, close: Byte, pretty: bool, step: uint32, cur: uint32, depth: int)
    requires Occurs(t, p, [open] + (Newline(pretty) + (w + (Newline(pretty) + (Spaces(cur) + [close])))))
    requires PlaceAt(t, p) == Place(depth, Outside) && Closes(close) && Follows(pretty, step, cur, depth)
    requires p + 1 + |Newline(pretty)| <= |t| && LaidOut(t, p, p + 1 + |Newline(pretty)|, pretty, step)
    requires Laid(t, p + 1 + |Newline(pretty)|, w, pretty, step, depth + 1)
    ensures
      var enclosed := [open] + (Newline(pretty) + (w + (Newline(pretty) + (Spaces(cur) + [close]))));
      Laid(t, p, enclosed, pretty, step, depth)
  {
    hide PlaceAt, Rule, Follows, Spaces, Newline;
    var q, tail := p + 1 + |Newline(pretty)|, Newline(pretty) + (Spaces(cur) + [close]);
    OccursSplit(t, p, [open], Newline(pretty) + (w + tail));
    OccursSplit(t, p + 1, Newline(pretty), w + tail);
    OccursSplit(t, q, w, tail);
    LaidClose(t, q + |w|, close, pretty, step, cur, depth);
  }

  lemma LaidEmpty(t: Text, p: nat, open: Byte, close: Byte, pretty: bool, step: uint32, depth: int)
    requires Pair(open, close) && Occurs(t, p, [open, close]) && PlaceAt(t, p) == Place(depth, Outside)
    ensures Laid(t, p, [open, close], pretty, step, depth)
  {
    hide PlaceAt;
    OccursAt(t, p, [open, close]);
    assert t[p + 0] == open && t[p + 1] == close;
    NextPlace(t, p);
    NextPlace(t, p + 1);
  }

  /** The separator in front of another line. */
  lemma LaidSeparator(t: Text, p: nat, w: Text, pretty: bool, step: uint32, ind: uint32, depth: int)
    requires Occurs(t, p, Separator(pretty) + w) && StartsLine(w, ind)
    requires PlaceAt(t, p) == Place(depth, Outside) && Follows(pretty, step, ind, depth)
    ensures Laid(t, p, Separator(pretty), pretty, step, depth)
    ensures pretty ==> t[p + |Separator(pretty)| - 1] == LF
  {
    hide PlaceAt, StartsLine, Follows, Width, LineRule;
    OccursSplit(t, p, Separator(pretty), w);
    OccursAt(t, p, Separator(pretty));
    assert t[p + 0] == COMMA;
    NextPlace(t, p);
    if pretty {
      assert t[p + 1] == LF;
      NextPlace(t, p + 1);
      LineBreak(t, p + 1, w, ind, step, depth);
    }
  }

  lemma LaidIndent(t: Text, p: nat, pretty: bool, step: uint32, ind: uint32, depth: int)
    requires Occurs(t, p, Spaces(ind)) && PlaceAt(t, p) == Place(depth, Outside) && Follows(pretty, step, ind, depth)
    requires pretty ==> p > 0 && t[p - 1] == LF
    ensures Laid(t, p, Spaces(ind), pretty, step, depth)
  {
    if pretty {
      LaidSpaces(t, p, ind, step, depth);
    }
  }

  function Colon(pretty: bool): Text {
    if pretty then [COLON, SPACE] else [COLON]
  }

  lemma LaidColon(t: Text, q: nat, w: Text, pretty: bool, step: uint32, depth: int)
    requires Occurs(t, q, Colon(pretty) + w) && w != [] && !Blank(w[0]) && PlaceAt(t, q) == Place(depth, Outside)
    ensures Laid(t, q, Colon(pretty), pretty, step, depth)
  {
    hide PlaceAt;
    OccursAt(t, q, Colon(pretty) + w);
    assert t[q + 0] == COLON && t[q + |Colon(pretty)|] == w[0];
    NextPlace(t, q);
    if pretty {
      assert t[q + 1] == SPACE;
      NextPlace(t, q + 1);
    }
  }

  /** A key and its colon, in front of the first byte of a value. */
  lemma LaidKey(t: Text, p: nat, key: Text, w: Text, pretty: bool, step: uint32, depth: int)
    requires Occurs(t, p, KeyText(key, pretty) + w) && w != [] && !Blank(w[0])
    requires PlaceAt(t, p) == Place(depth, Outside)
    ensures Laid(t, p, KeyText(key, pretty), pretty, step, depth)
  {
    hide PlaceAt, Quoted, Occurs, Laid;
    var q := p + |Quoted(key)|;
    assert KeyText(key, pretty) + w == Quoted(key) + (Colon(pretty) + w);
    OccursSplit(t, p, Quoted(key), Colon(pretty) + w);
    LaidQuoted(t, p, key, pretty, step, depth);
    LaidEnd(t, p, Quoted(key), pretty, step, depth);
    LaidColon(t, q, w, pretty, step, depth);
    LaidChain(t, p, Quoted(key), Colon(pretty), pretty, step, depth);
  }

  /** A printed value is laid out wherever it stands in a text. */
  lemma {:induction false} LaidValue(
    t: Text, p: nat, v: Json, pretty: bool, step: uint32, cur: uint32, depth: int)
    requires FloatFree(v) && Occurs(t, p, Print(v, pretty, step, cur))
    requires PlaceAt(t, p) == Place(depth, Outside) && Follows(pretty, step, cur, depth)
    ensures Laid(t, p, Print(v, pretty, step, cur), pretty, step, depth)
    decreases v, 0
  {
    hide PlaceAt, Follows, Laid, PrintItems, PrintMembers, Quoted, Occurs, PrintNat;
    match v
    case Array(xs) =>
      if xs == [] {
        LaidEmpty(t, p, LBRACKET, RBRACKET, pretty, step, depth);
      } else {
        LaidArray(t, p, xs, pretty, step, cur, depth);
      }
    case Object(ms) =>
      if ms == [] {
        LaidEmpty(t, p, LBRACE, RBRACE, pretty, step, depth);
      } else {
        LaidObject(t, p, ms, pretty, step, cur, depth);
      }
    case String(s) => LaidQuoted(t, p, s, pretty, step, depth);
    case Null => LaidPlain(t, p, NULL_TEXT, pretty, step, depth);
    case Boolean(b) => LaidPlain(t, p, if b then TRUE_TEXT else FALSE_TEXT, pretty, step, depth);
    case Integer(i) => LaidPlain(t, p, PrintInt(i), pretty, step, depth);
    case Unsigned(u) => LaidPlain(t, p, PrintInt(u), pretty, step, depth);
  }

  lemma {:induction false} LaidArray(
    t: Text, p: nat, xs: seq<Json>, pretty: bool, step: uint32, cur: uint32, depth: int)
    requires xs != [] && (forall x | x in xs :: FloatFree(x)) && Occurs(t, p, Print(Array(xs), pretty, step, cur))
    requires PlaceAt(t, p) == Place(depth, Outside) && Follows(pretty, step, cur, depth)
    ensures Laid(t, p, Print(Array(xs), pretty, step, cur), pretty, step, depth)
    decreases xs, 2
  {
    hide PlaceAt, Follows, Laid, LaidOut, PrintItems, Occurs, Newline, Spaces, StartsLine;
    var ind := if pretty then Deeper(cur, step) else cur;
    var w, tail := PrintItems(xs, pretty, step, ind), Newline(pretty) + (Spaces(cur) + [RBRACKET]);
    FollowsDeeper(pretty, step, cur, depth);
    ItemsStartLine(xs, pretty, step, ind);
    LineGoesOn(w, tail, ind);
    LaidOpen(t, p, LBRACKET, w + tail, pretty, step, ind, depth);
    OccursSplit(t, p + 1 + |Newline(pretty)|, w, tail);
    LaidItems(t, p + 1 + |Newline(pretty)|, xs, pretty, step, ind, depth + 1);
    LaidEnclosed(t, p, LBRACKET, w, RBRACKET, pretty, step, cur, depth);
  }

  lemma LineGoesOn(w: Text, tail: Text, ind: nat)
    requires StartsLine(w, ind)
    ensures StartsLine(w + tail, ind)
  {
  }

  lemma {:induction false} LaidObject(
    t: Text, p: nat, ms: seq<Member>, pretty: bool, step: uint32, cur: uint32, depth: int)
    requires ms != [] && (forall m | m in ms :: FloatFree(m.value))
    requires Occurs(t, p, Print(Object(ms), pretty, step, cur))
    requires PlaceAt(t, p) == Place(depth, Outside) && Follows(pretty, step, cur, depth)
    ensures Laid(t, p, Print(Object(ms), pretty, step, cur), pretty, step, depth)
    decreases ms, 2
  {
    hide PlaceAt, Follows, Laid, LaidOut, PrintMembers, Occurs, Newline, Spaces, StartsLine;
    var ind := if pretty then Deeper(cur, step) else cur;
    var w, tail := PrintMembers(ms, pretty, step, ind), Newline(pretty) + (Spaces(cur) + [RBRACE]);
    FollowsDeeper(pretty, step, cur, depth);
    MembersStartLine(ms, pretty, step, ind);
    LineGoesOn(w, tail, ind);
    LaidOpen(t, p, LBRACE, w + tail, pretty, step, ind, depth);
    OccursSplit(t, p + 1 + |Newline(pretty)|, w, tail);
    LaidMembers(t, p + 1 + |Newline(pretty)|, ms, pretty, step, ind, depth + 1);
    LaidEnclosed(t, p, LBRACE, w, RBRACE, pretty, step, cur, depth);
  }

  /** One element on its line. */
  lemma {:induction false} LaidItem(
    t: Text, p: nat, v: Json, more: Text, pretty: bool, step: uint32, ind: uint32, depth: int)
    requires FloatFree(v) && Occurs(t, p, Spaces(ind) + (Print(v, pretty, step, ind) + more))
    requires PlaceAt(t, p) == Place(depth, Outside) && Follows(pretty, step, ind, depth)
    requires pretty ==> 0 < p <= |t| && t[p - 1] == LF
    ensures
      var w := Spaces(ind) + Print(v, pretty, step, ind);
      Laid(t, p, w, pretty, step, depth) && Occurs(t, p + |w|, more)
    decreases v, 1
  {
    hide PlaceAt, Follows, Laid, Print, Occurs, Spaces;
    var value := Print(v, pretty, step, ind);
    OccursSplit(t, p, Spaces(ind), value + more);
    LaidIndent(t, p, pretty, step, ind, depth);
    LaidEnd(t, p, Spaces(ind), pretty, step, depth);
    OccursSplit(t, p + ind, value, more);
    LaidValue(t, p + ind, v, pretty, step, ind, depth);
    LaidChain(t, p, Spaces(ind), value, pretty, step, depth);
  }

  /** The text of a list of values: the first one, and the others behind a separator. */
  lemma ItemsText(xs: seq<Json>, pretty: bool, step: uint32, ind: uint32)
    requires xs != [] && forall x | x in xs :: FloatFree(x)
    ensures
      var first := Spaces(ind) + Print(xs[0], pretty, step, ind);
      var more := if |xs| == 1 then [] else Separator(pretty) + PrintItems(xs[1..], pretty, step, ind);
      && PrintItems(xs, pretty, step, ind) == first + more
      && PrintItems(xs, pretty, step, ind) == Spaces(ind) + (Print(xs[0], pretty, step, ind) + more)
  {
    hide Print, Spaces, Separator;
    var more := if |xs| == 1 then [] else Separator(pretty) + PrintItems(xs[1..], pretty, step, ind);
    assert Spaces(ind) + (Print(xs[0], pretty, step, ind) + more)
        == (Spaces(ind) + Print(xs[0], pretty, step, ind)) + more;
  }

  lemma {:induction false} LaidItems(
    t: Text, p: nat, xs: seq<Json>, pretty: bool, step: uint32, ind: uint32, depth: int)
    requires xs != [] && (forall x | x in xs :: FloatFree(x)) && Occurs(t, p, PrintItems(xs, pretty, step, ind))
    requires PlaceAt(t, p) == Place(depth, Outside) && Follows(pretty, step, ind, depth)
    requires pretty ==> 0 < p <= |t| && t[p - 1] == LF
    ensures Laid(t, p, PrintItems(xs, pretty, step, ind), pretty, step, depth)
    decreases xs, 1
  {
    hide PlaceAt, Follows, Laid, Print, PrintItems, Occurs, Separator, Spaces, StartsLine;
    var first := Spaces(ind) + Print(xs[0], pretty, step, ind);
    var more := if |xs| == 1 then [] else Separator(pretty) + PrintItems(xs[1..], pretty, step, ind);
    var q := p + |first|;
    ItemsText(xs, pretty, step, ind);
    LaidItem(t, p, xs[0], more, pretty, step, ind, depth);
    LaidEnd(t, p, first, pretty, step, depth);
    if |xs| > 1 {
      var rest := PrintItems(xs[1..], pretty, step, ind);
      ItemsStartLine(xs[1..], pretty, step, ind);
      LaidSeparator(t, q, rest, pretty, step, ind, depth);
      LaidEnd(t, q, Separator(pretty), pretty, step, depth);
      OccursSplit(t, q, Separator(pretty), rest);
      LaidItems(t, q + |Separator(pretty)|, xs[1..], pretty, step, ind, depth);
      LaidChain(t, q, Separator(pretty), rest, pretty, step, depth);
      LaidChain(t, p, first, more, pretty, step, depth);
    } else {
      assert first + more == first;
    }
  }

  /** One member on its line. */
  lemma {:induction false} LaidMember(
    t: Text, p: nat, m: Member, more: Text, pretty: bool, step: uint32, ind: uint32, depth: int)
    requires FloatFree(m.value)
    requires Occurs(t, p, Spaces(ind) + (KeyText(m.key, pretty) + (Print(m.value, pretty, step, ind) + more)))
    requires PlaceAt(t, p) == Place(depth, Outside) && Follows(pretty, step, ind, depth)
    requires pretty ==> 0 < p <= |t| && t[p - 1] == LF
    ensures
      var w := Spaces(ind) + (KeyText(m.key, pretty) + Print(m.value, pretty, step, ind));
      Laid(t, p, w, pretty, step, depth) && Occurs(t, p + |w|, more)
    decreases m, 1
  {
    hide PlaceAt, Follows, Laid, Print, Occurs, Spaces, KeyText;
    var key, value := KeyText(m.key, pretty), Print(m.value, pretty, step, ind);
    OccursSplit(t, p, Spaces(ind), key + (value + more));
    LaidIndent(t, p, pretty, step, ind, depth);
    LaidEnd(t, p, Spaces(ind), pretty, step, depth);
    FirstByte(m.value, pretty, step, ind);
    LaidKey(t, p + ind, m.key, value + more, pretty, step, depth);
    LaidEnd(t, p + ind, key, pretty, step, depth);
    OccursSplit(t, p + ind, key, value + more);
    OccursSplit(t, p + ind + |key|, value, more);
    LaidValue(t, p + ind + |key|, m.value, pretty, step, ind, depth);
    LaidChain(t, p + ind, key, value, pretty, step, depth);
    LaidChain(t, p, Spaces(ind), key + value, pretty, step, depth);
  }

  lemma LaidEnd(t: Text, p: nat, w: Text, pretty: bool, step: uint32, depth: int)
    requires Laid(t, p, w, pretty, step, depth)
    ensures p + |w| <= |t| && PlaceAt(t, p + |w|) == Place(depth, Outside)
  {
  }

  /** The text of a list of members: the first one, and the others behind a separator. */
  lemma MembersText(ms: seq<Member>, pretty: bool, step: uint32, ind: uint32)
    requires ms != [] && forall m | m in ms :: FloatFree(m.value)
    ensures
      var first := Spaces(ind) + (KeyText(ms[0].key, pretty) + Print(ms[0].value, pretty, step, ind));
      var more := if |ms| == 1 then [] else Separator(pretty) + PrintMembers(ms[1..], pretty, step, ind);
      && PrintMembers(ms, pretty, step, ind) == first + more
      && PrintMembers(ms, pretty, step, ind)
         == Spaces(ind) + (KeyText(ms[0].key, pretty) + (Print(ms[0].value, pretty, step, ind) + more))
  {
    hide Print, Spaces, KeyText, Separator;
    var more := if |ms| == 1 then [] else Separator(pretty) + PrintMembers(ms[1..], pretty, step, ind);
    Assoc(Spaces(ind), KeyText(ms[0].key, pretty), Print(ms[0].value, pretty, step, ind), more);
  }

  lemma Assoc(a: Text, b: Text, c: Text, d: Text)
    ensures a + (b + (c + d)) == (a + (b + c)) + d
  {
  }

  lemma {:induction false} LaidMembers(
    t: Text, p: nat, ms: seq<Member>, pretty: bool, step: uint32, ind: uint32, depth: int)
    requires ms != [] && (forall m | m in ms :: FloatFree(m.value))
    requires Occurs(t, p, PrintMembers(ms, pretty, step, ind))
    requires PlaceAt(t, p) == Place(depth, Outside) && Follows(pretty, step, ind, depth)
    requires pretty ==> 0 < p <= |t| && t[p - 1] == LF
    ensures Laid(t, p, PrintMembers(ms, pretty, step, ind), pretty, step, depth)
    decreases ms, 1
  {
    hide PlaceAt, Follows, Laid, Print, PrintMembers, Occurs, Separator, Spaces, StartsLine, KeyText;
    var first := Spaces(ind) + (KeyText(ms[0].key, pretty) + Print(ms[0].value, pretty, step, ind));
    var more := if |ms| == 1 then [] else Separator(pretty) + PrintMembers(ms[1..], pretty, step, ind);
    var q := p + |first|;
    MembersText(ms, pretty, step, ind);
    LaidMember(t, p, ms[0], more, pretty, step, ind, depth);
    LaidEnd(t, p, first, pretty, step, depth);
    if |ms| > 1 {
      var rest := PrintMembers(ms[1..], pretty, step, ind);
      MembersStartLine(ms[1..], pretty, step, ind);
      LaidSeparator(t, q, rest, pretty, step, ind, depth);
      LaidEnd(t, q, Separator(pretty), pretty, step, depth);
      OccursSplit(t, q, Separator(pretty), rest);
      LaidMembers(t, q + |Separator(pretty)|, ms[1..], pretty, step, ind, depth);
      LaidChain(t, q, Separator(pretty), rest, pretty, step, depth);
      LaidChain(t, p, first, more, pretty, step, depth);
    } else {
      assert first + more == first;
    }
  }

  // ---- The theorem ------------------------------------------------------------------------------------

  /**
   * The text of a value: its brackets balance, and outside quotes every byte keeps the rule of pretty
   * text for a non-negative indentation, and is no blank for a negative one.
   */
  lemma Layout(v: Json, indent: int)
    requires FloatFree(v) && indent < 0x8000_0000
    ensures
      var t := DumpText(v, indent);
      && PlaceAt(t, |t|) == Place(0, Outside)
      && forall i: nat :: i < |t| && PlaceAt(t, i).mode == Outside ==>
           if indent >= 0 then PrettyRule(t, i, indent, PlaceAt(t, i).depth) else !Blank(t[i])
  {
    hide Print, PrettyRule;
    var t := DumpText(v, indent);
    assert t[0..0 + |t|] == t;
    LaidValue(t, 0, v, indent >= 0, if indent >= 0 then indent else 0, 0, 0);
  }

  /** What stands for the values that have no parts. */
  lemma LeafTexts(indent: int)
    requires indent < 0x8000_0000
    ensures DumpText(Null, indent) == [0x6E, 0x75, 0x6C, 0x6C]
    ensures DumpText(Boolean(true), indent) == [0x74, 0x72, 0x75, 0x65]
    ensures DumpText(Boolean(false), indent) == [0x66, 0x61, 0x6C, 0x73, 0x65]
    ensures DumpText(Array([]), indent) == [0x5B, 0x5D] && DumpText(Object([]), indent) == [0x7B, 0x7D]
    ensures forall s :: DumpText(String(s), indent) == [0x22] + Escape(s) + [0x22]
  {
  }
}
