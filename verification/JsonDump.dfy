/** Serialisation: `dump` writes a value to a stream. */
module JsonDump {
  import opened Bytes
  import opened JsonStrings
  import opened JsonValue
  import opened JsonNumbers

  /** The indentation counter is an `unsigned int`: it wraps around. */
  function Deeper(cur: uint32, step: uint32): uint32 {
    (cur + step) % 0x1_0000_0000
  }

  function Spaces(n: nat): (w: Text)
    ensures |w| == n && forall k :: 0 <= k < n ==> w[k] == SPACE
  {
    seq(n, _ => SPACE)
  }

  function Newline(pretty: bool): Text {
    if pretty then [LF] else []
  }

  function Separator(pretty: bool): Text {
    if pretty then [COMMA, LF] else [COMMA]
  }

  function Quoted(s: Text): Text {
    [QUOTE] + Escape(s) + [QUOTE]
  }

  function KeyText(key: Text, pretty: bool): Text {
    Quoted(key) + (if pretty then [COLON, SPACE] else [COLON])
  }

  function Print(v: Json, pretty: bool, step: uint32, cur: uint32): (w: Text)
    requires FloatFree(v)
    ensures w != []
    decreases v, 0
  {
    match v
    case Null => NULL_TEXT
    case Boolean(b) => if b then TRUE_TEXT else FALSE_TEXT
    case Integer(i) => PrintInt(i)
    case Unsigned(u) => PrintInt(u)
    case String(s) => Quoted(s)
    case Array(xs) =>
      if xs == [] then [LBRACKET, RBRACKET]
      else
        [LBRACKET] + (Newline(pretty) + (PrintItems(xs, pretty, step, if pretty then Deeper(cur, step) else cur)
        + (Newline(pretty) + (Spaces(cur) + [RBRACKET]))))
    case Object(ms) =>
      if ms == [] then [LBRACE, RBRACE]
      else
        [LBRACE] + (Newline(pretty) + (PrintMembers(ms, pretty, step, if pretty then Deeper(cur, step) else cur)
        + (Newline(pretty) + (Spaces(cur) + [RBRACE]))))
  }

  /** Values, each on its own indentation, with separators between them. */
  function PrintItems(xs: seq<Json>, pretty: bool, step: uint32, ind: uint32): Text
    requires forall x | x in xs :: FloatFree(x)
    decreases xs, 1
  {
    if xs == [] then []
    else
      Spaces(ind) + (Print(xs[0], pretty, step, ind)
      + if |xs| == 1 then [] else Separator(pretty) + PrintItems(xs[1..], pretty, step, ind))
  }

  function PrintMembers(ms: seq<Member>, pretty: bool, step: uint32, ind: uint32): Text
    requires forall m | m in ms :: FloatFree(m.value)
    decreases ms, 1
  {
    if ms == [] then []
    else
      Spaces(ind) + (KeyText(ms[0].key, pretty) + (Print(ms[0].value, pretty, step, ind)
      + if |ms| == 1 then [] else Separator(pretty) + PrintMembers(ms[1..], pretty, step, ind)))
  }

  class Stream {
    var text: Text

    constructor ()
      ensures text == []
    {
      text := [];
    }

    method Put(t: Text)
      modifies this
      ensures text == old(text) + t
    {
      text := text + t;
    }
  }

  /** The text still to be written when the loop of an array is at its `i`-th value. */
  ghost function ItemsLeft(xs: seq<Json>, i: nat, pretty: bool, step: uint32, ind: uint32): Text
    requires i <= |xs| && forall x | x in xs :: FloatFree(x)
  {
    (if 0 < i < |xs| then Separator(pretty) else []) + PrintItems(xs[i..], pretty, step, ind)
  }

  ghost function MembersLeft(ms: seq<Member>, i: nat, pretty: bool, step: uint32, ind: uint32): Text
    requires i <= |ms| && forall m | m in ms :: FloatFree(m.value)
  {
    (if 0 < i < |ms| then Separator(pretty) else []) + PrintMembers(ms[i..], pretty, step, ind)
  }

  lemma AllItems(xs: seq<Json>, pretty: bool, step: uint32, ind: uint32)
    requires forall x | x in xs :: FloatFree(x)
    ensures ItemsLeft(xs, 0, pretty, step, ind) == PrintItems(xs, pretty, step, ind)
    ensures ItemsLeft(xs, |xs|, pretty, step, ind) == []
  {
    assert xs[0..] == xs;
    assert [] + PrintItems(xs, pretty, step, ind) == PrintItems(xs, pretty, step, ind);
  }

  lemma AllMembers(ms: seq<Member>, pretty: bool, step: uint32, ind: uint32)
    requires forall m | m in ms :: FloatFree(m.value)
    ensures MembersLeft(ms, 0, pretty, step, ind) == PrintMembers(ms, pretty, step, ind)
    ensures MembersLeft(ms, |ms|, pretty, step, ind) == []
  {
    assert ms[0..] == ms;
    assert [] + PrintMembers(ms, pretty, step, ind) == PrintMembers(ms, pretty, step, ind);
  }

  lemma Regroup(t: Text, a: Text, b: Text, c: Text, d: Text)
    ensures t + (a + (b + (c + d))) == t + a + b + c + d
    ensures a == [] ==> t + a == t
  {
  }

  /** One key and its colon. */
  method DumpKey(o: Stream, key: Text, pretty: bool)
    modifies o
    ensures o.text == old(o.text) + KeyText(key, pretty)
  {
    var escaped := EscapeString(key);
    hide Escape;
    o.Put([QUOTE]);
    o.Put(escaped);
    o.Put([QUOTE, COLON]);
    if pretty {
      o.Put([SPACE]);
    }
  }

  lemma NextItem(xs: seq<Json>, i: nat, pretty: bool, step: uint32, ind: uint32)
    requires i < |xs| && forall x | x in xs :: FloatFree(x)
    ensures ItemsLeft(xs, i, pretty, step, ind) ==
      (if i > 0 then Separator(pretty) else []) + (Spaces(ind) + (Print(xs[i], pretty, step, ind)
      + ItemsLeft(xs, i + 1, pretty, step, ind)))
  {
    assert xs[i..][1..] == xs[i + 1..];
    assert [] + PrintItems(xs[i + 1..], pretty, step, ind) == PrintItems(xs[i + 1..], pretty, step, ind);
  }

  lemma NextMember(ms: seq<Member>, i: nat, pretty: bool, step: uint32, ind: uint32)
    requires i < |ms| && forall m | m in ms :: FloatFree(m.value)
    ensures MembersLeft(ms, i, pretty, step, ind) ==
      (if i > 0 then Separator(pretty) else []) + (Spaces(ind) + (KeyText(ms[i].key, pretty)
      + (Print(ms[i].value, pretty, step, ind) + MembersLeft(ms, i + 1, pretty, step, ind))))
  {
    assert ms[i..][1..] == ms[i + 1..];
    assert [] + PrintMembers(ms[i + 1..], pretty, step, ind) == PrintMembers(ms[i + 1..], pretty, step, ind);
  }

  /** `dump(o, pretty_print, indent_step, current_indent)`. */
  method Dump(o: Stream, v: Json, pretty: bool, step: uint32, cur: uint32)
    requires FloatFree(v)
    modifies o
    ensures o.text == old(o.text) + Print(v, pretty, step, cur)
    decreases v, 0
  {
    hide PrintItems, PrintMembers, Spaces, PrintInt, Escape;
    match v
    case Null => o.Put(NULL_TEXT);
    case Boolean(b) => o.Put(if b then TRUE_TEXT else FALSE_TEXT);
    case Integer(i) => o.Put(PrintInt(i));
    case Unsigned(u) => o.Put(PrintInt(u));
    case String(s) =>
      var t := EscapeString(s);
      o.Put([QUOTE]);
      o.Put(t);
      o.Put([QUOTE]);
    case Array(xs) =>
      if xs == [] {
        o.Put([LBRACKET, RBRACKET]);
        return;
      }
      var indent := DumpOpen(o, LBRACKET, pretty, step, cur);
      ghost var items := PrintItems(xs, pretty, step, indent);
      DumpItems(o, xs, pretty, step, indent);
      Enclose(old(o.text), LBRACKET, items, RBRACKET, pretty, cur);
      DumpClose(o, RBRACKET, pretty, step, cur, indent);
    case Object(ms) =>
      if ms == [] {
        o.Put([LBRACE, RBRACE]);
        return;
      }
      var indent := DumpOpen(o, LBRACE, pretty, step, cur);
      ghost var members := PrintMembers(ms, pretty, step, indent);
      DumpMembers(o, ms, pretty, step, indent);
      Enclose(old(o.text), LBRACE, members, RBRACE, pretty, cur);
      DumpClose(o, RBRACE, pretty, step, cur, indent);
  }

  lemma Enclose(t: Text, open: Byte, w: Text, close: Byte, pretty: bool, cur: uint32)
    ensures t + ([open] + (Newline(pretty) + (w + (Newline(pretty) + (Spaces(cur) + [close])))))
      == t + ([open] + Newline(pretty)) + w + (Newline(pretty) + (Spaces(cur) + [close]))
  {
  }

  /** The opening bracket; the indentation grows. */
  method DumpOpen(o: Stream, bracket: Byte, pretty: bool, step: uint32, cur: uint32) returns (indent: uint32)
    modifies o
    ensures indent == if pretty then Deeper(cur, step) else cur
    ensures o.text == old(o.text) + ([bracket] + Newline(pretty))
  {
    indent := cur;
    o.Put([bracket]);
    if pretty {
      indent := Deeper(indent, step);
      o.Put([LF]);
    }
  }

  /** The closing bracket; the subtraction undoes the growth even if that wrapped around. */
  method DumpClose(o: Stream, bracket: Byte, pretty: bool, step: uint32, ghost cur: uint32, indent: uint32)
    requires indent == if pretty then Deeper(cur, step) else cur
    modifies o
    ensures o.text == old(o.text) + (Newline(pretty) + (Spaces(cur) + [bracket]))
  {
    var back := indent;
    if pretty {
      back := (indent - step) % 0x1_0000_0000;
      o.Put([LF]);
    }
    o.Put(Spaces(back));
    o.Put([bracket]);
  }

  /** The loop over the values of an array. */
  method DumpItems(o: Stream, xs: seq<Json>, pretty: bool, step: uint32, indent: uint32)
    requires forall x | x in xs :: FloatFree(x)
    modifies o
    ensures o.text == old(o.text) + PrintItems(xs, pretty, step, indent)
    decreases xs, 1
  {
    hide Print, PrintItems, Separator, Spaces, ItemsLeft;
    AllItems(xs, pretty, step, indent);
    for i := 0 to |xs|
      invariant o.text + ItemsLeft(xs, i, pretty, step, indent) == old(o.text) + PrintItems(xs, pretty, step, indent)
    {
      NextItem(xs, i, pretty, step, indent);
      Regroup(o.text, if i > 0 then Separator(pretty) else [], Spaces(indent), Print(xs[i], pretty, step, indent),
              ItemsLeft(xs, i + 1, pretty, step, indent));
      if i != 0 {
        o.Put(Separator(pretty));
      }
      o.Put(Spaces(indent));
      Dump(o, xs[i], pretty, step, indent);
    }
  }

  /** The loop over the members of an object. */
  method DumpMembers(o: Stream, ms: seq<Member>, pretty: bool, step: uint32, indent: uint32)
    requires forall m | m in ms :: FloatFree(m.value)
    modifies o
    ensures o.text == old(o.text) + PrintMembers(ms, pretty, step, indent)
    decreases ms, 1
  {
    hide Print, PrintMembers, Separator, Spaces, Escape, MembersLeft;
    AllMembers(ms, pretty, step, indent);
    for i := 0 to |ms|
      invariant o.text + MembersLeft(ms, i, pretty, step, indent)
             == old(o.text) + PrintMembers(ms, pretty, step, indent)
    {
      NextMember(ms, i, pretty, step, indent);
      ghost var left := MembersLeft(ms, i + 1, pretty, step, indent);
      ghost var value := Print(ms[i].value, pretty, step, indent);
      Regroup(o.text, if i > 0 then Separator(pretty) else [], Spaces(indent), KeyText(ms[i].key, pretty),
              value + left);
      ghost var before := o.text + if i > 0 then Separator(pretty) else [];
      if i != 0 {
        o.Put(Separator(pretty));
      }
      o.Put(Spaces(indent));
      assert o.text == before + Spaces(indent);
      DumpKey(o, ms[i].key, pretty);
      assert before + Spaces(indent) + KeyText(ms[i].key, pretty) + (value + left)
        == before + Spaces(indent) + KeyText(ms[i].key, pretty) + value + left;
      Dump(o, ms[i].value, pretty, step, indent);
    }
  }

  /** `basic_json::dump(indent)`: compact when `indent` is negative. */
  function DumpText(v: Json, indent: int): Text
    requires FloatFree(v) && indent < 0x8000_0000
  {
    if indent >= 0 then Print(v, true, indent, 0) else Print(v, false, 0, 0)
  }

  method DumpString(v: Json, indent: int) returns (r: Text)
    requires FloatFree(v) && indent < 0x8000_0000
    ensures r == DumpText(v, indent)
  {
    var ss := new Stream();
    if indent >= 0 {
      Dump(ss, v, true, indent, 0);
    } else {
      Dump(ss, v, false, 0, 0);
    }
    return ss.text;
  }
}
