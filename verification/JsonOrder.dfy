/** `operator==` and `operator<` on JSON values, and the laws they obey together. */
module JsonOrder {
  import opened Bytes
  import opened JsonValue

  const MAX_SIGNED: int := 0x7FFF_FFFF_FFFF_FFFF
  const TWO_TO_THE_64: int := 0x1_0000_0000_0000_0000

  /** `static_cast<number_integer_t>`: keep the bits, read them as two's complement. */
  function ToSigned(u: uint64): int64 {
    if u <= MAX_SIGNED then u else u - TWO_TO_THE_64
  }

  /** The rank table of the type order. */
  function Rank(k: Kind): nat {
    match k
    case KNull => 0
    case KObject => 3
    case KArray => 4
    case KString => 5
    case KBoolean => 1
    case KInteger => 2
    case KUnsigned => 2
    case KFloat => 2
  }

  predicate Eq(a: Json, b: Json)
    requires FloatFree(a) && FloatFree(b)
    decreases a
  {
    match (a, b)
    case (Array(xs), Array(ys)) => |xs| == |ys| && forall i :: 0 <= i < |xs| ==> Eq(xs[i], ys[i])
    case (Object(ms), Object(ns)) =>
      |ms| == |ns| && forall i :: 0 <= i < |ms| ==> ms[i].key == ns[i].key && Eq(ms[i].value, ns[i].value)
    case (Null, Null) => true
    case (String(s), String(t)) => s == t
    case (Boolean(p), Boolean(q)) => p == q
    case (Integer(i), Integer(j)) => i == j
    case (Unsigned(u), Unsigned(v)) => u == v
    case (Unsigned(u), Integer(j)) => ToSigned(u) == j
    case (Integer(i), Unsigned(v)) => i == ToSigned(v)
    case _ => false
  }

  /** Number of nodes, the measure that decreases when the operands trade places. */
  ghost function Size(v: Json): (n: nat)
    ensures n > 0
  {
    match v
    case Array(xs) => 1 + SizeElems(xs)
    case Object(ms) => 1 + SizeMembers(ms)
    case _ => 1
  }

  ghost function SizeElems(xs: seq<Json>): nat {
    if xs == [] then 0 else Size(xs[0]) + SizeElems(xs[1..])
  }

  ghost function SizeMembers(ms: seq<Member>): nat {
    if ms == [] then 0 else Size(ms[0].value) + SizeMembers(ms[1..])
  }

  predicate Less(a: Json, b: Json)
    requires FloatFree(a) && FloatFree(b)
    decreases Size(a) + Size(b), 0
  {
    match (a, b)
    case (Array(xs), Array(ys)) => LessElems(xs, ys)
    case (Object(ms), Object(ns)) => LessMembers(ms, ns)
    case (Null, Null) => false
    case (String(s), String(t)) => TextLess(s, t)
    case (Boolean(p), Boolean(q)) => !p && q
    case (Integer(i), Integer(j)) => i < j
    case (Unsigned(u), Unsigned(v)) => u < v
    case (Integer(i), Unsigned(v)) => i < ToSigned(v)
    case (Unsigned(u), Integer(j)) => ToSigned(u) < j
    case _ => Rank(a.Kind()) < Rank(b.Kind())
  }

  /** `std::vector::operator<`. */
  predicate LessElems(xs: seq<Json>, ys: seq<Json>)
    requires forall x | x in xs :: FloatFree(x)
    requires forall y | y in ys :: FloatFree(y)
    decreases SizeElems(xs) + SizeElems(ys), 1
  {
    if ys == [] then false
    else if xs == [] then true
    else if Less(xs[0], ys[0]) then true
    else if Less(ys[0], xs[0]) then false
    else LessElems(xs[1..], ys[1..])
  }

  /** `std::map::operator<`: members compare as pairs. */
  predicate LessMembers(ms: seq<Member>, ns: seq<Member>)
    requires forall m | m in ms :: FloatFree(m.value)
    requires forall n | n in ns :: FloatFree(n.value)
    decreases SizeMembers(ms) + SizeMembers(ns), 2
  {
    if ns == [] then false
    else if ms == [] then true
    else if LessPair(ms[0], ns[0]) then true
    else if LessPair(ns[0], ms[0]) then false
    else LessMembers(ms[1..], ns[1..])
  }

  /** `std::pair::operator<`. */
  predicate LessPair(m: Member, n: Member)
    requires FloatFree(m.value) && FloatFree(n.value)
    decreases Size(m.value) + Size(n.value), 1
  {
    TextLess(m.key, n.key) || (!TextLess(n.key, m.key) && Less(m.value, n.value))
  }

  // ---- Laws -------------------------------------------------------------------

  /** No float, and no unsigned number that changes under the cast to a signed one. */
  predicate Ordered(v: Json) {
    match v
    case Float(_) => false
    case Unsigned(u) => u <= MAX_SIGNED
    case Array(xs) => forall x | x in xs :: Ordered(x)
    case Object(ms) => forall m | m in ms :: Ordered(m.value)
    case _ => true
  }

  lemma {:induction false} OrderedIsFloatFree(v: Json)
    requires Ordered(v)
    ensures FloatFree(v)
  {
    match v
    case Array(xs) =>
      forall x | x in xs ensures FloatFree(x) { OrderedIsFloatFree(x); }
    case Object(ms) =>
      forall m | m in ms ensures FloatFree(m.value) { OrderedIsFloatFree(m.value); }
    case _ =>
  }

  lemma {:induction false} Asymmetric(a: Json, b: Json)
    requires FloatFree(a) && FloatFree(b)
    requires Less(a, b)
    ensures !Less(b, a)
    decreases Size(a) + Size(b), 0
  {
    match (a, b)
    case (Array(xs), Array(ys)) => AsymmetricElems(xs, ys);
    case (Object(ms), Object(ns)) => AsymmetricMembers(ms, ns);
    case (String(s), String(t)) => TextLessAsymmetric(s, t);
    case _ =>
  }

  lemma {:induction false} AsymmetricElems(xs: seq<Json>, ys: seq<Json>)
    requires forall x | x in xs :: FloatFree(x)
    requires forall y | y in ys :: FloatFree(y)
    requires LessElems(xs, ys)
    ensures !LessElems(ys, xs)
    decreases SizeElems(xs) + SizeElems(ys), 1
  {
    if xs != [] {
      if Less(xs[0], ys[0]) {
        Asymmetric(xs[0], ys[0]);
      } else {
        AsymmetricElems(xs[1..], ys[1..]);
      }
    }
  }

  lemma {:induction false} AsymmetricMembers(ms: seq<Member>, ns: seq<Member>)
    requires forall m | m in ms :: FloatFree(m.value)
    requires forall n | n in ns :: FloatFree(n.value)
    requires LessMembers(ms, ns)
    ensures !LessMembers(ns, ms)
    decreases SizeMembers(ms) + SizeMembers(ns), 2
  {
    if ms != [] {
      if LessPair(ms[0], ns[0]) {
        AsymmetricPair(ms[0], ns[0]);
      } else {
        AsymmetricMembers(ms[1..], ns[1..]);
      }
    }
  }

  lemma {:induction false} AsymmetricPair(m: Member, n: Member)
    requires FloatFree(m.value) && FloatFree(n.value)
    requires LessPair(m, n)
    ensures !LessPair(n, m)
    decreases Size(m.value) + Size(n.value), 1
  {
    if TextLess(m.key, n.key) {
      TextLessAsymmetric(m.key, n.key);
    } else {
      Asymmetric(m.value, n.value);
    }
  }

  /** What lies strictly between two values cannot avoid both of them. */
  lemma {:induction false} Cotransitive(a: Json, b: Json, c: Json)
    requires Ordered(a) && Ordered(b) && Ordered(c)
    requires FloatFree(a) && FloatFree(b) && FloatFree(c)
    requires Less(a, c)
    ensures Less(a, b) || Less(b, c)
    decreases Size(a) + Size(b) + Size(c), 0
  {
    match (a, b, c)
    case (Array(xs), Array(ys), Array(zs)) => CotransitiveElems(xs, ys, zs);
    case (Object(ms), Object(ns), Object(os)) => CotransitiveMembers(ms, ns, os);
    case (String(s), String(t), String(u)) => TextLessCotransitive(s, t, u);
    case _ =>
  }

  lemma TextLessCotransitive(s: Text, t: Text, u: Text)
    requires TextLess(s, u)
    ensures TextLess(s, t) || TextLess(t, u)
  {
    TextLessTotal(s, t);
    if TextLess(t, s) {
      TextLessTransitive(t, s, u);
    }
  }

  lemma {:induction false} CotransitiveElems(xs: seq<Json>, ys: seq<Json>, zs: seq<Json>)
    requires forall x | x in xs :: Ordered(x) && FloatFree(x)
    requires forall y | y in ys :: Ordered(y) && FloatFree(y)
    requires forall z | z in zs :: Ordered(z) && FloatFree(z)
    requires LessElems(xs, zs)
    ensures LessElems(xs, ys) || LessElems(ys, zs)
    decreases SizeElems(xs) + SizeElems(ys) + SizeElems(zs), 1
  {
    if xs != [] && ys != [] {
      if Less(xs[0], zs[0]) {
        Cotransitive(xs[0], ys[0], zs[0]);
      } else if Less(ys[0], xs[0]) {
        Cotransitive(ys[0], zs[0], xs[0]);
      } else if Less(zs[0], ys[0]) {
        Cotransitive(zs[0], xs[0], ys[0]);
      } else if !Less(xs[0], ys[0]) && !Less(ys[0], zs[0]) {
        CotransitiveElems(xs[1..], ys[1..], zs[1..]);
      }
    }
  }

  lemma {:induction false} CotransitiveMembers(ms: seq<Member>, ns: seq<Member>, os: seq<Member>)
    requires forall m | m in ms :: Ordered(m.value) && FloatFree(m.value)
    requires forall n | n in ns :: Ordered(n.value) && FloatFree(n.value)
    requires forall o | o in os :: Ordered(o.value) && FloatFree(o.value)
    requires LessMembers(ms, os)
    ensures LessMembers(ms, ns) || LessMembers(ns, os)
    decreases SizeMembers(ms) + SizeMembers(ns) + SizeMembers(os), 2
  {
    if ms != [] && ns != [] {
      if LessPair(ms[0], os[0]) {
        CotransitivePair(ms[0], ns[0], os[0]);
      } else if LessPair(ns[0], ms[0]) {
        CotransitivePair(ns[0], os[0], ms[0]);
      } else if LessPair(os[0], ns[0]) {
        CotransitivePair(os[0], ms[0], ns[0]);
      } else if !LessPair(ms[0], ns[0]) && !LessPair(ns[0], os[0]) {
        CotransitiveMembers(ms[1..], ns[1..], os[1..]);
      }
    }
  }

  lemma {:induction false} CotransitivePair(m: Member, n: Member, o: Member)
    requires Ordered(m.value) && Ordered(n.value) && Ordered(o.value)
    requires FloatFree(m.value) && FloatFree(n.value) && FloatFree(o.value)
    requires LessPair(m, o)
    ensures LessPair(m, n) || LessPair(n, o)
    decreases Size(m.value) + Size(n.value) + Size(o.value), 1
  {
    TextLessTotal(m.key, n.key);
    TextLessTotal(m.key, o.key);
    if TextLess(m.key, o.key) {
      TextLessCotransitive(m.key, n.key, o.key);
    } else if m.key == n.key {
      Cotransitive(m.value, n.value, o.value);
    }
  }

  /** Two values are equal exactly when neither comes before the other. */
  lemma {:induction false} EqIsIncomparable(a: Json, b: Json)
    requires FloatFree(a) && FloatFree(b)
    ensures Eq(a, b) <==> !Less(a, b) && !Less(b, a)
    decreases Size(a) + Size(b), 0
  {
    match (a, b)
    case (Array(xs), Array(ys)) => EqElems(xs, ys);
    case (Object(ms), Object(ns)) => EqMembers(ms, ns);
    case (String(s), String(t)) => TextLessTotal(s, t); TextLessIrreflexive(s);
    case _ =>
  }

  ghost predicate EqAll(xs: seq<Json>, ys: seq<Json>)
    requires forall x | x in xs :: FloatFree(x)
    requires forall y | y in ys :: FloatFree(y)
  {
    |xs| == |ys| && forall i :: 0 <= i < |xs| ==> Eq(xs[i], ys[i])
  }

  lemma EqAllStep(xs: seq<Json>, ys: seq<Json>)
    requires forall x | x in xs :: FloatFree(x)
    requires forall y | y in ys :: FloatFree(y)
    requires xs != [] && ys != []
    ensures EqAll(xs, ys) <==> Eq(xs[0], ys[0]) && EqAll(xs[1..], ys[1..])
  {
    hide Eq, FloatFree;
    assert forall i :: 0 < i < |xs| ==> xs[i] == xs[1..][i - 1];
    assert forall i :: 0 < i < |ys| ==> ys[i] == ys[1..][i - 1];
  }

  lemma {:induction false} EqElems(xs: seq<Json>, ys: seq<Json>)
    requires forall x | x in xs :: FloatFree(x)
    requires forall y | y in ys :: FloatFree(y)
    ensures EqAll(xs, ys) <==> !LessElems(xs, ys) && !LessElems(ys, xs)
    decreases SizeElems(xs) + SizeElems(ys), 1
  {
    hide Eq, Less, FloatFree;
    if xs != [] && ys != [] {
      EqIsIncomparable(xs[0], ys[0]);
      EqElems(xs[1..], ys[1..]);
      EqAllStep(xs, ys);
    }
  }

  ghost predicate EqMembersAll(ms: seq<Member>, ns: seq<Member>)
    requires forall m | m in ms :: FloatFree(m.value)
    requires forall n | n in ns :: FloatFree(n.value)
  {
    |ms| == |ns| && forall i :: 0 <= i < |ms| ==> ms[i].key == ns[i].key && Eq(ms[i].value, ns[i].value)
  }

  lemma EqMembersStep(ms: seq<Member>, ns: seq<Member>)
    requires forall m | m in ms :: FloatFree(m.value)
    requires forall n | n in ns :: FloatFree(n.value)
    requires ms != [] && ns != []
    ensures EqMembersAll(ms, ns)
       <==> ms[0].key == ns[0].key && Eq(ms[0].value, ns[0].value) && EqMembersAll(ms[1..], ns[1..])
  {
    hide Eq, FloatFree;
    assert forall i :: 0 < i < |ms| ==> ms[i] == ms[1..][i - 1];
    assert forall i :: 0 < i < |ns| ==> ns[i] == ns[1..][i - 1];
  }

  lemma {:induction false} EqMembers(ms: seq<Member>, ns: seq<Member>)
    requires forall m | m in ms :: FloatFree(m.value)
    requires forall n | n in ns :: FloatFree(n.value)
    ensures EqMembersAll(ms, ns) <==> !LessMembers(ms, ns) && !LessMembers(ns, ms)
    decreases SizeMembers(ms) + SizeMembers(ns), 2
  {
    hide Eq, LessPair, FloatFree;
    if ms != [] && ns != [] {
      EqPair(ms[0], ns[0]);
      EqMembers(ms[1..], ns[1..]);
      EqMembersStep(ms, ns);
    }
  }

  lemma {:induction false} EqPair(m: Member, n: Member)
    requires FloatFree(m.value) && FloatFree(n.value)
    ensures m.key == n.key && Eq(m.value, n.value) <==> !LessPair(m, n) && !LessPair(n, m)
    decreases Size(m.value) + Size(n.value), 1
  {
    TextLessTotal(m.key, n.key);
    TextLessIrreflexive(m.key);
    if m.key == n.key {
      EqIsIncomparable(m.value, n.value);
    }
  }

  /** `operator<` is a strict order on ordered values of any nesting. */
  lemma StrictOrder(a: Json, b: Json, c: Json)
    requires Ordered(a) && Ordered(b) && Ordered(c)
    ensures FloatFree(a) && FloatFree(b) && FloatFree(c)
    ensures !Less(a, a)
    ensures Less(a, b) ==> !Less(b, a)
    ensures Less(a, b) && Less(b, c) ==> Less(a, c)
  {
    OrderedIsFloatFree(a);
    OrderedIsFloatFree(b);
    OrderedIsFloatFree(c);
    if Less(a, a) { Asymmetric(a, a); }
    if Less(a, b) {
      Asymmetric(a, b);
      if Less(b, c) {
        Asymmetric(b, c);
        Cotransitive(a, c, b);
      }
    }
  }

  /** A value and its equals sit at the same place in the order. */
  lemma EqRespectsLess(a: Json, b: Json, c: Json)
    requires Ordered(a) && Ordered(b) && Ordered(c)
    requires FloatFree(a) && FloatFree(b) && FloatFree(c)
    requires !Less(a, b) && !Less(b, a)
    ensures Less(a, c) == Less(b, c) && Less(c, a) == Less(c, b)
  {
    if Less(a, c) { Cotransitive(a, b, c); }
    if Less(b, c) { Cotransitive(b, a, c); }
    if Less(c, a) { Cotransitive(c, b, a); }
    if Less(c, b) { Cotransitive(c, a, b); }
  }

  /**
   * `operator<` is a strict weak order whose incomparability is exactly `operator==`:
   * equality is an equivalence, and equal values have the same predecessors and successors.
   */
  lemma StrictWeakOrder(a: Json, b: Json, c: Json)
    requires Ordered(a) && Ordered(b) && Ordered(c)
    ensures FloatFree(a) && FloatFree(b) && FloatFree(c)
    ensures Eq(a, b) <==> !Less(a, b) && !Less(b, a)
    ensures Eq(a, a) && (Eq(a, b) ==> Eq(b, a)) && (Eq(a, b) && Eq(b, c) ==> Eq(a, c))
    ensures Eq(a, b) ==> Less(a, c) == Less(b, c) && Less(c, a) == Less(c, b)
  {
    StrictOrder(a, a, a);
    StrictOrder(b, c, b);
    EqIsIncomparable(a, a);
    EqIsIncomparable(a, b);
    EqIsIncomparable(b, a);
    EqIsIncomparable(b, c);
    EqIsIncomparable(a, c);
    if !Less(a, b) && !Less(b, a) {
      EqRespectsLess(a, b, c);
    }
  }

  // ---- Where the order stops being one -------------------------------------------

  /** `Less` fails to be transitive on these three values. */
  predicate Intransitive(a: Json, b: Json, c: Json)
    requires FloatFree(a) && FloatFree(b) && FloatFree(c)
  {
    Less(a, b) && Less(b, c) && !Less(a, c)
  }

  /** An element compared with itself decides nothing, so a common prefix does not matter. */
  lemma {:induction false} CommonElems(prefix: seq<Json>, xs: seq<Json>, ys: seq<Json>)
    requires forall p | p in prefix :: FloatFree(p)
    requires forall x | x in xs :: FloatFree(x)
    requires forall y | y in ys :: FloatFree(y)
    ensures LessElems(prefix + xs, prefix + ys) == LessElems(xs, ys)
  {
    hide FloatFree, Less;
    if prefix == [] {
      assert prefix + xs == xs && prefix + ys == ys;
    } else {
      NotLessItself(prefix[0]);
      assert (prefix + xs)[1..] == prefix[1..] + xs && (prefix + ys)[1..] == prefix[1..] + ys;
      CommonElems(prefix[1..], xs, ys);
    }
  }

  lemma {:induction false} CommonMembers(prefix: seq<Member>, ms: seq<Member>, ns: seq<Member>)
    requires forall p | p in prefix :: FloatFree(p.value)
    requires forall m | m in ms :: FloatFree(m.value)
    requires forall n | n in ns :: FloatFree(n.value)
    ensures LessMembers(prefix + ms, prefix + ns) == LessMembers(ms, ns)
  {
    hide FloatFree, Less;
    if prefix == [] {
      assert prefix + ms == ms && prefix + ns == ns;
    } else {
      NotLessItself(prefix[0].value);
      TextLessIrreflexive(prefix[0].key);
      assert (prefix + ms)[1..] == prefix[1..] + ms && (prefix + ns)[1..] == prefix[1..] + ns;
      CommonMembers(prefix[1..], ms, ns);
    }
  }

  lemma NotLessItself(v: Json)
    requires FloatFree(v)
    ensures !Less(v, v)
  {
    if Less(v, v) {
      Asymmetric(v, v);
    }
  }

  /** Some value stands above any other. */
  function Above(v: Json): (t: Json)
    ensures Ordered(t) && FloatFree(t) && WellFormed(t)
  {
    match v
    case String(s) => String(s + [0])
    case _ => String([])
  }

  lemma {:induction false} LongerIsGreater(s: Text)
    ensures TextLess(s, s + [0])
    decreases |s|
  {
    if s != [] {
      LongerIsGreater(s[1..]);
      assert (s + [0])[1..] == s[1..] + [0];
    }
  }

  lemma AboveIsGreater(v: Json)
    requires FloatFree(v)
    ensures Less(v, Above(v)) && !Less(Above(v), v)
  {
    if v.String? {
      LongerIsGreater(v.s);
    }
    Asymmetric(v, Above(v));
  }

  /** Two ordered values that `v` completes to a failure of transitivity. */
  ghost predicate Betrays(v: Json, a: Json, b: Json)
    requires FloatFree(v)
  {
    Ordered(a) && FloatFree(a) && Ordered(b) && FloatFree(b) && Intransitive(a, b, v)
  }

  function ElemsAbove(xs: seq<Json>): (ts: seq<Json>)
    ensures forall t | t in ts :: Ordered(t) && FloatFree(t) && WellFormed(t)
  {
    if xs == [] then [] else [Above(xs[0])]
  }

  lemma ElemsBetray(prefix: seq<Json>, x: Json, rest: seq<Json>, c: Json, d: Json)
    requires (forall p | p in prefix :: FloatFree(p)) && FloatFree(x) && (forall r | r in rest :: FloatFree(r))
    requires Betrays(x, c, d)
    ensures LessElems(prefix + ([c] + ElemsAbove(rest)), prefix + [d])
    ensures LessElems(prefix + [d], prefix + ([x] + rest))
    ensures !LessElems(prefix + ([c] + ElemsAbove(rest)), prefix + ([x] + rest))
  {
    hide Ordered, FloatFree, Above, Less, WellFormed;
    var tail := ElemsAbove(rest);
    CommonElems(prefix, [c] + tail, [d]);
    CommonElems(prefix, [d], [x] + rest);
    CommonElems(prefix, [c] + tail, [x] + rest);
    assert ([c] + tail)[1..] == tail && ([x] + rest)[1..] == rest;
    if rest != [] {
      AboveIsGreater(rest[0]);
    }
  }

  function MembersAbove(ms: seq<Member>): (ts: seq<Member>)
    ensures forall t | t in ts :: Ordered(t.value) && FloatFree(t.value) && WellFormed(t.value)
  {
    if ms == [] then [] else [Member(ms[0].key + [0], Null)]
  }

  lemma MembersBetray(prefix: seq<Member>, m: Member, rest: seq<Member>, c: Json, d: Json)
    requires forall p | p in prefix :: FloatFree(p.value)
    requires FloatFree(m.value) && forall r | r in rest :: FloatFree(r.value)
    requires Betrays(m.value, c, d)
    ensures LessMembers(prefix + ([Member(m.key, c)] + MembersAbove(rest)), prefix + [Member(m.key, d)])
    ensures LessMembers(prefix + [Member(m.key, d)], prefix + ([m] + rest))
    ensures !LessMembers(prefix + ([Member(m.key, c)] + MembersAbove(rest)), prefix + ([m] + rest))
  {
    hide Ordered, FloatFree, Less, WellFormed;
    var mc, md, tail := Member(m.key, c), Member(m.key, d), MembersAbove(rest);
    CommonMembers(prefix, [mc] + tail, [md]);
    CommonMembers(prefix, [md], [m] + rest);
    CommonMembers(prefix, [mc] + tail, [m] + rest);
    TextLessIrreflexive(m.key);
    assert ([mc] + tail)[1..] == tail && ([m] + rest)[1..] == rest;
    if rest != [] {
      LongerIsGreater(rest[0].key);
      TextLessAsymmetric(rest[0].key, rest[0].key + [0]);
      assert LessPair(rest[0], tail[0]) && !LessPair(tail[0], rest[0]);
    }
    assert !LessMembers(tail, rest);
  }

  /** Replacing a member and cutting what follows, except for a greater key, leaves a map. */
  lemma StillSorted(ms: seq<Member>, k: nat, v: Json)
    requires Sorted(ms) && k < |ms|
    ensures Sorted(ms[..k] + [Member(ms[k].key, v)])
    ensures Sorted(ms[..k] + ([Member(ms[k].key, v)] + MembersAbove(ms[k + 1..])))
  {
    hide TextLess;
    if k + 1 < |ms| {
      var next := ms[k + 1].key;
      LongerIsGreater(next);
      forall i | 0 <= i <= k ensures TextLess(ms[i].key, next + [0]) {
        TextLessTransitive(ms[i].key, next, next + [0]);
      }
      assert ms[k + 1..][0] == ms[k + 1];
    }
  }

  /**
   * A value that is not ordered completes a failure of transitivity: at the first fault in an array
   * or object, take the two values of that place, and put something greater behind the first of them.
   */
  lemma {:induction false} Betrayed(v: Json) returns (a: Json, b: Json)
    requires FloatFree(v) && !Ordered(v)
    ensures Betrays(v, a, b)
    ensures WellFormed(v) ==> WellFormed(a) && WellFormed(b)
    decreases v
  {
    match v
    case Unsigned(u) =>
      a, b := Integer(u - TWO_TO_THE_64), Unsigned(0);
      assert Eq(a, v);
    case Array(xs) =>
      hide Less;
      var k := FirstElemAtFault(xs);
      var c, d := Betrayed(xs[k]);
      a, b := ArrayBetrayed(xs, k, c, d);
    case Object(ms) =>
      hide Less;
      var k := FirstMemberAtFault(ms);
      var c, d := Betrayed(ms[k].value);
      a, b := ObjectBetrayed(ms, k, c, d);
  }

  lemma ArrayBetrayed(xs: seq<Json>, k: nat, c: Json, d: Json) returns (a: Json, b: Json)
    requires FloatFree(Array(xs)) && k < |xs| && forall x | x in xs[..k] :: Ordered(x)
    requires Betrays(xs[k], c, d)
    ensures Betrays(Array(xs), a, b)
    ensures WellFormed(Array(xs)) && WellFormed(c) && WellFormed(d) ==> WellFormed(a) && WellFormed(b)
  {
    hide LessElems, ElemsAbove;
    var as_, bs := xs[..k] + ([c] + ElemsAbove(xs[k + 1..])), xs[..k] + [d];
    a, b := Array(as_), Array(bs);
    assert xs == xs[..k] + ([xs[k]] + xs[k + 1..]);
    ElemsBetray(xs[..k], xs[k], xs[k + 1..], c, d);
    forall x | x in as_ ensures x in xs[..k] || x == c || x in ElemsAbove(xs[k + 1..]) {}
    forall x | x in bs ensures x in xs[..k] || x == d {}
  }

  lemma ObjectBetrayed(ms: seq<Member>, k: nat, c: Json, d: Json) returns (a: Json, b: Json)
    requires FloatFree(Object(ms)) && k < |ms| && forall m | m in ms[..k] :: Ordered(m.value)
    requires Betrays(ms[k].value, c, d)
    ensures Betrays(Object(ms), a, b)
    ensures WellFormed(Object(ms)) && WellFormed(c) && WellFormed(d) ==> WellFormed(a) && WellFormed(b)
  {
    hide LessMembers, Sorted, MembersAbove;
    var mc, md := Member(ms[k].key, c), Member(ms[k].key, d);
    var as_, bs := ms[..k] + ([mc] + MembersAbove(ms[k + 1..])), ms[..k] + [md];
    a, b := Object(as_), Object(bs);
    assert ms == ms[..k] + ([ms[k]] + ms[k + 1..]);
    MembersBetray(ms[..k], ms[k], ms[k + 1..], c, d);
    if Sorted(ms) {
      StillSorted(ms, k, c);
      StillSorted(ms, k, d);
    }
    forall m | m in as_ ensures m in ms[..k] || m == mc || m in MembersAbove(ms[k + 1..]) {}
    forall m | m in bs ensures m in ms[..k] || m == md {}
  }

  lemma {:induction false} FirstElemAtFault(xs: seq<Json>) returns (k: nat)
    requires exists x :: x in xs && !Ordered(x)
    ensures k < |xs| && !Ordered(xs[k]) && forall x | x in xs[..k] :: Ordered(x)
  {
    k := 0;
    while Ordered(xs[k])
      invariant k < |xs| && (forall i :: 0 <= i < k ==> Ordered(xs[i]))
      invariant exists i :: k <= i < |xs| && !Ordered(xs[i])
      decreases |xs| - k
    {
      k := k + 1;
    }
  }

  lemma {:induction false} FirstMemberAtFault(ms: seq<Member>) returns (k: nat)
    requires exists m :: m in ms && !Ordered(m.value)
    ensures k < |ms| && !Ordered(ms[k].value) && forall m | m in ms[..k] :: Ordered(m.value)
  {
    k := 0;
    while Ordered(ms[k].value)
      invariant k < |ms| && (forall i :: 0 <= i < k ==> Ordered(ms[i].value))
      invariant exists i :: k <= i < |ms| && !Ordered(ms[i].value)
      decreases |ms| - k
    {
      k := k + 1;
    }
  }

  /**
   * `operator<` fails to be transitive around a value exactly when it holds, at any depth, an
   * unsigned number that the cast to a signed number changes: 2^64 - k then equals -k, and yet is
   * greater than 0.  The values it fails with can be chosen without such numbers, and as maps.
   */
  lemma UnsignedBreaksOrder(v: Json)
    requires FloatFree(v)
    ensures !Ordered(v) <==> exists a, b :: Betrays(v, a, b)
    ensures !Ordered(v) && WellFormed(v) ==> exists a, b :: Betrays(v, a, b) && WellFormed(a) && WellFormed(b)
  {
    hide Ordered, Less, FloatFree;
    if !Ordered(v) {
      var a, b := Betrayed(v);
    } else {
      forall a, b | Ordered(a) && FloatFree(a) && Ordered(b) && FloatFree(b)
        ensures !Intransitive(a, b, v)
      {
        StrictOrder(a, b, v);
      }
    }
  }
}
