/** What `operator<` says of any two values, without the table of ranks. */
module JsonPrecedence {
  import opened Bytes
  import opened JsonValue
  import opened JsonOrder

  /** `k` is where `a` and `b` differ first: `a` ends there, or has the smaller byte. */
  predicate TextBefore(a: Text, b: Text, k: nat) {
    k <= |a| && k < |b| && a[..k] == b[..k] && (k < |a| ==> a[k] < b[k])
  }

  lemma {:induction false} TextLessMeaning(a: Text, b: Text)
    ensures TextLess(a, b) <==> exists k: nat :: TextBefore(a, b, k)
    decreases |a|
  {
    if a == [] || b == [] || a[0] != b[0] {
      assert b != [] && (a == [] || a[0] < b[0]) ==> TextBefore(a, b, 0);
    } else {
      TextLessMeaning(a[1..], b[1..]);
      if k: nat :| TextBefore(a[1..], b[1..], k) {
        assert a[..k + 1] == [a[0]] + a[1..][..k] && b[..k + 1] == [b[0]] + b[1..][..k];
        assert TextBefore(a, b, k + 1);
      }
      if k: nat :| TextBefore(a, b, k) {
        assert a[1..][..k - 1] == a[..k][1..] && b[1..][..k - 1] == b[..k][1..];
        assert TextBefore(a[1..], b[1..], k - 1);
      }
    }
  }

  /** Neither value comes before the other. */
  predicate Tied(a: Json, b: Json)
    requires FloatFree(a) && FloatFree(b)
  {
    !Less(a, b) && !Less(b, a)
  }

  /** The elements before the `k`-th are tied; there `xs` ends, or has the lesser element. */
  predicate ElemsBefore(xs: seq<Json>, ys: seq<Json>, k: nat)
    requires forall x | x in xs :: FloatFree(x)
    requires forall y | y in ys :: FloatFree(y)
  {
    && k <= |xs| && k < |ys| && (forall i :: 0 <= i < k ==> Tied(xs[i], ys[i]))
    && (k < |xs| ==> Less(xs[k], ys[k]))
  }

  lemma {:induction false} LessElemsMeaning(xs: seq<Json>, ys: seq<Json>)
    requires forall x | x in xs :: FloatFree(x)
    requires forall y | y in ys :: FloatFree(y)
    ensures LessElems(xs, ys) <==> exists k: nat :: ElemsBefore(xs, ys, k)
    decreases |xs|
  {
    hide Less, FloatFree;
    if xs == [] || ys == [] {
      assert ys != [] ==> ElemsBefore(xs, ys, 0);
    } else if Less(xs[0], ys[0]) {
      assert ElemsBefore(xs, ys, 0);
    } else if Tied(xs[0], ys[0]) {
      LessElemsMeaning(xs[1..], ys[1..]);
      if k: nat :| ElemsBefore(xs[1..], ys[1..], k) {
        assert forall i :: 0 < i < k + 1 ==> xs[i] == xs[1..][i - 1] && ys[i] == ys[1..][i - 1];
        assert ElemsBefore(xs, ys, k + 1);
      }
      if k: nat :| ElemsBefore(xs, ys, k) {
        assert forall i :: 0 <= i < k - 1 ==> xs[1..][i] == xs[i + 1] && ys[1..][i] == ys[i + 1];
        assert ElemsBefore(xs[1..], ys[1..], k - 1);
      }
    }
  }

  /** Members compare by their keys, and under one key by their values. */
  ghost predicate MemberBefore(m: Member, n: Member)
    requires FloatFree(m.value) && FloatFree(n.value)
  {
    (exists k: nat :: TextBefore(m.key, n.key, k)) || (m.key == n.key && Less(m.value, n.value))
  }

  lemma LessPairMeaning(m: Member, n: Member)
    requires FloatFree(m.value) && FloatFree(n.value)
    ensures LessPair(m, n) <==> MemberBefore(m, n)
  {
    hide Less, FloatFree, TextLess;
    TextLessMeaning(m.key, n.key);
    TextLessTotal(m.key, n.key);
    TextLessIrreflexive(m.key);
    if TextLess(n.key, m.key) {
      TextLessAsymmetric(n.key, m.key);
    }
  }

  ghost predicate MembersBefore(ms: seq<Member>, ns: seq<Member>, k: nat)
    requires forall m | m in ms :: FloatFree(m.value)
    requires forall n | n in ns :: FloatFree(n.value)
  {
    && k <= |ms| && k < |ns|
    && (forall i :: 0 <= i < k ==> ms[i].key == ns[i].key && Tied(ms[i].value, ns[i].value))
    && (k < |ms| ==> MemberBefore(ms[k], ns[k]))
  }

  lemma LessMembersMeaning(ms: seq<Member>, ns: seq<Member>)
    requires forall m | m in ms :: FloatFree(m.value)
    requires forall n | n in ns :: FloatFree(n.value)
    ensures LessMembers(ms, ns) <==> exists k: nat :: MembersBefore(ms, ns, k)
    decreases |ms|
  {
    hide Less, FloatFree, TextLess;
    if ms == [] || ns == [] {
      assert ns != [] ==> MembersBefore(ms, ns, 0);
    } else {
      hide LessPair, MemberBefore;
      MemberCases(ms[0], ns[0]);
      if LessPair(ms[0], ns[0]) {
        assert MembersBefore(ms, ns, 0);
      } else if ms[0].key == ns[0].key && Tied(ms[0].value, ns[0].value) {
        LessMembersMeaning(ms[1..], ns[1..]);
        if k: nat :| MembersBefore(ms[1..], ns[1..], k) {
          MembersShift(ms, ns, k);
        }
        if k: nat :| MembersBefore(ms, ns, k) {
          assert k > 0;
          MembersShift(ms, ns, k - 1);
        }
      }
    }
  }

  lemma MembersShift(ms: seq<Member>, ns: seq<Member>, k: nat)
    requires forall m | m in ms :: FloatFree(m.value)
    requires forall n | n in ns :: FloatFree(n.value)
    requires ms != [] && ns != [] && ms[0].key == ns[0].key && Tied(ms[0].value, ns[0].value)
    ensures MembersBefore(ms, ns, k + 1) <==> MembersBefore(ms[1..], ns[1..], k)
  {
    hide Tied, MemberBefore, FloatFree;
    assert forall i :: 0 < i < |ms| ==> ms[i] == ms[1..][i - 1];
    assert forall i :: 0 < i < |ns| ==> ns[i] == ns[1..][i - 1];
  }

  /** Two members are tied when their keys are the same and their values are tied. */
  lemma MemberCases(m: Member, n: Member)
    requires FloatFree(m.value) && FloatFree(n.value)
    ensures LessPair(m, n) <==> MemberBefore(m, n)
    ensures !LessPair(m, n) && !LessPair(n, m) <==> m.key == n.key && Tied(m.value, n.value)
    ensures LessPair(m, n) ==> !LessPair(n, m)
  {
    hide Less, FloatFree, TextLess;
    LessPairMeaning(m, n);
    TextLessTotal(m.key, n.key);
    TextLessIrreflexive(m.key);
    if LessPair(m, n) {
      AsymmetricPair(m, n);
    }
  }

  predicate IsNumber(v: Json) {
    v.Integer? || v.Unsigned? || v.Float?
  }

  /** A number as the order sees it beside a signed one. */
  function Signed(v: Json): int
    requires v.Integer? || v.Unsigned?
  {
    if v.Integer? then v.i
    else if v.u < 0x8000_0000_0000_0000 then v.u
    else v.u - 0x1_0000_0000_0000_0000
  }

  /**
   * Values of different types come in the order null, boolean, number, object, array, string; booleans
   * and numbers by value, where an unsigned number counts as signed beside a signed one; strings,
   * arrays and objects by their first difference.
   */
  lemma LessMeaning(a: Json, b: Json)
    requires FloatFree(a) && FloatFree(b)
    ensures a.Null? ==> (Less(a, b) <==> !b.Null?)
    ensures a.Boolean? && !b.Boolean? ==> (Less(a, b) <==> IsNumber(b) || b.Object? || b.Array? || b.String?)
    ensures IsNumber(a) && !IsNumber(b) ==> (Less(a, b) <==> b.Object? || b.Array? || b.String?)
    ensures a.Object? && !b.Object? ==> (Less(a, b) <==> b.Array? || b.String?)
    ensures a.Array? && !b.Array? ==> (Less(a, b) <==> b.String?)
    ensures a.String? && !b.String? ==> !Less(a, b)
    ensures a.Boolean? && b.Boolean? ==> (Less(a, b) <==> a == Boolean(false) && b == Boolean(true))
    ensures a.Unsigned? && b.Unsigned? ==> (Less(a, b) <==> a.u < b.u)
    ensures IsNumber(a) && IsNumber(b) && (a.Integer? || b.Integer?) ==> (Less(a, b) <==> Signed(a) < Signed(b))
    ensures a.String? && b.String? ==> (Less(a, b) <==> exists k: nat :: TextBefore(a.s, b.s, k))
    ensures a.Array? && b.Array? ==> (Less(a, b) <==> exists k: nat :: ElemsBefore(a.elems, b.elems, k))
    ensures a.Object? && b.Object? ==> (Less(a, b) <==> exists k: nat :: MembersBefore(a.members, b.members, k))
  {
    hide TextLess, LessElems, LessMembers, ElemsBefore, MembersBefore, TextBefore;
    if a.String? && b.String? {
      TextLessMeaning(a.s, b.s);
    } else if a.Array? && b.Array? {
      LessElemsMeaning(a.elems, b.elems);
    } else if a.Object? && b.Object? {
      LessMembersMeaning(a.members, b.members);
    }
  }
}
