/** For which reason an overlay ends the program: the first fault, place by place. */
module ConfigFaults {
  import opened Bytes
  import opened JsonValue
  import opened ConfigOverlay

  /** A place in the instance: the position of a member or an element at each level. */
  type Place = seq<nat>

  /** `p` is visited before `q`: a node before what is inside it, and its parts in their order. */
  predicate Earlier(p: Place, q: Place) {
    q != [] && (p == [] || p[0] < q[0] || (p[0] == q[0] && Earlier(p[1..], q[1..])))
  }

  /** What is wrong between two nodes themselves. */
  function NodeFault(c: Json, g: Json): Option<Failure> {
    if c.Array? && g.Array? then (if |c.elems| != |g.elems| then Some(LengthNotSame) else None)
    else if c.Object? && g.Object? then None
    else if (c.Object? && g.Array?) || (c.Array? && g.Object?) then Some(ObjectAgainstArray)
    else if c.Object? || c.Array? || g.Object? || g.Array? then Some(UnsupportedTypes)
    else if c.Kind() != g.Kind() then Some(TypeNotSame)
    else None
  }

  /** What is wrong at a place; members are compared under their key, elements at their index. */
  function FaultAt(c: Json, g: Json, p: Place): Option<Failure>
    decreases |p|
  {
    if p == [] then NodeFault(c, g)
    else if c.Object? && g.Object? && p[0] < |c.members| then
      var key := c.members[p[0]].key;
      if HasKey(g.members, key) then FaultAt(c.members[p[0]].value, Get(g.members, key), p[1..])
      else if p[1..] == [] then Some(KeyNotFound(key))
      else None
    else if c.Array? && g.Array? && |c.elems| == |g.elems| && p[0] < |c.elems| then
      FaultAt(c.elems[p[0]], g.elems[p[0]], p[1..])
    else None
  }

  ghost predicate FirstFault(c: Json, g: Json, p: Place, f: Failure) {
    FaultAt(c, g, p) == Some(f) && forall q :: Earlier(q, p) ==> FaultAt(c, g, q) == None
  }

  /** The instance has no fault at any place, or `f` is the first. */
  ghost predicate Reason(c: Json, g: Json, reason: Option<Failure>) {
    match reason
    case None => forall p :: FaultAt(c, g, p) == None
    case Some(f) => exists p :: FirstFault(c, g, p, f)
  }

  /** The program ends for the reason that is met first on the walk, and for no reason without a fault. */
  lemma {:induction false} MismatchIsFirstFault(c: Json, g: Json)
    ensures Reason(c, g, Mismatch(c, g))
    decreases c
  {
    hide FaultAt;
    NodeFirst(c, g);
    match (c, g)
    case (Object(cs), Object(gs)) => MembersFirst(cs, gs, 0);
    case (Array(xs), Array(ys)) =>
      if |xs| == |ys| {
        ElemsFirst(xs, ys, 0);
      } else {
        assert FirstFault(c, g, [], LengthNotSame);
      }
    case _ =>
      if NodeFault(c, g).Some? {
        assert FirstFault(c, g, [], NodeFault(c, g).value);
      }
  }

  /** At the node itself, and inside a node that has no parts to compare. */
  lemma NodeFirst(c: Json, g: Json)
    ensures FaultAt(c, g, []) == NodeFault(c, g)
    ensures !(c.Object? && g.Object?) && !(c.Array? && g.Array? && |c.elems| == |g.elems|) ==>
      forall p :: p != [] ==> FaultAt(c, g, p) == None
  {
  }

  lemma MemberPlace(cs: seq<Member>, gs: seq<Member>, p: Place)
    requires p != [] && p[0] < |cs|
    ensures FaultAt(Object(cs), Object(gs), p) ==
      var key := cs[p[0]].key;
      if HasKey(gs, key) then FaultAt(cs[p[0]].value, Get(gs, key), p[1..])
      else if p[1..] == [] then Some(KeyNotFound(key))
      else None
  {
  }

  lemma BehindLast(c: Json, g: Json, p: Place)
    requires p != []
    requires (c.Object? && g.Object? && p[0] >= |c.members|) || (c.Array? && g.Array? && p[0] >= |c.elems|)
    ensures FaultAt(c, g, p) == None
  {
  }

  /** No fault before the `i`-th part. */
  ghost predicate CleanBefore(c: Json, g: Json, i: nat) {
    forall p: Place :: p == [] || p[0] < i ==> FaultAt(c, g, p) == None
  }

  lemma {:induction false} MembersFirst(cs: seq<Member>, gs: seq<Member>, i: nat)
    requires i <= |cs| && CleanBefore(Object(cs), Object(gs), i)
    ensures Reason(Object(cs), Object(gs), MismatchMembers(cs[i..], gs))
    decreases cs, |cs| - i
  {
    hide FaultAt, Mismatch, MismatchMembers, HasKey, Get;
    var c, g := Object(cs), Object(gs);
    if i == |cs| {
      NoMembers(gs);
      forall p ensures FaultAt(c, g, p) == None {
        if p != [] && p[0] >= i { BehindLast(c, g, p); }
      }
    } else {
      MismatchNext(cs, gs, i);
      forall p: Place | p != [] && p[0] == i { MemberPlace(cs, gs, p); }
      if !HasKey(gs, cs[i].key) {
        MemberPlace(cs, gs, [i]);
        forall q | q != [] && Earlier(q, [i]) ensures q[0] < i {
          assert [i][1..] == [] && !Earlier(q[1..], []);
        }
        assert FirstFault(c, g, [i], KeyNotFound(cs[i].key));
      } else {
        MismatchIsFirstFault(cs[i].value, Get(gs, cs[i].key));
        PartFirst(c, g, i, cs[i].value, Get(gs, cs[i].key), Mismatch(cs[i].value, Get(gs, cs[i].key)));
        if Mismatch(cs[i].value, Get(gs, cs[i].key)).None? {
          MembersFirst(cs, gs, i + 1);
        }
      }
    }
  }

  lemma NoMembers(gs: seq<Member>)
    ensures MismatchMembers([], gs) == None
  {
  }

  /** What is found in the `i`-th part, when nothing is found before it. */
  lemma PartFirst(c: Json, g: Json, i: nat, ci: Json, gi: Json, reason: Option<Failure>)
    requires CleanBefore(c, g, i) && Reason(ci, gi, reason)
    requires forall p: Place :: p != [] && p[0] == i ==> FaultAt(c, g, p) == FaultAt(ci, gi, p[1..])
    ensures reason.Some? ==> Reason(c, g, reason)
    ensures reason.None? ==> CleanBefore(c, g, i + 1)
  {
    hide FaultAt;
    if reason.Some? {
      var p :| FirstFault(ci, gi, p, reason.value);
      var q := [i] + p;
      assert q[1..] == p;
      hide Reason;
      forall e | Earlier(e, q) ensures FaultAt(c, g, e) == None {
        if e != [] && e[0] == i {
          assert Earlier(e[1..], p);
        }
      }
      assert FirstFault(c, g, q, reason.value);
      AFirstFault(c, g, q, reason.value);
    }
  }

  lemma AFirstFault(c: Json, g: Json, p: Place, f: Failure)
    requires FirstFault(c, g, p, f)
    ensures Reason(c, g, Some(f))
  {
  }

  lemma ElemPlace(xs: seq<Json>, ys: seq<Json>, p: Place)
    requires |xs| == |ys| && p != [] && p[0] < |xs|
    ensures FaultAt(Array(xs), Array(ys), p) == FaultAt(xs[p[0]], ys[p[0]], p[1..])
  {
  }

  lemma {:induction false} ElemsFirst(xs: seq<Json>, ys: seq<Json>, i: nat)
    requires i <= |xs| == |ys| && CleanBefore(Array(xs), Array(ys), i)
    ensures Reason(Array(xs), Array(ys), MismatchElems(xs[i..], ys[i..]))
    decreases xs, |xs| - i
  {
    hide FaultAt, Mismatch;
    var c, g := Array(xs), Array(ys);
    if i == |xs| {
      forall p ensures FaultAt(c, g, p) == None {
        if p != [] && p[0] >= i { BehindLast(c, g, p); }
      }
    } else {
      assert xs[i..][1..] == xs[i + 1..] && ys[i..][1..] == ys[i + 1..];
      forall p: Place | p != [] && p[0] == i ensures FaultAt(c, g, p) == FaultAt(xs[i], ys[i], p[1..]) {
        ElemPlace(xs, ys, p);
      }
      MismatchIsFirstFault(xs[i], ys[i]);
      PartFirst(c, g, i, xs[i], ys[i], Mismatch(xs[i], ys[i]));
      if Mismatch(xs[i], ys[i]).None? {
        ElemsFirst(xs, ys, i + 1);
      }
    }
  }
}
