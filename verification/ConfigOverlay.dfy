/**
 * Overlaying the parameters of an instance on the parameters of its class: a recursive merge
 * that accepts only instances whose structure fits the base.
 */
module ConfigOverlay {
  import opened Bytes
  import opened JsonValue

  /** Why the program ends instead of returning a merged configuration. */
  datatype Failure =
    | KeyNotFound(key: Text)     // exit(EXIT_FAILURE)
    | LengthNotSame              // exit(EXIT_FAILURE)
    | ObjectAgainstArray         // exit(EXIT_FAILURE)
    | TypeNotSame                // exit(EXIT_FAILURE)
    | UnsupportedTypes           // exit(0): one side is structured, the other is not
    | InternalError              // exit(EXIT_FAILURE), in MatchandFill

  datatype CompareResult = CompareResult(result: bool, resultobject: Json)

  // ---- When an instance fits, and what the merge means -------------------------------

  /** Keys of the base only, arrays of the same length, primitives of the same type. */
  predicate Conforms(c: Json, g: Json)
    decreases c
  {
    match (c, g)
    case (Object(cs), Object(gs)) =>
      forall i :: 0 <= i < |cs| ==> HasKey(gs, cs[i].key) && Conforms(cs[i].value, Get(gs, cs[i].key))
    case (Array(xs), Array(ys)) => |xs| == |ys| && forall i :: 0 <= i < |xs| ==> Conforms(xs[i], ys[i])
    case _ => !c.Structured() && !g.Structured() && c.Kind() == g.Kind()
  }

  /** The base, with the values of the instance wherever the instance has one. */
  function Merge(c: Json, g: Json): (r: Json)
    decreases g
  {
    match (c, g)
    case (Object(cs), Object(gs)) => Object(MergeMembers(cs, gs))
    case (Array(xs), Array(ys)) => if |xs| == |ys| then Array(MergeElems(xs, ys)) else g
    case _ => c
  }

  function MergeMembers(cs: seq<Member>, gs: seq<Member>): (ms: seq<Member>)
    ensures |ms| == |gs|
    ensures forall i :: 0 <= i < |gs| ==>
      ms[i] == Member(gs[i].key, if HasKey(cs, gs[i].key) then Merge(Get(cs, gs[i].key), gs[i].value) else gs[i].value)
    decreases gs
  {
    if gs == [] then []
    else
      var k := gs[0].key;
      [Member(k, if HasKey(cs, k) then Merge(Get(cs, k), gs[0].value) else gs[0].value)] + MergeMembers(cs, gs[1..])
  }

  function MergeElems(xs: seq<Json>, ys: seq<Json>): (zs: seq<Json>)
    requires |xs| == |ys|
    ensures |zs| == |ys| && forall i :: 0 <= i < |ys| ==> zs[i] == Merge(xs[i], ys[i])
    decreases ys
  {
    if ys == [] then [] else [Merge(xs[0], ys[0])] + MergeElems(xs[1..], ys[1..])
  }

  /** The first mismatch, in the order in which the loops walk the instance. */
  function Mismatch(c: Json, g: Json): Option<Failure>
    decreases c
  {
    match (c, g)
    case (Object(cs), Object(gs)) => MismatchMembers(cs, gs)
    case (Array(xs), Array(ys)) => if |xs| == |ys| then MismatchElems(xs, ys) else Some(LengthNotSame)
    case _ =>
      if c.Structured() && g.Structured() then Some(ObjectAgainstArray)
      else if c.Structured() || g.Structured() then Some(UnsupportedTypes)
      else if c.Kind() == g.Kind() then None
      else Some(TypeNotSame)
  }

  function MismatchMembers(cs: seq<Member>, gs: seq<Member>): Option<Failure>
    decreases cs
  {
    if cs == [] then None
    else if !HasKey(gs, cs[0].key) then Some(KeyNotFound(cs[0].key))
    else
      var first := Mismatch(cs[0].value, Get(gs, cs[0].key));
      if first.Some? then first else MismatchMembers(cs[1..], gs)
  }

  function MismatchElems(xs: seq<Json>, ys: seq<Json>): Option<Failure>
    requires |xs| == |ys|
    decreases xs
  {
    if xs == [] then None
    else
      var first := Mismatch(xs[0], ys[0]);
      if first.Some? then first else MismatchElems(xs[1..], ys[1..])
  }

  /** There is no mismatch exactly when the instance conforms. */
  lemma {:induction false} MismatchMeaning(c: Json, g: Json)
    ensures Mismatch(c, g) == None <==> Conforms(c, g)
    decreases c
  {
    match (c, g)
    case (Object(cs), Object(gs)) => MismatchMembersMeaning(cs, gs);
    case (Array(xs), Array(ys)) => if |xs| == |ys| { MismatchElemsMeaning(xs, ys); }
    case _ =>
  }

  lemma {:induction false} MismatchMembersMeaning(cs: seq<Member>, gs: seq<Member>)
    ensures MismatchMembers(cs, gs) == None <==>
      forall i :: 0 <= i < |cs| ==> HasKey(gs, cs[i].key) && Conforms(cs[i].value, Get(gs, cs[i].key))
    decreases cs
  {
    hide Conforms, Mismatch, HasKey, Get;
    if cs != [] {
      assert forall i :: 0 < i < |cs| ==> cs[i] == cs[1..][i - 1];
      MismatchMeaning(cs[0].value, if HasKey(gs, cs[0].key) then Get(gs, cs[0].key) else Null);
      MismatchMembersMeaning(cs[1..], gs);
    }
  }

  lemma {:induction false} MismatchElemsMeaning(xs: seq<Json>, ys: seq<Json>)
    requires |xs| == |ys|
    ensures MismatchElems(xs, ys) == None <==> forall i :: 0 <= i < |xs| ==> Conforms(xs[i], ys[i])
    decreases xs
  {
    hide Conforms, Mismatch;
    if xs != [] {
      assert forall i :: 0 < i < |xs| ==> xs[i] == xs[1..][i - 1] && ys[i] == ys[1..][i - 1];
      MismatchMeaning(xs[0], ys[0]);
      MismatchElemsMeaning(xs[1..], ys[1..]);
    }
  }

  // ---- The recursive comparison -------------------------------------------------------

  /**
   * The merged configuration, or the failure that ends the program.  `golden` and the map or
   * vector inside it are copies that the loops overwrite.  A result that is returned is a success.
   */
  method CompareStructure(compare: Json, golden: Json) returns (r: Result<CompareResult, Failure>)
    requires WellFormed(compare) && WellFormed(golden)
    ensures r.Ok? <==> Conforms(compare, golden)
    ensures r.Ok? ==> r.value == CompareResult(true, Merge(compare, golden))
    ensures r.Err? ==> Mismatch(compare, golden) == Some(r.error)
    decreases compare, 1
  {
    MismatchMeaning(compare, golden);
    if golden.Structured() && compare.Structured() {
      if golden.Object? && compare.Object? {
        r := CompareObjects(compare.members, golden.members);
      } else if golden.Array? && compare.Array? {
        r := CompareArrays(compare.elems, golden.elems);
      } else {
        r := Err(ObjectAgainstArray);
      }
    } else if !golden.Structured() && !compare.Structured() {
      if golden.Kind() == compare.Kind() {
        r := Ok(CompareResult(true, if golden != compare then compare else golden));
      } else {
        r := Err(TypeNotSame);
      }
    } else {
      r := Err(UnsupportedTypes);
    }
  }

  method CompareObjects(cs: seq<Member>, gs: seq<Member>) returns (r: Result<CompareResult, Failure>)
    requires WellFormed(Object(cs)) && WellFormed(Object(gs))
    ensures MismatchMembers(cs, gs) == if r.Ok? then None else Some(r.error)
    ensures r.Ok? ==> r.value == CompareResult(true, Object(MergeMembers(cs, gs)))
    decreases cs, 0
  {
    hide Mismatch, MismatchMembers, Merge, MergeMembers, Conforms, WellFormed, Insert, HasKey, Get, Find, Sorted;
    var golden := gs;
    var i := 0;
    NothingMerged(cs, gs);
    while i < |cs|
      invariant 0 <= i <= |cs|
      invariant golden == MergeMembers(cs[..i], gs)
      invariant MismatchMembers(cs, gs) == MismatchMembers(cs[i..], gs)
    {
      var key := cs[i].key;
      MismatchNext(cs, gs, i);
      KeysKept(cs[..i], gs, key);
      if !HasKey(golden, key) {
        return Err(KeyNotFound(key));
      }
      NotYetMerged(cs, gs, i);
      MembersWellFormed(cs, gs, i);
      var result := CompareStructure(cs[i].value, Get(golden, key));
      MismatchMeaning(cs[i].value, Get(gs, key));
      if result.Err? {
        return Err(result.error);
      }
      MergeOne(cs, gs, i);
      golden := Insert(golden, key, result.value.resultobject);
      i := i + 1;
    }
    EverythingMerged(cs, gs);
    return Ok(CompareResult(true, Object(golden)));
  }

  /** The mismatch found from member `i` on, in terms of that member and those after it. */
  lemma MismatchNext(cs: seq<Member>, gs: seq<Member>, i: nat)
    requires i < |cs|
    ensures MismatchMembers(cs[i..], gs) ==
      if !HasKey(gs, cs[i].key) then Some(KeyNotFound(cs[i].key))
      else if Mismatch(cs[i].value, Get(gs, cs[i].key)).Some? then Mismatch(cs[i].value, Get(gs, cs[i].key))
      else MismatchMembers(cs[i + 1..], gs)
  {
    hide Mismatch, HasKey, Get;
    assert cs[i..][0] == cs[i] && cs[i..][1..] == cs[i + 1..];
  }

  lemma EverythingMerged(cs: seq<Member>, gs: seq<Member>)
    ensures cs[..|cs|] == cs && MismatchMembers(cs[|cs|..], gs) == None
  {
  }

  method CompareArrays(xs: seq<Json>, ys: seq<Json>) returns (r: Result<CompareResult, Failure>)
    requires WellFormed(Array(xs)) && WellFormed(Array(ys))
    ensures r.Err? ==> Mismatch(Array(xs), Array(ys)) == Some(r.error)
    ensures r.Ok? ==>
      && Mismatch(Array(xs), Array(ys)) == None
      && r.value == CompareResult(true, Merge(Array(xs), Array(ys)))
    decreases xs, 0
  {
    if |ys| != |xs| {
      return Err(LengthNotSame);
    }
    var golden := ys;
    var i := 0;
    while i < |xs|
      invariant 0 <= i <= |xs| && |golden| == |ys|
      invariant forall j :: 0 <= j < i ==> golden[j] == Merge(xs[j], ys[j])
      invariant forall j :: i <= j < |ys| ==> golden[j] == ys[j]
      invariant MismatchElems(xs, ys) == MismatchElems(xs[i..], ys[i..])
    {
      hide Mismatch, Merge, Conforms;
      var result := CompareStructure(xs[i], golden[i]);
      MismatchMeaning(xs[i], ys[i]);
      assert xs[i..][1..] == xs[i + 1..] && ys[i..][1..] == ys[i + 1..];
      if result.Err? {
        ArrayMismatch(xs, ys);
        return Err(result.error);
      }
      golden := golden[i := result.value.resultobject];
      i := i + 1;
    }
    assert golden == MergeElems(xs, ys);
    return Ok(CompareResult(true, Array(golden)));
  }

  lemma ArrayMismatch(xs: seq<Json>, ys: seq<Json>)
    requires |xs| == |ys|
    ensures Mismatch(Array(xs), Array(ys)) == MismatchElems(xs, ys)
  {
  }

  /** Two lists of members with the same keys at the same places. */
  lemma {:induction false} SameKeys(ms: seq<Member>, ns: seq<Member>, k: Text)
    requires |ms| == |ns| && forall i :: 0 <= i < |ms| ==> ms[i].key == ns[i].key
    ensures Find(ms, k) == Find(ns, k) && HasKey(ms, k) == HasKey(ns, k)
  {
    if HasKey(ms, k) {
      assert ns[Find(ms, k)].key == k;
    }
  }

  /** Merging keeps the keys, and merges member by member. */
  lemma KeysKept(cs: seq<Member>, gs: seq<Member>, k: Text)
    ensures HasKey(MergeMembers(cs, gs), k) == HasKey(gs, k)
    ensures HasKey(gs, k) ==>
      Get(MergeMembers(cs, gs), k) == if HasKey(cs, k) then Merge(Get(cs, k), Get(gs, k)) else Get(gs, k)
  {
    hide Merge;
    SameKeys(MergeMembers(cs, gs), gs, k);
  }

  lemma NothingMerged(cs: seq<Member>, gs: seq<Member>)
    ensures MergeMembers(cs[..0], gs) == gs && cs[0..] == cs
  {
    assert forall k :: !HasKey(cs[..0], k);
  }

  /** The keys of the instance are distinct, so a member is still the base's when its turn comes. */
  lemma NotYetMerged(cs: seq<Member>, gs: seq<Member>, i: nat)
    requires WellFormed(Object(cs)) && i < |cs| && HasKey(gs, cs[i].key)
    ensures !HasKey(cs[..i], cs[i].key)
    ensures HasKey(MergeMembers(cs[..i], gs), cs[i].key)
    ensures Get(MergeMembers(cs[..i], gs), cs[i].key) == Get(gs, cs[i].key)
  {
    hide Merge, TextLess;
    if HasKey(cs[..i], cs[i].key) {
      FindUnique(cs, Find(cs[..i], cs[i].key));
      FindUnique(cs, i);
    }
    KeysKept(cs[..i], gs, cs[i].key);
  }

  lemma MembersWellFormed(cs: seq<Member>, gs: seq<Member>, i: nat)
    requires WellFormed(Object(cs)) && WellFormed(Object(gs)) && i < |cs| && HasKey(gs, cs[i].key)
    ensures WellFormed(cs[i].value) && WellFormed(Get(gs, cs[i].key))
  {
    assert cs[i] in cs && gs[Find(gs, cs[i].key)] in gs;
  }

  /** `golden[key] = result` for a key that is there. */
  lemma {:induction false} InsertExisting(ms: seq<Member>, key: Text, v: Json)
    requires Sorted(ms) && HasKey(ms, key)
    ensures Insert(ms, key, v) == ms[Find(ms, key) := Member(key, v)]
  {
    var f := Find(ms, key);
    if ms[0].key != key {
      assert ms[1..][f - 1].key == key;
      TextLessAsymmetric(ms[0].key, key);
      InsertExisting(ms[1..], key, v);
    }
  }

  lemma MergedSorted(cs: seq<Member>, gs: seq<Member>)
    requires Sorted(gs)
    ensures Sorted(MergeMembers(cs, gs))
  {
    hide Merge, TextLess;
  }

  /** One round of the loop over an object. */
  lemma MergeOne(cs: seq<Member>, gs: seq<Member>, i: nat)
    requires WellFormed(Object(cs)) && WellFormed(Object(gs)) && i < |cs| && HasKey(gs, cs[i].key)
    ensures Insert(MergeMembers(cs[..i], gs), cs[i].key, Merge(cs[i].value, Get(gs, cs[i].key)))
         == MergeMembers(cs[..i + 1], gs)
  {
    hide Merge, Insert, HasKey, Get;
    var key := cs[i].key;
    var before := MergeMembers(cs[..i], gs);
    var v := Merge(cs[i].value, Get(gs, key));
    KeysKept(cs[..i], gs, key);
    MergedSorted(cs[..i], gs);
    InsertExisting(before, key, v);
    var after := before[Find(before, key) := Member(key, v)];
    FoundInBase(gs, before, key);
    forall j | 0 <= j < |gs| ensures after[j] == MergeMembers(cs[..i + 1], gs)[j] {
      OneMoreKey(cs, i, gs[j].key);
      OnlyPlace(gs, key, j);
    }
  }

  lemma FoundInBase(gs: seq<Member>, before: seq<Member>, key: Text)
    requires |before| == |gs| && (forall j :: 0 <= j < |gs| ==> before[j].key == gs[j].key)
    requires HasKey(gs, key)
    ensures Find(before, key) == Find(gs, key) && Get(gs, key) == gs[Find(gs, key)].value
  {
    SameKeys(before, gs, key);
  }

  lemma OnlyPlace(gs: seq<Member>, key: Text, j: nat)
    requires Sorted(gs) && j < |gs|
    ensures gs[j].key == key <==> Find(gs, key) == j
  {
    FindUnique(gs, j);
  }

  lemma OneMoreKey(cs: seq<Member>, i: nat, k: Text)
    requires Sorted(cs) && i < |cs|
    ensures HasKey(cs[..i + 1], k) <==> HasKey(cs[..i], k) || k == cs[i].key
    ensures k == cs[i].key ==> Get(cs[..i + 1], k) == cs[i].value
    ensures k != cs[i].key && HasKey(cs[..i], k) ==> Get(cs[..i + 1], k) == Get(cs[..i], k)
  {
    hide TextLess;
    var a, b := cs[..i], cs[..i + 1];
    assert b == a + [cs[i]];
    if HasKey(a, k) {
      var f := Find(a, k);
      assert b[f] == a[f];
      FindUnique(b, f);
    }
    if k == cs[i].key {
      assert b[i].key == k;
      FindUnique(b, i);
    }
  }

  /** The overlay of a configuration node; the internal error is never raised. */
  method MatchandFill(matchagainst: Json, parameters: Json) returns (r: Result<Json, Failure>)
    requires WellFormed(matchagainst) && WellFormed(parameters)
    ensures r.Ok? <==> Conforms(matchagainst, parameters)
    ensures r.Ok? ==> r.value == Merge(matchagainst, parameters)
    ensures r.Err? ==> Mismatch(matchagainst, parameters) == Some(r.error) && r.error != InternalError
  {
    var compareresult := CompareStructure(matchagainst, parameters);
    MismatchIsNotInternal(matchagainst, parameters);
    if compareresult.Err? {
      return Err(compareresult.error);
    }
    r := if compareresult.value.result then Ok(compareresult.value.resultobject) else Err(InternalError);
  }

  lemma {:induction false} MismatchIsNotInternal(c: Json, g: Json)
    ensures Mismatch(c, g) != Some(InternalError)
    decreases c
  {
    match (c, g)
    case (Object(cs), Object(gs)) => MembersNotInternal(cs, gs);
    case (Array(xs), Array(ys)) => if |xs| == |ys| { ElemsNotInternal(xs, ys); }
    case _ =>
  }

  lemma {:induction false} MembersNotInternal(cs: seq<Member>, gs: seq<Member>)
    ensures MismatchMembers(cs, gs) != Some(InternalError)
    decreases cs
  {
    if cs != [] {
      if HasKey(gs, cs[0].key) {
        MismatchIsNotInternal(cs[0].value, Get(gs, cs[0].key));
      }
      MembersNotInternal(cs[1..], gs);
    }
  }

  lemma {:induction false} ElemsNotInternal(xs: seq<Json>, ys: seq<Json>)
    requires |xs| == |ys|
    ensures MismatchElems(xs, ys) != Some(InternalError)
    decreases xs
  {
    if xs != [] {
      MismatchIsNotInternal(xs[0], ys[0]);
      ElemsNotInternal(xs[1..], ys[1..]);
    }
  }

  /** A sign makes a type: the instance -3 does not fit the base 5. */
  lemma SignMakesType()
    ensures Mismatch(Integer(-3), Unsigned(5)) == Some(TypeNotSame) && !Conforms(Integer(-3), Unsigned(5))
  {
  }

  // ---- The meaning of the result, path by path ----------------------------------------------

  /** The members under a key of a conforming instance. */
  lemma ConformingMember(cs: seq<Member>, gs: seq<Member>, k: Text)
    requires Conforms(Object(cs), Object(gs)) && HasKey(cs, k)
    ensures HasKey(gs, k) && Conforms(Get(cs, k), Get(gs, k))
    ensures Get(cs, k) < Object(cs)
  {
    var i := Find(cs, k);
    assert Conforms(cs[i].value, Get(gs, cs[i].key));
  }

  datatype Step = Key(key: Text) | Index(index: nat)

  function Lookup(v: Json, path: seq<Step>): Option<Json> {
    if path == [] then Some(v)
    else
      match (v, path[0])
      case (Object(ms), Key(k)) => if HasKey(ms, k) then Lookup(Get(ms, k), path[1..]) else None
      case (Array(xs), Index(i)) => if i < |xs| then Lookup(xs[i], path[1..]) else None
      case _ => None
  }

  /** What a node looks like without the values below it. */
  datatype Shape = ObjectShape(keys: seq<Text>) | ArrayShape(length: nat) | PrimitiveShape(kind: Kind)

  function ShapeOf(v: Json): Shape {
    match v
    case Object(ms) => ObjectShape(seq(|ms|, i requires 0 <= i < |ms| => ms[i].key))
    case Array(xs) => ArrayShape(|xs|)
    case _ => PrimitiveShape(v.Kind())
  }

  /**
   * The result has the base's paths and the base's shape at each of them; below a path of the
   * instance it is the merge of what both have there, so an instance's primitive is taken over;
   * at every other path it is the base's value.
   */
  lemma {:induction false} OverlayMeaning(c: Json, g: Json, path: seq<Step>)
    requires Conforms(c, g)
    ensures Lookup(c, path).Some? ==> Lookup(g, path).Some?
    ensures Lookup(Merge(c, g), path).Some? <==> Lookup(g, path).Some?
    ensures Lookup(g, path).Some? ==> ShapeOf(Lookup(Merge(c, g), path).value) == ShapeOf(Lookup(g, path).value)
    ensures Lookup(c, path).Some? && !Lookup(c, path).value.Structured() ==>
      Lookup(Merge(c, g), path) == Lookup(c, path)
    ensures Lookup(c, path).None? ==> Lookup(Merge(c, g), path) == Lookup(g, path)
  {
    if path == [] {
      ShapeKept(c, g);
    } else {
      hide ShapeOf;
      if c.Object? && path[0].Key? {
        var k := path[0].key;
        MergedObject(c, g);
        hide Merge, MergeMembers;
        KeysKept(c.members, g.members, k);
        if HasKey(c.members, k) {
          ConformingMember(c.members, g.members, k);
          OverlayMeaning(Get(c.members, k), Get(g.members, k), path[1..]);
        }
      } else if c.Array? && path[0].Index? && path[0].index < |c.elems| {
        SameKinds(c, g);
        MergeArrays(c.elems, g.elems);
        hide Merge, MergeElems;
        OverlayMeaning(c.elems[path[0].index], g.elems[path[0].index], path[1..]);
      }
    }
  }

  lemma MergedObject(c: Json, g: Json)
    requires Conforms(c, g) && c.Object?
    ensures g.Object? && Merge(c, g) == Object(MergeMembers(c.members, g.members))
  {
  }

  lemma ShapeKept(c: Json, g: Json)
    requires Conforms(c, g)
    ensures ShapeOf(Merge(c, g)) == ShapeOf(g)
  {
    match (c, g)
    case (Object(cs), Object(gs)) =>
      assert ShapeOf(Merge(c, g)).keys == ShapeOf(g).keys;
    case (Array(xs), Array(ys)) =>
    case _ =>
  }

  // ---- Algebra -----------------------------------------------------------------------------

  lemma {:induction false} ConformsTransitive(a: Json, b: Json, c: Json)
    requires Conforms(a, b) && Conforms(b, c)
    ensures Conforms(a, c)
    decreases a
  {
    match (a, b, c)
    case (Object(ms), Object(ns), Object(os)) =>
      forall i | 0 <= i < |ms| ensures HasKey(os, ms[i].key) && Conforms(ms[i].value, Get(os, ms[i].key)) {
        ConformingMember(ns, os, ms[i].key);
        ConformsTransitive(ms[i].value, Get(ns, ms[i].key), Get(os, ms[i].key));
      }
    case (Array(xs), Array(ys), Array(zs)) =>
      forall i | 0 <= i < |xs| ensures Conforms(xs[i], zs[i]) {
        ConformsTransitive(xs[i], ys[i], zs[i]);
      }
    case _ =>
  }

  /** A value conforms to itself, and merging it into itself changes nothing. */
  lemma {:induction false} MergeSelf(g: Json)
    requires WellFormed(g)
    ensures Conforms(g, g) && Merge(g, g) == g
    decreases g
  {
    match g
    case Object(gs) =>
      forall i | 0 <= i < |gs|
        ensures Find(gs, gs[i].key) == i
        ensures Conforms(gs[i].value, gs[i].value) && Merge(gs[i].value, gs[i].value) == gs[i].value
      {
        assert gs[i] in gs;
        FindUnique(gs, i);
        MergeSelf(gs[i].value);
      }
      assert MergeMembers(gs, gs) == gs;
    case Array(xs) =>
      forall i | 0 <= i < |xs| ensures Conforms(xs[i], xs[i]) && Merge(xs[i], xs[i]) == xs[i] {
        MergeSelf(xs[i]);
      }
      assert MergeElems(xs, xs) == xs;
    case _ =>
  }

  /** The result and the base conform to each other. */
  lemma {:induction false} ResultConforms(c: Json, g: Json)
    requires WellFormed(g) && Conforms(c, g)
    ensures Conforms(Merge(c, g), g) && Conforms(g, Merge(c, g))
    decreases g
  {
    match (c, g)
    case (Object(cs), Object(gs)) =>
      var ms := MergeMembers(cs, gs);
      forall i | 0 <= i < |gs|
        ensures HasKey(gs, ms[i].key) && Conforms(ms[i].value, Get(gs, ms[i].key))
        ensures HasKey(ms, gs[i].key) && Conforms(gs[i].value, Get(ms, gs[i].key))
      {
        var k := gs[i].key;
        assert gs[i] in gs;
        FindUnique(gs, i);
        SameKeys(ms, gs, k);
        if HasKey(cs, k) {
          ConformingMember(cs, gs, k);
          ResultConforms(Get(cs, k), gs[i].value);
        } else {
          MergeSelf(gs[i].value);
        }
      }
    case (Array(xs), Array(ys)) =>
      forall i | 0 <= i < |xs| ensures Conforms(Merge(xs[i], ys[i]), ys[i]) && Conforms(ys[i], Merge(xs[i], ys[i])) {
        ResultConforms(xs[i], ys[i]);
      }
    case _ =>
  }

  lemma {:induction false} MergeAssociative(c2: Json, c1: Json, g: Json)
    requires WellFormed(g) && Conforms(c1, g) && Conforms(c2, c1)
    ensures Merge(c2, Merge(c1, g)) == Merge(Merge(c2, c1), g)
    decreases g
  {
    SameKinds(c1, g);
    SameKinds(c2, c1);
    if c2.Object? {
      var os, cs, gs := c2.members, c1.members, g.members;
      assert c2 == Object(os) && c1 == Object(cs) && g == Object(gs);
      hide Merge, Conforms, WellFormed;
      AssociativeMembers(os, cs, gs);
      MergeObjects(os, cs);
      MergeObjects(cs, gs);
      MergeObjects(os, MergeMembers(cs, gs));
      MergeObjects(MergeMembers(os, cs), gs);
    } else if c2.Array? {
      var xs, ys, zs := c2.elems, c1.elems, g.elems;
      assert c2 == Array(xs) && c1 == Array(ys) && g == Array(zs);
      hide Merge, Conforms, WellFormed;
      AssociativeElems(xs, ys, zs);
      MergeArrays(xs, ys);
      MergeArrays(ys, zs);
      MergeArrays(xs, MergeElems(ys, zs));
      MergeArrays(MergeElems(xs, ys), zs);
    } else {
      hide Conforms;
    }
  }

  lemma SameKinds(c: Json, g: Json)
    requires Conforms(c, g)
    ensures c.Object? == g.Object? && c.Array? == g.Array? && (c.Array? ==> |c.elems| == |g.elems|)
  {
  }

  lemma MergeObjects(cs: seq<Member>, gs: seq<Member>)
    ensures Merge(Object(cs), Object(gs)) == Object(MergeMembers(cs, gs))
  {
  }

  lemma MergeArrays(xs: seq<Json>, ys: seq<Json>)
    requires |xs| == |ys|
    ensures Merge(Array(xs), Array(ys)) == Array(MergeElems(xs, ys))
  {
  }

  lemma {:induction false} AssociativeElems(xs: seq<Json>, ys: seq<Json>, zs: seq<Json>)
    requires WellFormed(Array(zs)) && Conforms(Array(ys), Array(zs)) && Conforms(Array(xs), Array(ys))
    ensures MergeElems(xs, MergeElems(ys, zs)) == MergeElems(MergeElems(xs, ys), zs)
    decreases zs
  {
    hide Merge;
    forall i | 0 <= i < |zs| ensures Merge(xs[i], Merge(ys[i], zs[i])) == Merge(Merge(xs[i], ys[i]), zs[i]) {
      MergeAssociative(xs[i], ys[i], zs[i]);
    }
    assert MergeElems(xs, MergeElems(ys, zs)) == MergeElems(MergeElems(xs, ys), zs);
  }

  lemma {:induction false} AssociativeMembers(os: seq<Member>, cs: seq<Member>, gs: seq<Member>)
    requires WellFormed(Object(gs)) && Conforms(Object(cs), Object(gs)) && Conforms(Object(os), Object(cs))
    ensures MergeMembers(os, MergeMembers(cs, gs)) == MergeMembers(MergeMembers(os, cs), gs)
    decreases gs
  {
    hide Merge, Conforms, HasKey, Get, Find;
    var left, right := MergeMembers(os, MergeMembers(cs, gs)), MergeMembers(MergeMembers(os, cs), gs);
    forall i | 0 <= i < |gs| ensures left[i] == right[i] {
      var k := gs[i].key;
      KeysKept(os, cs, k);
      FindUnique(gs, i);
      GetAt(gs, i);
      if HasKey(os, k) {
        ConformingMember(os, cs, k);
        ConformingMember(cs, gs, k);
        assert gs[i] in gs;
        MergeAssociative(Get(os, k), Get(cs, k), gs[i].value);
      }
    }
    assert left == right;
  }

  lemma GetAt(ms: seq<Member>, i: nat)
    requires i < |ms| && Find(ms, ms[i].key) == i
    ensures HasKey(ms, ms[i].key) && Get(ms, ms[i].key) == ms[i].value
  {
  }

  /**
   * Overlays compose: two instances can be applied one after the other, or first merged with
   * each other; both ways succeed and give the same configuration.
   */
  lemma OverlaysCompose(c2: Json, c1: Json, g: Json)
    requires WellFormed(c1) && WellFormed(g)
    requires Conforms(c1, g) && Conforms(c2, c1)
    ensures Conforms(c2, Merge(c1, g)) && Conforms(Merge(c2, c1), g)
    ensures Merge(c2, Merge(c1, g)) == Merge(Merge(c2, c1), g)
  {
    ResultConforms(c1, g);
    ResultConforms(c2, c1);
    ConformsTransitive(c2, c1, g);
    ConformsTransitive(c2, g, Merge(c1, g));
    ConformsTransitive(Merge(c2, c1), c1, g);
    MergeAssociative(c2, c1, g);
  }

  /** Merging the same instance a second time is accepted and changes nothing. */
  lemma MergeTwice(c: Json, g: Json)
    requires WellFormed(c) && WellFormed(g) && Conforms(c, g)
    ensures Conforms(c, Merge(c, g)) && Merge(c, Merge(c, g)) == Merge(c, g)
  {
    MergeSelf(c);
    OverlaysCompose(c, c, g);
  }
}
