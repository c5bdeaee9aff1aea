/** JSON values as `basic_json` stores them. */
module JsonValue {
  import opened Bytes

  /** The type tags of a stored value, except `discarded`. */
  datatype Kind = KNull | KObject | KArray | KString | KBoolean | KInteger | KUnsigned | KFloat

  /**
   * `Float` keeps the text of the number token it was read from; its conversion to
   * a double is not modelled.  An object is the content of a `std::map`: its members
   * in the order of their keys.
   */
  datatype Json =
    | Null
    | Boolean(b: bool)
    | Integer(i: int64)
    | Unsigned(u: uint64)
    | Float(text: Text)
    | String(s: Text)
    | Array(elems: seq<Json>)
    | Object(members: seq<Member>)
  {
    function Kind(): Kind {
      match this
      case Null => KNull
      case Boolean(_) => KBoolean
      case Integer(_) => KInteger
      case Unsigned(_) => KUnsigned
      case Float(_) => KFloat
      case String(_) => KString
      case Array(_) => KArray
      case Object(_) => KObject
    }

    predicate Structured() {
      Array? || Object?
    }
  }

  datatype Member = Member(key: Text, value: Json)

  /** Keys are distinct and ascending: the invariant of a `std::map`. */
  predicate Sorted(ms: seq<Member>) {
    forall i, j :: 0 <= i < j < |ms| ==> TextLess(ms[i].key, ms[j].key)
  }

  /** Every object inside `v` is a map. */
  predicate WellFormed(v: Json) {
    match v
    case Array(xs) => forall x | x in xs :: WellFormed(x)
    case Object(ms) => Sorted(ms) && forall m | m in ms :: WellFormed(m.value)
    case _ => true
  }

  predicate FloatFree(v: Json) {
    match v
    case Float(_) => false
    case Array(xs) => forall x | x in xs :: FloatFree(x)
    case Object(ms) => forall m | m in ms :: FloatFree(m.value)
    case _ => true
  }

  predicate HasKey(ms: seq<Member>, key: Text) {
    exists i :: 0 <= i < |ms| && ms[i].key == key
  }

  /** The position of `key`, or the number of members: `std::map::find`. */
  function Find(ms: seq<Member>, key: Text): (i: nat)
    ensures i <= |ms|
    ensures i < |ms| <==> HasKey(ms, key)
    ensures i < |ms| ==> ms[i].key == key
    ensures forall j :: 0 <= j < i ==> ms[j].key != key
  {
    if ms == [] then 0
    else if ms[0].key == key then 0
    else
      var k := Find(ms[1..], key);
      assert forall j :: 0 < j < |ms| ==> ms[j] == ms[1..][j - 1];
      k + 1
  }

  function Get(ms: seq<Member>, key: Text): (v: Json)
    requires HasKey(ms, key)
  {
    ms[Find(ms, key)].value
  }

  /** `object[key] = value`: overwrite the member, or insert it at its place. */
  function Insert(ms: seq<Member>, key: Text, value: Json): seq<Member> {
    if ms == [] then [Member(key, value)]
    else if ms[0].key == key then [Member(key, value)] + ms[1..]
    else if TextLess(key, ms[0].key) then [Member(key, value)] + ms
    else [ms[0]] + Insert(ms[1..], key, value)
  }

  /** The keys of a map are distinct, so `Find` is the only position of a key. */
  lemma FindUnique(ms: seq<Member>, i: nat)
    requires Sorted(ms) && i < |ms|
    ensures Find(ms, ms[i].key) == i
  {
    var k := Find(ms, ms[i].key);
    if k < i {
      TextLessIrreflexive(ms[i].key);
    }
  }

  /** What `Insert` promises about the map it returns. */
  ghost predicate Inserted(ms: seq<Member>, key: Text, value: Json, r: seq<Member>) {
    && Sorted(r)
    && HasKey(r, key) && Get(r, key) == value
    && (forall k :: k != key ==> HasKey(r, k) == HasKey(ms, k))
    && (forall k :: k != key && HasKey(ms, k) ==> Get(r, k) == Get(ms, k))
  }

  /** Insertion keeps the map invariant, defines the key and leaves every other key alone. */
  lemma {:induction false} InsertMeaning(ms: seq<Member>, key: Text, value: Json)
    requires Sorted(ms)
    ensures Inserted(ms, key, value, Insert(ms, key, value))
  {
    if ms == [] || ms[0].key == key || TextLess(key, ms[0].key) {
      InsertFront(ms, key, value);
    } else {
      TextLessTotal(key, ms[0].key);
      InsertMeaning(ms[1..], key, value);
      InsertBack(ms, key, value, Insert(ms[1..], key, value));
    }
  }

  lemma InsertFront(ms: seq<Member>, key: Text, value: Json)
    requires Sorted(ms)
    requires ms == [] || ms[0].key == key || TextLess(key, ms[0].key)
    ensures Inserted(ms, key, value, Insert(ms, key, value))
  {
    var r := Insert(ms, key, value);
    var rest := if ms != [] && ms[0].key == key then ms[1..] else ms;
    assert r == [Member(key, value)] + rest;
    forall j | 0 <= j < |rest| ensures TextLess(key, rest[j].key) {
      if ms[0].key != key && j > 0 {
        TextLessTransitive(key, ms[0].key, rest[j].key);
      }
    }
    assert r[0].key == key;
    forall k | k != key
      ensures HasKey(r, k) == HasKey(ms, k)
      ensures HasKey(ms, k) ==> Get(r, k) == Get(ms, k)
    {
      ShiftKeys(r, rest, k);
      if ms != [] && ms[0].key == key {
        ShiftKeys(ms, rest, k);
      }
    }
  }

  /** Looking up a key that is not the first one means looking it up in the rest. */
  lemma ShiftKeys(ms: seq<Member>, rest: seq<Member>, k: Text)
    requires ms != [] && rest == ms[1..] && ms[0].key != k
    ensures HasKey(ms, k) == HasKey(rest, k)
    ensures HasKey(ms, k) ==> Get(ms, k) == Get(rest, k)
  {
    assert Find(ms, k) == Find(rest, k) + 1;
  }

  lemma InsertBack(ms: seq<Member>, key: Text, value: Json, tail: seq<Member>)
    requires Sorted(ms) && ms != [] && TextLess(ms[0].key, key)
    requires Inserted(ms[1..], key, value, tail)
    ensures Inserted(ms, key, value, [ms[0]] + tail)
  {
    var r := [ms[0]] + tail;
    TextLessIrreflexive(key);
    InsertBackSorted(ms, key, tail);
    ShiftKeys(r, tail, key);
    forall k | k != key
      ensures HasKey(r, k) == HasKey(ms, k)
      ensures HasKey(ms, k) ==> Get(r, k) == Get(ms, k)
    {
      if k != ms[0].key {
        ShiftKeys(r, tail, k);
        ShiftKeys(ms, ms[1..], k);
      } else {
        assert r[0].key == k;
      }
    }
  }

  lemma InsertBackSorted(ms: seq<Member>, key: Text, tail: seq<Member>)
    requires Sorted(ms) && ms != [] && TextLess(ms[0].key, key)
    requires Sorted(tail)
    requires forall k :: k != key ==> HasKey(tail, k) == HasKey(ms[1..], k)
    ensures Sorted([ms[0]] + tail)
  {
    forall j | 0 <= j < |tail| ensures TextLess(ms[0].key, tail[j].key) {
      if tail[j].key != key {
        assert HasKey(tail, tail[j].key);
        var i := Find(ms[1..], tail[j].key);
        assert ms[1..][i] == ms[i + 1];
      }
    }
  }

  /** A key greater than all others goes to the end. */
  lemma {:induction false} InsertLast(ms: seq<Member>, key: Text, value: Json)
    requires forall i :: 0 <= i < |ms| ==> TextLess(ms[i].key, key)
    ensures Insert(ms, key, value) == ms + [Member(key, value)]
  {
    if ms != [] {
      TextLessAsymmetric(ms[0].key, key);
      TextLessIrreflexive(key);
      InsertLast(ms[1..], key, value);
    }
  }
}
