/** cJSON_Compare, case sensitive, against the meaning of a tree: objects as maps. */
module JsonCompare {
  import opened Bytes
  import opened JsonValue

  // ---- the comparison ----

  function Abs(x: real): real { if x < 0.0 then -x else x }

  const DBL_EPSILON: real := 1.0 / 4503599627370496.0

  /** compare_double */
  predicate CompareDouble(a: real, b: real) {
    var maxVal := if Abs(a) > Abs(b) then Abs(a) else Abs(b);
    Abs(a - b) <= maxVal * DBL_EPSILON
  }

  /** 2^52 times `d` is not above all of the four signed numbers. */
  predicate Near(d: real, a: real, b: real) {
    var far := 4503599627370496.0 * d;
    far <= a || far <= -a || far <= b || far <= -b
  }

  /** Two numbers count as equal when that holds of both their differences. */
  lemma CloseNumbers(a: real, b: real)
    ensures CompareDouble(a, b) <==> Near(a - b, a, b) && Near(b - a, a, b)
  {
    var max := if Abs(a) > Abs(b) then Abs(a) else Abs(b);
    assert max * DBL_EPSILON == max / 4503599627370496.0;
  }

  /** get_object_item: the first member with that key. */
  function Lookup(ms: seq<Member>, key: Text): Option<Value> {
    if ms == [] then None
    else if ms[0].key == key then Some(ms[0].value)
    else Lookup(ms[1..], key)
  }

  function Size(v: Value): (n: nat)
    ensures n > 0
  {
    match v
    case Array(items) => 1 + SizeOfItems(items)
    case Object(ms) => 1 + SizeOfMembers(ms)
    case _ => 1
  }

  function SizeOfItems(items: seq<Value>): nat {
    if items == [] then 0 else Size(items[0]) + SizeOfItems(items[1..])
  }

  function SizeOfMembers(ms: seq<Member>): nat {
    if ms == [] then 0 else Size(ms[0].value) + SizeOfMembers(ms[1..])
  }

  lemma {:induction false} LookupSmaller(ms: seq<Member>, key: Text)
    ensures Lookup(ms, key).Some? ==> Size(Lookup(ms, key).value) <= SizeOfMembers(ms)
  {
    if ms != [] { LookupSmaller(ms[1..], key); }
  }

  predicate Compare(a: Value, b: Value)
    decreases Size(a) + Size(b), 0
  {
    match (a, b)
    case (Null, Null) => true
    case (Bool(x), Bool(y)) => x == y
    case (Number(x), Number(y)) => CompareDouble(x, y)
    case (String(x), String(y)) => x == y
    case (Array(xs), Array(ys)) => CompareItems(xs, ys)
    case (Object(ms), Object(ns)) => Covered(ms, ns) && Covered(ns, ms)
    case _ => false
  }

  predicate CompareItems(xs: seq<Value>, ys: seq<Value>)
    decreases SizeOfItems(xs) + SizeOfItems(ys), |xs|
  {
    if xs == [] || ys == [] then xs == ys
    else Compare(xs[0], ys[0]) && CompareItems(xs[1..], ys[1..])
  }

  /** One of the two member loops: every member of `ms` has its like in `ns`. */
  predicate Covered(ms: seq<Member>, ns: seq<Member>)
    decreases SizeOfMembers(ms) + SizeOfMembers(ns), |ms|
  {
    ms == []
    || (LookupSmaller(ns, ms[0].key);
        match Lookup(ns, ms[0].key)
        case None => false
        case Some(v) => Compare(ms[0].value, v) && Covered(ms[1..], ns))
  }

  // ---- the meaning ----

  datatype Meaning =
    | MNull
    | MBool(b: bool)
    | MNumber(d: real)
    | MString(s: Text)
    | MArray(items: seq<Meaning>)
    | MObject(members: map<Text, Meaning>)

  ghost function MeaningOf(v: Value): Meaning {
    match v
    case Null => MNull
    case Bool(b) => MBool(b)
    case Number(d) => MNumber(d)
    case String(s) => MString(s)
    case Array(items) => MArray(MeaningOfItems(items))
    case Object(ms) => MObject(MeaningOfMembers(ms))
  }

  ghost function MeaningOfItems(items: seq<Value>): seq<Meaning> {
    if items == [] then [] else [MeaningOf(items[0])] + MeaningOfItems(items[1..])
  }

  ghost function MeaningOfMembers(ms: seq<Member>): map<Text, Meaning> {
    if ms == [] then map[] else MeaningOfMembers(ms[1..])[ms[0].key := MeaningOf(ms[0].value)]
  }

  /** Two members with one key mean the same. */
  ghost predicate Agree(m: Member, n: Member) {
    m.key == n.key ==> MeaningOf(m.value) == MeaningOf(n.value)
  }

  /** No object, at any depth, has a key twice with different meanings. */
  ghost predicate Consistent(v: Value) {
    match v
    case Array(items) => forall i :: 0 <= i < |items| ==> Consistent(items[i])
    case Object(ms) =>
      && (forall i :: 0 <= i < |ms| ==> Consistent(ms[i].value))
      && (forall i, j :: 0 <= i < |ms| && 0 <= j < |ms| ==> Agree(ms[i], ms[j]))
    case _ => true
  }

  // ---- comparison decides equality of meaning ----

  lemma CompareInts(a: real, b: real)
    requires IsInt(a) && IsInt(b)
    ensures CompareDouble(a, b) <==> a == b
  {
    var m, n := ValueInt(a), ValueInt(b);
    if m != n {
      assert Abs(a - b) >= 1.0;
      assert Abs(a) <= 2147483648.0 && Abs(b) <= 2147483648.0;
    }
  }

  lemma {:induction false} MeaningOfLookup(ms: seq<Member>, key: Text)
    ensures key in MeaningOfMembers(ms) <==> Lookup(ms, key).Some?
    ensures Lookup(ms, key).Some? ==> MeaningOfMembers(ms)[key] == MeaningOf(Lookup(ms, key).value)
  {
    if ms != [] && ms[0].key != key { MeaningOfLookup(ms[1..], key); }
  }

  /** get_object_item gives the first member with the key. */
  lemma {:induction false} LookupMember(ms: seq<Member>, key: Text) returns (i: nat)
    requires Lookup(ms, key).Some?
    ensures i < |ms| && ms[i].key == key && Lookup(ms, key) == Some(ms[i].value)
    ensures forall k :: 0 <= k < i ==> ms[k].key != key
  {
    if ms[0].key == key { i := 0; }
    else { i := LookupMember(ms[1..], key); i := i + 1; }
  }

  lemma {:induction false} LookupFinds(ms: seq<Member>, i: nat)
    requires i < |ms|
    ensures Lookup(ms, ms[i].key).Some?
  {
    if i > 0 { LookupFinds(ms[1..], i - 1); }
  }

  /** Trees with integer numbers: the comparison is true exactly for consistent trees that mean the same. */
  lemma {:induction false} CompareDecides(a: Value, b: Value)
    requires IntNumbers(a) && IntNumbers(b)
    ensures Compare(a, b) <==> MeaningOf(a) == MeaningOf(b) && Consistent(a) && Consistent(b)
    decreases Size(a) + Size(b), 0
  {
    match (a, b)
    case (Number(x), Number(y)) => CompareInts(x, y);
    case (Array(xs), Array(ys)) => CompareItemsDecides(xs, ys);
    case (Object(ms), Object(ns)) =>
      CoveredDecides(ms, ns);
      CoveredDecides(ns, ms);
      hide Covered, MeaningOfMembers, MatchedIn, Agree;
      if AllMatched(ms, ns) && AllMatched(ns, ms) {
        MatchedMeans(ms, ns);
        MatchedMeans(ns, ms);
        SameMap(MeaningOfMembers(ms), MeaningOfMembers(ns));
      }
      if MeaningOfMembers(ms) == MeaningOfMembers(ns) && Consistent(a) && Consistent(b) {
        MeansMatched(ms, ns);
        MeansMatched(ns, ms);
      }
    case _ =>
  }

  lemma {:induction false} CompareItemsDecides(xs: seq<Value>, ys: seq<Value>)
    requires IntNumbers(Array(xs)) && IntNumbers(Array(ys))
    ensures CompareItems(xs, ys) <==>
            MeaningOfItems(xs) == MeaningOfItems(ys) && Consistent(Array(xs)) && Consistent(Array(ys))
    decreases SizeOfItems(xs) + SizeOfItems(ys), |xs|
  {
    if xs != [] && ys != [] {
      CompareDecides(xs[0], ys[0]);
      CompareItemsDecides(xs[1..], ys[1..]);
      ConsistentItems(xs);
      ConsistentItems(ys);
      var p, q := MeaningOfItems(xs), MeaningOfItems(ys);
      assert p[1..] == MeaningOfItems(xs[1..]) && q[1..] == MeaningOfItems(ys[1..]);
      hide Compare, MeaningOf, Consistent;
      assert p == q <==> p[0] == q[0] && p[1..] == q[1..] by {
        assert p == [p[0]] + p[1..] && q == [q[0]] + q[1..];
      }
    }
  }

  lemma ConsistentItems(xs: seq<Value>)
    requires xs != []
    ensures Consistent(Array(xs)) <==> Consistent(xs[0]) && Consistent(Array(xs[1..]))
  {
    if Consistent(xs[0]) && Consistent(Array(xs[1..])) {
      forall i | 0 <= i < |xs| ensures Consistent(xs[i]) { if i > 0 { assert xs[i] == xs[1..][i - 1]; } }
    }
  }

  /** The member `m` of one object has its like among `ns`. */
  ghost predicate MatchedIn(m: Member, ns: seq<Member>) {
    && Lookup(ns, m.key).Some? && MeaningOf(m.value) == MeaningOf(Lookup(ns, m.key).value)
    && Consistent(m.value) && Consistent(Lookup(ns, m.key).value)
  }

  ghost predicate AllMatched(ms: seq<Member>, ns: seq<Member>) {
    forall i :: 0 <= i < |ms| ==> MatchedIn(ms[i], ns)
  }

  lemma {:induction false} CoveredDecides(ms: seq<Member>, ns: seq<Member>)
    requires IntNumbers(Object(ns)) && IntNumbers(Object(ms))
    ensures Covered(ms, ns) <==> AllMatched(ms, ns)
    decreases SizeOfMembers(ms) + SizeOfMembers(ns), |ms|
  {
    if ms != [] {
      LookupSmaller(ns, ms[0].key);
      if Lookup(ns, ms[0].key).Some? {
        var j := LookupMember(ns, ms[0].key);
        CompareDecides(ms[0].value, ns[j].value);
        CoveredDecides(ms[1..], ns);
        assert forall i :: 1 <= i < |ms| ==> ms[i] == ms[1..][i - 1];
        hide Compare, MeaningOf, Lookup, Consistent;
      } else {
        assert !MatchedIn(ms[0], ns);
      }
    }
  }

  /** Matched members: no more entries than the other side has, all consistent. */
  lemma MatchedMeans(ms: seq<Member>, ns: seq<Member>)
    requires AllMatched(ms, ns)
    ensures Within(MeaningOfMembers(ms), MeaningOfMembers(ns)) && Consistent(Object(ms))
  {
    hide MeaningOf, MeaningOfMembers, Lookup;
    forall k | k in MeaningOfMembers(ms)
      ensures k in MeaningOfMembers(ns) && MeaningOfMembers(ms)[k] == MeaningOfMembers(ns)[k]
    {
      MeaningOfLookup(ms, k);
      MeaningOfLookup(ns, k);
      var i := LookupMember(ms, k);
      assert MatchedIn(ms[i], ns);
    }
    forall i | 0 <= i < |ms| ensures Consistent(ms[i].value) { assert MatchedIn(ms[i], ns); }
    forall i, j | 0 <= i < |ms| && 0 <= j < |ms| ensures Agree(ms[i], ms[j]) {
      assert MatchedIn(ms[i], ns) && MatchedIn(ms[j], ns);
    }
  }

  lemma MeansMatched(ms: seq<Member>, ns: seq<Member>)
    requires MeaningOfMembers(ms) == MeaningOfMembers(ns) && Consistent(Object(ms)) && Consistent(Object(ns))
    ensures AllMatched(ms, ns)
  {
    hide MeaningOf, MeaningOfMembers, Lookup;
    forall i | 0 <= i < |ms| ensures MatchedIn(ms[i], ns) {
      var key := ms[i].key;
      LookupFinds(ms, i);
      MeaningOfLookup(ms, key);
      MeaningOfLookup(ns, key);
      var j := LookupMember(ms, key);
      assert Agree(ms[i], ms[j]);
      var k := LookupMember(ns, key);
    }
  }

  /** Every entry of `m` is an entry of `n`. */
  ghost predicate Within(m: map<Text, Meaning>, n: map<Text, Meaning>) {
    forall k :: k in m ==> k in n && m[k] == n[k]
  }

  lemma SameMap(m: map<Text, Meaning>, n: map<Text, Meaning>)
    requires Within(m, n) && Within(n, m)
    ensures m == n
  {
  }

  /** On integer trees the comparison is symmetric and transitive, and a tree compares equal to its copy
      exactly when it is consistent. */
  lemma CompareIsEquivalence(a: Value, b: Value, c: Value)
    requires IntNumbers(a) && IntNumbers(b) && IntNumbers(c)
    ensures Compare(a, a) <==> Consistent(a)
    ensures Compare(a, b) ==> Compare(b, a)
    ensures Compare(a, b) && Compare(b, c) ==> Compare(a, c)
  {
    hide Compare, MeaningOf, Consistent;
    CompareDecides(a, a);
    CompareDecides(a, b);
    CompareDecides(b, a);
    CompareDecides(b, c);
    CompareDecides(a, c);
  }

  // ---- any numbers ----

  /** The comparison does not depend on the order of its arguments, whatever the numbers. */
  lemma {:induction false} CompareIsSymmetric(a: Value, b: Value)
    ensures Compare(a, b) == Compare(b, a)
    decreases Size(a) + Size(b), 0
  {
    match (a, b)
    case (Array(xs), Array(ys)) => ItemsSymmetric(xs, ys);
    case _ =>
  }

  lemma {:induction false} ItemsSymmetric(xs: seq<Value>, ys: seq<Value>)
    ensures CompareItems(xs, ys) == CompareItems(ys, xs)
    decreases SizeOfItems(xs) + SizeOfItems(ys), |xs|
  {
    if xs != [] && ys != [] {
      CompareIsSymmetric(xs[0], ys[0]);
      ItemsSymmetric(xs[1..], ys[1..]);
      hide Compare;
    }
  }

  /** Keys without repetition are consistent. */
  ghost predicate KeysDistinct(v: Value) {
    match v
    case Array(items) => forall i :: 0 <= i < |items| ==> KeysDistinct(items[i])
    case Object(ms) =>
      && (forall i, j :: 0 <= i < j < |ms| ==> ms[i].key != ms[j].key)
      && (forall i :: 0 <= i < |ms| ==> KeysDistinct(ms[i].value))
    case _ => true
  }

  lemma {:induction false} DistinctKeysAreConsistent(v: Value)
    requires KeysDistinct(v)
    ensures Consistent(v)
  {
    match v
    case Array(items) =>
      forall i | 0 <= i < |items| ensures Consistent(items[i]) { DistinctKeysAreConsistent(items[i]); }
    case Object(ms) =>
      forall i | 0 <= i < |ms| ensures Consistent(ms[i].value) { DistinctKeysAreConsistent(ms[i].value); }
      forall i, j | 0 <= i < |ms| && 0 <= j < |ms| ensures Agree(ms[i], ms[j]) {
        if i < j { assert ms[i].key != ms[j].key; }
        if j < i { assert ms[j].key != ms[i].key; }
      }
    case _ =>
  }

  /** An object that repeats a key with another meaning does not compare equal to its own copy. */
  lemma RepeatedKeyBreaksCompare()
    ensures var v := Object([Member([107], Null), Member([107], Bool(true))]); IntNumbers(v) && !Compare(v, v)
  {
    var m, n := Member([107], Null), Member([107], Bool(true));
    var v := Object([m, n]);
    assert !Agree(v.members[0], v.members[1]);
    CompareIsEquivalence(v, v, v);
  }
}
