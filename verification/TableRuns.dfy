/** Whole runs of the hash table: every sequence of get, put, delete and clear agrees with a finite map. */
module TableRuns {
  import opened KHashFlags
  import opened KHash

  /** The operations as the probe uses them: a bucket is looked up or made, then its value is read or set. */
  datatype Op<K, V> = Get(key: K) | Put(key: K, val: V) | Delete(key: K) | Clear

  /** What the caller learns: that the key was absent, its value, or just that the operation was carried out. */
  datatype Answer<V> = Absent | Present(val: V) | Done

  datatype Run<K, V> = Run(contents: map<K, V>, answers: seq<Answer<V>>)

  function MapAfter<K(==), V>(m: map<K, V>, op: Op<K, V>): map<K, V> {
    match op
    case Get(_) => m
    case Put(k, v) => m[k := v]
    case Delete(k) => m - {k}
    case Clear => map[]
  }

  function AnswerOf<K(==), V>(m: map<K, V>, op: Op<K, V>): Answer<V> {
    match op
    case Get(k) => if k in m then Present(m[k]) else Absent
    case Put(k, _) => if k in m then Done else Absent
    case Delete(k) => if k in m then Done else Absent
    case Clear => Done
  }

  /** The finite map and the answers after a sequence of operations. */
  function MapRun<K(==), V>(m: map<K, V>, ops: seq<Op<K, V>>): Run<K, V> {
    if ops == [] then Run(m, [])
    else
      var r := MapRun(m, ops[..|ops| - 1]);
      var op := ops[|ops| - 1];
      Run(MapAfter(r.contents, op), r.answers + [AnswerOf(r.contents, op)])
  }

  /** Where the keys are after an operation; no value and no dead bucket takes part. */
  ghost function PlaceAfter<K, V>(hash: K -> nat, p: Placement<K>, op: Op<K, V>): Placement<K> {
    match op
    case Get(_) => p
    case Put(k, _) => PutIn(hash, p, k)
    case Delete(k) => DeletedFrom(p, k)
    case Clear => Placement(Empties(|p.flags|), map[])
  }

  ghost function PlaceRun<K, V>(hash: K -> nat, p: Placement<K>, ops: seq<Op<K, V>>): Placement<K> {
    if ops == [] then p else PlaceAfter(hash, PlaceRun(hash, p, ops[..|ops| - 1]), ops[|ops| - 1])
  }

  /** One operation on the table. */
  method Apply<K(==, 0), V(0)>(t: HashTable<K, V>, op: Op<K, V>) returns (a: Answer<V>)
    requires t.Valid() && t.nBuckets <= MAX_BUCKETS / 2 && t.size < MANY_KEYS
    modifies t.Repr()
    ensures t.Valid() && t.nBuckets <= MAX_BUCKETS / 2 && t.size <= old(t.size) + 1
    ensures forall o :: o in t.Repr() ==> o in old(t.Repr()) || fresh(o)
    ensures t.Contents() == MapAfter(old(t.Contents()), op)
    ensures a == AnswerOf(old(t.Contents()), op)
    ensures t.Placing() == PlaceAfter(t.hash, old(t.Placing()), op)
  {
    hide Placed, NonEmpty, Meaning, PutIn, DeletedFrom;
    match op
    case Get(key) =>
      var x := t.Get(key);
      a := if x == t.nBuckets then Absent else Present(t.vals[x]);
    case Put(key, val) =>
      a := Store(t, key, val);
    case Delete(key) =>
      a := Remove(t, key);
    case Clear =>
      t.Clear();
      a := Done;
  }

  /** kh_put, then kh_val of the bucket it returns. */
  method Store<K(==, 0), V(0)>(t: HashTable<K, V>, key: K, val: V) returns (a: Answer<V>)
    requires t.Valid() && t.nBuckets <= MAX_BUCKETS / 2 && t.size < MANY_KEYS
    modifies t.Repr()
    ensures t.Valid() && t.nBuckets <= MAX_BUCKETS / 2 && t.size <= old(t.size) + 1
    ensures forall o :: o in t.Repr() ==> o in old(t.Repr()) || fresh(o)
    ensures t.Contents() == old(t.Contents())[key := val]
    ensures a == if key in old(t.Contents()) then Done else Absent
    ensures t.Placing() == PutIn(t.hash, old(t.Placing()), key)
  {
    hide Placed, NonEmpty, Meaning, PutIn;
    ghost var m := t.Contents();
    t.KeyAt(key);
    var x, ret := t.Put(key);
    t.KeyAt(key);
    t.SetVal(x, val);
    assert t.Contents() == m[key := val];
    a := if ret == 0 then Done else Absent;
  }

  lemma RemoveAbsent<K, V>(m: map<K, V>, key: K)
    ensures key !in m ==> m - {key} == m
  {
  }

  lemma DeleteAbsent<K>(p: Placement<K>, key: K)
    ensures key !in p.at ==> DeletedFrom(p, key) == p
  {
  }

  /** kh_end is no live bucket. */
  lemma NotLivePast<K(0), V(0)>(t: HashTable<K, V>)
    requires t.Valid()
    ensures !LiveAt(t.flags[..], t.nBuckets)
  {
  }

  /** kh_get, then kh_del of the bucket found. */
  method Remove<K(==, 0), V(0)>(t: HashTable<K, V>, key: K) returns (a: Answer<V>)
    requires t.Valid()
    modifies t.Repr()
    ensures t.Valid() && t.nBuckets == old(t.nBuckets) && t.size <= old(t.size)
    ensures t.Repr() == old(t.Repr())
    ensures t.Contents() == old(t.Contents()) - {key}
    ensures a == if key in old(t.Contents()) then Done else Absent
    ensures t.Placing() == DeletedFrom(old(t.Placing()), key)
  {
    hide Placed, NonEmpty, Meaning, DeletedFrom;
    DeleteAbsent(t.Placing(), key);
    RemoveAbsent(t.Contents(), key);
    NotLivePast(t);
    var x := t.Get(key);
    a := if x == t.nBuckets then Absent else Done;
    t.Del(x);
  }

  /** A whole run, from any reachable table: the answers and the contents are those of the map. */
  method ApplyAll<K(==, 0), V(0)>(t: HashTable<K, V>, ops: seq<Op<K, V>>) returns (answers: seq<Answer<V>>)
    requires t.Valid() && t.nBuckets <= MAX_BUCKETS / 2 && t.size + |ops| <= MANY_KEYS
    modifies t.Repr()
    ensures t.Valid()
    ensures Run(t.Contents(), answers) == MapRun(old(t.Contents()), ops)
    ensures t.Placing() == PlaceRun(t.hash, old(t.Placing()), ops)
  {
    hide Placed, NonEmpty, Meaning, MapAfter, AnswerOf, PlaceAfter;
    answers := [];
    assert ops[..0] == [];
    for i := 0 to |ops|
      invariant t.Valid() && t.nBuckets <= MAX_BUCKETS / 2 && t.size <= old(t.size) + i
      invariant forall o :: o in t.Repr() ==> o in old(t.Repr()) || fresh(o)
      invariant Run(t.Contents(), answers) == MapRun(old(t.Contents()), ops[..i])
      invariant t.Placing() == PlaceRun(t.hash, old(t.Placing()), ops[..i])
    {
      assert ops[..i + 1][..i] == ops[..i];
      var a := Apply(t, ops[i]);
      answers := answers + [a];
    }
    assert ops[..|ops|] == ops;
  }

  /**
   Nothing depends on what an empty or deleted bucket holds: the flags and the live keys alone fix
   where every key is, where a new key goes, and where all keys are after any run, rehashes included.
   */
  lemma DeadBucketsDoNotMatter<K, V>(hash: K -> nat, flags: seq<Flag>, keys: seq<K>, keys': seq<K>, at: map<K, nat>,
      at': map<K, nat>, ops: seq<Op<K, V>>)
    requires Placed(hash, flags, keys, at) && Placed(hash, flags, keys', at')
    requires forall i :: LiveAt(flags, i) ==> keys[i] == keys'[i]
    ensures at == at' && PlaceRun(hash, Placement(flags, at), ops) == PlaceRun(hash, Placement(flags, at'), ops)
    ensures forall k, s: nat, s': nat ::
      |flags| > 0 && k !in at && Vacancy(flags, hash(k), s) && Vacancy(flags, hash(k), s') ==> s == s'
  {
    hide Reaches, Vacancy, PlaceRun;
    assert at.Keys == at'.Keys by {
      forall k ensures k in at <==> k in at' {
        if k in at { assert LiveAt(flags, at[k]); }
        if k in at' { assert LiveAt(flags, at'[k]); }
      }
    }
    forall k | k in at ensures at[k] == at'[k] {
      assert LiveAt(flags, at[k]) && keys'[at[k]] == k;
    }
    forall k: K, s: nat, s': nat | |flags| > 0 && Vacancy(flags, hash(k), s) && Vacancy(flags, hash(k), s')
      ensures s == s'
    {
      VacancyUnique(flags, hash(k), s, s');
    }
  }

  /** The same operation, up to the value that is put. */
  predicate SameKey<K(==), V, W>(op: Op<K, V>, op': Op<K, W>) {
    match op
    case Get(k) => op' == Op<K, W>.Get(k)
    case Put(k, _) => op'.Put? && op'.key == k
    case Delete(k) => op' == Op<K, W>.Delete(k)
    case Clear => op' == Op<K, W>.Clear
  }

  /** Runs that differ only in the values put leave the keys in the same places. */
  lemma {:induction false} ValuesDoNotMatter<K, V, W>(hash: K -> nat, p: Placement<K>, ops: seq<Op<K, V>>,
      ops': seq<Op<K, W>>)
    requires |ops| == |ops'| && forall i :: 0 <= i < |ops| ==> SameKey(ops[i], ops'[i])
    ensures PlaceRun(hash, p, ops) == PlaceRun(hash, p, ops')
  {
    if ops != [] {
      var n := |ops| - 1;
      ValuesDoNotMatter(hash, p, ops[..n], ops'[..n]);
      assert SameKey(ops[n], ops'[n]);
    }
  }
}
