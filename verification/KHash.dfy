/**
 The open-addressing hash table: power-of-two capacity, triangular probing, tombstones,
 and a rehash that works inside the key and value arrays.
 */
module KHash {
  import opened Bits
  import opened Probing
  import opened KHashFlags
  import opened RoundUps

  /** The largest table the model allocates; khint_t arithmetic cannot wrap below it. */
  const MAX_BUCKETS := 0x4000_0000

  /** A table with fewer keys than this does not grow past half of that. */
  const MANY_KEYS := MAX_BUCKETS / 8

  /** (khint_t)(n * 0.77 + 0.5) for a power of two n. */
  function UpperBound(n: nat): nat {
    (77 * n + 50) / 100
  }

  /** The bound is the whole number nearest to 0.77 n. */
  lemma NearestBound(n: nat)
    ensures -0.5 <= UpperBound(n) as real - 0.77 * n as real <= 0.5
  {
  }

  // ----- Sequences of flags and keys

  predicate LiveAt(flags: seq<Flag>, i: int) {
    0 <= i < |flags| && !flags[i].IsEither()
  }

  ghost function NonEmpty(flags: seq<Flag>): set<nat> {
    set i | 0 <= i < |flags| && !flags[i].isEmpty
  }

  ghost function LiveSet(flags: seq<Flag>): set<nat> {
    set i | 0 <= i < |flags| && LiveAt(flags, i)
  }

  /** The first s buckets on the probe path of hash h are not empty. */
  ghost predicate Filled(flags: seq<Flag>, h: nat, s: nat)
    requires |flags| > 0
  {
    forall t: nat :: t < s ==> !flags[Probe(h, t, |flags|)].isEmpty
  }

  /** A search for hash h gets to bucket b before it meets an empty bucket. */
  ghost predicate Reaches(flags: seq<Flag>, h: nat, b: nat) {
    && |flags| > 0
    && exists s: nat :: s < |flags| && Probe(h, s, |flags|) == b && Filled(flags, h, s)
  }

  /** The live buckets are exactly the places that `at` gives, one key each, all reachable. */
  ghost predicate Placed<K>(hash: K -> nat, flags: seq<Flag>, keys: seq<K>, at: map<K, nat>) {
    && |keys| == |flags|
    && (forall k :: k in at ==> LiveAt(flags, at[k]) && keys[at[k]] == k && Reaches(flags, hash(k), at[k]))
    && (forall i :: LiveAt(flags, i) ==> keys[i] in at && at[keys[i]] == i)
  }

  lemma {:induction false} ValuesAtMostKeys<K>(m: map<K, nat>)
    ensures |m.Values| <= |m|
    decreases m
  {
    if m == map[] {
      assert m.Values == {};
    } else {
      var k :| k in m;
      var r := m - {k};
      ValuesAtMostKeys(r);
      assert m.Keys == r.Keys + {k};
      assert |m| == |m.Keys| == |r.Keys| + 1;
      assert m.Values <= r.Values + {m[k]};
      SubsetSize(m.Values, r.Values + {m[k]});
    }
  }

  /** A set of indices that is told apart by the keys stored there is no larger than the map of those keys. */
  lemma IndexedSize<K>(s: set<nat>, at: map<K, nat>)
    requires s <= at.Values
    ensures |s| <= |at|
  {
    ValuesAtMostKeys(at);
    SubsetSize(s, at.Values);
  }

  lemma {:induction false} InverseSize<K>(s: set<nat>, at: map<K, nat>, keys: seq<K>)
    requires forall k :: k in at ==> at[k] in s && at[k] < |keys| && keys[at[k]] == k
    requires forall i :: i in s ==> i < |keys| && keys[i] in at && at[keys[i]] == i
    ensures |s| == |at|
    decreases s
  {
    if s == {} {
      assert at == map[];
    } else {
      var i :| i in s;
      var k := keys[i];
      InverseSize(s - {i}, at - {k}, keys);
      assert (at - {k}).Keys == at.Keys - {k};
      assert |at.Keys| == |at.Keys - {k}| + 1;
    }
  }

  lemma SmallerSetMisses<T>(a: set<T>, b: set<T>) returns (x: T)
    requires |a| < |b|
    ensures x in b && x !in a
  {
    if b <= a { SubsetSize(b, a); }
    x :| x in b && x !in a;
  }

  /** A table that is not full has an empty bucket on every probe path. */
  lemma EmptyProbe(flags: seq<Flag>, h: nat) returns (s: nat)
    requires IsPow2(|flags|) && |NonEmpty(flags)| < |flags|
    ensures s < |flags| && flags[Probe(h, s, |flags|)].isEmpty
  {
    var b := SmallerSetMisses(NonEmpty(flags), Below(|flags|));
    s := ProbesCover(h, b, |flags|);
  }

  /** A search meets the key's own bucket before any empty bucket. */
  lemma FoundBefore<K>(hash: K -> nat, flags: seq<Flag>, keys: seq<K>, at: map<K, nat>, key: K, s: nat)
    returns (t: nat)
    requires Placed(hash, flags, keys, at) && |flags| > 0 && key in at
    requires flags[Probe(hash(key), s, |flags|)].isEmpty
    ensures t < s && Probe(hash(key), t, |flags|) == at[key]
  {
    t :| t < |flags| && Probe(hash(key), t, |flags|) == at[key] && Filled(flags, hash(key), t);
  }

  lemma PresentAt<K>(hash: K -> nat, flags: seq<Flag>, keys: seq<K>, at: map<K, nat>, i: nat)
    requires Placed(hash, flags, keys, at) && LiveAt(flags, i)
    ensures keys[i] in at && at[keys[i]] == i
  {
  }

  /** The first s buckets on the key's probe path are not empty, and none of them holds the key. */
  ghost predicate Passed<K>(flags: seq<Flag>, keys: seq<K>, h: nat, key: K, s: nat) {
    && 0 < |flags| == |keys| && Filled(flags, h, s)
    && forall t: nat :: t < s ==> var b := Probe(h, t, |flags|); !LiveAt(flags, b) || keys[b] != key
  }

  lemma PassedNone<K>(flags: seq<Flag>, keys: seq<K>, h: nat, key: K)
    requires 0 < |flags| == |keys|
    ensures Passed(flags, keys, h, key, 0)
  {
  }

  lemma PassedMore<K>(flags: seq<Flag>, keys: seq<K>, h: nat, key: K, s: nat)
    requires Passed(flags, keys, h, key, s)
    requires var b := Probe(h, s, |flags|); !flags[b].isEmpty && (flags[b].isDel || keys[b] != key)
    ensures Passed(flags, keys, h, key, s + 1)
  {
  }

  /** The last tombstone among the first s buckets on the probe path of hash h: at step u in bucket site, or none. */
  ghost predicate LastTomb(flags: seq<Flag>, h: nat, s: nat, site: nat, u: nat) {
    && 0 < |flags|
    && (site != |flags| ==> u < s && site == Probe(h, u, |flags|) && flags[site].isDel)
    && forall t: nat :: t < s && flags[Probe(h, t, |flags|)].isDel ==> site != |flags| && t <= u
  }

  lemma LastTombNone(flags: seq<Flag>, h: nat)
    requires 0 < |flags|
    ensures LastTomb(flags, h, 0, |flags|, 0)
  {
  }

  lemma LastTombMore(flags: seq<Flag>, h: nat, s: nat, site: nat, u: nat)
    requires LastTomb(flags, h, s, site, u)
    ensures var b := Probe(h, s, |flags|);
      if flags[b].isDel then LastTomb(flags, h, s + 1, b, s) else LastTomb(flags, h, s + 1, site, u)
  {
  }

  /** A search that ends at an empty bucket proves the key absent. */
  lemma AbsentAfter<K>(hash: K -> nat, flags: seq<Flag>, keys: seq<K>, at: map<K, nat>, key: K, s: nat)
    requires Placed(hash, flags, keys, at) && |flags| > 0
    requires flags[Probe(hash(key), s, |flags|)].isEmpty && Passed(flags, keys, hash(key), key, s)
    ensures key !in at
  {
    if key in at {
      var t := FoundBefore(hash, flags, keys, at, key, s);
    }
  }

  // ----- The in-place rehash

  /** Bucket i already has its new occupant. */
  predicate NewAt(newFlags: seq<Flag>, i: int) {
    0 <= i < |newFlags| && !newFlags[i].isEmpty
  }

  /** The state in the middle of a rehash; the key and value buckets are shared by the old and the new table. */
  datatype Rehash<K, V> = Rehash(oldFlags: seq<Flag>, newFlags: seq<Flag>, keys: seq<K>, vals: seq<V>, at: map<K, nat>)

  /**
   Mid-rehash: every bucket holds an old resident still to be moved, or a new occupant, never both;
   `at` tells exactly the keys held and where, their values are those of the map being rehashed,
   and every new occupant is on its new probe path.
   */
  ghost predicate Moving<K, V>(hash: K -> nat, r: Rehash<K, V>, cont: map<K, V>) {
    match r
    case Rehash(oldFlags, newFlags, keys, vals, at) =>
      && 0 < |newFlags| <= |keys| == |vals|
      && |oldFlags| <= |keys|
      && (forall k :: k in at ==>
            && at[k] < |keys| && keys[at[k]] == k && (LiveAt(oldFlags, at[k]) || NewAt(newFlags, at[k]))
            && k in cont && cont[k] == vals[at[k]])
      && (forall i :: LiveAt(oldFlags, i) || NewAt(newFlags, i) ==> keys[i] in at && at[keys[i]] == i)
      && (forall i :: NewAt(newFlags, i) ==> !LiveAt(oldFlags, i) && Reaches(newFlags, hash(keys[i]), i))
      && (forall i :: 0 <= i < |newFlags| ==> !newFlags[i].isDel)
  }

  /** The finite map that keys placed by `at` and values stored in `vals` stand for. */
  ghost function Meaning<K, V>(at: map<K, nat>, vals: seq<V>): map<K, V> {
    map k | k in at && at[k] < |vals| :: vals[at[k]]
  }

  lemma MeaningUpdate<K, V>(at: map<K, nat>, vals: seq<V>, key: K, x: nat)
    requires x < |vals|
    ensures Meaning(at[key := x], vals) == Meaning(at, vals)[key := vals[x]]
  {
  }

  lemma MeaningRemove<K, V>(at: map<K, nat>, vals: seq<V>, key: K)
    ensures Meaning(at - {key}, vals) == Meaning(at, vals) - {key}
  {
  }

  lemma RemoveSize<K, V>(m: map<K, V>, key: K)
    requires key in m
    ensures |m - {key}| == |m| - 1
  {
    assert (m - {key}).Keys == m.Keys - {key};
    assert |m.Keys - {key}| == |m.Keys| - 1;
  }

  /** A table about to be rehashed: only old residents, in arrays that have grown or stayed. */
  lemma StartMoving<K, V>(hash: K -> nat, keys: seq<K>, vals: seq<V>, r: Rehash<K, V>)
    requires Placed(hash, r.oldFlags, keys, r.at) && |keys| == |vals|
    requires keys <= r.keys && vals <= r.vals && 0 < |r.newFlags| <= |r.keys| == |r.vals|
    requires forall i :: 0 <= i < |r.newFlags| ==> r.newFlags[i] == EMPTY
    ensures Moving(hash, r, Meaning(r.at, vals))
    ensures Meaning(r.at, vals).Keys == r.at.Keys && |Meaning(r.at, vals)| == |r.at|
  {
    assert Meaning(r.at, vals).Keys == r.at.Keys;
    assert |Meaning(r.at, vals).Keys| == |Meaning(r.at, vals)|;
    assert |r.at.Keys| == |r.at|;
  }

  /** Taking a bucket never cuts a probe path. */
  lemma ReachesAfter(flags: seq<Flag>, i: nat, h: nat, b: nat)
    requires i < |flags| && Reaches(flags, h, b)
    ensures Reaches(flags[i := flags[i].(isEmpty := false)], h, b)
  {
    var n := |flags|;
    var flags' := flags[i := flags[i].(isEmpty := false)];
    var s: nat :| s < n && Probe(h, s, n) == b && Filled(flags, h, s);
    assert Filled(flags', h, s);
  }

  lemma ReachesNow(flags: seq<Flag>, h: nat, s: nat)
    requires s < |flags| && Filled(flags, h, s)
    ensures var i := Probe(h, s, |flags|); Reaches(flags[i := flags[i].(isEmpty := false)], h, i)
  {
    var i := Probe(h, s, |flags|);
    var flags' := flags[i := flags[i].(isEmpty := false)];
    assert Filled(flags', h, s);
    assert Probe(h, s, |flags'|) == i;
  }

  /** Bucket i as the kick-out loop leaves it when the pair (key, val) takes it. */
  ghost function Take<K, V>(r: Rehash<K, V>, i: nat, key: K, val: V): Rehash<K, V>
    requires i < |r.newFlags| <= |r.keys| == |r.vals|
  {
    var newFlags := r.newFlags[i := r.newFlags[i].(isEmpty := false)];
    if LiveAt(r.oldFlags, i) then
      Rehash(r.oldFlags[i := r.oldFlags[i].(isDel := true)], newFlags, r.keys[i := key], r.vals[i := val],
             r.at[key := i] - {r.keys[i]})
    else
      Rehash(r.oldFlags, newFlags, r.keys[i := key], r.vals[i := val], r.at[key := i])
  }

  /**
   Writing the pair in hand into the empty new bucket keeps the invariant: no placed entry is
   overwritten, and the old resident, if any, leaves the table with its value.
   */
  lemma MoveOne<K, V>(hash: K -> nat, r: Rehash<K, V>, cont: map<K, V>, key: K, s: nat)
    requires Moving(hash, r, cont) && key !in r.at && key in cont
    requires s < |r.newFlags| && Filled(r.newFlags, hash(key), s)
    requires r.newFlags[Probe(hash(key), s, |r.newFlags|)].isEmpty
    ensures var i := Probe(hash(key), s, |r.newFlags|);
      && Moving(hash, Take(r, i, key, cont[key]), cont)
      && (LiveAt(r.oldFlags, i) ==> r.keys[i] in r.at && cont[r.keys[i]] == r.vals[i])
  {
    hide Filled, Probe, Reaches;
    var i := Probe(hash(key), s, |r.newFlags|);
    TakeHolds(hash, r, cont, key, i);
    TakePlaces(hash, r, cont, key, i);
    TakeReaches(hash, r, cont, key, s);
    OldPair(hash, r, cont, i);
  }

  lemma OldPair<K, V>(hash: K -> nat, r: Rehash<K, V>, cont: map<K, V>, i: nat)
    requires Moving(hash, r, cont)
    ensures LiveAt(r.oldFlags, i) ==> r.keys[i] in r.at && cont[r.keys[i]] == r.vals[i]
  {
    hide Reaches;
  }

  /** Every key held after the write is where the map says, with its value. */
  lemma TakeHolds<K, V>(hash: K -> nat, r: Rehash<K, V>, cont: map<K, V>, key: K, i: nat)
    requires Moving(hash, r, cont) && key !in r.at && key in cont && i < |r.newFlags| && r.newFlags[i].isEmpty
    ensures var r' := Take(r, i, key, cont[key]);
      forall k :: k in r'.at ==>
        && r'.at[k] < |r'.keys| && r'.keys[r'.at[k]] == k
        && (LiveAt(r'.oldFlags, r'.at[k]) || NewAt(r'.newFlags, r'.at[k]))
        && k in cont && cont[k] == r'.vals[r'.at[k]]
  {
    hide Reaches;
  }

  /** Every bucket in use after the write holds the key that the map puts there, old or new but not both. */
  lemma TakePlaces<K, V>(hash: K -> nat, r: Rehash<K, V>, cont: map<K, V>, key: K, i: nat)
    requires Moving(hash, r, cont) && key !in r.at && key in cont && i < |r.newFlags| && r.newFlags[i].isEmpty
    ensures var r' := Take(r, i, key, cont[key]);
      && (forall j :: LiveAt(r'.oldFlags, j) || NewAt(r'.newFlags, j) ==> r'.keys[j] in r'.at && r'.at[r'.keys[j]] == j)
      && (forall j :: NewAt(r'.newFlags, j) ==> !LiveAt(r'.oldFlags, j))
  {
    hide Reaches;
  }

  /** After the write every new occupant is still on its probe path, the one just placed included. */
  lemma TakeReaches<K, V>(hash: K -> nat, r: Rehash<K, V>, cont: map<K, V>, key: K, s: nat)
    requires Moving(hash, r, cont) && key in cont && s < |r.newFlags| && Filled(r.newFlags, hash(key), s)
    ensures var r' := Take(r, Probe(hash(key), s, |r.newFlags|), key, cont[key]);
      forall j :: NewAt(r'.newFlags, j) ==> Reaches(r'.newFlags, hash(r'.keys[j]), j)
  {
    hide Filled, Probe, Reaches;
    var i := Probe(hash(key), s, |r.newFlags|);
    var r' := Take(r, i, key, cont[key]);
    ReachesNow(r.newFlags, hash(key), s);
    forall j | NewAt(r'.newFlags, j) ensures Reaches(r'.newFlags, hash(r'.keys[j]), j) {
      if j != i {
        assert NewAt(r.newFlags, j);
        ReachesAfter(r.newFlags, i, hash(r.keys[j]), j);
      }
    }
  }

  /** The old resident of bucket j is picked up. */
  lemma PickUp<K, V>(hash: K -> nat, r: Rehash<K, V>, cont: map<K, V>, j: nat)
    requires Moving(hash, r, cont) && LiveAt(r.oldFlags, j)
    ensures
      && r.keys[j] in r.at && r.keys[j] in cont && cont[r.keys[j]] == r.vals[j]
      && Moving(hash, r.(oldFlags := r.oldFlags[j := r.oldFlags[j].(isDel := true)], at := r.at - {r.keys[j]}), cont)
  {
  }

  lemma LiveSetShrinks(flags: seq<Flag>, i: nat)
    requires LiveAt(flags, i)
    ensures LiveSet(flags[i := flags[i].(isDel := true)]) == LiveSet(flags) - {i}
    ensures i in LiveSet(flags)
  {
  }

  /** While a key is in hand the new table still has room. */
  lemma RoomLeft<K, V>(hash: K -> nat, r: Rehash<K, V>, cont: map<K, V>)
    requires Moving(hash, r, cont)
    ensures |NonEmpty(r.newFlags)| <= |r.at|
  {
    forall i | i in NonEmpty(r.newFlags) ensures i in r.at.Values {
      assert NewAt(r.newFlags, i);
      assert r.keys[i] in r.at;
    }
    IndexedSize(NonEmpty(r.newFlags), r.at);
  }

  /** When no old resident is left, the new flags describe a well-formed table. */
  lemma MovedOut<K, V>(hash: K -> nat, r: Rehash<K, V>, cont: map<K, V>)
    requires Moving(hash, r, cont)
    requires LiveSet(r.oldFlags) == {}
    ensures Placed(hash, r.newFlags, r.keys[..|r.newFlags|], r.at)
    ensures |NonEmpty(r.newFlags)| == |r.at|
    ensures forall vals :: r.at.Keys == cont.Keys && r.vals[..|r.newFlags|] <= vals ==> Meaning(r.at, vals) == cont
  {
    forall i | LiveAt(r.newFlags, i) ensures r.keys[i] in r.at && r.at[r.keys[i]] == i {
      assert NewAt(r.newFlags, i);
    }
    forall k | k in r.at
      ensures LiveAt(r.newFlags, r.at[k]) && Reaches(r.newFlags, hash(k), r.at[k])
    {
      assert r.at[k] !in LiveSet(r.oldFlags);
      assert NewAt(r.newFlags, r.at[k]);
    }
    InverseSize(NonEmpty(r.newFlags), r.at, r.keys);
  }

  // ----- The order of a rehash

  /** Where the keys are: the flags, and the bucket of each key. */
  datatype Placement<K> = Placement(flags: seq<Flag>, at: map<K, nat>)

  /** Where the keys are in the middle of a rehash. */
  datatype Layout<K> = Layout(oldFlags: seq<Flag>, newFlags: seq<Flag>, at: map<K, nat>)

  ghost function LayoutOf<K, V>(r: Rehash<K, V>): Layout<K> {
    Layout(r.oldFlags, r.newFlags, r.at)
  }

  ghost predicate FirstFree(newFlags: seq<Flag>, h: nat, s: nat)
    requires |newFlags| > 0
  {
    Filled(newFlags, h, s) && newFlags[Probe(h, s, |newFlags|)].isEmpty
  }

  /** The first empty bucket on the path of hash h. */
  ghost function Spot(newFlags: seq<Flag>, h: nat): (i: nat)
    requires |newFlags| > 0
    ensures i < |newFlags|
  {
    if exists s: nat :: FirstFree(newFlags, h, s) then
      var s: nat :| FirstFree(newFlags, h, s);
      Probe(h, s, |newFlags|)
    else 0
  }

  lemma FilledAt(flags: seq<Flag>, h: nat, s: nat, t: nat)
    requires |flags| > 0 && Filled(flags, h, s) && flags[Probe(h, t, |flags|)].isEmpty
    ensures s <= t
  {
  }

  lemma SpotIs(newFlags: seq<Flag>, h: nat, s: nat)
    requires |newFlags| > 0 && FirstFree(newFlags, h, s)
    ensures Spot(newFlags, h) == Probe(h, s, |newFlags|)
  {
    hide Filled, Probe;
    var t: nat :| FirstFree(newFlags, h, t) && Spot(newFlags, h) == Probe(h, t, |newFlags|);
    assert FirstFree(newFlags, h, t);
    FilledAt(newFlags, h, s, t);
    FilledAt(newFlags, h, t, s);
  }

  /** The key that lives in bucket i. */
  ghost function Resident<K>(at: map<K, nat>, i: nat): (k: K)
    requires i in at.Values
    ensures k in at && at[k] == i
  {
    var k :| k in at && at[k] == i;
    k
  }

  predicate Kicks<K>(l: Layout<K>, i: nat) {
    LiveAt(l.oldFlags, i) && i in l.at.Values
  }

  /** The key in hand takes bucket i. */
  ghost function Seat<K>(l: Layout<K>, i: nat, key: K): (l': Layout<K>)
    requires i < |l.newFlags|
    ensures |l'.newFlags| == |l.newFlags| && |l'.oldFlags| == |l.oldFlags|
    ensures Kicks(l, i) ==> LiveSet(l'.oldFlags) < LiveSet(l.oldFlags)
  {
    var newFlags := l.newFlags[i := l.newFlags[i].(isEmpty := false)];
    if Kicks(l, i) then
      LiveSetShrinks(l.oldFlags, i);
      Layout(l.oldFlags[i := l.oldFlags[i].(isDel := true)], newFlags, l.at[key := i] - {Resident(l.at, i)})
    else Layout(l.oldFlags, newFlags, l.at[key := i])
  }

  /** The kick-out chain of the key in hand. */
  ghost function Chain<K>(hash: K -> nat, l: Layout<K>, key: K): (l': Layout<K>)
    requires |l.newFlags| > 0
    ensures |l'.newFlags| == |l.newFlags| && |l'.oldFlags| == |l.oldFlags|
    decreases LiveSet(l.oldFlags)
  {
    var i := Spot(l.newFlags, hash(key));
    if Kicks(l, i) then Chain(hash, Seat(l, i, key), Resident(l.at, i)) else Seat(l, i, key)
  }

  /** The resident of bucket j is picked up. */
  ghost function Lift<K>(l: Layout<K>, j: nat): Layout<K>
    requires Kicks(l, j)
  {
    Layout(l.oldFlags[j := l.oldFlags[j].(isDel := true)], l.newFlags, l.at - {Resident(l.at, j)})
  }

  /** The outer loop of the rehash from bucket j on. */
  ghost function Moved<K>(hash: K -> nat, l: Layout<K>, j: nat): (l': Layout<K>)
    requires |l.newFlags| > 0 && j <= |l.oldFlags|
    ensures |l'.newFlags| == |l.newFlags|
    decreases |l.oldFlags| - j
  {
    if j == |l.oldFlags| then l
    else if Kicks(l, j) then Moved(hash, Chain(hash, Lift(l, j), Resident(l.at, j)), j + 1)
    else Moved(hash, l, j + 1)
  }

  function Empties(m: nat): (flags: seq<Flag>)
    ensures |flags| == m
  {
    seq(m, _ => EMPTY)
  }

  /** Where a rehash into m buckets puts the keys. */
  ghost function Rehashed<K>(hash: K -> nat, p: Placement<K>, m: nat): (q: Placement<K>)
    requires m > 0
    ensures |q.flags| == m
  {
    var l := Moved(hash, Layout(p.flags, Empties(m), p.at), 0);
    Placement(l.newFlags, l.at)
  }

  lemma ResidentIs<K, V>(hash: K -> nat, r: Rehash<K, V>, cont: map<K, V>, i: nat)
    requires Moving(hash, r, cont)
    ensures LiveAt(r.oldFlags, i) ==> Kicks(LayoutOf(r), i) && Resident(r.at, i) == r.keys[i]
  {
    if LiveAt(r.oldFlags, i) {
      assert r.keys[i] in r.at && r.at[r.keys[i]] == i;
    }
  }

  /** One round of the kick-out loop is one step of the chain. */
  lemma ChainStep<K, V>(hash: K -> nat, r: Rehash<K, V>, cont: map<K, V>, key: K, val: V, s: nat)
    requires Moving(hash, r, cont) && FirstFree(r.newFlags, hash(key), s)
    ensures var i := Probe(hash(key), s, |r.newFlags|);
      var l := LayoutOf(Take(r, i, key, val));
      Chain(hash, LayoutOf(r), key) == if LiveAt(r.oldFlags, i) then Chain(hash, l, r.keys[i]) else l
  {
    hide Moving, Resident, FirstFree, Spot, Filled, Probe;
    SizedBuckets(hash, r, cont);
    SpotIs(r.newFlags, hash(key), s);
    ResidentIs(hash, r, cont, Probe(hash(key), s, |r.newFlags|));
  }

  lemma MovedAll<K>(hash: K -> nat, l: Layout<K>)
    requires |l.newFlags| > 0
    ensures Moved(hash, l, |l.oldFlags|) == l
  {
  }

  lemma SizedBuckets<K, V>(hash: K -> nat, r: Rehash<K, V>, cont: map<K, V>)
    requires Moving(hash, r, cont)
    ensures 0 < |r.newFlags| <= |r.keys| == |r.vals| && |r.oldFlags| <= |r.keys|
  {
  }

  /** Picking up the resident of bucket j begins its chain. */
  lemma MovedStep<K, V>(hash: K -> nat, r: Rehash<K, V>, cont: map<K, V>, j: nat)
    requires Moving(hash, r, cont) && j < |r.oldFlags|
    ensures Moved(hash, LayoutOf(r), j) ==
      if LiveAt(r.oldFlags, j) then
        var r' := r.(oldFlags := r.oldFlags[j := r.oldFlags[j].(isDel := true)], at := r.at - {r.keys[j]});
        Moved(hash, Chain(hash, LayoutOf(r'), r.keys[j]), j + 1)
      else Moved(hash, LayoutOf(r), j + 1)
  {
    hide Moving, Resident, Chain;
    SizedBuckets(hash, r, cont);
    ResidentIs(hash, r, cont, j);
  }

  // ----- Insertion and deletion of one key

  /**
   Step s is where an absent key of hash h goes: the last tombstone before the first empty bucket
   of the probe path, or that empty bucket (step e) when the path has no tombstone.
   */
  ghost predicate VacancyBefore(flags: seq<Flag>, h: nat, s: nat, e: nat)
    requires |flags| > 0
  {
    && s <= e < |flags| && Filled(flags, h, e) && flags[Probe(h, e, |flags|)].isEmpty
    && (s < e ==> flags[Probe(h, s, |flags|)].isDel)
    && forall t: nat :: t < e && flags[Probe(h, t, |flags|)].isDel ==> t <= s < e
  }

  ghost predicate Vacancy(flags: seq<Flag>, h: nat, s: nat)
    requires |flags| > 0
  {
    exists e: nat :: VacancyBefore(flags, h, s, e)
  }

  lemma VacancyFound(flags: seq<Flag>, h: nat, s: nat, e: nat)
    requires |flags| > 0 && s <= e < |flags| && Filled(flags, h, e) && flags[Probe(h, e, |flags|)].isEmpty
    requires s < e ==> flags[Probe(h, s, |flags|)].isDel
    requires forall t: nat :: t < e && flags[Probe(h, t, |flags|)].isDel ==> t <= s < e
    ensures Vacancy(flags, h, s)
  {
    assert VacancyBefore(flags, h, s, e);
  }

  /** The bucket that a new key takes holds none. */
  lemma VacancyFree(flags: seq<Flag>, h: nat, s: nat)
    requires |flags| > 0 && Vacancy(flags, h, s)
    ensures !LiveAt(flags, Probe(h, s, |flags|))
  {
  }

  /** The flags alone decide the vacancy: no key or value stored in a dead bucket can. */
  lemma VacancyUnique(flags: seq<Flag>, h: nat, s: nat, s': nat)
    requires |flags| > 0 && Vacancy(flags, h, s) && Vacancy(flags, h, s')
    ensures s == s'
  {
    var e: nat :| VacancyBefore(flags, h, s, e);
    var e': nat :| VacancyBefore(flags, h, s', e');
  }

  /** The vacancy for hash h, as a bucket. */
  ghost function VacantSpot(flags: seq<Flag>, h: nat): (x: nat)
    requires |flags| > 0
    ensures x < |flags|
  {
    if exists s: nat :: Vacancy(flags, h, s) then
      var s: nat :| Vacancy(flags, h, s);
      Probe(h, s, |flags|)
    else 0
  }

  lemma VacantSpotIs(flags: seq<Flag>, h: nat, s: nat)
    requires |flags| > 0 && Vacancy(flags, h, s)
    ensures VacantSpot(flags, h) == Probe(h, s, |flags|)
  {
    hide VacancyBefore, Probe, Vacancy;
    var t: nat :| Vacancy(flags, h, t) && VacantSpot(flags, h) == Probe(h, t, |flags|);
    assert Vacancy(flags, h, t);
    VacancyUnique(flags, h, s, t);
  }

  // ----- The operations as functions of where the keys are

  /** The number of buckets after the resize of a put. */
  ghost function Grown<K>(p: Placement<K>): (m: nat)
    ensures m > 0
  {
    if |p.flags| > 2 * |p.at| then |p.flags| else if p.flags == [] then 4 else 2 * |p.flags|
  }

  ghost function Roomed<K>(hash: K -> nat, p: Placement<K>): Placement<K> {
    if |NonEmpty(p.flags)| < UpperBound(|p.flags|) then p else Rehashed(hash, p, Grown(p))
  }

  ghost function Inserted<K>(hash: K -> nat, p: Placement<K>, key: K): (q: Placement<K>)
    ensures key in q.at || p.flags == []
  {
    if key in p.at || p.flags == [] then p
    else
      var x := VacantSpot(p.flags, hash(key));
      Placement(p.flags[x := LIVE], p.at[key := x])
  }

  /** kh_put: nothing but the flags and the places of the keys decides where a key goes, across a rehash too. */
  ghost function PutIn<K>(hash: K -> nat, p: Placement<K>, key: K): Placement<K> {
    Inserted(hash, Roomed(hash, p), key)
  }

  /** kh_del of a key's bucket. */
  ghost function DeletedFrom<K>(p: Placement<K>, key: K): Placement<K> {
    if key in p.at && p.at[key] < |p.flags| then
      var x := p.at[key];
      Placement(p.flags[x := p.flags[x].(isDel := true)], p.at - {key})
    else p
  }

  /** A vacant bucket on the probe path of an absent key may take it. */
  lemma InsertOne<K>(hash: K -> nat, flags: seq<Flag>, keys: seq<K>, at: map<K, nat>, key: K, s: nat)
    requires Placed(hash, flags, keys, at) && key !in at
    requires s < |flags| && Filled(flags, hash(key), s) && !LiveAt(flags, Probe(hash(key), s, |flags|))
    ensures var x := Probe(hash(key), s, |flags|);
      && Placed(hash, flags[x := LIVE], keys[x := key], at[key := x])
      && |NonEmpty(flags[x := LIVE])| == |NonEmpty(flags)| + (if flags[x].isEmpty then 1 else 0)
  {
    var x := Probe(hash(key), s, |flags|);
    var flags' := flags[x := LIVE];
    assert Filled(flags', hash(key), s) && Probe(hash(key), s, |flags'|) == x;
    forall k | k in at ensures Reaches(flags', hash(k), at[k]) {
      var t: nat :| t < |flags| && Probe(hash(k), t, |flags|) == at[k] && Filled(flags, hash(k), t);
      assert Filled(flags', hash(k), t) && Probe(hash(k), t, |flags'|) == at[k];
    }
    NonEmptyGrows(flags, x);
  }

  lemma NonEmptyGrows(flags: seq<Flag>, x: nat)
    requires x < |flags|
    ensures |NonEmpty(flags[x := LIVE])| == |NonEmpty(flags)| + (if flags[x].isEmpty then 1 else 0)
  {
    if flags[x].isEmpty {
      assert NonEmpty(flags[x := LIVE]) == NonEmpty(flags) + {x} && x !in NonEmpty(flags);
    } else {
      assert NonEmpty(flags[x := LIVE]) == NonEmpty(flags);
    }
  }

  /** A tombstone in place of a live bucket leaves every other key where it was, and reachable. */
  lemma DeleteOne<K>(hash: K -> nat, flags: seq<Flag>, keys: seq<K>, at: map<K, nat>, x: nat)
    requires Placed(hash, flags, keys, at) && LiveAt(flags, x)
    ensures var flags' := flags[x := flags[x].(isDel := true)];
      && keys[x] in at && Placed(hash, flags', keys, at - {keys[x]})
      && NonEmpty(flags') == NonEmpty(flags)
  {
    var flags' := flags[x := flags[x].(isDel := true)];
    forall k | k in at ensures Reaches(flags', hash(k), at[k]) {
      var t: nat :| t < |flags| && Probe(hash(k), t, |flags|) == at[k] && Filled(flags, hash(k), t);
      assert Filled(flags', hash(k), t) && Probe(hash(k), t, |flags'|) == at[k];
    }
  }

  class HashTable<K(==, 0), V(0)> {
    const hash: K -> nat
    var nBuckets: nat
    var size: nat
    var nOccupied: nat
    var upperBound: nat
    var flags: array<Flag>
    var keys: array<K>
    var vals: array<V>

    /** Where each key lives. */
    ghost var at: map<K, nat>

    ghost function Repr(): set<object>
      reads this
    {
      {this, flags, keys, vals}
    }

    ghost predicate Shape()
      reads this
    {
      && flags as object != keys && flags as object != vals && keys as object != vals
      && flags.Length == nBuckets
      && (nBuckets == 0 || (4 <= nBuckets <= MAX_BUCKETS && IsPow2(nBuckets)))
    }

    ghost predicate Valid()
      reads this, flags, keys, vals
    {
      && Shape()
      && keys.Length == vals.Length == nBuckets
      && Placed(hash, flags[..], keys[..], at)
      && size == |at|
      && nOccupied == |NonEmpty(flags[..])|
      && upperBound == UpperBound(nBuckets)
      && nOccupied <= upperBound
    }

    /** The finite map the table stands for. */
    ghost function Contents(): map<K, V>
      reads this, vals
    {
      Meaning(at, vals[..])
    }

    /** Where the keys are. */
    ghost function Placing(): Placement<K>
      reads this, flags
    {
      Placement(flags[..], at)
    }

    /** kh_init */
    constructor (hash: K -> nat)
      ensures Valid() && fresh(Repr())
      ensures this.hash == hash && Contents() == map[] && nBuckets == 0
    {
      this.hash := hash;
      nBuckets, size, nOccupied, upperBound := 0, 0, 0, 0;
      flags := new Flag[0];
      keys := new K[0];
      vals := new V[0];
      at := map[];
      new;
      assert NonEmpty(flags[..]) == {};
    }

    lemma KeyAt(key: K)
      requires Valid()
      ensures key in at <==> key in Contents()
      ensures key in at ==>
        at[key] < nBuckets && LiveAt(flags[..], at[key]) && keys[at[key]] == key && Contents()[key] == vals[at[key]]
    {
    }

    static lemma Exponent(n: nat) returns (k: nat)
      requires IsPow2(n)
      ensures n == Pow2(k)
    {
      k :| n == Pow2(k);
    }

    /** The probe loop of kh_get; it ends before it comes back to its start, since step e finds an empty bucket. */
    method Look(key: K, ghost e: nat) returns (i: nat, wrapped: bool, ghost step: nat)
      requires Shape() && nBuckets > 0 && keys.Length == nBuckets
      requires e < nBuckets && flags[Probe(hash(key), e, nBuckets)].isEmpty
      ensures step <= e && i == Probe(hash(key), step, nBuckets) && Passed(flags[..], keys[..], hash(key), key, step)
      ensures !wrapped && i < nBuckets && (flags[i].isEmpty || (!flags[i].isDel && keys[i] == key))
    {
      hide Passed, Probe, Pow2, IsPow2;
      ghost var n := Exponent(nBuckets);
      ghost var f, ks := flags[..], keys[..];
      PassedNone(f, ks, hash(key), key);
      var stepNow := 0;
      i, wrapped, step := hash(key) % nBuckets, false, 0;
      var last := i;
      ProbeStep(hash(key), 0, nBuckets);
      while !flags[i].isEmpty && (flags[i].isDel || keys[i] != key)
        invariant stepNow == step <= e && i == Probe(hash(key), step, nBuckets) && !wrapped
        invariant Passed(f, ks, hash(key), key, step)
        decreases e - step
      {
        ProbeStep(hash(key), step, nBuckets);
        PassedMore(f, ks, hash(key), key, step);
        stepNow, step := stepNow + 1, step + 1;
        i := (i + stepNow) % nBuckets;
        FirstReturn(hash(key), step, n);
        if i == last {
          wrapped := true;
          return;
        }
      }
    }

    /** kh_get: the bucket of the key, or n_buckets when the key is absent. */
    method Get(key: K) returns (x: nat)
      requires Valid()
      ensures x == if key in at then at[key] else nBuckets
      ensures x <= nBuckets && (key in at <==> x < nBuckets) && (key in Contents() <==> x < nBuckets)
      ensures x < nBuckets ==> LiveAt(flags[..], x) && keys[x] == key && Contents()[key] == vals[x]
    {
      hide Placed, Meaning, NonEmpty, IsPow2, Pow2, Probe, Reaches, Passed;
      KeyAt(key);
      if nBuckets == 0 {
        return 0;
      }
      ghost var f, ks := flags[..], keys[..];
      ghost var e := EmptyProbe(f, hash(key));
      var wrapped;
      ghost var step;
      x, wrapped, step := Look(key, e);
      if wrapped {
        return nBuckets;
      }
      if flags[x].IsEither() {
        AbsentAfter(hash, f, ks, at, key, step);
        return nBuckets;
      }
      PresentAt(hash, f, ks, at, x);
    }

    /** The probe of the rehash: the first empty bucket of the new flags on the path of hash h. */
    method FirstEmpty(newFlags: array<Flag>, h: nat) returns (i: nat, ghost s: nat)
      requires IsPow2(newFlags.Length) && |NonEmpty(newFlags[..])| < newFlags.Length
      ensures s < newFlags.Length && i == Probe(h, s, newFlags.Length)
      ensures Filled(newFlags[..], h, s) && newFlags[i].isEmpty
    {
      ghost var f := newFlags[..];
      ghost var e := EmptyProbe(f, h);
      hide NonEmpty, IsPow2;
      var step := 0;
      s := 0;
      i := h % newFlags.Length;
      ProbeStep(h, 0, newFlags.Length);
      while !newFlags[i].isEmpty
        invariant s == step <= e && i == Probe(h, step, newFlags.Length)
        invariant Filled(f, h, step)
        decreases e - step
      {
        ProbeStep(h, step, newFlags.Length);
        step, s := step + 1, s + 1;
        i := (i + step) % newFlags.Length;
      }
    }

    /** The rehash state held by the arrays. */
    ghost function InProgress(newFlags: array<Flag>): Rehash<K, V>
      reads this, flags, keys, vals, newFlags
    {
      Rehash(flags[..], newFlags[..], keys[..], vals[..], at)
    }

    ghost function Lay(newFlags: array<Flag>): (l: Layout<K>)
      reads this, flags, newFlags
      ensures |l.newFlags| == newFlags.Length
    {
      Layout(flags[..], newFlags[..], at)
    }

    /** Mid-rehash invariant; `cont` is the map the table stood for when the rehash began. */
    ghost predicate Rehashing(newFlags: array<Flag>, cont: map<K, V>)
      reads this, flags, keys, vals, newFlags
    {
      && Shape()
      && newFlags as object != flags && newFlags as object != keys && newFlags as object != vals
      && IsPow2(newFlags.Length) && |cont| < newFlags.Length <= keys.Length == vals.Length
      && Moving(hash, InProgress(newFlags), cont)
    }

    /** Bucket i takes the pair in hand; a resident of the old table that lived there is handed back. */
    method Swap(newFlags: array<Flag>, i: nat, key: K, val: V) returns (kicked: bool, key': K, val': V)
      requires newFlags as object != flags && newFlags as object != keys && newFlags as object != vals
      requires flags as object != keys && flags as object != vals && keys as object != vals
      requires i < newFlags.Length <= keys.Length == vals.Length
      modifies this`at, flags, keys, vals, newFlags
      ensures InProgress(newFlags) == Take(old(InProgress(newFlags)), i, key, val)
      ensures kicked == LiveAt(old(flags[..]), i)
      ensures key' == old(keys[i]) && val' == old(vals[i])
    {
      ghost var r := InProgress(newFlags);
      kicked := i < flags.Length && !flags[i].IsEither();
      key', val' := keys[i], vals[i];
      newFlags[i] := newFlags[i].(isEmpty := false);
      keys[i], vals[i] := key, val;
      if kicked {
        flags[i] := flags[i].(isDel := true);
        at := at[key := i] - {key'};
      } else {
        at := at[key := i];
      }
    }

    /**
     One round of the kick-out loop: the pair in hand takes the first empty new bucket on its path.
     If an old resident still lived there it is the next pair in hand, otherwise the chain ends.
     */
    method Settle(newFlags: array<Flag>, key: K, val: V, ghost cont: map<K, V>)
      returns (kicked: bool, key': K, val': V)
      requires Rehashing(newFlags, cont)
      requires key in cont && val == cont[key] && at.Keys == cont.Keys - {key}
      modifies this`at, flags, keys, vals, newFlags
      ensures Rehashing(newFlags, cont)
      ensures kicked ==> key' in cont && val' == cont[key'] && at.Keys == cont.Keys - {key'}
      ensures kicked ==> LiveSet(flags[..]) < old(LiveSet(flags[..]))
      ensures !kicked ==> at.Keys == cont.Keys && flags[..] == old(flags[..])
      ensures if kicked then Chain(hash, Lay(newFlags), key') == old(Chain(hash, Lay(newFlags), key))
        else Lay(newFlags) == old(Chain(hash, Lay(newFlags), key))
    {
      hide Moving, Filled, LiveSet, NonEmpty, IsPow2, Reaches, Probe, Chain;
      ghost var r := InProgress(newFlags);
      RoomLeft(hash, r, cont);
      assert |at.Keys| == |cont.Keys| - 1;
      var i, s := FirstEmpty(newFlags, hash(key));
      MoveOne(hash, r, cont, key, s);
      ChainStep(hash, r, cont, key, val, s);
      kicked, key', val' := Swap(newFlags, i, key, val);
      ghost var r' := InProgress(newFlags);
      assert flags[..] == r'.oldFlags && at == r'.at;
      if kicked {
        LiveSetShrinks(r.oldFlags, i);
      }
    }

    /** The kick-out chain that starts with the old resident of bucket j. */
    method KickOut(newFlags: array<Flag>, j: nat, ghost cont: map<K, V>)
      requires Rehashing(newFlags, cont) && at.Keys == cont.Keys
      requires LiveAt(flags[..], j)
      modifies this`at, flags, keys, vals, newFlags
      ensures Rehashing(newFlags, cont) && at.Keys == cont.Keys
      ensures LiveSet(flags[..]) <= old(LiveSet(flags[..])) - {j}
      ensures Moved(hash, Lay(newFlags), j + 1) == old(Moved(hash, Lay(newFlags), j))
    {
      hide Moving, Chain, Moved, LiveSet;
      ghost var r := InProgress(newFlags);
      PickUp(hash, r, cont, j);
      LiveSetShrinks(r.oldFlags, j);
      MovedStep(hash, r, cont, j);
      var key, val := keys[j], vals[j];
      flags[j] := flags[j].(isDel := true);
      at := at - {key};
      assert InProgress(newFlags) == r.(oldFlags := r.oldFlags[j := r.oldFlags[j].(isDel := true)], at := r.at - {key});
      var kicked := true;
      ghost var goal := Chain(hash, Lay(newFlags), key);
      while kicked
        invariant Rehashing(newFlags, cont)
        invariant goal == if kicked then Chain(hash, Lay(newFlags), key) else Lay(newFlags)
        invariant kicked ==> key in cont && val == cont[key] && at.Keys == cont.Keys - {key}
        invariant !kicked ==> at.Keys == cont.Keys
        invariant LiveSet(flags[..]) <= LiveSet(r.oldFlags) - {j}
        decreases LiveSet(flags[..]), kicked
      {
        kicked, key, val := Settle(newFlags, key, val, cont);
      }
    }

    /** realloc of the key and value arrays: the first entries survive, the others are arbitrary. */
    method Reallocate(length: nat)
      requires flags as object != keys && flags as object != vals && keys as object != vals
      requires keys.Length == vals.Length
      modifies this`keys, this`vals
      ensures fresh(keys) && fresh(vals) && keys as object != vals
      ensures keys.Length == vals.Length == length
      ensures forall i :: 0 <= i < length && i < old(keys.Length) ==> keys[i] == old(keys[i]) && vals[i] == old(vals[i])
    {
      var newKeys, newVals := new K[length], new V[length];
      forall i | 0 <= i < length && i < keys.Length {
        newKeys[i] := keys[i];
      }
      forall i | 0 <= i < length && i < vals.Length {
        newVals[i] := vals[i];
      }
      keys, vals := newKeys, newVals;
    }

    /** The bucket count kh_resize settles on. */
    static function Target(newN: nat): nat {
      if RoundUp(newN) < 4 then 4 else RoundUp(newN)
    }

    /** The rounding at the start of kh_resize. */
    static method NewCount(newN: nat) returns (m: nat)
      requires newN <= MAX_BUCKETS
      ensures m == Target(newN)
    {
      TargetIsPow2(newN);
      m := RoundUp32(newN);
      if m < 4 {
        m := 4;
      }
    }

    /** The outer loop of the rehash: every old resident is moved out. */
    method MoveAll(newFlags: array<Flag>, ghost cont: map<K, V>)
      requires Rehashing(newFlags, cont) && at.Keys == cont.Keys
      modifies this`at, flags, keys, vals, newFlags
      ensures Rehashing(newFlags, cont) && at.Keys == cont.Keys
      ensures LiveSet(flags[..]) == {}
      ensures Lay(newFlags) == old(Moved(hash, Lay(newFlags), 0))
    {
      hide Moving, Moved, Chain, IsPow2;
      var j := 0;
      ghost var goal := Moved(hash, Lay(newFlags), 0);
      while j != nBuckets
        invariant j <= nBuckets
        invariant Moved(hash, Lay(newFlags), j) == goal
        invariant Rehashing(newFlags, cont) && at.Keys == cont.Keys
        invariant forall i :: i in LiveSet(flags[..]) ==> j <= i
      {
        MovedStep(hash, InProgress(newFlags), cont, j);
        if !flags[j].IsEither() {
          KickOut(newFlags, j, cont);
        }
        j := j + 1;
      }
      MovedAll(hash, Lay(newFlags));
    }

    /** kh_resize: rehash into Target(newN) buckets, unless that is too small for what is stored. */
    method Resize(newN: nat)
      requires Valid() && newN <= MAX_BUCKETS
      modifies Repr()
      ensures Valid()
      ensures (flags == old(flags) || fresh(flags)) && (keys == old(keys) || fresh(keys))
      ensures vals == old(vals) || fresh(vals)
      ensures Contents() == old(Contents()) && at.Keys == old(at.Keys)
      ensures size == old(size)
      ensures old(size) >= UpperBound(Target(newN)) ==>
        nBuckets == old(nBuckets) && nOccupied == old(nOccupied) && Placing() == old(Placing())
      ensures old(size) < UpperBound(Target(newN)) ==>
        nBuckets == Target(newN) && nOccupied == size && Placing() == Rehashed(hash, old(Placing()), Target(newN))
    {
      hide Moving, Placed, LiveSet, NonEmpty, Meaning, Target, UpperBound, IsPow2, Rehashed;
      TargetIsPow2(newN);
      var m := NewCount(newN);
      if size >= UpperBound(m) {
        return;
      }
      RehashInto(m);
    }

    /** The part of kh_resize that moves into m buckets. */
    method RehashInto(m: nat)
      requires Valid() && IsPow2(m) && 4 <= m <= MAX_BUCKETS && size < UpperBound(m) < m
      modifies Repr()
      ensures Valid()
      ensures fresh(flags) && (keys == old(keys) || fresh(keys)) && (vals == old(vals) || fresh(vals))
      ensures Contents() == old(Contents()) && at.Keys == old(at.Keys)
      ensures size == nOccupied == old(size) && nBuckets == m
      ensures Placing() == Rehashed(hash, old(Placing()), m)
    {
      hide Moving, Placed, LiveSet, NonEmpty, Meaning, UpperBound, IsPow2, LiveAt, Reaches, Filled, NewAt, Probe,
        Rehashing, Shape, Moved, Empties;
      ghost var cont := Contents();
      var newFlags := Begin(m);
      MoveAll(newFlags, cont);
      Install(newFlags, cont);
    }

    /** The start of a rehash: empty flags, and arrays that are large enough. */
    method Begin(m: nat) returns (newFlags: array<Flag>)
      requires Valid() && IsPow2(m) && 4 <= m <= MAX_BUCKETS && size < UpperBound(m) < m
      modifies this`keys, this`vals
      ensures fresh(newFlags) && newFlags.Length == m && Rehashing(newFlags, old(Contents()))
      ensures (keys == old(keys) || fresh(keys)) && (vals == old(vals) || fresh(vals))
      ensures at.Keys == old(Contents()).Keys && size == |at|
      ensures Lay(newFlags) == Layout(flags[..], Empties(m), at)
      ensures nBuckets < m ==> keys.Length == m
      ensures nBuckets >= m ==> keys.Length == nBuckets
    {
      hide Moving, Placed, LiveSet, NonEmpty, Meaning, UpperBound, IsPow2, LiveAt, Reaches, Filled, NewAt, Probe;
      ghost var keys0, vals0 := keys[..], vals[..];
      newFlags := new Flag[m](_ => EMPTY);
      assert newFlags[..] == Empties(m);
      if nBuckets < m {
        Reallocate(m);
      }
      StartMoving(hash, keys0, vals0, InProgress(newFlags));
    }

    /** The end of kh_resize: trim the arrays when shrinking and adopt the new flags. */
    method Install(newFlags: array<Flag>, ghost cont: map<K, V>)
      requires Rehashing(newFlags, cont) && at.Keys == cont.Keys && LiveSet(flags[..]) == {}
      requires 4 <= newFlags.Length <= MAX_BUCKETS && size == |at| < UpperBound(newFlags.Length)
      requires nBuckets < newFlags.Length ==> keys.Length == newFlags.Length
      requires nBuckets >= newFlags.Length ==> keys.Length == nBuckets
      modifies this
      ensures Valid() && Contents() == cont && Placing() == Placement(old(newFlags[..]), old(at))
      ensures nBuckets == newFlags.Length && nOccupied == size == old(size)
      ensures flags == newFlags && (keys == old(keys) || fresh(keys)) && (vals == old(vals) || fresh(vals))
    {
      hide Moving, Placed, LiveSet, NonEmpty, Meaning;
      ghost var r := InProgress(newFlags);
      MovedOut(hash, r, cont);
      var m := newFlags.Length;
      if nBuckets > m {
        Reallocate(m);
      }
      assert keys[..] == r.keys[..m];
      assert vals[..] == r.vals[..m];
      flags := newFlags;
      nBuckets := m;
      nOccupied := size;
      upperBound := UpperBound(nBuckets);
    }

    /** The first branch of kh_put: a full table is rehashed, to drop tombstones or to double. */
    method MakeRoom()
      requires Valid() && nBuckets <= MAX_BUCKETS / 2
      modifies Repr()
      ensures Valid() && nOccupied < upperBound
      ensures (flags == old(flags) || fresh(flags)) && (keys == old(keys) || fresh(keys))
      ensures vals == old(vals) || fresh(vals)
      ensures Contents() == old(Contents()) && at.Keys == old(at.Keys) && size == old(size)
      ensures old(nOccupied < upperBound) ==>
        nBuckets == old(nBuckets) && nOccupied == old(nOccupied) && at == old(at) && flags[..] == old(flags[..])
      ensures nBuckets <= old(nBuckets) || nBuckets == 4 || nBuckets <= 4 * old(size)
      ensures old(nOccupied >= upperBound) ==> 2 * size < nBuckets
      ensures Placing() == Roomed(hash, old(Placing()))
    {
      hide Placed, LiveSet, NonEmpty, Meaning, Rehashed;
      if nOccupied >= upperBound {
        assert size <= nOccupied by { LiveAreOccupied(); }
        if nBuckets > 2 * size {
          TargetBelow(nBuckets);
          Resize(nBuckets - 1);
        } else {
          TargetAbove(nBuckets);
          Resize(nBuckets + 1);
        }
      }
    }

    /**
     kh_put: the bucket that holds the key afterwards. `ret` is 0 when the key was there, 1 when an
     empty bucket was taken and 2 when a tombstone was; the value of a new bucket is for the caller to set.
     */
    method Put(key: K) returns (x: nat, ret: int)
      requires Valid() && nBuckets <= MAX_BUCKETS / 2
      modifies Repr()
      ensures Valid()
      ensures (flags == old(flags) || fresh(flags)) && (keys == old(keys) || fresh(keys))
      ensures vals == old(vals) || fresh(vals)
      ensures x < nBuckets && key in at && at[key] == x
      ensures ret == 0 <==> old(key in at)
      ensures ret in {0, 1, 2}
      ensures Contents() == if ret == 0 then old(Contents()) else old(Contents())[key := vals[x]]
      ensures size == old(size) + if ret == 0 then 0 else 1
      ensures old(nOccupied < upperBound) ==>
        && nBuckets == old(nBuckets)
        && nOccupied == old(nOccupied) + (if ret == 1 then 1 else 0)
        && (at == if ret == 0 then old(at) else old(at)[key := x])
        && (ret != 0 ==> exists s: nat :: x == Probe(hash(key), s, nBuckets) && Vacancy(old(flags[..]), hash(key), s))
      ensures nBuckets <= old(nBuckets) || nBuckets == 4 || nBuckets <= 4 * old(size)
      ensures Placing() == PutIn(hash, old(Placing()), key)
    {
      hide Placed, LiveSet, NonEmpty, Meaning, Vacancy, IsPow2, Roomed, Inserted;
      MakeRoom();
      label resized:
      x, ret := Insert(key);
      MeaningUpdate(old@resized(at), vals[..], key, x);
    }

    /** The part of kh_put after the resize. */
    method Insert(key: K) returns (x: nat, ret: int)
      requires Valid() && nOccupied < upperBound
      modifies this`at, this`size, this`nOccupied, keys, flags
      ensures Valid()
      ensures x < nBuckets && key in at && at[key] == x
      ensures ret == 0 <==> old(key in at)
      ensures ret in {0, 1, 2}
      ensures at == if ret == 0 then old(at) else old(at)[key := x]
      ensures size == old(size) + if ret == 0 then 0 else 1
      ensures nOccupied == old(nOccupied) + if ret == 1 then 1 else 0
      ensures ret != 0 ==> exists s: nat :: x == Probe(hash(key), s, nBuckets) && Vacancy(old(flags[..]), hash(key), s)
      ensures Placing() == Inserted(hash, old(Placing()), key)
    {
      hide Placed, LiveSet, NonEmpty, Filled, Vacancy, VacantSpot;
      ghost var s;
      x, s := FindSlot(key);
      ghost var flags0, keys0 := flags[..], keys[..];
      if key !in at {
        VacantSpotIs(flags0, hash(key), s);
        InsertOne(hash, flags0, keys0, at, key, s);
      }
      if flags[x].isEmpty {
        keys[x] := key;
        flags[x] := LIVE;
        size, nOccupied := size + 1, nOccupied + 1;
        ret := 1;
        at := at[key := x];
        assert flags[..] == flags0[x := LIVE] && keys[..] == keys0[x := key];
      } else if flags[x].isDel {
        keys[x] := key;
        flags[x] := LIVE;
        size := size + 1;
        ret := 2;
        at := at[key := x];
        assert flags[..] == flags0[x := LIVE] && keys[..] == keys0[x := key];
      } else {
        ret := 0;
      }
    }

    /** The probe loop of kh_put: it stops at the key or at an empty bucket, and never comes back to its start. */
    method WalkPath(key: K, ghost e: nat) returns (i: nat, x: int, site: int, ghost step: nat, ghost siteStep: nat)
      requires Shape() && nBuckets > 0 && keys.Length == nBuckets
      requires e < nBuckets && flags[Probe(hash(key), e, nBuckets)].isEmpty
      ensures x == nBuckets && 0 <= site
      ensures step <= e && i == Probe(hash(key), step, nBuckets) && Passed(flags[..], keys[..], hash(key), key, step)
      ensures flags[i].isEmpty || (!flags[i].isDel && keys[i] == key)
      ensures LastTomb(flags[..], hash(key), step, site, siteStep)
    {
      hide IsPow2, Pow2, Probe, Passed, LastTomb;
      ghost var n := Exponent(nBuckets);
      ghost var f, ks := flags[..], keys[..];
      PassedNone(f, ks, hash(key), key);
      LastTombNone(f, hash(key));
      x, site, siteStep, step := nBuckets, nBuckets, 0, 0;
      var stepNow := 0;
      i := hash(key) % nBuckets;
      ProbeStep(hash(key), 0, nBuckets);
      var last := i;
      while !flags[i].isEmpty && (flags[i].isDel || keys[i] != key)
        invariant stepNow == step <= e && i == Probe(hash(key), step, nBuckets)
        invariant x == nBuckets && 0 <= site
        invariant Passed(f, ks, hash(key), key, step) && LastTomb(f, hash(key), step, site, siteStep)
        decreases e - step
      {
        LastTombMore(f, hash(key), step, site, siteStep);
        if flags[i].isDel {
          site, siteStep := i, step;
        }
        ProbeStep(hash(key), step, nBuckets);
        PassedMore(f, ks, hash(key), key, step);
        stepNow, step := stepNow + 1, step + 1;
        i := (i + stepNow) % nBuckets;
        FirstReturn(hash(key), step, n);
        if i == last {
          x := site;
          break;
        }
      }
    }

    /** Where kh_put puts a key: its own bucket, else the last tombstone passed, else the empty bucket at the end. */
    method FindSlot(key: K) returns (x: nat, ghost s: nat)
      requires Valid() && nOccupied < upperBound
      ensures s < nBuckets && x == Probe(hash(key), s, nBuckets) && Filled(flags[..], hash(key), s)
      ensures key in at ==> x == at[key] && LiveAt(flags[..], x)
      ensures key !in at ==> !LiveAt(flags[..], x) && Vacancy(flags[..], hash(key), s)
    {
      hide NonEmpty, Placed, Vacancy;
      ghost var f, ks := flags[..], keys[..];
      ghost var e := EmptyProbe(f, hash(key));
      var i := hash(key) % nBuckets;
      ProbeStep(hash(key), 0, nBuckets);
      if flags[i].isEmpty {
        AbsentAfter(hash, f, ks, at, key, 0);
        VacancyFound(f, hash(key), 0, 0);
        return i, 0;
      }
      var y, site;
      ghost var step, siteStep;
      i, y, site, step, siteStep := WalkPath(key, e);
      if y == nBuckets {
        if flags[i].isEmpty && site != nBuckets {
          y := site;
        } else {
          y := i;
        }
      }
      x, s := y, step;
      if f[i].isEmpty {
        AbsentAfter(hash, f, ks, at, key, step);
        if x == site { s := siteStep; }
        VacancyFound(f, hash(key), s, step);
      } else {
        PresentAt(hash, f, ks, at, i);
      }
    }

    /** kh_del: the live bucket x becomes a tombstone; any other x is ignored. */
    method Del(x: nat)
      requires Valid() && x <= nBuckets
      modifies this`at, this`size, flags
      ensures Valid()
      ensures old(LiveAt(flags[..], x)) ==>
        && old(keys[x] in at) && at == old(at) - {old(keys[x])}
        && Contents() == old(Contents()) - {old(keys[x])} && size == old(size) - 1
      ensures !LiveAt(flags[..], x)
      ensures old(LiveAt(flags[..], x)) ==> Placing() == DeletedFrom(old(Placing()), old(keys[x]))
      ensures !old(LiveAt(flags[..], x)) ==>
        Placing() == old(Placing()) && Contents() == old(Contents()) && size == old(size)
    {
      hide Placed, NonEmpty, Meaning, IsPow2, UpperBound;
      if x != nBuckets && !flags[x].IsEither() {
        ghost var flags0 := flags[..];
        PresentAt(hash, flags0, keys[..], at, x);
        DeleteOne(hash, flags0, keys[..], at, x);
        RemoveSize(at, keys[x]);
        MeaningRemove(at, vals[..], keys[x]);
        flags[x] := flags[x].(isDel := true);
        assert flags[..] == flags0[x := flags0[x].(isDel := true)];
        size := size - 1;
        at := at - {keys[x]};
      }
    }

    /** kh_clear: every bucket is empty again; the capacity stays. */
    method Clear()
      requires Valid()
      modifies this`at, this`size, this`nOccupied, flags
      ensures Valid() && Contents() == map[] && size == nOccupied == 0
      ensures Placing() == Placement(Empties(nBuckets), map[])
    {
      forall i | 0 <= i < flags.Length {
        flags[i] := EMPTY;
      }
      size, nOccupied := 0, 0;
      at := map[];
      assert NonEmpty(flags[..]) == {};
    }

    /** kh_val(h, x) = val */
    method SetVal(x: nat, val: V)
      requires Valid() && x < nBuckets
      modifies vals
      ensures Valid() && vals[x] == val && Placing() == old(Placing())
      ensures Contents() == if LiveAt(flags[..], x) then old(Contents())[keys[x] := val] else old(Contents())
    {
      vals[x] := val;
    }

    lemma LiveAreOccupied()
      requires Valid()
      ensures size <= nOccupied
    {
      var live := LiveSet(flags[..]);
      InverseSize(live, at, keys[..]);
      SubsetSize(live, NonEmpty(flags[..]));
    }

    /** `size` is the number of live buckets, `n_occupied` that of the others that are not empty too. */
    lemma Counts()
      requires Valid()
      ensures size == |LiveSet(flags[..])| == |Contents()|
      ensures nOccupied == |NonEmpty(flags[..])| <= upperBound
      ensures nBuckets > 0 ==> upperBound < nBuckets
    {
      InverseSize(LiveSet(flags[..]), at, keys[..]);
      assert Contents().Keys == at.Keys;
      assert |Contents().Keys| == |Contents()| && |at.Keys| == |at|;
    }

    static lemma TargetBelow(n: nat)
      requires IsPow2(n) && 4 <= n
      ensures Target(n - 1) == n
    {
      var k: nat :| n == Pow2(k);
      RoundUpIsPow2(n - 1);
      RoundUpIsLeast(n - 1, k);
      var j: nat :| RoundUp(n - 1) == Pow2(j);
      if j < k { Pow2Mono(j, k - 1); } else { Pow2Mono(k, j); }
    }

    static lemma TargetAbove(n: nat)
      requires n == 0 || (IsPow2(n) && 4 <= n)
      ensures Target(n + 1) == if n == 0 then 4 else 2 * n
    {
      if n > 0 {
        var k: nat :| n == Pow2(k);
        RoundUpIsPow2(n + 1);
        RoundUpIsLeast(n + 1, k + 1);
        var j: nat :| RoundUp(n + 1) == Pow2(j);
        if j < k + 1 { Pow2Mono(j, k); } else { Pow2Mono(k + 1, j); }
      }
    }

    static lemma TargetIsPow2(newN: nat)
      requires newN <= MAX_BUCKETS
      ensures IsPow2(Target(newN)) && 4 <= Target(newN) <= MAX_BUCKETS && UpperBound(Target(newN)) < Target(newN)
    {
      assert Pow2(2) == 4;
      MaxIsPow2();
      RoundUpIsLeast(newN, 30);
      if newN > 0 { RoundUpIsPow2(newN); }
    }
  }

  lemma MaxIsPow2()
    ensures Pow2(30) == MAX_BUCKETS
  {
    assert Pow2(10) == 1024;
    assert Pow2(20) == 1024 * 1024;
  }
}