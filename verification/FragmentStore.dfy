/** The pending fragments of all connections: get_fragment, put_fragment and remove_fragment over the hash table. */
module FragmentStore {
  import opened Bytes
  import opened Options
  import opened KHash
  import opened FixStream
  import opened FixRuns

  /** The store a table of fragment pointers stands for. */
  ghost function StoreOf(m: map<StreamId, Option<Text>>): Store {
    map id | id in m && m[id].Some? :: m[id].value
  }

  /** No fragment pointer in the table is null. */
  ghost predicate NoNull(m: map<StreamId, Option<Text>>) {
    forall id :: id in m ==> m[id].Some?
  }

  lemma StorePut(m: map<StreamId, Option<Text>>, id: StreamId, data: Text)
    requires NoNull(m)
    ensures NoNull(m[id := Some(data)]) && StoreOf(m[id := Some(data)]) == StoreOf(m)[id := data]
  {
  }

  lemma StoreRemove(m: map<StreamId, Option<Text>>, id: StreamId)
    requires NoNull(m)
    ensures NoNull(m - {id}) && StoreOf(m - {id}) == StoreOf(m) - {id}
  {
  }

  class FragmentStore {
    const table: HashTable<StreamId, Option<Text>>

    ghost predicate Valid()
      reads this, table, table.Repr()
    {
      table.Valid() && NoNull(table.Contents())
    }

    ghost function Fragments(): Store
      reads this, table, table.Repr()
    {
      StoreOf(table.Contents())
    }

    /** How many other connections have a fragment. */
    ghost function Others(id: StreamId): int
      reads this, table, table.Repr()
    {
      table.size - if id in Fragments() then 1 else 0
    }

    /** The table is small enough for this connection's fragment to be added. */
    ghost predicate Roomy(id: StreamId)
      reads this, table, table.Repr()
    {
      table.nBuckets <= MAX_BUCKETS / 2 && Others(id) < MANY_KEYS
    }

    constructor (hash: StreamId -> nat)
      ensures Valid() && fresh(table) && fresh(table.Repr())
      ensures Fragments() == map[] && table.nBuckets == 0 == table.size
    {
      table := new HashTable(hash);
    }

    /** get_fragment */
    method GetFragment(id: StreamId) returns (fragment: Option<Text>)
      requires Valid()
      ensures fragment == Lookup(Fragments(), id)
    {
      hide Placed, NonEmpty, Meaning;
      var k := table.Get(id);
      if k != table.nBuckets {
        return table.vals[k];
      }
      return None;
    }

    /** The bucket of this connection, made if there is none; what it holds is for the caller to set. */
    method BucketFor(id: StreamId) returns (k: nat)
      requires table.Valid() && table.nBuckets <= MAX_BUCKETS / 2
      modifies table.Repr()
      ensures table.Valid() && k < table.nBuckets && id in table.at && table.at[id] == k
      ensures table.Contents() - {id} == old(table.Contents()) - {id}
      ensures table.size == old(table.size) + if id in old(table.Contents()) then 0 else 1
      ensures table.nBuckets <= old(table.nBuckets) || table.nBuckets == 4 || table.nBuckets <= 4 * old(table.size)
      ensures forall o :: o in table.Repr() ==> o in old(table.Repr()) || fresh(o)
    {
      hide Placed, NonEmpty, Meaning, PutIn, Vacancy;
      table.KeyAt(id);
      k := table.Get(id);
      if k == table.nBuckets {
        var ret;
        k, ret := table.Put(id);
      }
    }

    /** put_fragment: the fragment of this connection is the copy of data, whatever it was before. */
    method PutFragment(id: StreamId, data: Text)
      requires Valid() && Roomy(id) && |data| <= CAPACITY
      modifies table.Repr()
      ensures Valid() && Fragments() == old(Fragments())[id := StrNCpy(data)]
      ensures Roomy(id) && Others(id) == old(Others(id))
      ensures forall o :: o in table.Repr() ==> o in old(table.Repr()) || fresh(o)
    {
      hide Placed, NonEmpty, Meaning, NoNull, StoreOf, StrNCpy;
      ghost var m := table.Contents();
      StorePut(m, id, StrNCpy(data));
      InStore(m, id);
      var k := BucketFor(id);
      table.KeyAt(id);
      MapUpdated(m, table.Contents(), id, Some(StrNCpy(data)));
      table.SetVal(k, Some(StrNCpy(data)));
      InStore(table.Contents(), id);
    }

    /** The copy of more bytes behind a stored fragment. */
    method ExtendFragment(id: StreamId, lead: Text)
      requires Valid() && id in Fragments() && |Fragments()[id]| + |lead| < CAPACITY
      modifies table.Repr()
      ensures Valid() && Fragments() == old(Fragments())[id := old(Fragments()[id]) + StrNCpy(lead)]
      ensures table.Repr() == old(table.Repr()) && table.nBuckets == old(table.nBuckets) && Others(id)
        == old(Others(id))
    {
      hide Placed, NonEmpty, Meaning;
      ghost var m := table.Contents();
      table.KeyAt(id);
      var k := table.Get(id);
      var s := table.vals[k].value + StrNCpy(lead);
      StorePut(m, id, s);
      table.SetVal(k, Some(s));
      assert table.Contents() == m[id := Some(s)];
    }

    /** remove_fragment */
    method RemoveFragment(id: StreamId)
      requires Valid()
      modifies table.Repr()
      ensures Valid() && Fragments() == old(Fragments()) - {id}
      ensures table.Repr() == old(table.Repr()) && table.nBuckets == old(table.nBuckets) && Others(id)
        == old(Others(id))
    {
      hide Placed, NonEmpty, Meaning, NoNull, StoreOf;
      InStore(table.Contents(), id);
      ghost var m := table.Contents();
      StoreRemove(m, id);
      var k := table.Get(id);
      if k != table.nBuckets {
        table.Del(k);
        table.SetVal(k, None);
      }
      assert table.Contents() == m - {id};
      InStore(table.Contents(), id);
    }
  }

  lemma MapUpdated<K, V>(m: map<K, V>, n: map<K, V>, key: K, val: V)
    requires n - {key} == m - {key}
    ensures n[key := val] == m[key := val]
  {
    assert n.Keys + {key} == (n - {key}).Keys + {key} == (m - {key}).Keys + {key} == m.Keys + {key};
    assert n[key := val].Keys == m[key := val].Keys;
    forall k | k in n && k != key ensures k in m && m[k] == n[k] {
      assert k in n - {key} && (n - {key})[k] == (m - {key})[k];
    }
  }

  lemma InStore(m: map<StreamId, Option<Text>>, id: StreamId)
    requires NoNull(m)
    ensures id in StoreOf(m) <==> id in m
  {
  }
}
