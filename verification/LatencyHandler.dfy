/** calculate_latency on the real table: a hash table from keys to records, and a histogram log. */
module LatencyHandler {
  import opened Bytes
  import opened Options
  import opened FixDetails
  import opened Latency
  import opened KHash
  import opened Probing

  class LatencyHandler {
    const table: HashTable<Text, Option<Record>>

    /** The values passed to hdr_record_value. */
    var histogram: seq<int>

    ghost predicate Valid()
      reads this, table, table.Repr()
    {
      table.Valid() && OwnKeys(table.Contents())
    }

    constructor (hash: Text -> nat)
      ensures Valid() && fresh(table.Repr()) && fresh(table)
      ensures table.Contents() == map[] && histogram == []
    {
      table := new HashTable(hash);
      histogram := [];
    }

    /** The bucket of a completed request: its record pointer is cleared and its key deleted. */
    method Forget(k: nat, ghost key: Text)
      requires table.Valid() && key in table.at && table.at[key] == k
      modifies table.Repr()
      ensures table.Valid() && table.Contents() == old(table.Contents()) - {key}
      ensures table.Repr() == old(table.Repr())
      ensures table.nBuckets == old(table.nBuckets) && table.size <= old(table.size)
    {
      hide Placed, NonEmpty, Meaning;
      PutLive(table, key, k);
      table.SetVal(k, None);
      table.Del(k);
    }

    /** A message whose key is absent: a bucket that was empty (ret 1) or deleted (ret 2) takes its record. */
    method Remember(key: Text, record: Record) returns (k: nat, ret: int)
      requires table.Valid() && key !in table.at && table.nBuckets <= MAX_BUCKETS / 2 && table.size < MANY_KEYS
      modifies table.Repr()
      ensures table.Valid() && table.Contents() == old(table.Contents())[key := Some(record)]
      ensures forall o :: o in table.Repr() ==> o in old(table.Repr()) || fresh(o)
      ensures table.nBuckets <= MAX_BUCKETS / 2 && table.size == old(table.size) + 1
      ensures ret in {1, 2} && key in table.at && table.at[key] == k
      ensures old(table.nOccupied < table.upperBound) ==>
        && !LiveAt(old(table.flags[..]), k)
        && table.nOccupied == old(table.nOccupied) + (if ret == 1 then 1 else 0)
    {
      hide Placed, NonEmpty, Meaning, Vacancy, PutIn;
      ghost var flags := table.flags[..];
      k, ret := table.Put(key);
      if old(table.nOccupied < table.upperBound) {
        ghost var s: nat :| k == Probe(table.hash(key), s, table.nBuckets) && Vacancy(flags, table.hash(key), s);
        VacancyFree(flags, table.hash(key), s);
      }
      PutLive(table, key, k);
      table.SetVal(k, Some(record));
    }

    /** calculate_latency */
    method CalculateLatency(msg: Summary)
      requires Valid() && table.nBuckets <= MAX_BUCKETS / 2 && table.size < MANY_KEYS
      modifies this, table.Repr()
      ensures Valid() && table.nBuckets <= MAX_BUCKETS / 2 && table.size <= old(table.size) + 1
      ensures table.Contents() == Next(old(table.Contents()), msg)
      ensures histogram == old(histogram) + Recorded(old(table.Contents()), msg)
      ensures forall o :: o in table.Repr() ==> o in old(table.Repr()) || fresh(o)
    {
      hide Placed, NonEmpty, Meaning, OwnKeys, PutIn, Vacancy;
      ghost var t := table.Contents();
      var key := CString(msg.key);
      OwnKeysKept(t, msg);
      assert histogram + [] == histogram;
      var k := table.Get(key);
      if k != table.nBuckets {
        var record := table.vals[k];
        if record.Some? && IsComplement(msg.msgType, record.value.msgType) {
          var latency;
          if IsBegin(msg.msgType) {
            latency := Diff(msg.sec, msg.nsec, record.value.sec, record.value.nsec);
          } else {
            latency := Diff(record.value.sec, record.value.nsec, msg.sec, msg.nsec);
          }
          Forget(k, key);
          histogram := histogram + [latency];
        }
      } else {
        var bucket, ret := Remember(key, RecordOf(msg));
      }
    }
  }

  /** A whole run of calculate_latency: table and histogram end as the run over the messages says. */
  method CalculateAll(handler: LatencyHandler, msgs: seq<Summary>)
    requires handler.Valid() && handler.table.nBuckets <= MAX_BUCKETS / 2
    requires handler.table.size + |msgs| <= MANY_KEYS
    modifies handler, handler.table.Repr()
    ensures handler.Valid()
    ensures var r := Run(old(handler.table.Contents()), msgs);
      handler.table.Contents() == r.table && handler.histogram == old(handler.histogram) + r.log
  {
    hide Placed, NonEmpty, Meaning, OwnKeys, Run, Next, Recorded;
    ghost var t := handler.table.Contents();
    ghost var log: seq<int> := [];
    assert msgs[..0] == [];
    RunNil(t);
    assert handler.histogram + [] == handler.histogram;
    for i := 0 to |msgs|
      invariant handler.Valid() && handler.table.nBuckets <= MAX_BUCKETS / 2
      invariant handler.table.size <= old(handler.table.size) + i
      invariant forall o :: o in handler.table.Repr() ==> o in old(handler.table.Repr()) || fresh(o)
      invariant Run(t, msgs[..i]) == Result(handler.table.Contents(), log)
      invariant handler.histogram == old(handler.histogram) + log
    {
      RunSnoc(t, msgs[..i], msgs[i]);
      assert msgs[..i + 1] == msgs[..i] + [msgs[i]];
      ghost var recorded := Recorded(handler.table.Contents(), msgs[i]);
      assert old(handler.histogram) + log + recorded == old(handler.histogram) + (log + recorded);
      handler.CalculateLatency(msgs[i]);
      log := log + recorded;
    }
    assert msgs[..|msgs|] == msgs;
  }

  /** The bucket that put returns is live and holds the key. */
  lemma PutLive(table: HashTable<Text, Option<Record>>, key: Text, k: nat)
    requires table.Valid() && key in table.at && table.at[key] == k
    ensures k < table.nBuckets && LiveAt(table.flags[..], k) && table.keys[k] == key
  {
  }
}
