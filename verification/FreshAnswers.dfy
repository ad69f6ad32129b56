/**
 What the cache answers under refreshes, in terms of the databases behind the readers: when every stored answer
 is what the readers of its lookup answer, a hit is what the databases now in the slots answer.
 */
module FreshAnswers {
  import opened Bytes
  import opened Refresh
  import opened RefreshSafety
  import Fields
  import Provider
  import Readers

  // The database behind each reader, and what a lookup asks of databases.
  datatype Contents = Contents(
    of: ReaderId -> Readers.Db,
    seekOnly: bool,
    formatter: Fields.Formatter,
    address: bytes -> Option<bytes>,
    fields: seq<Fields.FieldDef>)
  {
    ghost predicate Valid()
    {
      forall r :: of(r).Valid()
    }

    function Databases(readers: seq<ReaderId>): (dbs: seq<Readers.Db>)
      ensures |dbs| == |readers| && forall i :: 0 <= i < |readers| ==> dbs[i] == of(readers[i])
    {
      seq(|readers|, i requires 0 <= i < |readers| => of(readers[i]))
    }

    /** What the databases of some readers answer for a key, in their order. */
    function Answer(readers: seq<ReaderId>, key: bytes): Provider.Answer
      requires Valid()
    {
      Provider.Lookup(Databases(readers), seekOnly, formatter, address(key), fields)
    }

    /** A stored answer is what the readers of its lookup answer, and their lookup did not fail. */
    ghost predicate Explains(c: CacheRecord)
      requires Valid()
    {
      c.Stored? && c.put.Put? ==>
        var a := Answer(ReadersOf(c.used), c.put.key);
        a.error.None? && a.fields == c.put.fields && a.found == c.put.found
    }

    ghost predicate ExplainsAll(log: seq<CacheRecord>)
      requires Valid()
    {
      forall i :: 0 <= i < |log| ==> Explains(log[i])
    }
  }

  /** The readers a lookup used, in order. */
  function ReadersOf(used: seq<Use>): (readers: seq<ReaderId>)
    ensures |readers| == |used| && forall k :: 0 <= k < |used| ==> readers[k] == used[k].reader
  {
    seq(|used|, k requires 0 <= k < |used| => used[k].reader)
  }

  // -------------------------------------------------------------------------
  // While the provider is open, lookups read every slot
  // -------------------------------------------------------------------------

  ghost predicate Complete(s: State)
  {
    s.pool.open ==>
      && (forall t :: t in s.lookups ==> s.lookups[t].limit == |s.pool.slots|)
      && (forall i :: 0 <= i < |s.log| && s.log[i].Stored? ==> |s.log[i].used| == |s.pool.slots|)
  }

  lemma StepKeepsComplete(s: State, a: Action)
    requires Complete(s) && Enabled(s, a)
    ensures Complete(Apply(s, a))
  {
  }

  lemma {:induction false} RunIsComplete(paths: seq<bytes>, actions: seq<Action>)
    requires Runs(paths, actions)
    ensures Complete(After(paths, actions))
    decreases |actions|
  {
    hide Apply, Enabled, Complete;
    if actions == [] {
      NothingReadYet(paths);
    } else {
      var front := actions[..|actions| - 1];
      RunIsComplete(paths, front);
      StepKeepsComplete(After(paths, front), actions[|actions| - 1]);
    }
  }

  lemma NothingReadYet(paths: seq<bytes>)
    ensures Complete(Init(paths))
  {
  }

  // -------------------------------------------------------------------------
  // Hits are what the databases in the slots answer
  // -------------------------------------------------------------------------

  /**
   While the provider is open, no refresh is between its swaps and its reset, and no lookup was in flight across
   one, every hit of the cache is the answer of the databases now in the slots.
   */
  lemma HitIsAnswerOfSlots(paths: seq<bytes>, actions: seq<Action>, maxEntries: nat, ttl: nat, key: bytes,
                           contents: Contents)
    requires Runs(paths, actions) && contents.Valid() && contents.ExplainsAll(After(paths, actions).log)
    requires AllReset(After(paths, actions)) && NoneSpans(After(paths, actions)) && After(paths, actions).pool.open
    requires HitAt(After(paths, actions), maxEntries, ttl, key).Some?
    ensures var s := After(paths, actions); var hit := HitAt(s, maxEntries, ttl, key).value;
            Provider.Answer(hit.fields, hit.found, None) == contents.Answer(s.pool.slots, key)
  {
    hide After, Runs, AllReset, NoneSpans, HitAt, Provider.Lookup;
    var i := HitsAreCurrent(paths, actions, maxEntries, ttl, key);
    RunIsComplete(paths, actions);
    var s := After(paths, actions);
    var c := s.log[i];
    assert contents.Explains(c);
    assert ReadersOf(c.used) == s.pool.slots by {
      forall k | 0 <= k < |c.used|
        ensures ReadersOf(c.used)[k] == s.pool.slots[k]
      {
        assert Current(s.pool, c.used[k]);
      }
    }
  }
}
