/** `kv_table`: a table bound to one namespace of the host store, whose `put` and
    `erase` write through the host intrinsics step by step. */
module Table {
  import opened Keys
  import opened Outcomes
  import opened Prefixes
  import opened Framing
  import opened Schema
  import opened Host

  class KvTable<R> {
    const conf: TableConf<R>
    /** The (database, contract) namespace the table lives in. */
    const host: KvHost
    /** The prefixes `setup` gave the primary index and each secondary index. */
    const primaryPrefix: Key
    const secondaryPrefixes: seq<Key>

    ghost predicate Valid()
      reads this, host
    {
      && host.Valid()
      && primaryPrefix == PrimaryPrefix(conf)
      && |secondaryPrefixes| == |conf.secondaries|
      && (forall i :: 0 <= i < |conf.secondaries| ==> secondaryPrefixes[i] == SecondaryPrefix(conf, i))
    }

    /** `init`: records the table and its indices, and runs `setup` on each index. */
    constructor (table: Name, primary: Index<R>, secondaries: seq<Index<R>>, codec: Codec<R>, host: KvHost)
      requires host.Valid()
      ensures Valid()
      ensures conf == TableConf(table, primary, secondaries, codec) && this.host == host
    {
      conf := TableConf(table, primary, secondaries, codec);
      this.host := host;
      primaryPrefix := Setup(table, primary);
      var prefixes: seq<Key> := [];
      for i := 0 to |secondaries|
        invariant |prefixes| == i
        invariant forall j :: 0 <= j < i ==> prefixes[j] == Setup(table, secondaries[j])
      {
        prefixes := prefixes + [Setup(table, secondaries[i])];
      }
      secondaryPrefixes := prefixes;
    }

    /** `put_secondary`: writes the secondary entries of `v`, stored under `tk`;
        `prior` is the record `tk` held before, if any. */
    method PutSecondary(tk: Key, v: R, prior: Option<R>) returns (r: Outcome)
      requires Valid()
      modifies host`data, host`keys
      ensures Valid()
      ensures r.Fail? <==> PutSecondaries(conf, old(host.data), tk, v, prior, 0).Failure?
      ensures r.Fail? ==> r.error == PutSecondaries(conf, old(host.data), tk, v, prior, 0).error
      ensures r.Pass? ==> host.data == PutSecondaries(conf, old(host.data), tk, v, prior, 0).value
    {
      var i := 0;
      while i < |conf.secondaries|
        invariant i <= |conf.secondaries|
        invariant Valid()
        invariant PutSecondaries(conf, host.data, tk, v, prior, i) == PutSecondaries(conf, old(host.data), tk, v, prior, 0)
      {
        var sk := TableKey(secondaryPrefixes[i], conf.secondaries[i].keyOf(v));
        var found := host.Get(sk);
        if prior.None? {
          if found.Some? {
            return Fail(DuplicateSecondary);
          }
          host.Set(sk, tk);
        } else if found.Some? {
          if found.value != tk {
            return Fail(SecondaryInUse);
          }
        } else {
          var oldKey := TableKey(secondaryPrefixes[i], conf.secondaries[i].keyOf(prior.value));
          host.Erase(oldKey);
          host.Set(sk, tk);
        }
        i := i + 1;
      }
      r := Pass;
    }

    /** `put(value)`: stores `v` under its primary key, keeping the secondary indices. */
    method Put(v: R) returns (r: Outcome)
      requires Valid()
      modifies host`data, host`keys
      ensures Valid()
      ensures r.Fail? <==> PutSpec(conf, old(host.data), v).Failure?
      ensures r.Fail? ==> r.error == PutSpec(conf, old(host.data), v).error
      ensures r.Pass? ==> host.data == PutSpec(conf, old(host.data), v).value
    {
      var tk := TableKey(primaryPrefix, conf.primary.keyOf(v));
      var found := host.Get(tk);
      var prior: Option<R> := None;
      if found.Some? {
        var stored := Deserialize(conf.codec, found.value);
        if stored.Failure? {
          return Fail(stored.error);
        }
        prior := Some(stored.value);
      }
      r := PutSecondary(tk, v, prior);
      if r.Fail? {
        return;
      }
      host.Set(tk, Serialize(conf.codec, v));
    }

    /** The loop of `erase(value)`: removes the entry of `v` from each secondary index. */
    method EraseSecondaryEntries(v: R)
      requires Valid()
      modifies host`data, host`keys
      ensures Valid()
      ensures host.data == EraseSecondaries(conf, old(host.data), v, 0)
    {
      for i := 0 to |conf.secondaries|
        invariant Valid()
        invariant EraseSecondaries(conf, host.data, v, i) == EraseSecondaries(conf, old(host.data), v, 0)
      {
        EraseSecondariesStep(conf, host.data, v, i);
        host.Erase(TableKey(secondaryPrefixes[i], conf.secondaries[i].keyOf(v)));
      }
    }

    /** `erase(value)`: when `v`'s primary key is stored, removes the secondary entries
        computed from `v`, then the record. */
    method Erase(v: R)
      requires Valid()
      modifies host`data, host`keys
      ensures Valid()
      ensures host.data == EraseSpec(conf, old(host.data), v)
    {
      var tk := TableKey(primaryPrefix, conf.primary.keyOf(v));
      var found := host.Get(tk);
      if found.None? {
        return;
      }
      EraseSecondaryEntries(v);
      host.Erase(tk);
    }
  }
}
