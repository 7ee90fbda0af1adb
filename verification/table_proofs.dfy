/** The invariant `put` and `erase` keep: every stored record has exactly one entry in
    each secondary index, and every secondary entry leads back to its record. */
module TableProofs {
  import opened Keys
  import opened Outcomes
  import opened Prefixes
  import opened Framing
  import opened Schema

  /** The records of the table: every primary entry that deserializes. */
  ghost function Records<R>(conf: TableConf<R>, db: Store): map<Key, R> {
    map k | k in db && HasPrefix(k, PrimaryPrefix(conf)) && Deserialize(conf.codec, db[k]).Success?
      :: Deserialize(conf.codec, db[k]).value
  }

  /** Every primary entry deserializes to a record whose primary key is that entry's key. */
  ghost predicate PrimaryOk<R>(conf: TableConf<R>, db: Store) {
    forall k :: k in db && HasPrefix(k, PrimaryPrefix(conf)) ==>
      Deserialize(conf.codec, db[k]).Success? && PrimaryKey(conf, Deserialize(conf.codec, db[k]).value) == k
  }

  /** Secondary index `i` of `db` is exactly the inverse of the records `recs`. */
  ghost predicate IndexOk<R>(conf: TableConf<R>, db: Store, i: nat, recs: map<Key, R>)
    requires i < |conf.secondaries|
  {
    && (forall k :: k in recs ==> SecondaryKey(conf, i, recs[k]) in db && db[SecondaryKey(conf, i, recs[k])] == k)
    && (forall s :: s in db && HasPrefix(s, SecondaryPrefix(conf, i)) ==>
          db[s] in recs && SecondaryKey(conf, i, recs[db[s]]) == s)
  }

  ghost predicate Consistent<R(!new)>(conf: TableConf<R>, db: Store) {
    && WellFormed(conf)
    && PrimaryOk(conf, db)
    && (forall i :: 0 <= i < |conf.secondaries| ==> IndexOk(conf, db, i, Records(conf, db)))
  }

  /** `db` and `db'` hold the same entries under prefix `p`. */
  ghost predicate AgreeOn(db: Store, db': Store, p: Key) {
    forall k :: HasPrefix(k, p) ==> (k in db <==> k in db') && (k in db ==> db[k] == db'[k])
  }

  /** Another record than the one stored under `tk` already has `v`'s key in index `j`. */
  ghost predicate Collides<R>(conf: TableConf<R>, recs: map<Key, R>, tk: Key, v: R, j: nat)
    requires j < |conf.secondaries|
  {
    exists k :: k in recs && k != tk && SecondaryKey(conf, j, recs[k]) == SecondaryKey(conf, j, v)
  }

  lemma PrefixesDisjoint<R(!new)>(conf: TableConf<R>, k: Key)
    requires WellFormed(conf)
    ensures forall i :: 0 <= i < |conf.secondaries| && HasPrefix(k, SecondaryPrefix(conf, i)) ==>
              !HasPrefix(k, PrimaryPrefix(conf))
    ensures forall i, j ::
              (0 <= i < |conf.secondaries| && 0 <= j < |conf.secondaries| &&
               HasPrefix(k, SecondaryPrefix(conf, i)) && HasPrefix(k, SecondaryPrefix(conf, j))) ==> i == j
  {
    forall i | 0 <= i < |conf.secondaries| && HasPrefix(k, SecondaryPrefix(conf, i))
      ensures !HasPrefix(k, PrimaryPrefix(conf))
    {
      if HasPrefix(k, PrimaryPrefix(conf)) {
        SetupIsolates(conf.table, conf.secondaries[i], conf.primary, k);
      }
    }
    forall i, j | 0 <= i < |conf.secondaries| && 0 <= j < |conf.secondaries| &&
        HasPrefix(k, SecondaryPrefix(conf, i)) && HasPrefix(k, SecondaryPrefix(conf, j))
      ensures i == j
    {
      SetupIsolates(conf.table, conf.secondaries[i], conf.secondaries[j], k);
    }
  }

  lemma IndexFrame<R>(conf: TableConf<R>, db: Store, db': Store, i: nat, recs: map<Key, R>)
    requires i < |conf.secondaries|
    requires IndexOk(conf, db, i, recs)
    requires AgreeOn(db, db', SecondaryPrefix(conf, i))
    ensures IndexOk(conf, db', i, recs)
  {
    forall k | k in recs
      ensures SecondaryKey(conf, i, recs[k]) in db' && db'[SecondaryKey(conf, i, recs[k])] == k
    {
      assert HasPrefix(SecondaryKey(conf, i, recs[k]), SecondaryPrefix(conf, i));
    }
  }

  /** A new record's entry in index `i`: its key is free, and writing it extends the inverse. */
  lemma InsertStep<R>(conf: TableConf<R>, db: Store, i: nat, recs: map<Key, R>, tk: Key, v: R)
    requires i < |conf.secondaries|
    requires IndexOk(conf, db, i, recs) && tk !in recs
    ensures SecondaryKey(conf, i, v) in db <==> Collides(conf, recs, tk, v, i)
    ensures SecondaryKey(conf, i, v) !in db ==>
              IndexOk(conf, db[SecondaryKey(conf, i, v) := tk], i, recs[tk := v])
  {
    var sk := SecondaryKey(conf, i, v);
    if sk in db {
      assert HasPrefix(sk, SecondaryPrefix(conf, i));
      assert db[sk] in recs && SecondaryKey(conf, i, recs[db[sk]]) == sk;
    }
  }

  /** An existing record's entry in index `i` when its new key is already stored: it is
      stored for this record exactly when no other record holds it, and then nothing changes. */
  lemma UpdateKeptStep<R>(conf: TableConf<R>, db: Store, i: nat, recs: map<Key, R>, tk: Key, v: R)
    requires i < |conf.secondaries|
    requires IndexOk(conf, db, i, recs) && tk in recs
    requires SecondaryKey(conf, i, v) in db
    ensures db[SecondaryKey(conf, i, v)] != tk <==> Collides(conf, recs, tk, v, i)
    ensures db[SecondaryKey(conf, i, v)] == tk ==> IndexOk(conf, db, i, recs[tk := v])
  {
    var sk := SecondaryKey(conf, i, v);
    assert HasPrefix(sk, SecondaryPrefix(conf, i));
    assert db[sk] in recs && SecondaryKey(conf, i, recs[db[sk]]) == sk;
  }

  /** An existing record whose new key in index `i` is free: the old entry is moved. */
  lemma UpdateMovedStep<R>(conf: TableConf<R>, db: Store, i: nat, recs: map<Key, R>, tk: Key, v: R)
    requires i < |conf.secondaries|
    requires IndexOk(conf, db, i, recs) && tk in recs
    requires SecondaryKey(conf, i, v) !in db
    ensures !Collides(conf, recs, tk, v, i)
    ensures IndexOk(conf, (db - {SecondaryKey(conf, i, recs[tk])})[SecondaryKey(conf, i, v) := tk], i, recs[tk := v])
  {
    var sk := SecondaryKey(conf, i, v);
    var osk := SecondaryKey(conf, i, recs[tk]);
    var db' := (db - {osk})[sk := tk];
    var recs' := recs[tk := v];
    forall s | s in db' && HasPrefix(s, SecondaryPrefix(conf, i))
      ensures db'[s] in recs' && SecondaryKey(conf, i, recs'[db'[s]]) == s
    {
      if s != sk {
        assert s in db && s != osk;
        assert db[s] in recs && SecondaryKey(conf, i, recs[db[s]]) == s;
      }
    }
  }

  /** One step of `put_secondary` changed only entries under the prefix of index `i`
      and made index `i` reflect the new records: the induction hypothesis moves on. */
  lemma StepPreserves<R(!new)>(conf: TableConf<R>, db0: Store, db: Store, next: Store,
                               recs: map<Key, R>, recs': map<Key, R>, i: nat)
    requires WellFormed(conf) && i < |conf.secondaries|
    requires forall j :: 0 <= j < i ==> IndexOk(conf, db, j, recs')
    requires forall j :: i <= j < |conf.secondaries| ==> IndexOk(conf, db, j, recs)
    requires AgreeOn(db0, db, PrimaryPrefix(conf))
    requires IndexOk(conf, next, i, recs')
    requires forall k :: !HasPrefix(k, SecondaryPrefix(conf, i)) ==>
               (k in db <==> k in next) && (k in db ==> db[k] == next[k])
    ensures forall j :: 0 <= j < i + 1 ==> IndexOk(conf, next, j, recs')
    ensures forall j :: i + 1 <= j < |conf.secondaries| ==> IndexOk(conf, next, j, recs)
    ensures AgreeOn(db0, next, PrimaryPrefix(conf))
  {
    forall j | 0 <= j < |conf.secondaries| && j != i
      ensures AgreeOn(db, next, SecondaryPrefix(conf, j))
    {
      forall k | HasPrefix(k, SecondaryPrefix(conf, j))
        ensures !HasPrefix(k, SecondaryPrefix(conf, i))
      {
        PrefixesDisjoint(conf, k);
      }
    }
    forall j | 0 <= j < i
      ensures IndexOk(conf, next, j, recs')
    {
      IndexFrame(conf, db, next, j, recs');
    }
    forall j | i < j < |conf.secondaries|
      ensures IndexOk(conf, next, j, recs)
    {
      IndexFrame(conf, db, next, j, recs);
    }
    forall k | HasPrefix(k, PrimaryPrefix(conf))
      ensures !HasPrefix(k, SecondaryPrefix(conf, i))
    {
      PrefixesDisjoint(conf, k);
    }
  }

  /** One index of `put_secondary`: it aborts exactly when another record holds `v`'s key
      in index `i`, and otherwise yields a store `next` in which index `i` too reflects
      the new records, the later indices and the primary entries being untouched. */
  lemma StepOnce<R(!new)>(conf: TableConf<R>, db0: Store, db: Store, recs: map<Key, R>, recs': map<Key, R>,
                          tk: Key, v: R, prior: Option<R>, i: nat)
    returns (next: Store)
    requires WellFormed(conf) && i < |conf.secondaries|
    requires recs' == recs[tk := v] && prior == if tk in recs then Some(recs[tk]) else None
    requires forall j :: 0 <= j < i ==> IndexOk(conf, db, j, recs')
    requires forall j :: i <= j < |conf.secondaries| ==> IndexOk(conf, db, j, recs)
    requires AgreeOn(db0, db, PrimaryPrefix(conf))
    ensures Collides(conf, recs, tk, v, i) ==>
              PutSecondaries(conf, db, tk, v, prior, i) ==
              Failure(if tk in recs then SecondaryInUse else DuplicateSecondary)
    ensures !Collides(conf, recs, tk, v, i) ==>
              && PutSecondaries(conf, db, tk, v, prior, i) == PutSecondaries(conf, next, tk, v, prior, i + 1)
              && (forall j :: 0 <= j < i + 1 ==> IndexOk(conf, next, j, recs'))
              && (forall j :: i + 1 <= j < |conf.secondaries| ==> IndexOk(conf, next, j, recs))
              && AgreeOn(db0, next, PrimaryPrefix(conf))
  {
    var sk := SecondaryKey(conf, i, v);
    assert HasPrefix(sk, SecondaryPrefix(conf, i));
    assert IndexOk(conf, db, i, recs);
    if tk !in recs {
      InsertStep(conf, db, i, recs, tk, v);
      next := if sk in db then db else db[sk := tk];
    } else if sk in db {
      UpdateKeptStep(conf, db, i, recs, tk, v);
      next := db;
    } else {
      UpdateMovedStep(conf, db, i, recs, tk, v);
      assert HasPrefix(SecondaryKey(conf, i, recs[tk]), SecondaryPrefix(conf, i));
      next := (db - {SecondaryKey(conf, i, recs[tk])})[sk := tk];
    }
    if !Collides(conf, recs, tk, v, i) {
      StepPreserves(conf, db0, db, next, recs, recs', i);
    }
  }

  /** `put_secondary` from index `i` on, over a store whose indices below `i` already
      reflect the new records `recs'` and whose others still reflect the old records
      `recs`: it aborts exactly when another record holds one of `v`'s remaining keys,
      and otherwise leaves every index reflecting `recs'` and the primary entries as they were. */
  lemma {:induction false} PutSecondariesCorrect<R(!new)>(
    conf: TableConf<R>, db0: Store, db: Store, recs: map<Key, R>, recs': map<Key, R>, tk: Key, v: R,
    prior: Option<R>, i: nat)
    requires WellFormed(conf) && i <= |conf.secondaries|
    requires recs' == recs[tk := v] && prior == if tk in recs then Some(recs[tk]) else None
    requires forall j :: 0 <= j < i ==> IndexOk(conf, db, j, recs')
    requires forall j :: i <= j < |conf.secondaries| ==> IndexOk(conf, db, j, recs)
    requires AgreeOn(db0, db, PrimaryPrefix(conf))
    ensures var r := PutSecondaries(conf, db, tk, v, prior, i);
      && (r.Failure? <==> exists j :: i <= j < |conf.secondaries| && Collides(conf, recs, tk, v, j))
      && (r.Failure? ==> r.error == if tk in recs then SecondaryInUse else DuplicateSecondary)
      && (r.Success? ==> AgreeOn(db0, r.value, PrimaryPrefix(conf)))
      && (r.Success? ==> forall j :: 0 <= j < |conf.secondaries| ==> IndexOk(conf, r.value, j, recs'))
    decreases |conf.secondaries| - i
  {
    if i == |conf.secondaries| {
      return;
    }
    var next := StepOnce(conf, db0, db, recs, recs', tk, v, prior, i);
    if Collides(conf, recs, tk, v, i) {
      return;
    }
    PutSecondariesCorrect(conf, db0, next, recs, recs', tk, v, prior, i + 1);
    if PutSecondaries(conf, next, tk, v, prior, i + 1).Failure? {
      var j :| i + 1 <= j < |conf.secondaries| && Collides(conf, recs, tk, v, j);
    }
  }

  /** Under `PrimaryOk`, the records are exactly the primary entries. */
  lemma RecordsDomain<R>(conf: TableConf<R>, db: Store, k: Key)
    requires PrimaryOk(conf, db)
    ensures k in Records(conf, db) <==> k in db && HasPrefix(k, PrimaryPrefix(conf))
  {
  }

  /** `put(v)` on a consistent store aborts exactly when another record already holds
      one of `v`'s secondary keys; otherwise the store stays consistent and the record
      under `v`'s primary key becomes `v`, all other records unchanged. */
  lemma PutCorrect<R(!new)>(conf: TableConf<R>, db: Store, v: R)
    requires Consistent(conf, db)
    ensures var r := PutSpec(conf, db, v);
      && (r.Failure? <==> exists j :: 0 <= j < |conf.secondaries| &&
                                     Collides(conf, Records(conf, db), PrimaryKey(conf, v), v, j))
      && (r.Failure? ==> r.error == if PrimaryKey(conf, v) in db then SecondaryInUse else DuplicateSecondary)
      && (r.Success? ==> Consistent(conf, r.value))
      && (r.Success? ==> Records(conf, r.value) == Records(conf, db)[PrimaryKey(conf, v) := v])
  {
    var tk := PrimaryKey(conf, v);
    var recs := Records(conf, db);
    var recs' := recs[tk := v];
    assert HasPrefix(tk, PrimaryPrefix(conf));
    RecordsDomain(conf, db, tk);
    var prior := if tk in recs then Some(recs[tk]) else None;
    PutSecondariesCorrect(conf, db, db, recs, recs', tk, v, prior, 0);
    var ps := PutSecondaries(conf, db, tk, v, prior, 0);
    assert PutSpec(conf, db, v) == (if ps.Failure? then Failure(ps.error) else Success(ps.value[tk := Serialize(conf.codec, v)]));
    if ps.Success? {
      PutWriteCorrect(conf, db, ps.value, v, recs');
    }
  }

  /** The last write of `put`: once every index reflects the new records and the primary
      entries are untouched, writing the serialized record under its primary key leaves
      the store consistent with the new records. */
  lemma PutWriteCorrect<R(!new)>(conf: TableConf<R>, db: Store, db1: Store, v: R, recs': map<Key, R>)
    requires Consistent(conf, db)
    requires recs' == Records(conf, db)[PrimaryKey(conf, v) := v]
    requires AgreeOn(db, db1, PrimaryPrefix(conf))
    requires forall j :: 0 <= j < |conf.secondaries| ==> IndexOk(conf, db1, j, recs')
    ensures var db' := db1[PrimaryKey(conf, v) := Serialize(conf.codec, v)];
      Consistent(conf, db') && Records(conf, db') == recs'
  {
    var tk := PrimaryKey(conf, v);
    var db' := db1[tk := Serialize(conf.codec, v)];
    assert HasPrefix(tk, PrimaryPrefix(conf));
    DeserializeSerialize(conf.codec, v);
    assert PrimaryOk(conf, db');
    forall k
      ensures k in Records(conf, db') <==> k in recs'
      ensures k in recs' ==> Records(conf, db')[k] == recs'[k]
    {
      RecordsDomain(conf, db, k);
      RecordsDomain(conf, db', k);
    }
    assert Records(conf, db') == recs';
    forall j | 0 <= j < |conf.secondaries|
      ensures IndexOk(conf, db', j, recs')
    {
      forall k | HasPrefix(k, SecondaryPrefix(conf, j))
        ensures k != tk
      {
        PrefixesDisjoint(conf, k);
      }
      IndexFrame(conf, db1, db', j, recs');
    }
  }

  /** Removing the entries of record `tk` from indices `i` and up, given through a value
      with the same secondary keys as the stored record. */
  lemma {:induction false} EraseSecondariesCorrect<R(!new)>(
    conf: TableConf<R>, db0: Store, db: Store, recs: map<Key, R>, tk: Key, v: R, i: nat)
    requires WellFormed(conf) && i <= |conf.secondaries| && tk in recs
    requires forall j :: 0 <= j < |conf.secondaries| ==> SecondaryKey(conf, j, v) == SecondaryKey(conf, j, recs[tk])
    requires forall j :: 0 <= j < i ==> IndexOk(conf, db, j, recs - {tk})
    requires forall j :: i <= j < |conf.secondaries| ==> IndexOk(conf, db, j, recs)
    requires AgreeOn(db0, db, PrimaryPrefix(conf))
    ensures var r := EraseSecondaries(conf, db, v, i);
      && AgreeOn(db0, r, PrimaryPrefix(conf))
      && forall j :: 0 <= j < |conf.secondaries| ==> IndexOk(conf, r, j, recs - {tk})
    decreases |conf.secondaries| - i
  {
    if i == |conf.secondaries| {
      return;
    }
    var osk := SecondaryKey(conf, i, v);
    var next := db - {osk};
    assert IndexOk(conf, db, i, recs);
    assert HasPrefix(osk, SecondaryPrefix(conf, i));
    forall s | s in next && HasPrefix(s, SecondaryPrefix(conf, i))
      ensures next[s] in recs - {tk} && SecondaryKey(conf, i, (recs - {tk})[next[s]]) == s
    {
      assert db[s] in recs && SecondaryKey(conf, i, recs[db[s]]) == s;
    }
    assert IndexOk(conf, next, i, recs - {tk});
    StepPreserves(conf, db0, db, next, recs, recs - {tk}, i);
    EraseSecondariesCorrect(conf, db0, next, recs, tk, v, i + 1);
  }

  /** `erase(v)`, when `v` has the secondary keys of the record stored under its primary
      key (as the record read back from the table has), removes exactly that record and
      keeps the store consistent; when no record is stored there it changes nothing. */
  lemma EraseCorrect<R(!new)>(conf: TableConf<R>, db: Store, v: R)
    requires Consistent(conf, db)
    requires PrimaryKey(conf, v) in Records(conf, db) ==>
               forall j :: 0 <= j < |conf.secondaries| ==>
                 SecondaryKey(conf, j, v) == SecondaryKey(conf, j, Records(conf, db)[PrimaryKey(conf, v)])
    ensures PrimaryKey(conf, v) !in db ==> EraseSpec(conf, db, v) == db
    ensures Consistent(conf, EraseSpec(conf, db, v))
    ensures Records(conf, EraseSpec(conf, db, v)) == Records(conf, db) - {PrimaryKey(conf, v)}
  {
    var tk := PrimaryKey(conf, v);
    var recs := Records(conf, db);
    assert HasPrefix(tk, PrimaryPrefix(conf));
    RecordsDomain(conf, db, tk);
    if tk in db {
      EraseSecondariesCorrect(conf, db, db, recs, tk, v, 0);
      var es := EraseSecondaries(conf, db, v, 0);
      var db' := es - {tk};
      assert PrimaryOk(conf, db');
      forall k
        ensures k in Records(conf, db') <==> k in recs - {tk}
        ensures k in recs - {tk} ==> Records(conf, db')[k] == recs[k]
      {
        RecordsDomain(conf, db, k);
        RecordsDomain(conf, db', k);
      }
      assert Records(conf, db') == recs - {tk};
      forall j | 0 <= j < |conf.secondaries|
        ensures IndexOk(conf, db', j, recs - {tk})
      {
        forall k | HasPrefix(k, SecondaryPrefix(conf, j))
          ensures k != tk
        {
          PrefixesDisjoint(conf, k);
        }
        IndexFrame(conf, es, db', j, recs - {tk});
      }
    } else {
      assert recs - {tk} == recs;
    }
  }

  /** `k` lies under none of the table's prefixes: it belongs to another table of the
      same namespace, or to no table. */
  ghost predicate OutsideTable<R>(conf: TableConf<R>, k: Key) {
    && !HasPrefix(k, PrimaryPrefix(conf))
    && forall i :: 0 <= i < |conf.secondaries| ==> !HasPrefix(k, SecondaryPrefix(conf, i))
  }

  /** `put_secondary` from index `i` on touches only keys under the prefixes of indices
      `i` and up. */
  lemma {:induction false} PutSecondariesFrame<R>(conf: TableConf<R>, db: Store, tk: Key, v: R,
                                                  prior: Option<R>, i: nat, k: Key)
    requires i <= |conf.secondaries|
    requires forall j :: i <= j < |conf.secondaries| ==> !HasPrefix(k, SecondaryPrefix(conf, j))
    requires PutSecondaries(conf, db, tk, v, prior, i).Success?
    ensures var r := PutSecondaries(conf, db, tk, v, prior, i).value;
            (k in r <==> k in db) && (k in db ==> r[k] == db[k])
    decreases |conf.secondaries| - i
  {
    if i < |conf.secondaries| {
      var sk := SecondaryKey(conf, i, v);
      assert k != sk by {
        assert HasPrefix(sk, SecondaryPrefix(conf, i));
      }
      if prior.None? {
        PutSecondariesFrame(conf, db[sk := tk], tk, v, prior, i + 1, k);
      } else if sk in db {
        PutSecondariesFrame(conf, db, tk, v, prior, i + 1, k);
      } else {
        var old_sk := SecondaryKey(conf, i, prior.value);
        assert k != old_sk by {
          assert HasPrefix(old_sk, SecondaryPrefix(conf, i));
        }
        PutSecondariesFrame(conf, (db - {old_sk})[sk := tk], tk, v, prior, i + 1, k);
      }
    }
  }

  /** A successful `put(v)`, on any store, leaves every key outside the table's prefixes
      as it was: other tables sharing the namespace are not touched. */
  lemma PutFrame<R>(conf: TableConf<R>, db: Store, v: R)
    requires PutSpec(conf, db, v).Success?
    ensures forall k :: OutsideTable(conf, k) ==>
              (k in PutSpec(conf, db, v).value <==> k in db) &&
              (k in db ==> PutSpec(conf, db, v).value[k] == db[k])
  {
    var tk := PrimaryKey(conf, v);
    var prior := if tk in db then Some(Deserialize(conf.codec, db[tk]).value) else None;
    forall k | OutsideTable(conf, k)
      ensures (k in PutSpec(conf, db, v).value <==> k in db) &&
              (k in db ==> PutSpec(conf, db, v).value[k] == db[k])
    {
      assert k != tk by {
        assert HasPrefix(tk, PrimaryPrefix(conf));
      }
      PutSecondariesFrame(conf, db, tk, v, prior, 0, k);
    }
  }

  /** `erase(v)`, on any store, removes exactly the primary entry of `v` and the secondary
      entries computed from `v`, and only when the primary entry is stored; every other
      entry keeps its value. */
  lemma EraseFrame<R>(conf: TableConf<R>, db: Store, v: R)
    ensures forall k :: k in EraseSpec(conf, db, v) <==>
              k in db &&
              (PrimaryKey(conf, v) in db ==>
                 k != PrimaryKey(conf, v) &&
                 forall j :: 0 <= j < |conf.secondaries| ==> k != SecondaryKey(conf, j, v))
    ensures forall k :: k in EraseSpec(conf, db, v) ==> EraseSpec(conf, db, v)[k] == db[k]
  {
  }

  /** Reading through the primary index of a consistent store finds exactly the records. */
  lemma GetPrimaryCorrect<R(!new)>(conf: TableConf<R>, db: Store, k: Key)
    requires Consistent(conf, db)
    ensures var key := TableKey(PrimaryPrefix(conf), k);
      Get(conf, db, conf.primary, k) ==
        if key in Records(conf, db) then Success(Some(Records(conf, db)[key])) else Success(None)
  {
    RecordsDomain(conf, db, TableKey(PrimaryPrefix(conf), k));
  }

  /** Reading through secondary index `i` of a consistent store never aborts, finds a
      record exactly when some record has key `y` in that index, and finds that record. */
  lemma GetSecondaryCorrect<R(!new)>(conf: TableConf<R>, db: Store, i: nat, y: Key)
    requires Consistent(conf, db) && i < |conf.secondaries|
    ensures var r := Get(conf, db, conf.secondaries[i], y);
      && r.Success?
      && (r.value.Some? <==> exists k :: k in Records(conf, db) && conf.secondaries[i].keyOf(Records(conf, db)[k]) == y)
      && (r.value.Some? ==> conf.secondaries[i].keyOf(r.value.value) == y &&
                            PrimaryKey(conf, r.value.value) in Records(conf, db) &&
                            Records(conf, db)[PrimaryKey(conf, r.value.value)] == r.value.value)
  {
    var recs := Records(conf, db);
    var idx := conf.secondaries[i];
    var key := TableKey(SecondaryPrefix(conf, i), y);
    assert !IsPrimary(conf, idx);
    assert HasPrefix(key, SecondaryPrefix(conf, i));
    assert IndexOk(conf, db, i, recs);
    if key in db {
      var pk := db[key];
      assert pk in recs && SecondaryKey(conf, i, recs[pk]) == key;
      RecordsDomain(conf, db, pk);
      TableKeyInjective(SecondaryPrefix(conf, i), idx.keyOf(recs[pk]), y);
    } else {
      forall k | k in recs
        ensures idx.keyOf(recs[k]) != y
      {
        assert SecondaryKey(conf, i, recs[k]) in db;
      }
    }
  }

  /** After a successful `put(v)`, `v` is found under its key in every index. */
  lemma PutThenGet<R(!new)>(conf: TableConf<R>, db: Store, v: R)
    requires Consistent(conf, db) && PutSpec(conf, db, v).Success?
    ensures Get(conf, PutSpec(conf, db, v).value, conf.primary, conf.primary.keyOf(v)) == Success(Some(v))
    ensures forall i :: 0 <= i < |conf.secondaries| ==>
              Get(conf, PutSpec(conf, db, v).value, conf.secondaries[i], conf.secondaries[i].keyOf(v)) == Success(Some(v))
  {
    var db' := PutSpec(conf, db, v).value;
    PutCorrect(conf, db, v);
    GetPrimaryCorrect(conf, db', conf.primary.keyOf(v));
    forall i | 0 <= i < |conf.secondaries|
      ensures Get(conf, db', conf.secondaries[i], conf.secondaries[i].keyOf(v)) == Success(Some(v))
    {
      var recs := Records(conf, db');
      var tk := PrimaryKey(conf, v);
      GetSecondaryCorrect(conf, db', i, conf.secondaries[i].keyOf(v));
      assert IndexOk(conf, db', i, recs);
      assert tk in recs && conf.secondaries[i].keyOf(recs[tk]) == conf.secondaries[i].keyOf(v);
      var w := Get(conf, db', conf.secondaries[i], conf.secondaries[i].keyOf(v)).value.value;
      assert SecondaryKey(conf, i, recs[tk]) == SecondaryKey(conf, i, w);
      assert db'[SecondaryKey(conf, i, recs[tk])] == tk;
      assert db'[SecondaryKey(conf, i, w)] == PrimaryKey(conf, w);
    }
  }
}
