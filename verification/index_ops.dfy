/** The queries of one index (`kv_table::index`): point lookups, cursors at the
    ends and at bounds, and `range`. */
module IndexOps {
  import opened Keys
  import opened Outcomes
  import opened Schema
  import opened Host
  import opened Cursors
  import opened Positions

  /** `end()`: a cursor with no handle and end status. */
  method End<R>(host: KvHost, index: BoundIndex<R>) returns (it: Iterator<R>)
    requires host.Valid()
    ensures fresh(it) && it.host == host && it.index == index && it.Valid()
    ensures it.itr == 0 && it.Position() == None
  {
    it := new Iterator(host, 0, IteratorEnd, index);
  }

  /** `rend()`: a reverse cursor with no handle and end status. */
  method REnd<R>(host: KvHost, index: BoundIndex<R>) returns (it: ReverseIterator<R>)
    requires host.Valid()
    ensures fresh(it) && it.host == host && it.index == index && it.Valid()
    ensures it.itr == 0 && it.Position() == None
  {
    it := new ReverseIterator(host, 0, IteratorEnd, index);
  }

  /** `find(key_type)`: a cursor at the store key `key` when it is stored under this
      index's prefix, otherwise `end()` (the probing handle is released). */
  method FindTableKey<R>(host: KvHost, index: BoundIndex<R>, key: Key) returns (it: Iterator<R>)
    requires host.Valid()
    modifies host`iters, host`nextHandle
    ensures fresh(it) && it.host == host && it.index == index && it.Valid()
    ensures it.Position() == if key in host.data && HasPrefix(key, IndexPrefix(index)) then Some(key) else None
    ensures it.itr == 0 ==> host.iters == old(host.iters)
    ensures it.itr != 0 ==> it.itr !in old(host.iters) && host.iters - {it.itr} == old(host.iters)
  {
    var h := host.ItCreate(IndexPrefix(index));
    var s := host.ItLowerBound(h, key);
    LowerBoundExact(host.keys, IndexPrefix(index), key);
    var cmp := host.ItKeyCompare(h, key);
    if cmp.value != 0 {
      host.ItDestroy(h);
      assert host.iters == old(host.iters);
      it := End(host, index);
      return;
    }
    it := new Iterator(host, h, s.value, index);
    assert host.iters - {h} == old(host.iters);
  }

  /** `find(K)`: `find` on the field key `y` under this index's prefix. */
  method Find<R>(host: KvHost, index: BoundIndex<R>, y: Key) returns (it: Iterator<R>)
    requires host.Valid()
    modifies host`iters, host`nextHandle
    ensures fresh(it) && it.host == host && it.index == index && it.Valid()
    ensures it.Position() == if TableKey(IndexPrefix(index), y) in host.data
                             then Some(TableKey(IndexPrefix(index), y)) else None
    ensures it.itr == 0 ==> host.iters == old(host.iters)
    ensures it.itr != 0 ==> it.itr !in old(host.iters) && host.iters - {it.itr} == old(host.iters)
  {
    it := FindTableKey(host, index, TableKey(IndexPrefix(index), y));
  }

  /** `exists(key_type)`: whether the store key is present. */
  function ExistsTableKey(host: KvHost, key: Key): (b: bool)
    reads host
    ensures b <==> key in host.data
  {
    host.Get(key).Some?
  }

  /** `exists(K)`: whether `get` on the field key `y` would find an entry. */
  function Exists<R>(host: KvHost, index: BoundIndex<R>, y: Key): (b: bool)
    reads host
    ensures b <==> Get(index.conf, host.data, index.idx, y) != Success(None)
  {
    ExistsTableKey(host, TableKey(IndexPrefix(index), y))
  }

  /** `begin()`: a cursor at the index's smallest key, or at the end when it is empty. */
  method Begin<R>(host: KvHost, index: BoundIndex<R>) returns (it: Iterator<R>)
    requires host.Valid()
    modifies host`iters, host`nextHandle
    ensures fresh(it) && it.host == host && it.index == index && it.Valid() && it.itr != 0
    ensures it.itr !in old(host.iters) && host.iters - {it.itr} == old(host.iters)
    ensures it.Position() == FirstIn(host.keys, IndexPrefix(index))
  {
    var h := host.ItCreate(IndexPrefix(index));
    var s := host.ItLowerBound(h, []);
    LowerBoundOfEmpty(host.keys, IndexPrefix(index));
    it := new Iterator(host, h, s.value, index);
    assert host.iters - {h} == old(host.iters);
  }

  /** `rbegin()`: a reverse cursor at the index's largest key, or at the end. */
  method RBegin<R>(host: KvHost, index: BoundIndex<R>) returns (it: ReverseIterator<R>)
    requires host.Valid()
    modifies host`iters, host`nextHandle
    ensures fresh(it) && it.host == host && it.index == index && it.Valid() && it.itr != 0
    ensures it.itr !in old(host.iters) && host.iters - {it.itr} == old(host.iters)
    ensures it.Position() == LastIn(host.keys, IndexPrefix(index))
  {
    var h := host.ItCreate(IndexPrefix(index));
    var s := host.ItPrev(h);
    it := new ReverseIterator(host, h, s.value, index);
    assert host.iters - {h} == old(host.iters);
  }

  /** `lower_bound(key_type)`: a cursor at the index's first key not below the field
      key `y` (under the index prefix). */
  method LowerBound<R>(host: KvHost, index: BoundIndex<R>, y: Key) returns (it: Iterator<R>)
    requires host.Valid()
    modifies host`iters, host`nextHandle
    ensures fresh(it) && it.host == host && it.index == index && it.Valid() && it.itr != 0
    ensures it.itr !in old(host.iters) && host.iters - {it.itr} == old(host.iters)
    ensures it.Position() == LowerBoundIn(host.keys, IndexPrefix(index), TableKey(IndexPrefix(index), y))
  {
    var h := host.ItCreate(IndexPrefix(index));
    var s := host.ItLowerBound(h, TableKey(IndexPrefix(index), y));
    it := new Iterator(host, h, s.value, index);
    assert host.iters - {h} == old(host.iters);
  }

  /** Where `upper_bound(key_type)` leaves its cursor as written: at `lower_bound(y)`,
      advanced once when the cursor's key equals `y` itself (not `y` under the prefix). */
  function UpperBoundAsWritten(s: seq<Key>, p: Key, y: Key): Option<Key>
    requires StrictlySorted(s)
  {
    var lb := LowerBoundIn(s, p, TableKey(p, y));
    if lb == Some(y) then NextIn(s, p, y) else lb
  }

  /** As written, when the entry for `y` exists, `upper_bound(y)` stands on that entry
      rather than after it. */
  lemma UpperBoundStaysOnKey(s: seq<Key>, p: Key, y: Key)
    requires StrictlySorted(s) && |p| > 0 && TableKey(p, y) in s
    ensures UpperBoundAsWritten(s, p, y) == Some(TableKey(p, y))
  {
    LowerBoundExact(s, p, TableKey(p, y));
  }

  /** `upper_bound(key_type)` as written. */
  method UpperBound<R>(host: KvHost, index: BoundIndex<R>, y: Key) returns (it: Iterator<R>)
    requires host.Valid()
    modifies host`iters, host`nextHandle
    ensures fresh(it) && it.host == host && it.index == index && it.Valid() && it.itr != 0
    ensures it.itr !in old(host.iters) && host.iters - {it.itr} == old(host.iters)
    ensures it.Position() == UpperBoundAsWritten(host.keys, IndexPrefix(index), y)
  {
    it := LowerBound(host, index, y);
    var cmp := KeyCompareHandle(host, it.itr, it.stat, y);
    if cmp.value == 0 {
      var o := it.Increment();
      assert host.iters - {it.itr} == old(host.iters);
    }
  }

  /** `upper_bound(key_type)` comparing the cursor against `y` under the index prefix:
      a cursor at the index's first key above the field key `y`. */
  method UpperBoundCorrected<R>(host: KvHost, index: BoundIndex<R>, y: Key) returns (it: Iterator<R>)
    requires host.Valid()
    modifies host`iters, host`nextHandle
    ensures fresh(it) && it.host == host && it.index == index && it.Valid() && it.itr != 0
    ensures it.itr !in old(host.iters) && host.iters - {it.itr} == old(host.iters)
    ensures it.Position() == NextIn(host.keys, IndexPrefix(index), TableKey(IndexPrefix(index), y))
  {
    var tk := TableKey(IndexPrefix(index), y);
    it := LowerBound(host, index, y);
    var cmp := KeyCompareHandle(host, it.itr, it.stat, tk);
    if cmp.value == 0 {
      var o := it.Increment();
      assert host.iters - {it.itr} == old(host.iters);
    } else {
      LowerBoundPastKey(host.keys, IndexPrefix(index), tk);
    }
  }

  /** The records behind the stored keys `ks`, read in order; the first read that
      fails decides the outcome. */
  function ReadAll<R>(conf: TableConf<R>, db: Store, idx: Index<R>, ks: seq<Key>): Result<seq<R>>
    requires forall k :: k in ks ==> k in db
    decreases |ks|
  {
    if ks == [] then Success([])
    else
      var init := ks[..|ks| - 1];
      assert forall k :: k in init ==> k in ks;
      match ReadAll(conf, db, idx, init)
      case Failure(e) => Failure(e)
      case Success(vs) =>
        match ReadRecord(conf, db, idx, db[ks[|ks| - 1]])
        case Failure(e) => Failure(e)
        case Success(v) => Success(vs + [v])
  }

  /** A successful `ReadAll` holds one record per key, each the one read under that
      key; a failed one reports the first read that failed. */
  lemma {:induction false} ReadAllMeaning<R>(conf: TableConf<R>, db: Store, idx: Index<R>, ks: seq<Key>)
    requires forall k :: k in ks ==> k in db
    ensures ReadAll(conf, db, idx, ks).Success? ==>
              && |ReadAll(conf, db, idx, ks).value| == |ks|
              && forall i :: 0 <= i < |ks| ==>
                   ReadRecord(conf, db, idx, db[ks[i]]) == Success(ReadAll(conf, db, idx, ks).value[i])
    ensures ReadAll(conf, db, idx, ks).Failure? ==>
              exists i :: && 0 <= i < |ks|
                          && ReadRecord(conf, db, idx, db[ks[i]]) == Failure(ReadAll(conf, db, idx, ks).error)
                          && forall j :: 0 <= j < i ==> ReadRecord(conf, db, idx, db[ks[j]]).Success?
    decreases |ks|
  {
    if ks != [] {
      var init := ks[..|ks| - 1];
      assert forall k :: k in init ==> k in ks;
      ReadAllMeaning(conf, db, idx, init);
      assert forall i :: 0 <= i < |init| ==> ks[i] == init[i];
    }
  }

  /** Once a read among the first `n` keys fails, reading more keys fails the same way. */
  lemma {:induction false} ReadAllFailureSticks<R>(conf: TableConf<R>, db: Store, idx: Index<R>, ks: seq<Key>, n: nat)
    requires forall k :: k in ks ==> k in db
    requires n <= |ks|
    requires ReadAll(conf, db, idx, ks[..n]).Failure?
    ensures ReadAll(conf, db, idx, ks) == ReadAll(conf, db, idx, ks[..n])
    decreases |ks| - n
  {
    if n < |ks| {
      assert ks[..n + 1][..n] == ks[..n];
      ReadAllFailureSticks(conf, db, idx, ks, n + 1);
    } else {
      assert ks[..n] == ks;
    }
  }

  /** Reading one more key: the reads so far, then the read of the next key. */
  lemma ReadAllStep<R>(conf: TableConf<R>, db: Store, idx: Index<R>, ks: seq<Key>, n: nat, m: nat)
    requires forall k :: k in ks ==> k in db
    requires n < m <= |ks|
    ensures ReadAll(conf, db, idx, ks[..n + 1]) ==
              match ReadAll(conf, db, idx, ks[..n])
              case Failure(e) => Failure(e)
              case Success(vs) =>
                match ReadRecord(conf, db, idx, db[ks[n]])
                case Failure(e) => Failure(e)
                case Success(v) => Success(vs + [v])
    ensures ReadAll(conf, db, idx, ks[..n + 1]).Failure? ==>
              ReadAll(conf, db, idx, ks[..m]) == ReadAll(conf, db, idx, ks[..n + 1])
  {
    assert ks[..n + 1][..n] == ks[..n];
    assert ks[..m][..n + 1] == ks[..n + 1];
    if ReadAll(conf, db, idx, ks[..n + 1]).Failure? {
      ReadAllFailureSticks(conf, db, idx, ks[..m], n + 1);
    }
  }

  /** The keys of the index in `[lo, hi)` are the keys from `lo` on that precede the
      first one at or above `hi`. */
  lemma KeysBetweenIsPrefix(s: seq<Key>, p: Key, lo: Key, hi: Key, f: seq<Key>, m: nat)
    requires StrictlySorted(s) && f == KeysFrom(s, p, lo)
    requires m == FirstIndex(f, x => !Lt(x, hi), 0)
    ensures forall j :: 0 <= j < m ==> Lt(f[j], hi)
    ensures forall j :: m <= j < |f| ==> !Lt(f[j], hi)
    ensures KeysBetween(s, p, lo, hi) == f[..m]
  {
    forall j | m <= j < |f|
      ensures !Lt(f[j], hi)
    {
      if j > m && Lt(f[j], hi) {
        LtTransitive(f[m], f[j], hi);
      }
    }
    forall x
      ensures x in KeysBetween(s, p, lo, hi) <==> x in f[..m]
    {
      if x in f[..m] {
        assert x in f;
      }
      if x in KeysBetween(s, p, lo, hi) {
        assert x in f;
        var j :| 0 <= j < |f| && f[j] == x;
        assert j < m;
      }
    }
    SortedUnique(KeysBetween(s, p, lo, hi), f[..m]);
  }

  /** Releasing the two handles a query both restores the iterator table. */
  lemma ReleaseBoth(before: map<nat, HostIter>, mid: map<nat, HostIter>, both: map<nat, HostIter>,
                    now: map<nat, HostIter>, a: nat, b: nat)
    requires a !in before && mid - {a} == before && a in mid
    requires b !in mid && both - {b} == mid && b in both
    requires now.Keys == both.Keys
    requires forall h :: h in both && h != a ==> now[h] == both[h]
    ensures now - {a} - {b} == before
  {
    assert a != b;
    forall h | h in before
      ensures h in now && now[h] == before[h]
    {
      assert h in mid && h in both;
    }
  }

  /** The loop test of `range`: the cursor at the `n`-th key from `lo` on precedes
      `lower_bound(hi)` exactly while that key is below `hi`. */
  lemma LoopTest(s: seq<Key>, p: Key, lo: Key, hi: Key, f: seq<Key>, m: nat, n: nat)
    requires StrictlySorted(s) && f == KeysFrom(s, p, lo)
    requires m <= |f| && n <= m
    requires forall j :: 0 <= j < m ==> Lt(f[j], hi)
    requires forall j :: m <= j < |f| ==> !Lt(f[j], hi)
    ensures PositionCompare(if n < |f| then Some(f[n]) else None, LowerBoundIn(s, p, hi)) < 0 <==> n < m
  {
    var e := LowerBoundIn(s, p, hi);
    if n < |f| {
      assert f[n] in f;
      if e.Some? {
        if n < m {
          LtTotal(e.value, hi);
          if e.value != hi {
            LtTransitive(f[n], hi, e.value);
          }
        }
      }
    }
  }

  /** One turn of `range`'s loop body: `value()` on the cursor at the `n`-th key from
      `lo` on, then `++` when the read succeeded. */
  method ReadAndStep<R>(it: Iterator<R>, other: Iterator<R>, ghost p: Key, ghost lo: Key, ghost f: seq<Key>,
                        ghost n: nat)
    returns (v: Result<R>)
    requires it.Valid() && it.itr != 0 && p == IndexPrefix(it.index)
    requires other.Valid() && other != it && other.host == it.host && other.itr != it.itr
    requires f == KeysFrom(it.host.keys, p, lo)
    requires n < |f| && it.Position() == Some(f[n])
    modifies it`stat, it.host`iters
    ensures it.Valid()
    ensures it.host.iters.Keys == old(it.host.iters).Keys
    ensures forall h :: h in old(it.host.iters) && h != it.itr ==> it.host.iters[h] == old(it.host.iters)[h]
    ensures f[n] in it.host.data
    ensures v == ReadRecord(it.index.conf, it.host.data, it.index.idx, it.host.data[f[n]])
    ensures v.Success? ==> it.Position() == if n + 1 < |f| then Some(f[n + 1]) else None
    ensures other.Valid() && other.Position() == old(other.Position())
  {
    assert f[n] in f;
    v := ReadCursor(it.host, it.index, it.itr, it.stat);
    if v.Failure? {
      return;
    }
    NextInFilter(it.host.keys, p, lo, f, n);
    var o := it.Increment();
  }

  /** `itr < end_itr` in `range`'s loop: the cursor at the `n`-th key from `lo` on
      precedes `lower_bound(hi)` exactly while that key is below `hi`. */
  method Precedes<R>(it: Iterator<R>, endIt: Iterator<R>, ghost p: Key, ghost lo: Key, ghost hi: Key,
                     ghost f: seq<Key>, ghost m: nat, ghost n: nat)
    returns (b: bool)
    requires it.Valid() && endIt.Valid() && it.host == endIt.host && p == IndexPrefix(it.index)
    requires f == KeysFrom(it.host.keys, p, lo)
    requires m <= |f| && n <= m
    requires forall j :: 0 <= j < m ==> Lt(f[j], hi)
    requires forall j :: m <= j < |f| ==> !Lt(f[j], hi)
    requires it.Position() == if n < |f| then Some(f[n]) else None
    requires endIt.Position() == LowerBoundIn(it.host.keys, p, hi)
    ensures b <==> n < m
  {
    var c := CompareHandles(it.host, it.itr, it.stat, endIt.itr, endIt.stat);
    LoopTest(it.host.keys, p, lo, hi, f, m, n);
    b := c.value < 0;
  }

  /** The loop of `range`: while the cursor `it` precedes `endIt`, read the record under
      it and step forward; the records read are those of the first `m` keys of `f`. */
  method Walk<R>(it: Iterator<R>, endIt: Iterator<R>, ghost p: Key, ghost lo: Key, ghost hi: Key,
                 ghost f: seq<Key>, ghost m: nat)
    returns (r: Result<seq<R>>)
    requires it.Valid() && endIt.Valid() && it != endIt && it.host == endIt.host
    requires it.itr != 0 && endIt.itr != 0 && it.itr != endIt.itr
    requires p == IndexPrefix(it.index) && it.index == endIt.index
    requires f == KeysFrom(it.host.keys, p, lo)
    requires m <= |f|
    requires forall j :: 0 <= j < m ==> Lt(f[j], hi)
    requires forall j :: m <= j < |f| ==> !Lt(f[j], hi)
    requires it.Position() == if 0 < |f| then Some(f[0]) else None
    requires endIt.Position() == LowerBoundIn(it.host.keys, p, hi)
    modifies it`stat, it.host`iters
    ensures it.host.Valid()
    ensures it.host.iters.Keys == old(it.host.iters).Keys
    ensures forall h :: h in old(it.host.iters) && h != it.itr ==> it.host.iters[h] == old(it.host.iters)[h]
    ensures r == ReadAll(it.index.conf, it.host.data, it.index.idx, f[..m])
  {
    var host := it.host;
    var index := it.index;
    ghost var n := 0;
    var acc: seq<R> := [];
    while true
      invariant forall k :: k in f ==> k in host.data
      invariant it.Valid() && endIt.Valid() && it.itr != 0 && endIt.itr != 0
      invariant host.iters.Keys == old(host.iters).Keys
      invariant forall h :: h in old(host.iters) && h != it.itr ==> host.iters[h] == old(host.iters)[h]
      invariant n <= m && it.Position() == if n < |f| then Some(f[n]) else None
      invariant endIt.Position() == LowerBoundIn(host.keys, p, hi)
      invariant ReadAll(index.conf, host.data, index.idx, f[..n]) == Success(acc)
      decreases m - n
    {
      var more := Precedes(it, endIt, p, lo, hi, f, m, n);
      if !more {
        return Success(acc);
      }
      var v := ReadAndStep(it, endIt, p, lo, f, n);
      ReadAllStep(index.conf, host.data, index.idx, f, n, m);
      if v.Failure? {
        return Failure(v.error);
      }
      acc := acc + [v.value];
      n := n + 1;
    }
  }

  /** Between a cursor at `lower_bound(lo)` and one at `lower_bound(hi)`: the records
      under the keys of the index in `[lo, hi)`. */
  method ReadBetween<R>(it: Iterator<R>, endIt: Iterator<R>, ghost lo: Key, ghost hi: Key)
    returns (r: Result<seq<R>>)
    requires it.Valid() && endIt.Valid() && it != endIt && it.host == endIt.host
    requires it.itr != 0 && endIt.itr != 0 && it.itr != endIt.itr && it.index == endIt.index
    requires it.Position() == LowerBoundIn(it.host.keys, IndexPrefix(it.index), lo)
    requires endIt.Position() == LowerBoundIn(it.host.keys, IndexPrefix(it.index), hi)
    modifies it`stat, it.host`iters
    ensures it.host.Valid()
    ensures it.host.iters.Keys == old(it.host.iters).Keys
    ensures forall h :: h in old(it.host.iters) && h != it.itr ==> it.host.iters[h] == old(it.host.iters)[h]
    ensures r == ReadAll(it.index.conf, it.host.data, it.index.idx,
                         KeysBetween(it.host.keys, IndexPrefix(it.index), lo, hi))
  {
    ghost var p := IndexPrefix(it.index);
    ghost var f := KeysFrom(it.host.keys, p, lo);
    ghost var m := FirstIndex(f, x => !Lt(x, hi), 0);
    KeysBetweenIsPrefix(it.host.keys, p, lo, hi, f, m);
    LowerBoundIsFirst(it.host.keys, p, lo, f);
    r := Walk(it, endIt, p, lo, hi, f, m);
  }

  /** `range` over the field keys `lo` to `hi` of an index: opens `lower_bound(lo)` and
      `lower_bound(hi)`, walks between them and releases both handles. */
  method Collect<R>(host: KvHost, index: BoundIndex<R>, lo: Key, hi: Key) returns (r: Result<seq<R>>)
    requires host.Valid()
    modifies host`iters, host`nextHandle
    ensures host.Valid() && host.iters == old(host.iters)
    ensures r == ReadAll(index.conf, host.data, index.idx,
                         KeysBetween(host.keys, IndexPrefix(index), TableKey(IndexPrefix(index), lo),
                                     TableKey(IndexPrefix(index), hi)))
  {
    var it := LowerBound(host, index, lo);
    ghost var mid := host.iters;
    var endIt := LowerBound(host, index, hi);
    ghost var both := host.iters;
    r := ReadBetween(it, endIt, TableKey(IndexPrefix(index), lo), TableKey(IndexPrefix(index), hi));
    ReleaseBoth(old(host.iters), mid, both, host.iters, it.itr, endIt.itr);
    host.ItDestroy(it.itr);
    host.ItDestroy(endIt.itr);
  }

  /** `range(b, e)` as written: the bounds are put under the index prefix and then
      handed to `lower_bound`, which puts them under the prefix again. */
  method Range<R>(host: KvHost, index: BoundIndex<R>, bk: Key, ek: Key) returns (r: Result<seq<R>>)
    requires host.Valid()
    modifies host`iters, host`nextHandle
    ensures host.Valid() && host.iters == old(host.iters)
    ensures var p := IndexPrefix(index);
      r == ReadAll(index.conf, host.data, index.idx,
                   KeysBetween(host.keys, p, TableKey(p, TableKey(p, bk)), TableKey(p, TableKey(p, ek))))
  {
    var p := IndexPrefix(index);
    r := Collect(host, index, TableKey(p, bk), TableKey(p, ek));
  }

  /** `range(b, e)` with each bound put under the prefix once: the records of the
      index whose field keys lie in `[bk, ek)`, in key order. */
  method RangeCorrected<R>(host: KvHost, index: BoundIndex<R>, bk: Key, ek: Key) returns (r: Result<seq<R>>)
    requires host.Valid()
    modifies host`iters, host`nextHandle
    ensures host.Valid() && host.iters == old(host.iters)
    ensures var p := IndexPrefix(index);
      r == ReadAll(index.conf, host.data, index.idx, KeysBetween(host.keys, p, TableKey(p, bk), TableKey(p, ek)))
  {
    r := Collect(host, index, bk, ek);
  }

  /** With single prefixing, an entry of the index is read by `range(bk, ek)` exactly
      when its field key lies in `[bk, ek)`. */
  lemma RangeCorrectedSelects(s: seq<Key>, p: Key, bk: Key, ek: Key, y: Key)
    ensures TableKey(p, y) in KeysBetween(s, p, TableKey(p, bk), TableKey(p, ek)) <==>
              TableKey(p, y) in s && !Lt(y, bk) && Lt(y, ek)
  {
    LtCommonPrefix(p, y, bk);
    LtCommonPrefix(p, y, ek);
  }

  /** As written, `range` never reads an entry whose field key is empty or does not
      start with the first byte of the prefix, whatever the bounds. */
  lemma RangeAsWrittenMisses(s: seq<Key>, p: Key, bk: Key, ek: Key, y: Key)
    requires |p| > 0 && (y == [] || y[0] != p[0])
    ensures TableKey(p, y) !in KeysBetween(s, p, TableKey(p, TableKey(p, bk)), TableKey(p, TableKey(p, ek)))
  {
    LtCommonPrefix(p, y, TableKey(p, bk));
    LtCommonPrefix(p, y, TableKey(p, ek));
    if y == [] {
      assert Lt(y, TableKey(p, bk));
    } else if y[0] < p[0] {
      assert TableKey(p, bk)[0] == p[0];
      assert Lt(y, TableKey(p, bk));
    } else {
      assert TableKey(p, ek)[0] == p[0];
      assert Lt(TableKey(p, ek), y);
      LtAsymmetric(TableKey(p, ek), y);
    }
  }
}
