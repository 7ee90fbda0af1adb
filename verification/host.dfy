/** An in-memory stand-in for the host's key-value intrinsics (`kv_get`, `kv_set`,
    `kv_erase`, `kv_it_*`): one namespace of an ordered byte-string store and its
    iterator handles. The intrinsics themselves are not part of this model; this
    module states the behaviour the table engine relies on. */
module Host {
  import opened Keys
  import opened Outcomes

  /** `kv_it_*` status codes: 0 positioned, -1 the entry was erased, -2 out of range. */
  datatype Status = IteratorOk | IteratorErased | IteratorEnd

  ghost predicate StrictlySorted(s: seq<Key>) {
    forall i, j :: 0 <= i < j < |s| ==> Lt(s[i], s[j])
  }

  /** The first index at or after `from` whose key satisfies `P`, or `|s|`. */
  function FirstIndex(s: seq<Key>, P: Key -> bool, from: nat): (i: nat)
    requires from <= |s|
    ensures from <= i <= |s|
    ensures i < |s| ==> P(s[i])
    ensures forall j :: from <= j < i ==> !P(s[j])
    decreases |s| - from
  {
    if from == |s| then |s| else if P(s[from]) then from else FirstIndex(s, P, from + 1)
  }

  /** The last index below `upto` whose key satisfies `P`, or -1. */
  function LastIndex(s: seq<Key>, P: Key -> bool, upto: nat): (i: int)
    requires upto <= |s|
    ensures -1 <= i < upto
    ensures i >= 0 ==> P(s[i])
    ensures forall j :: i < j < upto ==> !P(s[j])
    decreases upto
  {
    if upto == 0 then -1 else if P(s[upto - 1]) then upto - 1 else LastIndex(s, P, upto - 1)
  }

  /** The least key of the sorted `s` that satisfies `P`. */
  function Least(s: seq<Key>, P: Key -> bool): (r: Option<Key>)
    requires StrictlySorted(s)
    ensures r.Some? ==> r.value in s && P(r.value)
    ensures r.Some? ==> forall x :: x in s && P(x) ==> !Lt(x, r.value)
    ensures r.None? ==> forall x :: x in s ==> !P(x)
  {
    var i := FirstIndex(s, P, 0);
    if i < |s| then
      assert forall j :: 0 <= j < |s| && P(s[j]) ==> i <= j;
      forall x | x in s && P(x)
        ensures !Lt(x, s[i])
      {
        var j :| 0 <= j < |s| && s[j] == x;
        if j == i { LtIrreflexive(x); } else { LtAsymmetric(s[i], x); }
      }
      Some(s[i])
    else None
  }

  /** The greatest key of the sorted `s` that satisfies `P`. */
  function Greatest(s: seq<Key>, P: Key -> bool): (r: Option<Key>)
    requires StrictlySorted(s)
    ensures r.Some? ==> r.value in s && P(r.value)
    ensures r.Some? ==> forall x :: x in s && P(x) ==> !Lt(r.value, x)
    ensures r.None? ==> forall x :: x in s ==> !P(x)
  {
    var i := LastIndex(s, P, |s|);
    if i >= 0 then
      assert forall j :: 0 <= j < |s| && P(s[j]) ==> j <= i;
      forall x | x in s && P(x)
        ensures !Lt(s[i], x)
      {
        var j :| 0 <= j < |s| && s[j] == x;
        if j == i { LtIrreflexive(x); } else { LtAsymmetric(x, s[i]); }
      }
      Some(s[i])
    else None
  }

  /** Where `kv_it_lower_bound(k)` leaves an iterator over prefix `p`: the least key
      with the prefix that is not below `k`. */
  function LowerBoundIn(s: seq<Key>, p: Key, k: Key): Option<Key>
    requires StrictlySorted(s)
  {
    Least(s, x => HasPrefix(x, p) && !Lt(x, k))
  }

  /** Where `kv_it_next` moves from `k`: the least key with the prefix above `k`. */
  function NextIn(s: seq<Key>, p: Key, k: Key): Option<Key>
    requires StrictlySorted(s)
  {
    Least(s, x => HasPrefix(x, p) && Lt(k, x))
  }

  /** Where `kv_it_prev` moves from `k`: the greatest key with the prefix below `k`. */
  function PrevIn(s: seq<Key>, p: Key, k: Key): Option<Key>
    requires StrictlySorted(s)
  {
    Greatest(s, x => HasPrefix(x, p) && Lt(x, k))
  }

  function FirstIn(s: seq<Key>, p: Key): Option<Key>
    requires StrictlySorted(s)
  {
    Least(s, x => HasPrefix(x, p))
  }

  function LastIn(s: seq<Key>, p: Key): Option<Key>
    requires StrictlySorted(s)
  {
    Greatest(s, x => HasPrefix(x, p))
  }

  /** `s` with `k` inserted in order. */
  function Insert(s: seq<Key>, k: Key): (r: seq<Key>)
    requires StrictlySorted(s) && k !in s
    ensures StrictlySorted(r)
    ensures forall x :: x in r <==> x in s || x == k
    decreases |s|
  {
    if s == [] then [k]
    else if Lt(k, s[0]) then
      forall j | 0 <= j < |s| ensures Lt(k, s[j]) {
        if j > 0 { LtTransitive(k, s[0], s[j]); }
      }
      [k] + s
    else
      LtTotal(k, s[0]);
      var rest := Insert(s[1..], k);
      assert forall x :: x in rest ==> Lt(s[0], x) by {
        forall x | x in rest ensures Lt(s[0], x) {
          if x != k {
            var j :| 0 <= j < |s[1..]| && s[1..][j] == x;
            assert s[j + 1] == x;
          }
        }
      }
      [s[0]] + rest
  }

  /** `s` without `k`. */
  function Remove(s: seq<Key>, k: Key): (r: seq<Key>)
    requires StrictlySorted(s)
    ensures StrictlySorted(r)
    ensures forall x :: x in r <==> x in s && x != k
    decreases |s|
  {
    if s == [] then []
    else
      var rest := Remove(s[1..], k);
      if s[0] == k then rest
      else
        assert forall x :: x in rest ==> Lt(s[0], x) by {
          forall x | x in rest ensures Lt(s[0], x) {
            var j :| 0 <= j < |s[1..]| && s[1..][j] == x;
            assert s[j + 1] == x;
          }
        }
        [s[0]] + rest
  }

  /** The host's state for one iterator handle: the prefix it was created over and
      the key it is positioned at (`None` is the end position). */
  datatype HostIter = HostIter(prefix: Key, at: Option<Key>)

  /** One (database, contract) namespace of the host store, with its iterators. */
  class KvHost {
    var data: map<Key, Bytes>
    /** The stored keys in ascending order. */
    var keys: seq<Key>
    var iters: map<nat, HostIter>
    var nextHandle: nat

    ghost predicate Valid()
      reads this
    {
      && StrictlySorted(keys)
      && (forall k :: k in keys <==> k in data)
      && nextHandle > 0
      && (forall h :: h in iters ==> 0 < h < nextHandle)
    }

    constructor ()
      ensures Valid() && data == map[] && iters == map[]
    {
      data, keys, iters, nextHandle := map[], [], map[], 1;
    }

    /** `kv_get` followed by `kv_get_data`. */
    function Get(k: Key): (r: Option<Bytes>)
      reads this
      ensures r.Some? <==> k in data
      ensures r.Some? ==> r.value == data[k]
    {
      if k in data then Some(data[k]) else None
    }

    /** `kv_set`. */
    method Set(k: Key, v: Bytes)
      requires Valid()
      modifies this`data, this`keys
      ensures Valid() && data == old(data)[k := v]
    {
      if k !in data {
        assert k !in keys;
        keys := Insert(keys, k);
      }
      data := data[k := v];
    }

    /** `kv_erase`. */
    method Erase(k: Key)
      requires Valid()
      modifies this`data, this`keys
      ensures Valid() && data == old(data) - {k}
    {
      keys := Remove(keys, k);
      data := data - {k};
    }

    /** The status the host reports for an iterator. */
    function StatusOf(it: HostIter): Status
      reads this
    {
      match it.at
      case None => IteratorEnd
      case Some(k) => if k in data then IteratorOk else IteratorErased
    }

    /** The position `kv_it_next` moves to; from the end position it wraps to the first key. */
    function Advanced(it: HostIter): HostIter
      reads this
      requires Valid()
    {
      match it.at
      case None => HostIter(it.prefix, FirstIn(keys, it.prefix))
      case Some(k) => HostIter(it.prefix, NextIn(keys, it.prefix, k))
    }

    /** The position `kv_it_prev` moves to; from the end position it goes to the last key,
        from the first key to the end position. */
    function Retreated(it: HostIter): HostIter
      reads this
      requires Valid()
    {
      match it.at
      case None => HostIter(it.prefix, LastIn(keys, it.prefix))
      case Some(k) => HostIter(it.prefix, PrevIn(keys, it.prefix, k))
    }

    /** `kv_it_create`: a fresh handle positioned at the end. */
    method ItCreate(prefix: Key) returns (h: nat)
      requires Valid()
      modifies this`iters, this`nextHandle
      ensures Valid() && h > 0 && h !in old(iters)
      ensures iters == old(iters)[h := HostIter(prefix, None)]
    {
      h := nextHandle;
      iters := iters[h := HostIter(prefix, None)];
      nextHandle := nextHandle + 1;
    }

    /** `kv_it_destroy`. */
    method ItDestroy(h: nat)
      requires Valid()
      modifies this`iters
      ensures Valid() && iters == old(iters) - {h}
    {
      iters := iters - {h};
    }

    /** `kv_it_next`. */
    method ItNext(h: nat) returns (r: Result<Status>)
      requires Valid()
      modifies this`iters
      ensures Valid()
      ensures h !in old(iters) ==> r == Failure(InvalidHandle) && iters == old(iters)
      ensures h in old(iters) ==> iters == old(iters)[h := Advanced(old(iters)[h])]
      ensures h in old(iters) ==> r == Success(StatusOf(iters[h]))
    {
      if h !in iters {
        return Failure(InvalidHandle);
      }
      iters := iters[h := Advanced(iters[h])];
      r := Success(StatusOf(iters[h]));
    }

    /** `kv_it_prev`. */
    method ItPrev(h: nat) returns (r: Result<Status>)
      requires Valid()
      modifies this`iters
      ensures Valid()
      ensures h !in old(iters) ==> r == Failure(InvalidHandle) && iters == old(iters)
      ensures h in old(iters) ==> iters == old(iters)[h := Retreated(old(iters)[h])]
      ensures h in old(iters) ==> r == Success(StatusOf(iters[h]))
    {
      if h !in iters {
        return Failure(InvalidHandle);
      }
      iters := iters[h := Retreated(iters[h])];
      r := Success(StatusOf(iters[h]));
    }

    /** `kv_it_lower_bound`. */
    method ItLowerBound(h: nat, k: Key) returns (r: Result<Status>)
      requires Valid()
      modifies this`iters
      ensures Valid()
      ensures h !in old(iters) ==> r == Failure(InvalidHandle) && iters == old(iters)
      ensures h in old(iters) ==>
                iters == old(iters)[h := HostIter(old(iters)[h].prefix, LowerBoundIn(keys, old(iters)[h].prefix, k))]
      ensures h in old(iters) ==> r == Success(StatusOf(iters[h]))
    {
      if h !in iters {
        return Failure(InvalidHandle);
      }
      var p := iters[h].prefix;
      iters := iters[h := HostIter(p, LowerBoundIn(keys, p, k))];
      r := Success(StatusOf(iters[h]));
    }

    /** `kv_it_key_compare`: the iterator's key against `k`; an iterator at the end
        compares greater. */
    function ItKeyCompare(h: nat, k: Key): Result<int>
      reads this
    {
      if h !in iters then Failure(InvalidHandle)
      else match iters[h].at
        case None => Success(1)
        case Some(x) => Success(Compare3(x, k))
    }

    /** `kv_it_compare`: end positions are equal to each other and above every key. */
    function ItCompare(a: nat, b: nat): Result<int>
      reads this
    {
      if a !in iters || b !in iters then Failure(InvalidHandle)
      else Success(PositionCompare(iters[a].at, iters[b].at))
    }

    /** `kv_it_key`: the status, and the key when positioned. */
    function ItKey(h: nat): Result<(Status, Key)>
      reads this
    {
      if h !in iters then Failure(InvalidHandle)
      else
        var st := StatusOf(iters[h]);
        Success((st, if st == IteratorOk then iters[h].at.value else []))
    }

    /** `kv_it_value`: the status, and the stored value when positioned. */
    function ItValue(h: nat): Result<(Status, Bytes)>
      reads this
    {
      if h !in iters then Failure(InvalidHandle)
      else
        var st := StatusOf(iters[h]);
        Success((st, if st == IteratorOk then data[iters[h].at.value] else []))
    }
  }

  /** The order of two host positions, the end position above every key. */
  function PositionCompare(a: Option<Key>, b: Option<Key>): int {
    match (a, b)
    case (None, None) => 0
    case (None, Some(_)) => 1
    case (Some(_), None) => -1
    case (Some(x), Some(y)) => Compare3(x, y)
  }
}
