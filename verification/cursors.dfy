/** The table's cursors: `base_iterator` (a host handle, its last status and the index
    it walks), `iterator` and `reverse_iterator`. */
module Cursors {
  import opened Keys
  import opened Outcomes
  import opened Schema
  import opened Host

  /** An index as a cursor sees it: the index and the table it was set up for. */
  datatype BoundIndex<!R> = BoundIndex(conf: TableConf<R>, idx: Index<R>)

  /** The prefix `setup` gave the index. */
  function IndexPrefix<R>(b: BoundIndex<R>): Key {
    Setup(b.conf.table, b.idx)
  }

  /** Where a cursor stands: `None` for the end (no handle, or end status). */
  function CursorPosition(host: KvHost, itr: nat, stat: Status): Option<Key>
    reads host
  {
    if itr == 0 || stat == IteratorEnd || itr !in host.iters then None else host.iters[itr].at
  }

  /** A cursor's handle is known to the host, and its status says "end" exactly when
      the host has it at the end. */
  ghost predicate Coherent(host: KvHost, itr: nat, stat: Status)
    reads host
  {
    itr != 0 ==> itr in host.iters && (stat == IteratorEnd <==> host.iters[itr].at.None?)
  }

  /** `base_iterator::compare`: end cursors (no handle, or end status) are equal to each
      other and above every positioned cursor; two positioned cursors are ordered by key. */
  function CompareHandles(host: KvHost, aItr: nat, aStat: Status, bItr: nat, bStat: Status): (r: Result<int>)
    reads host
    ensures Coherent(host, aItr, aStat) && Coherent(host, bItr, bStat) ==>
              r == Success(PositionCompare(CursorPosition(host, aItr, aStat), CursorPosition(host, bItr, bStat)))
    ensures (aItr == 0 || aStat == IteratorEnd) && (bItr == 0 || bStat == IteratorEnd) ==> r == Success(0)
    ensures (aItr == 0 || aStat == IteratorEnd) && bItr != 0 && bStat != IteratorEnd ==> r == Success(1)
    ensures aItr != 0 && aStat != IteratorEnd && (bItr == 0 || bStat == IteratorEnd) ==> r == Success(-1)
  {
    var aEnd := aItr == 0 || aStat == IteratorEnd;
    var bEnd := bItr == 0 || bStat == IteratorEnd;
    if aEnd && bEnd then Success(0)
    else if aEnd && bItr != 0 then Success(1)
    else if aItr != 0 && bEnd then Success(-1)
    else host.ItCompare(aItr, bItr)
  }

  /** `key_compare`, shared by both cursor kinds: 1 at the end, otherwise the order of
      the cursor's key against `kt`. */
  function KeyCompareHandle(host: KvHost, itr: nat, stat: Status, kt: Key): (r: Result<int>)
    reads host
    ensures Coherent(host, itr, stat) ==> r == Success(PositionCompare(CursorPosition(host, itr, stat), Some(kt)))
    ensures itr == 0 || stat == IteratorEnd ==> r == Success(1)
  {
    if itr == 0 || stat == IteratorEnd then Success(1)
    else host.ItKeyCompare(itr, kt)
  }

  /** `value()`: the record the cursor stands at; a secondary index is followed to the
      primary entry it names. */
  function ReadCursor<R>(host: KvHost, index: BoundIndex<R>, itr: nat, stat: Status): (r: Result<R>)
    reads host
    ensures stat == IteratorEnd ==> r == Failure(ReadEnd)
    ensures Coherent(host, itr, stat) && CursorPosition(host, itr, stat).Some? &&
            CursorPosition(host, itr, stat).value in host.data ==>
              r == ReadRecord(index.conf, host.data, index.idx, host.data[CursorPosition(host, itr, stat).value])
    ensures (Coherent(host, itr, stat) && CursorPosition(host, itr, stat).Some? &&
             CursorPosition(host, itr, stat).value !in host.data) ==> r == Failure(ReadStatus)
  {
    if stat == IteratorEnd then Failure(ReadEnd)
    else match host.ItValue(itr)
      case Failure(e) => Failure(e)
      case Success((st, bytes)) =>
        if st != IteratorOk then Failure(ReadStatus)
        else ReadRecord(index.conf, host.data, index.idx, bytes)
  }

  /** `key()`: the full store key the cursor stands at. */
  function CursorKey(host: KvHost, itr: nat): (r: Result<Key>)
    reads host
    ensures r.Success? ==> itr in host.iters && host.iters[itr].at == Some(r.value) && r.value in host.data
    ensures itr in host.iters && host.iters[itr].at.Some? && host.iters[itr].at.value in host.data ==> r.Success?
  {
    match host.ItKey(itr)
    case Failure(e) => Failure(e)
    case Success((st, k)) => if st != IteratorOk then Failure(ReadStatus) else Success(k)
  }

  /** Cursor comparison is antisymmetric. */
  lemma PositionCompareAntisymmetric(a: Option<Key>, b: Option<Key>)
    ensures PositionCompare(a, b) == -PositionCompare(b, a)
    ensures PositionCompare(a, b) == 0 <==> a == b
  {
    if a.Some? && b.Some? {
      if Lt(a.value, b.value) {
        LtAsymmetric(a.value, b.value);
      } else if Lt(b.value, a.value) {
        LtAsymmetric(b.value, a.value);
      }
    }
  }

  /** Cursor comparison is transitive. */
  lemma PositionCompareTransitive(a: Option<Key>, b: Option<Key>, c: Option<Key>)
    requires PositionCompare(a, b) < 0 && PositionCompare(b, c) < 0
    ensures PositionCompare(a, c) < 0
  {
    if c.Some? {
      LtTransitive(a.value, b.value, c.value);
    }
  }

  /** Where `reverse_iterator::operator--` leaves a cursor that had no handle, as
      written: a fresh handle is moved to `lower_bound("")` and then to the next key. */
  function RendDecrementAsWritten(keys: seq<Key>, p: Key): Option<Key>
    requires StrictlySorted(keys)
  {
    match LowerBoundIn(keys, p, [])
    case None => FirstIn(keys, p)
    case Some(k) => NextIn(keys, p, k)
  }

  /** As written, stepping back from the reverse end never reaches the index's
      first (smallest) key: it lands on the second key, or on the end. */
  lemma RendDecrementSkipsFirst(keys: seq<Key>, p: Key)
    requires StrictlySorted(keys) && FirstIn(keys, p).Some?
    ensures RendDecrementAsWritten(keys, p) != FirstIn(keys, p)
    ensures RendDecrementAsWritten(keys, p).Some? ==> Lt(FirstIn(keys, p).value, RendDecrementAsWritten(keys, p).value)
  {
    var f := FirstIn(keys, p).value;
    EmptyIsLeast(f);
    var lb := LowerBoundIn(keys, p, []);
    assert lb.Some? by {
      assert f in keys && HasPrefix(f, p) && !Lt(f, []);
    }
    EmptyIsLeast(lb.value);
    var r := NextIn(keys, p, f);
    if r.Some? {
      LtIrreflexive(f);
    }
  }

  /** A step from the reverse end that goes straight to the next key, as `iterator::operator--`
      goes straight to the previous one: it reaches the index's first key. */
  function RendDecrementCorrected(keys: seq<Key>, p: Key): (r: Option<Key>)
    requires StrictlySorted(keys)
    ensures r.Some? ==> r.value in keys && HasPrefix(r.value, p)
    ensures r.Some? ==> forall x :: x in keys && HasPrefix(x, p) ==> !Lt(x, r.value)
    ensures r.None? ==> forall x :: x in keys ==> !HasPrefix(x, p)
  {
    FirstIn(keys, p)
  }

  /** `iterator`: walks an index in ascending key order. */
  class Iterator<R> {
    var itr: nat
    var stat: Status
    var index: BoundIndex<R>
    const host: KvHost

    ghost predicate Valid()
      reads this, host
    {
      && host.Valid()
      && Coherent(host, itr, stat)
      && (itr != 0 ==> host.iters[itr].prefix == IndexPrefix(index))
    }

    constructor (host: KvHost, itr: nat, stat: Status, index: BoundIndex<R>)
      ensures this.host == host && this.itr == itr && this.stat == stat && this.index == index
    {
      this.host := host;
      this.itr := itr;
      this.stat := stat;
      this.index := index;
    }

    function Position(): Option<Key>
      reads this, host
    {
      CursorPosition(host, itr, stat)
    }

    /** `operator++`: aborts at the end, otherwise moves to the next key of the index. */
    method Increment() returns (r: Outcome)
      requires Valid()
      modifies this`stat, host`iters
      ensures Valid()
      ensures old(stat) == IteratorEnd ==> r == Fail(IncrementEnd) && stat == old(stat) && host.iters == old(host.iters)
      ensures old(stat) != IteratorEnd && itr == 0 ==> r == Fail(InvalidHandle)
      ensures old(stat) != IteratorEnd && itr != 0 ==>
                r == Pass && host.iters == old(host.iters)[itr := host.Advanced(old(host.iters)[itr])]
      ensures r.Pass? ==> old(Position()).Some? &&
                          Position() == NextIn(host.keys, IndexPrefix(index), old(Position()).value)
    {
      if stat == IteratorEnd {
        return Fail(IncrementEnd);
      }
      var s := host.ItNext(itr);
      if s.Failure? {
        return Fail(s.error);
      }
      stat := s.value;
      r := Pass;
    }

    /** `operator--`: a cursor without a handle gets one (at the end); the cursor moves
        to the previous key, and aborts when there is none. */
    method Decrement() returns (r: Outcome)
      requires Valid()
      modifies this`itr, this`stat, host`iters, host`nextHandle
      ensures Valid() && itr != 0
      ensures old(itr) != 0 ==> itr == old(itr)
      ensures old(itr) == 0 ==> itr !in old(host.iters)
      ensures host.iters == old(host.iters)[itr := host.Retreated(
                if old(itr) == 0 then HostIter(IndexPrefix(index), None) else old(host.iters)[itr])]
      ensures Position() == match old(Position())
                            case None => LastIn(host.keys, IndexPrefix(index))
                            case Some(k) => PrevIn(host.keys, IndexPrefix(index), k)
      ensures r.Pass? <==> Position().Some?
      ensures r.Fail? ==> r.error == DecrementPastBegin
    {
      if itr == 0 {
        itr := host.ItCreate(IndexPrefix(index));
      }
      var s := host.ItPrev(itr);
      stat := s.value;
      if stat == IteratorEnd {
        return Fail(DecrementPastBegin);
      }
      r := Pass;
    }

    /** `operator=(iterator&&)`: releases this cursor's handle and takes over `other`'s
        handle, status and index, leaving `other` without a handle. */
    method MoveAssign(other: Iterator<R>)
      requires Valid() && other.Valid() && other.host == host
      modifies this, other`itr, host`iters
      ensures host.iters == if old(itr) != 0 then old(host.iters) - {old(itr)} else old(host.iters)
      ensures itr == old(other.itr) && stat == old(other.stat) && index == old(other.index)
      ensures other != this ==> other.itr == 0
      ensures old(itr) == 0 || old(itr) != old(other.itr) ==> Valid() && other.Valid()
      ensures other == this && old(itr) != 0 ==> itr !in host.iters
    {
      if itr != 0 {
        host.ItDestroy(itr);
      }
      var h := other.itr;
      other.itr := 0;
      itr := h;
      stat := other.stat;
      index := other.index;
    }
  }

  /** `reverse_iterator`: walks an index in descending key order. */
  class ReverseIterator<R> {
    var itr: nat
    var stat: Status
    var index: BoundIndex<R>
    const host: KvHost

    ghost predicate Valid()
      reads this, host
    {
      && host.Valid()
      && Coherent(host, itr, stat)
      && (itr != 0 ==> host.iters[itr].prefix == IndexPrefix(index))
    }

    constructor (host: KvHost, itr: nat, stat: Status, index: BoundIndex<R>)
      ensures this.host == host && this.itr == itr && this.stat == stat && this.index == index
    {
      this.host := host;
      this.itr := itr;
      this.stat := stat;
      this.index := index;
    }

    function Position(): Option<Key>
      reads this, host
    {
      CursorPosition(host, itr, stat)
    }

    /** `operator++`: aborts at the end, otherwise moves to the previous key of the index. */
    method Increment() returns (r: Outcome)
      requires Valid()
      modifies this`stat, host`iters
      ensures Valid()
      ensures old(stat) == IteratorEnd ==> r == Fail(IncrementEnd) && stat == old(stat) && host.iters == old(host.iters)
      ensures old(stat) != IteratorEnd && itr == 0 ==> r == Fail(InvalidHandle)
      ensures old(stat) != IteratorEnd && itr != 0 ==>
                r == Pass && host.iters == old(host.iters)[itr := host.Retreated(old(host.iters)[itr])]
      ensures r.Pass? ==> old(Position()).Some? &&
                          Position() == PrevIn(host.keys, IndexPrefix(index), old(Position()).value)
    {
      if stat == IteratorEnd {
        return Fail(IncrementEnd);
      }
      var s := host.ItPrev(itr);
      if s.Failure? {
        return Fail(s.error);
      }
      stat := s.value;
      r := Pass;
    }

    /** `operator--` as written: a cursor without a handle gets one and is moved to
        `lower_bound("")` before stepping to the next key; aborts at the end. */
    method Decrement() returns (r: Outcome)
      requires Valid()
      modifies this`itr, this`stat, host`iters, host`nextHandle
      ensures Valid() && itr != 0
      ensures old(itr) != 0 ==> itr == old(itr)
      ensures old(itr) == 0 ==> itr !in old(host.iters)
      ensures Position() == if old(itr) == 0 then RendDecrementAsWritten(host.keys, IndexPrefix(index))
                            else match old(Position())
                              case None => FirstIn(host.keys, IndexPrefix(index))
                              case Some(k) => NextIn(host.keys, IndexPrefix(index), k)
      ensures r.Pass? <==> Position().Some?
      ensures r.Fail? ==> r.error == DecrementPastBegin
    {
      if itr == 0 {
        itr := host.ItCreate(IndexPrefix(index));
        var lb := host.ItLowerBound(itr, []);
        stat := lb.value;
      }
      var s := host.ItNext(itr);
      stat := s.value;
      if stat == IteratorEnd {
        return Fail(DecrementPastBegin);
      }
      r := Pass;
    }

    /** `operator--` stepping straight from the end to the next key, the mirror of
        `iterator::operator--`: from the reverse end it reaches the first key. */
    method DecrementCorrected() returns (r: Outcome)
      requires Valid()
      modifies this`itr, this`stat, host`iters, host`nextHandle
      ensures Valid() && itr != 0
      ensures old(itr) != 0 ==> itr == old(itr)
      ensures old(itr) == 0 ==> itr !in old(host.iters)
      ensures Position() == match old(Position())
                            case None => RendDecrementCorrected(host.keys, IndexPrefix(index))
                            case Some(k) => NextIn(host.keys, IndexPrefix(index), k)
      ensures r.Pass? <==> Position().Some?
      ensures r.Fail? ==> r.error == DecrementPastBegin
    {
      if itr == 0 {
        itr := host.ItCreate(IndexPrefix(index));
      }
      var s := host.ItNext(itr);
      stat := s.value;
      if stat == IteratorEnd {
        return Fail(DecrementPastBegin);
      }
      r := Pass;
    }

    /** `operator=(reverse_iterator&&)`: as for `iterator`. */
    method MoveAssign(other: ReverseIterator<R>)
      requires Valid() && other.Valid() && other.host == host
      modifies this, other`itr, host`iters
      ensures host.iters == if old(itr) != 0 then old(host.iters) - {old(itr)} else old(host.iters)
      ensures itr == old(other.itr) && stat == old(other.stat) && index == old(other.index)
      ensures other != this ==> other.itr == 0
      ensures old(itr) == 0 || old(itr) != old(other.itr) ==> Valid() && other.Valid()
      ensures other == this && old(itr) != 0 ==> itr !in host.iters
    {
      if itr != 0 {
        host.ItDestroy(itr);
      }
      var h := other.itr;
      other.itr := 0;
      itr := h;
      stat := other.stat;
      index := other.index;
    }
  }
}
