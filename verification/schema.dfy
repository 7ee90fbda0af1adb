/** The table's layout in the store and the meaning of its operations as functions
    of the stored map: which key each index stores a record under, what `get` reads,
    and what `put` and `erase` leave behind. */
module Schema {
  import opened Keys
  import opened Outcomes
  import opened Prefixes
  import opened Framing

  /** One index of a table: its name and the key it derives from a record (the
      `make_key` of the indexed member, which is not part of this model). */
  datatype Index<!R> = Index(name: Name, keyOf: R -> Key)

  /** What `init` records about a table: its name, its primary index, its secondary
      indices in declaration order, and the record codec. */
  datatype TableConf<!R> = TableConf(table: Name, primary: Index<R>, secondaries: seq<Index<R>>, codec: Codec<R>)

  type Store = map<Key, Bytes>

  /** `setup`: the prefix under which an index of `table` stores its entries. */
  function Setup<R>(table: Name, idx: Index<R>): Key {
    MakePrefix(table, idx.name)
  }

  /** Two indices of one table whose key spaces overlap have the same name. */
  lemma SetupIsolates<R>(table: Name, a: Index<R>, b: Index<R>, k: Key)
    requires HasPrefix(k, Setup(table, a)) && HasPrefix(k, Setup(table, b))
    ensures a.name == b.name
  {
    PrefixIsolation(k, table, a.name, table, b.name);
  }

  /** The primary index and the secondary indices have pairwise distinct names, and the
      codec reads back what it writes. */
  ghost predicate WellFormed<R(!new)>(conf: TableConf<R>) {
    && (forall i :: 0 <= i < |conf.secondaries| ==> conf.secondaries[i].name != conf.primary.name)
    && (forall i, j :: 0 <= i < j < |conf.secondaries| ==> conf.secondaries[i].name != conf.secondaries[j].name)
    && Lossless(conf.codec)
  }

  function PrimaryPrefix<R>(conf: TableConf<R>): Key {
    Setup(conf.table, conf.primary)
  }

  function SecondaryPrefix<R>(conf: TableConf<R>, i: nat): Key
    requires i < |conf.secondaries|
  {
    Setup(conf.table, conf.secondaries[i])
  }

  /** The store key of a record: its primary key under the primary prefix. */
  function PrimaryKey<R>(conf: TableConf<R>, v: R): Key {
    TableKey(PrimaryPrefix(conf), conf.primary.keyOf(v))
  }

  /** The store key of a record's entry in secondary index `i`. */
  function SecondaryKey<R>(conf: TableConf<R>, i: nat, v: R): Key
    requires i < |conf.secondaries|
  {
    TableKey(SecondaryPrefix(conf, i), conf.secondaries[i].keyOf(v))
  }

  /** An index counts as the primary one when its name is the primary index's name. */
  predicate IsPrimary<R>(conf: TableConf<R>, idx: Index<R>) {
    idx.name == conf.primary.name
  }

  /** The record behind a value found under index `idx`: the primary index stores the
      serialized record, a secondary index stores the record's store key. */
  function ReadRecord<R>(conf: TableConf<R>, db: Store, idx: Index<R>, stored: Bytes): (r: Result<R>)
    ensures !IsPrimary(conf, idx) && stored !in db ==> r == Failure(MissingPrimary)
    ensures r.Success? ==> stored in db || IsPrimary(conf, idx)
  {
    if IsPrimary(conf, idx) then Deserialize(conf.codec, stored)
    else if stored !in db then Failure(MissingPrimary)
    else Deserialize(conf.codec, db[stored])
  }

  /** `get(key)`: the record stored under `key` in index `idx`, if any. */
  function Get<R>(conf: TableConf<R>, db: Store, idx: Index<R>, k: Key): (r: Result<Option<R>>)
    ensures r == Success(None) <==> TableKey(Setup(conf.table, idx), k) !in db
  {
    var key := TableKey(Setup(conf.table, idx), k);
    if key !in db then Success(None)
    else
      match ReadRecord(conf, db, idx, db[key])
      case Success(v) => Success(Some(v))
      case Failure(e) => Failure(e)
  }

  /** `operator[]`: like `get`, but an absent key aborts. */
  function At<R>(conf: TableConf<R>, db: Store, idx: Index<R>, k: Key): (r: Result<R>)
    ensures Get(conf, db, idx, k) == Success(None) ==> r == Failure(KeyNotFound)
    ensures r.Success? <==> Get(conf, db, idx, k).Success? && Get(conf, db, idx, k).value.Some?
    ensures r.Success? ==> Get(conf, db, idx, k) == Success(Some(r.value))
  {
    match Get(conf, db, idx, k)
    case Failure(e) => Failure(e)
    case Success(None) => Failure(KeyNotFound)
    case Success(Some(v)) => Success(v)
  }

  /** `put_secondary` from index `i` on: writes the secondary entries of `v`, whose store
      key is `tk`; `prior` is the record `tk` held before, if it held one. */
  function PutSecondaries<R>(conf: TableConf<R>, db: Store, tk: Key, v: R, prior: Option<R>, i: nat): (r: Result<Store>)
    requires i <= |conf.secondaries|
    decreases |conf.secondaries| - i
  {
    if i == |conf.secondaries| then Success(db)
    else
      var sk := SecondaryKey(conf, i, v);
      if prior.None? then
        if sk in db then Failure(DuplicateSecondary)
        else PutSecondaries(conf, db[sk := tk], tk, v, prior, i + 1)
      else if sk in db then
        if db[sk] != tk then Failure(SecondaryInUse)
        else PutSecondaries(conf, db, tk, v, prior, i + 1)
      else
        PutSecondaries(conf, (db - {SecondaryKey(conf, i, prior.value)})[sk := tk], tk, v, prior, i + 1)
  }

  /** `put(value)`: reads the record stored under the same primary key, writes the
      secondary entries, then the serialized record. */
  function PutSpec<R>(conf: TableConf<R>, db: Store, v: R): (r: Result<Store>) {
    var tk := PrimaryKey(conf, v);
    var prior: Result<Option<R>> :=
      if tk !in db then Success(None)
      else match Deserialize(conf.codec, db[tk])
        case Failure(e) => Failure(e)
        case Success(o) => Success(Some(o));
    match prior
    case Failure(e) => Failure(e)
    case Success(p) =>
      match PutSecondaries(conf, db, tk, v, p, 0)
      case Failure(e) => Failure(e)
      case Success(db') => Success(db'[tk := Serialize(conf.codec, v)])
  }

  /** The store with the secondary entries of `v` in indices `i` and up removed. */
  function EraseSecondaries<R>(conf: TableConf<R>, db: Store, v: R, i: nat): (r: Store)
    requires i <= |conf.secondaries|
    ensures forall k :: k in r <==>
              k in db && forall j :: i <= j < |conf.secondaries| ==> k != SecondaryKey(conf, j, v)
    ensures forall k :: k in r ==> r[k] == db[k]
    decreases |conf.secondaries| - i
  {
    if i == |conf.secondaries| then db
    else EraseSecondaries(conf, db - {SecondaryKey(conf, i, v)}, v, i + 1)
  }

  /** One turn of the erase loop: index `i`'s entry goes, then the rest. */
  lemma EraseSecondariesStep<R>(conf: TableConf<R>, db: Store, v: R, i: nat)
    requires i < |conf.secondaries|
    ensures EraseSecondaries(conf, db, v, i) == EraseSecondaries(conf, db - {SecondaryKey(conf, i, v)}, v, i + 1)
  {
  }

  /** `erase(value)`: when the primary key of `v` is stored, removes the secondary
      entries computed from `v` and then the record. */
  function EraseSpec<R>(conf: TableConf<R>, db: Store, v: R): (r: Store) {
    var tk := PrimaryKey(conf, v);
    if tk !in db then db
    else EraseSecondaries(conf, db, v, 0) - {tk}
  }
}
