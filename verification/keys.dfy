/** Binary keys (`key_type`): concatenation, prefixes, and the byte-wise
    lexicographic order in which the host store keeps them. */
module Keys {

  /** One byte of a key or of a stored value. */
  type Byte = bv8

  /** The binary representation of a key. */
  type Key = seq<Byte>

  /** A stored value: serialized record or, for a secondary index, a primary key. */
  type Bytes = seq<Byte>

  /** `k` starts with the bytes of `p`. */
  predicate HasPrefix(k: Key, p: Key) {
    |p| <= |k| && k[..|p|] == p
  }

  /** `key_type::operator+`: the bytes of `a` followed by the bytes of `b`. */
  function Concat(a: Key, b: Key): (r: Key)
    ensures |r| == |a| + |b|
    ensures HasPrefix(r, a) && r[|a|..] == b
  {
    a + b
  }

  lemma {:induction false} ConcatAssociative(a: Key, b: Key, c: Key)
    ensures Concat(Concat(a, b), c) == Concat(a, Concat(b, c))
  {
    assert (a + b) + c == a + (b + c);
  }

  /** A key buffer that `operator+=` grows in place. */
  class KeyBuffer {
    var bytes: Key

    constructor (init: Key)
      ensures bytes == init
    {
      bytes := init;
    }

    /** `operator+=`: appends `b` at the end, leaving the existing bytes as they were. */
    method Append(b: Key)
      modifies this
      ensures bytes == Concat(old(bytes), b)
      ensures |bytes| == |old(bytes)| + |b| && HasPrefix(bytes, old(bytes))
    {
      bytes := bytes + b;
    }

    /** `operator+`: a fresh buffer holding a copy of this key followed by `b`. */
    method Plus(b: Key) returns (r: KeyBuffer)
      ensures fresh(r) && r.bytes == Concat(bytes, b)
    {
      r := new KeyBuffer(bytes);
      r.Append(b);
    }
  }

  /** `table_key`: the fully qualified key of `key` inside the namespace `prefix`. */
  function TableKey(prefix: Key, key: Key): (r: Key)
    ensures |r| == |prefix| + |key|
    ensures HasPrefix(r, prefix) && r[|prefix|..] == key
  {
    Concat(prefix, key)
  }

  /** Within one prefix, composite keys are distinct exactly when the field keys are. */
  lemma TableKeyInjective(prefix: Key, k1: Key, k2: Key)
    ensures TableKey(prefix, k1) == TableKey(prefix, k2) <==> k1 == k2
  {
    if TableKey(prefix, k1) == TableKey(prefix, k2) {
      assert k1 == TableKey(prefix, k1)[|prefix|..];
    }
  }

  /** Strict byte-wise lexicographic order, bytes compared unsigned; a proper prefix
      sorts before every extension of it. */
  predicate Lt(a: Key, b: Key)
    decreases |a|
  {
    if |a| == 0 then |b| > 0
    else if |b| == 0 then false
    else if a[0] != b[0] then a[0] < b[0]
    else Lt(a[1..], b[1..])
  }

  lemma {:induction false} LtIrreflexive(a: Key)
    ensures !Lt(a, a)
    decreases |a|
  {
    if |a| > 0 {
      LtIrreflexive(a[1..]);
    }
  }

  lemma {:induction false} LtAsymmetric(a: Key, b: Key)
    requires Lt(a, b)
    ensures !Lt(b, a)
    decreases |a|
  {
    if |a| > 0 && |b| > 0 && a[0] == b[0] {
      LtAsymmetric(a[1..], b[1..]);
    }
  }

  lemma {:induction false} LtTransitive(a: Key, b: Key, c: Key)
    requires Lt(a, b) && Lt(b, c)
    ensures Lt(a, c)
    decreases |a|
  {
    if |a| > 0 && a[0] == b[0] && b[0] == c[0] {
      LtTransitive(a[1..], b[1..], c[1..]);
    }
  }

  lemma {:induction false} LtTotal(a: Key, b: Key)
    ensures a == b || Lt(a, b) || Lt(b, a)
    decreases |a|
  {
    if |a| > 0 && |b| > 0 && a[0] == b[0] {
      LtTotal(a[1..], b[1..]);
      if a[1..] == b[1..] {
        assert a == [a[0]] + a[1..] && b == [b[0]] + b[1..];
      }
    }
  }

  /** Keys that agree up to position `i` and differ there are ordered by that byte. */
  lemma {:induction false} LtAtFirstDifference(a: Key, b: Key, i: nat)
    requires i < |a| && i < |b| && a[..i] == b[..i] && a[i] < b[i]
    ensures Lt(a, b)
    decreases i
  {
    if i > 0 {
      assert a[0] == a[..i][0] == b[..i][0] == b[0];
      assert a[1..][..i - 1] == a[..i][1..] == b[..i][1..] == b[1..][..i - 1];
      LtAtFirstDifference(a[1..], b[1..], i - 1);
    }
  }

  /** A shared leading part does not change the order of two keys. */
  lemma {:induction false} LtCommonPrefix(p: Key, a: Key, b: Key)
    ensures Lt(p + a, p + b) <==> Lt(a, b)
    decreases |p|
  {
    if |p| == 0 {
      assert p + a == a && p + b == b;
    } else {
      assert (p + a)[0] == (p + b)[0];
      assert (p + a)[1..] == p[1..] + a && (p + b)[1..] == p[1..] + b;
      LtCommonPrefix(p[1..], a, b);
    }
  }

  /** The empty key is below every other key. */
  lemma EmptyIsLeast(k: Key)
    ensures !Lt(k, [])
    ensures k != [] ==> Lt([], k)
  {
  }

  /** The host's three-way key comparison (`kv_it_key_compare`, `kv_it_compare`). */
  function Compare3(a: Key, b: Key): (r: int)
    ensures r == 0 <==> a == b
    ensures r < 0 <==> Lt(a, b)
    ensures r > 0 <==> Lt(b, a)
    ensures -1 <= r <= 1
  {
    LtIrreflexive(a);
    LtTotal(a, b);
    if Lt(a, b) then LtAsymmetric(a, b); -1
    else if a == b then 0
    else 1
  }
}
