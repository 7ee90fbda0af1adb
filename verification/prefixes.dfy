/** The namespace prefix of an index (`make_prefix`): the status byte, the table name
    and the index name, each name as its 64-bit value in big-endian byte order. */
module Prefixes {
  import opened Keys

  /** An `eosio::name`, represented by its 64-bit value. */
  type Name = bv64

  /** The key encoding of a name: its eight bytes, most significant first. */
  function NameKey(n: Name): (r: Key)
    ensures |r| == 8
  {
    [(n >> 56) as Byte, ((n >> 48) & 0xff) as Byte, ((n >> 40) & 0xff) as Byte,
     ((n >> 32) & 0xff) as Byte, ((n >> 24) & 0xff) as Byte, ((n >> 16) & 0xff) as Byte,
     ((n >> 8) & 0xff) as Byte, (n & 0xff) as Byte]
  }

  lemma SameBytesSameName(a: Name, b: Name)
    requires (a >> 56) as Byte == (b >> 56) as Byte
    requires ((a >> 48) & 0xff) as Byte == ((b >> 48) & 0xff) as Byte
    requires ((a >> 40) & 0xff) as Byte == ((b >> 40) & 0xff) as Byte
    requires ((a >> 32) & 0xff) as Byte == ((b >> 32) & 0xff) as Byte
    requires ((a >> 24) & 0xff) as Byte == ((b >> 24) & 0xff) as Byte
    requires ((a >> 16) & 0xff) as Byte == ((b >> 16) & 0xff) as Byte
    requires ((a >> 8) & 0xff) as Byte == ((b >> 8) & 0xff) as Byte
    requires (a & 0xff) as Byte == (b & 0xff) as Byte
    ensures a == b
  {
  }

  /** Different names have different keys. */
  lemma NameKeyInjective(a: Name, b: Name)
    ensures NameKey(a) == NameKey(b) <==> a == b
  {
    if NameKey(a) == NameKey(b) {
      var ka, kb := NameKey(a), NameKey(b);
      assert ka[0] == kb[0] && ka[1] == kb[1] && ka[2] == kb[2] && ka[3] == kb[3];
      assert ka[4] == kb[4] && ka[5] == kb[5] && ka[6] == kb[6] && ka[7] == kb[7];
      SameBytesSameName(a, b);
    }
  }

  /** Length of every index prefix. */
  const PrefixLength := 17

  /** `make_prefix(table, index, status = 1)`. */
  function MakePrefix(table: Name, index: Name, status: Byte := 1): (r: Key)
    ensures |r| == PrefixLength && r[0] == status
    ensures r[1..9] == NameKey(table) && r[9..] == NameKey(index)
  {
    [status] + NameKey(table) + NameKey(index)
  }

  /** Distinct (table, index) pairs get distinct prefixes. */
  lemma MakePrefixInjective(t1: Name, i1: Name, t2: Name, i2: Name)
    ensures MakePrefix(t1, i1) == MakePrefix(t2, i2) <==> t1 == t2 && i1 == i2
  {
    if MakePrefix(t1, i1) == MakePrefix(t2, i2) {
      NameKeyInjective(t1, t2);
      NameKeyInjective(i1, i2);
    }
  }

  /** No key lies in two different index namespaces: prefixes all have the same length,
      so a key has at most one of them. */
  lemma PrefixIsolation(k: Key, t1: Name, i1: Name, t2: Name, i2: Name)
    requires HasPrefix(k, MakePrefix(t1, i1)) && HasPrefix(k, MakePrefix(t2, i2))
    ensures t1 == t2 && i1 == i2
  {
    MakePrefixInjective(t1, i1, t2, i2);
  }
}
