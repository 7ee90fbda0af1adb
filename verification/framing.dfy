/** How a record is laid out as a stored value (`serialize`, `deserialize`,
    `get_size`): a varuint 0 ahead of the packed record, except for variant
    records, which carry their own discriminant and no wrapper. */
module Framing {
  import opened Keys
  import opened Outcomes

  /** The binary codec of one record type: `pack`, `unpack`, and whether the
      type is a `std::variant`. The codec itself is not part of this model. */
  datatype Codec<!R> = Codec(pack: R -> Bytes, unpack: Bytes -> Option<R>, isVariant: bool)

  /** The codec reads back every value it writes. */
  ghost predicate Lossless<R(!new)>(c: Codec<R>) {
    forall v :: c.unpack(c.pack(v)) == Some(v)
  }

  /** The varuint encoding of the discriminant 0: one zero byte. */
  const ZeroIndex: Bytes := [0]

  /** `get_size`: `pack_size(value) + 1`, or `pack_size(value)` for a variant. */
  function GetSize<R>(c: Codec<R>, v: R): nat {
    if c.isVariant then |c.pack(v)| else |c.pack(v)| + 1
  }

  /** `serialize`: the bytes written into the buffer of `get_size` bytes, which they
      fill exactly. */
  function Serialize<R>(c: Codec<R>, v: R): (b: Bytes)
    ensures |b| == GetSize(c, v)
    ensures !c.isVariant ==> b[0] == 0 && b[1..] == c.pack(v)
    ensures c.isVariant ==> b == c.pack(v)
  {
    if c.isVariant then c.pack(v) else ZeroIndex + c.pack(v)
  }

  /** `deserialize`: a non-variant value must start with the discriminant 0. */
  function Deserialize<R>(c: Codec<R>, b: Bytes): (r: Result<R>)
    ensures !c.isVariant && |b| > 0 && b[0] != 0 ==> r == Failure(BadDiscriminant)
    ensures !c.isVariant && |b| == 0 ==> r.Failure?
    ensures r.Success? ==> (if c.isVariant then c.unpack(b) else c.unpack(b[1..])) == Some(r.value)
  {
    if c.isVariant then
      match c.unpack(b)
      case None => Failure(UnpackFailure)
      case Some(v) => Success(v)
    else if |b| == 0 then Failure(UnpackFailure)
    else if b[0] != 0 then Failure(BadDiscriminant)
    else
      match c.unpack(b[1..])
      case None => Failure(UnpackFailure)
      case Some(v) => Success(v)
  }

  /** With a lossless codec, a stored value reads back as the record written. */
  lemma DeserializeSerialize<R(!new)>(c: Codec<R>, v: R)
    requires Lossless(c)
    ensures Deserialize(c, Serialize(c, v)) == Success(v)
  {
    assert c.unpack(c.pack(v)) == Some(v);
    if !c.isVariant {
      assert Serialize(c, v)[1..] == c.pack(v);
    }
  }

  /** Serialization is injective under a lossless codec: equal stored bytes mean equal records. */
  lemma SerializeInjective<R(!new)>(c: Codec<R>, v: R, w: R)
    requires Lossless(c)
    requires Serialize(c, v) == Serialize(c, w)
    ensures v == w
  {
    DeserializeSerialize(c, v);
    DeserializeSerialize(c, w);
  }
}
