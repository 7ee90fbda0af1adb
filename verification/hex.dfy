/** Hex rendering of keys: `key_type::to_hex` and `key_type::from_hex`. */
module Hex {
  import opened Keys
  import opened Outcomes

  const HexCharacters: string := "0123456789abcdef"

  /** A lowercase hex digit. */
  predicate IsHexDigit(c: char) {
    c in HexCharacters
  }

  /** The high nibble of a byte, `b >> 4`. */
  function Hi(b: Byte): (n: nat)
    ensures n < 16
  {
    (b >> 4) as int
  }

  /** The low nibble of a byte, `b & 0x0f`. */
  function Lo(b: Byte): (n: nat)
    ensures n < 16
  {
    (b & 0x0f) as int
  }

  /** The characters `to_hex` writes: for each byte its high nibble then its low
      nibble, each as a lowercase hex digit. */
  function HexEncode(k: Key): (s: string)
    ensures |s| == 2 * |k|
    decreases |k|
  {
    if k == [] then []
    else [HexCharacters[Hi(k[0])], HexCharacters[Lo(k[0])]] + HexEncode(k[1..])
  }

  /** Byte `i` of the key becomes characters `2 * i` and `2 * i + 1`. */
  lemma {:induction false} HexEncodeAt(k: Key, i: nat)
    requires i < |k|
    ensures HexEncode(k)[2 * i] == HexCharacters[Hi(k[i])]
    ensures HexEncode(k)[2 * i + 1] == HexCharacters[Lo(k[i])]
    decreases i
  {
    if i > 0 {
      HexEncodeAt(k[1..], i - 1);
      assert HexEncode(k)[2 * i] == HexEncode(k[1..])[2 * (i - 1)];
      assert HexEncode(k)[2 * i + 1] == HexEncode(k[1..])[2 * (i - 1) + 1];
    }
  }

  /** `to_hex` refuses a key whose doubled length does not fit the 32-bit buffer size. */
  function ToHexResult(k: Key): Result<string> {
    if (2 * |k|) % 0x1_0000_0000 < |k| then Failure(HexTooLong) else Success(HexEncode(k))
  }

  /** `to_hex`: fills a buffer of 2 * size characters in a loop. */
  method ToHex(k: Key) returns (r: Result<string>)
    ensures r == ToHexResult(k)
  {
    var bufferSize := (2 * |k|) % 0x1_0000_0000;
    if bufferSize < |k| {
      return Failure(HexTooLong);
    }
    ToHexFailsIffTooLong(k);
    assert bufferSize == 2 * |k|;
    var buffer := new char[bufferSize];
    var i := 0;
    while i < |k|
      invariant 0 <= i <= |k|
      invariant forall j :: 0 <= j < 2 * i ==> buffer[j] == HexEncode(k)[j]
    {
      HexEncodeAt(k, i);
      buffer[2 * i] := HexCharacters[Hi(k[i])];
      buffer[2 * i + 1] := HexCharacters[Lo(k[i])];
      i := i + 1;
    }
    assert buffer[..] == HexEncode(k);
    return Success(buffer[..]);
  }

  /** `to_hex` aborts exactly for keys of 2^31 bytes or more. */
  lemma ToHexFailsIffTooLong(k: Key)
    ensures ToHexResult(k).Failure? <==> |k| >= 0x8000_0000
    ensures |k| < 0x8000_0000 ==> (2 * |k|) % 0x1_0000_0000 == 2 * |k|
  {
    var n := |k|;
    if n < 0x8000_0000 {
      assert (2 * n) % 0x1_0000_0000 == 2 * n;
    } else if n < 0x1_0000_0000 {
      assert (2 * n) % 0x1_0000_0000 == 2 * n - 0x1_0000_0000;
    } else {
      assert (2 * n) % 0x1_0000_0000 < 0x1_0000_0000;
    }
  }

  /** The value `from_hex` gives one input byte, written as the character of that code:
      `c - '0'` at or below '9', otherwise `10 + (c - 'a')`, truncated to eight bits. On
      the target `char` is signed, so a byte at or above 0x80 is negative and also takes
      the first branch (`c - 256 - '0'` and `c - '0'` agree modulo 256). No byte is
      rejected. */
  function NibbleOf(c: char): bv8 {
    var x := SignedChar(c);
    if x <= '9' as int then ((x - '0' as int) % 256) as bv8
    else ((10 + (x - 'a' as int)) % 256) as bv8
  }

  /** The value of an input byte as the target's signed `char`. */
  function SignedChar(c: char): int {
    if c as int >= 0x80 then c as int - 0x100 else c as int
  }

  /** `char((hi << 4) | low)`. */
  function PairByte(hi: char, lo: char): Byte {
    (NibbleOf(hi) << 4) | NibbleOf(lo)
  }

  /** The bytes decoded from consecutive character pairs. */
  function DecodePairs(s: string): (k: Key)
    requires |s| % 2 == 0
    ensures |k| == |s| / 2
    decreases |s|
  {
    if s == [] then [] else [PairByte(s[0], s[1])] + DecodePairs(s[2..])
  }

  /** Byte `i` comes from characters `2 * i` and `2 * i + 1`. */
  lemma {:induction false} DecodePairsAt(s: string, i: nat)
    requires |s| % 2 == 0 && i < |s| / 2
    ensures DecodePairs(s)[i] == PairByte(s[2 * i], s[2 * i + 1])
    decreases i
  {
    if i > 0 {
      DecodePairsAt(s[2..], i - 1);
      assert s[2..][2 * (i - 1)] == s[2 * i] && s[2..][2 * (i - 1) + 1] == s[2 * i + 1];
    }
  }

  /** What `from_hex` returns: an abort on odd length, else the decoded pairs. */
  function HexDecode(s: string): Result<Key> {
    if |s| % 2 != 0 then Failure(InvalidHexLength) else Success(DecodePairs(s))
  }

  /** `from_hex`: checks the length, then pushes one byte per character pair. */
  method FromHex(s: string) returns (r: Result<Key>)
    ensures r == HexDecode(s)
    ensures r.Failure? <==> |s| % 2 == 1
  {
    if |s| % 2 != 0 {
      return Failure(InvalidHexLength);
    }
    var out: Key := [];
    var p := 0;
    while p != |s|
      invariant 0 <= p <= |s| && p % 2 == 0
      invariant |out| == p / 2
      invariant forall i :: 0 <= i < |out| ==> out[i] == DecodePairs(s)[i]
      decreases |s| - p
    {
      DecodePairsAt(s, p / 2);
      var hi := NibbleOf(s[p]);
      var low := NibbleOf(s[p + 1]);
      out := out + [(hi << 4) | low];
      p := p + 2;
    }
    assert out == DecodePairs(s);
    return Success(out);
  }

  lemma NibbleOfDecimal(c: char)
    requires '0' <= c <= '9'
    ensures NibbleOf(c) as int == c as int - '0' as int
  {
  }

  lemma NibbleOfLetter(c: char)
    requires 'a' <= c <= 'f'
    ensures NibbleOf(c) as int == c as int - 'a' as int + 10
  {
  }

  /** A byte at or above 0x80 converts as the negative signed `char` it is on the target. */
  lemma NibbleOfSignedByte(c: char)
    requires 0x80 <= c as int < 0x100
    ensures NibbleOf(c) == ((c as int - 0x100 - '0' as int) % 256) as bv8
  {
  }

  /** `from_hex` reads digit `n` back as the value `n`. */
  lemma NibbleOfDigit(n: nat)
    requires n < 16
    ensures NibbleOf(HexCharacters[n]) as int == n
  {
    if n < 10 {
      assert HexCharacters[n] as int == '0' as int + n;
      NibbleOfDecimal(HexCharacters[n]);
    } else {
      assert HexCharacters[n] as int == 'a' as int + n - 10;
      NibbleOfLetter(HexCharacters[n]);
    }
  }

  lemma DigitOfNibble(c: char)
    requires IsHexDigit(c)
    ensures NibbleOf(c) < 16 && HexCharacters[NibbleOf(c) as int] == c
  {
    var n :| 0 <= n < 16 && HexCharacters[n] == c;
    NibbleOfDigit(n);
  }

  lemma SplitJoin(b: Byte)
    ensures ((b >> 4) << 4) | (b & 0x0f) == b
  {
  }

  /** The two digits `to_hex` writes for a byte decode back to that byte. */
  lemma ByteRoundTrip(b: Byte)
    ensures PairByte(HexCharacters[Hi(b)], HexCharacters[Lo(b)]) == b
  {
    var h := NibbleOf(HexCharacters[Hi(b)]);
    var l := NibbleOf(HexCharacters[Lo(b)]);
    NibbleOfDigit(Hi(b));
    NibbleOfDigit(Lo(b));
    assert h == b >> 4;
    assert l == b & 0x0f;
    SplitJoin(b);
  }

  lemma JoinSplit(hi: bv8, lo: bv8)
    requires hi < 16 && lo < 16
    ensures Hi((hi << 4) | lo) == hi as int && Lo((hi << 4) | lo) == lo as int
  {
  }

  /** `to_hex` only produces lowercase hex digits. */
  lemma HexEncodeDigits(k: Key)
    ensures forall i :: 0 <= i < |HexEncode(k)| ==> IsHexDigit(HexEncode(k)[i])
  {
    var s := HexEncode(k);
    forall i | 0 <= i < |s|
      ensures IsHexDigit(s[i])
    {
      var j := i / 2;
      HexEncodeAt(k, j);
      if i % 2 == 1 {
        assert i == 2 * j + 1;
      }
    }
  }

  /** The pair of digits `to_hex` printed for byte `i` decodes to that byte. */
  lemma DecodeEncodeAt(k: Key, i: nat)
    requires i < |k|
    ensures |DecodePairs(HexEncode(k))| == |k| && DecodePairs(HexEncode(k))[i] == k[i]
  {
    var s := HexEncode(k);
    HexEncodeAt(k, i);
    DecodePairsAt(s, i);
    ByteRoundTrip(k[i]);
  }

  /** Decoding what `to_hex` printed gives back the key. */
  lemma FromHexToHex(k: Key)
    ensures HexDecode(HexEncode(k)) == Success(k)
  {
    var d := DecodePairs(HexEncode(k));
    forall i | 0 <= i < |k|
      ensures d[i] == k[i]
    {
      DecodeEncodeAt(k, i);
    }
    assert d == k;
  }

  lemma PairRoundTrip(hic: char, lowc: char)
    requires IsHexDigit(hic) && IsHexDigit(lowc)
    ensures HexCharacters[Hi(PairByte(hic, lowc))] == hic
    ensures HexCharacters[Lo(PairByte(hic, lowc))] == lowc
  {
    DigitOfNibble(hic);
    DigitOfNibble(lowc);
    JoinSplit(NibbleOf(hic), NibbleOf(lowc));
  }

  lemma ToHexFromHexAt(s: string, j: nat)
    requires |s| % 2 == 0 && j < |s| / 2
    requires IsHexDigit(s[2 * j]) && IsHexDigit(s[2 * j + 1])
    ensures HexEncode(DecodePairs(s))[2 * j] == s[2 * j]
    ensures HexEncode(DecodePairs(s))[2 * j + 1] == s[2 * j + 1]
  {
    HexEncodeAt(DecodePairs(s), j);
    DecodePairsAt(s, j);
    PairRoundTrip(s[2 * j], s[2 * j + 1]);
  }

  /** Printing what `from_hex` decoded from an even-length lowercase hex string gives
      the string back. */
  lemma ToHexFromHex(s: string)
    requires |s| % 2 == 0
    requires forall i :: 0 <= i < |s| ==> IsHexDigit(s[i])
    ensures HexDecode(s).Success? && HexEncode(HexDecode(s).value) == s
  {
    var t := HexEncode(DecodePairs(s));
    forall i | 0 <= i < |s|
      ensures t[i] == s[i]
    {
      var j := i / 2;
      assert i == 2 * j || i == 2 * j + 1;
      ToHexFromHexAt(s, j);
    }
    assert t == s;
  }
}
