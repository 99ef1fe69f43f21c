/** The Bloom filter of a table file. */
module Bloom {
  import opened Keys
  import opened Versions
  import opened Bytes
  import opened Blocks

  /** The stored fields; the error rate is kept as the eight bytes of its double. */
  datatype Filter = Filter(expected: nat, rate: seq<byte>, numBits: nat, numHashes: nat, bits: seq<bool>)

  predicate FilterOk(f: Filter) {
    && f.expected < U64 && |f.rate| == 8 && 0 < f.numBits == |f.bits| && f.numBits + 7 < U64 && f.numHashes < U64
  }

  const SALT: Key := [115, 97, 108, 116]

  /** The i-th hash: h1 + i * h2 in 64-bit arithmetic, reduced to a bit position. */
  function BitOf(hash: Key -> nat, key: Key, i: nat, numBits: nat): (b: nat)
    requires numBits > 0
    ensures b < numBits
  {
    (hash(key) % U64 + i * (hash(key + SALT) % U64)) % U64 % numBits
  }

  /** Every bit of key is set. */
  ghost predicate MayContain(f: Filter, hash: Key -> nat, key: Key)
    requires FilterOk(f)
  {
    forall i :: 0 <= i < f.numHashes ==> f.bits[BitOf(hash, key, i, f.numBits)]
  }

  /** Position b is one of the first n hash positions of key. */
  ghost predicate Hit(hash: Key -> nat, key: Key, n: nat, numBits: nat, b: nat)
    requires numBits > 0
  {
    exists i :: 0 <= i < n && BitOf(hash, key, i, numBits) == b
  }

  /** A key may be contained if and only if all its positions are set; so a filter without bits set
      rejects every key. */
  lemma AllHit(f: Filter, hash: Key -> nat, key: Key)
    requires FilterOk(f)
    ensures MayContain(f, hash, key) <==>
      forall b :: 0 <= b < f.numBits && Hit(hash, key, f.numHashes, f.numBits, b) ==> f.bits[b]
    ensures (forall b :: 0 <= b < f.numBits ==> !f.bits[b]) && f.numHashes > 0 ==> !MayContain(f, hash, key)
  {
    hide BitOf;
    forall i | 0 <= i < f.numHashes
      ensures Hit(hash, key, f.numHashes, f.numBits, BitOf(hash, key, i, f.numBits))
    {
    }
    assert f.numHashes > 0 ==> Hit(hash, key, f.numHashes, f.numBits, BitOf(hash, key, 0, f.numBits));
  }

  class BloomFilter {
    const hash: Key -> nat
    const expected: nat
    const rate: seq<byte>
    const numBits: nat
    const numHashes: nat
    var bits: seq<bool>

    constructor (hash: Key -> nat, expected: nat, rate: seq<byte>, numBits: nat, numHashes: nat)
      requires expected < U64 && |rate| == 8 && 0 < numBits && numBits + 7 < U64 && numHashes < U64
      ensures
        && Valid() && Value() == Filter(expected, rate, numBits, numHashes, seq(numBits, _ => false))
        && this.hash == hash
    {
      this.hash, this.expected, this.rate := hash, expected, rate;
      this.numBits, this.numHashes := numBits, numHashes;
      bits := seq(numBits, _ => false);
    }

    function Value(): Filter
      reads this
    {
      Filter(expected, rate, numBits, numHashes, bits)
    }

    ghost predicate Valid()
      reads this
    {
      FilterOk(Value())
    }

    /** Sets exactly the bits of key, so nothing that may be contained is lost. */
    method Add(key: Key)
      requires Valid()
      modifies this
      ensures Valid() && MayContain(Value(), hash, key)
      ensures forall b :: 0 <= b < numBits ==> bits[b] == (old(bits)[b] || Hit(hash, key, numHashes, numBits, b))
      ensures forall k :: old(MayContain(Value(), hash, k)) ==> MayContain(Value(), hash, k)
    {
      hide BitOf;
      for i := 0 to numHashes
        invariant |bits| == numBits
        invariant forall b :: 0 <= b < numBits ==> bits[b] == (old(bits)[b] || Hit(hash, key, i, numBits, b))
      {
        var b := BitOf(hash, key, i, numBits);
        ghost var before := bits;
        bits := bits[b := true];
        forall c | 0 <= c < numBits
          ensures bits[c] == (old(bits)[c] || Hit(hash, key, i + 1, numBits, c))
        {
          HitNext(hash, key, i, numBits, c);
        }
      }
      forall i | 0 <= i < numHashes
        ensures bits[BitOf(hash, key, i, numBits)]
      {
        assert Hit(hash, key, numHashes, numBits, BitOf(hash, key, i, numBits));
      }
    }

    method PossiblyContains(key: Key) returns (r: bool)
      requires Valid()
      ensures r <==> MayContain(Value(), hash, key)
      ensures r <==> forall b :: 0 <= b < numBits && Hit(hash, key, numHashes, numBits, b) ==> bits[b]
    {
      hide BitOf;
      AllHit(Value(), hash, key);
      r := Possibly(Value(), hash, key);
    }

    method Clear()
      requires Valid()
      modifies this
      ensures Valid() && bits == seq(numBits, _ => false)
    {
      bits := seq(|bits|, _ => false);
    }

    /** The four fields and the bits, eight to a byte. */
    method Encode() returns (data: seq<byte>)
      requires Valid()
      ensures data == EncodeFilter(Value())
    {
      data := ToBytes(expected, 8) + rate + ToBytes(numBits, 8) + ToBytes(numHashes, 8);
      var head := data;
      var numBytes := (numBits + 7) / 8;
      var packed: seq<byte> := [];
      for i := 0 to numBytes
        invariant packed == Pack(bits)[..i]
      {
        var b := 0;
        for j := 0 to 8
          invariant b == PackLow(bits, i, j)
        {
          if i * 8 + j < numBits {
            b := b + (if bits[i * 8 + j] then Pow2(j) else 0);
          }
        }
        PackLowByte(bits, i);
        packed := packed + [b];
      }
      data := head + packed;
    }

    /** Rebuilds a filter from its bytes: any filter from its own encoding,
        and nothing from bytes that end too soon. */
    static method Decode(data: seq<byte>, hash: Key -> nat) returns (r: Option<BloomFilter>)
      ensures forall f :: FilterOk(f) && data == EncodeFilter(f) ==> r.Some? && r.value.Value() == f
      ensures r.None? <==> DecodeFilter(data).None?
      ensures r.Some? ==> fresh(r.value) && r.value.Value() == DecodeFilter(data).value && r.value.hash == hash
    {
      hide Pack, EncodeFilter;
      forall f | FilterOk(f) && data == EncodeFilter(f)
        ensures DecodeFilter(data) == Some(f)
      {
        FilterRoundTrip(f);
      }
      if |data| < 32 {
        return None;
      }
      var numBits := FromBytes(data[16..24]);
      if |data| < 32 + (numBits + 7) / 8 {
        return None;
      }
      var bits := ReadBits(data[32..], numBits);
      var b := new BloomFilter.Of(Filter(FromBytes(data[0..8]), data[8..16], numBits, FromBytes(data[24..32]), bits),
          hash);
      return Some(b);
    }

    /** The loops of decode over bytes and bits. */
    static method ReadBits(s: seq<byte>, numBits: nat) returns (bits: seq<bool>)
      requires (numBits + 7) / 8 <= |s|
      ensures bits == Unpack(s, numBits)
    {
      hide Pow2;
      bits := seq(numBits, _ => false);
      for i := 0 to (numBits + 7) / 8
        invariant |bits| == numBits && forall k :: 0 <= k < numBits && k < 8 * i ==> bits[k] == BitAt(s, k)
      {
        for j := 0 to 8
          invariant |bits| == numBits && forall k :: 0 <= k < numBits && k < 8 * i + j ==> bits[k] == BitAt(s, k)
        {
          if i * 8 + j < numBits {
            assert (8 * i + j) / 8 == i && (8 * i + j) % 8 == j;
            bits := bits[i * 8 + j := s[i] / Pow2(j) % 2 == 1];
          }
        }
      }
    }

    constructor Of(f: Filter, hash: Key -> nat)
      ensures Value() == f && this.hash == hash
    {
      this.hash, expected, rate := hash, f.expected, f.rate;
      numBits, numHashes, bits := f.numBits, f.numHashes, f.bits;
    }
  }

  /** Are all bits of key set? */
  method Possibly(f: Filter, hash: Key -> nat, key: Key) returns (r: bool)
    requires FilterOk(f)
    ensures r <==> MayContain(f, hash, key)
  {
    for i := 0 to f.numHashes
      invariant forall j :: 0 <= j < i ==> f.bits[BitOf(hash, key, j, f.numBits)]
    {
      var b := BitOf(hash, key, i, f.numBits);
      if !f.bits[b] {
        return false;
      }
    }
    return true;
  }

  lemma HitNext(hash: Key -> nat, key: Key, n: nat, numBits: nat, b: nat)
    requires numBits > 0
    ensures Hit(hash, key, n + 1, numBits, b) <==> Hit(hash, key, n, numBits, b) || b == BitOf(hash, key, n, numBits)
  {
    if Hit(hash, key, n, numBits, b) {
      var i :| 0 <= i < n && BitOf(hash, key, i, numBits) == b;
      assert 0 <= i < n + 1;
    }
  }

  // ------------------------------------------------------------ bytes

  function Pow2(j: nat): (p: nat)
    ensures p > 0
  {
    if j == 0 then 1 else 2 * Pow2(j - 1)
  }

  lemma SmallPowers()
    ensures Pow2(0) == 1 && Pow2(1) == 2 && Pow2(2) == 4 && Pow2(3) == 8
    ensures Pow2(4) == 16 && Pow2(5) == 32 && Pow2(6) == 64 && Pow2(7) == 128
  {
    assert Pow2(2) == 2 * Pow2(1);
    assert Pow2(3) == 2 * Pow2(2);
    assert Pow2(4) == 2 * Pow2(3);
    assert Pow2(5) == 2 * Pow2(4);
    assert Pow2(6) == 2 * Pow2(5);
  }

  function Bit(bits: seq<bool>, k: nat): (b: nat)
    ensures b <= 1
  {
    if k < |bits| && bits[k] then 1 else 0
  }

  /** Bits 8i to 8i + 7, lowest first. */
  function PackByte(bits: seq<bool>, i: nat): (b: byte) {
    Bit(bits, 8 * i) + 2 * Bit(bits, 8 * i + 1) + 4 * Bit(bits, 8 * i + 2) + 8 * Bit(bits, 8 * i + 3)
    + 16 * Bit(bits, 8 * i + 4) + 32 * Bit(bits, 8 * i + 5) + 64 * Bit(bits, 8 * i + 6) + 128 * Bit(bits, 8 * i + 7)
  }

  function PackLow(bits: seq<bool>, i: nat, j: nat): nat {
    if j == 0 then 0 else PackLow(bits, i, j - 1) + (if Bit(bits, i * 8 + (j - 1)) == 1 then Pow2(j - 1) else 0)
  }

  lemma PackLowByte(bits: seq<bool>, i: nat)
    ensures PackLow(bits, i, 8) == PackByte(bits, i)
  {
    SmallPowers();
    hide Bit;
    assert PackLow(bits, i, 1) == PackLow(bits, i, 0) + Bit(bits, 8 * i);
    assert PackLow(bits, i, 2) == PackLow(bits, i, 1) + 2 * Bit(bits, 8 * i + 1);
    assert PackLow(bits, i, 3) == PackLow(bits, i, 2) + 4 * Bit(bits, 8 * i + 2);
    assert PackLow(bits, i, 4) == PackLow(bits, i, 3) + 8 * Bit(bits, 8 * i + 3);
    assert PackLow(bits, i, 5) == PackLow(bits, i, 4) + 16 * Bit(bits, 8 * i + 4);
    assert PackLow(bits, i, 6) == PackLow(bits, i, 5) + 32 * Bit(bits, 8 * i + 5);
    assert PackLow(bits, i, 7) == PackLow(bits, i, 6) + 64 * Bit(bits, 8 * i + 6);
    assert PackLow(bits, i, 8) == PackLow(bits, i, 7) + 128 * Bit(bits, 8 * i + 7);
  }

  function Pack(bits: seq<bool>): (s: seq<byte>)
    ensures |s| == (|bits| + 7) / 8
  {
    seq((|bits| + 7) / 8, i requires 0 <= i => PackByte(bits, i))
  }

  /** Bit k of packed bytes. */
  predicate BitAt(s: seq<byte>, k: nat)
    requires k / 8 < |s|
  {
    s[k / 8] / Pow2(k % 8) % 2 == 1
  }

  function Unpack(s: seq<byte>, n: nat): (bits: seq<bool>)
    requires (n + 7) / 8 <= |s|
    ensures |bits| == n
  {
    seq(n, k requires 0 <= k < n => BitAt(s, k))
  }

  lemma PackedBit(bits: seq<bool>, k: nat)
    requires k < |bits|
    ensures BitAt(Pack(bits), k) == bits[k]
  {
    hide PackByte, Pow2;
    PackedByteBit(bits, k / 8, k % 8);
    assert k == 8 * (k / 8) + k % 8;
  }

  lemma PackedByteBit(bits: seq<bool>, i: nat, j: nat)
    requires j < 8
    ensures PackByte(bits, i) / Pow2(j) % 2 == Bit(bits, 8 * i + j)
  {
    SmallPowers();
    hide Bit, Pow2;
    EightBits(Bit(bits, 8 * i), Bit(bits, 8 * i + 1), Bit(bits, 8 * i + 2), Bit(bits, 8 * i + 3),
              Bit(bits, 8 * i + 4), Bit(bits, 8 * i + 5), Bit(bits, 8 * i + 6), Bit(bits, 8 * i + 7));
  }

  lemma EightBits(a: nat, b: nat, c: nat, d: nat, e: nat, f: nat, g: nat, h: nat)
    requires a <= 1 && b <= 1 && c <= 1 && d <= 1 && e <= 1 && f <= 1 && g <= 1 && h <= 1
    ensures var n := a + 2 * b + 4 * c + 8 * d + 16 * e + 32 * f + 64 * g + 128 * h;
      && n % 2 == a && n / 2 % 2 == b && n / 4 % 2 == c && n / 8 % 2 == d
      && n / 16 % 2 == e && n / 32 % 2 == f && n / 64 % 2 == g && n / 128 % 2 == h
  {
    var n := a + 2 * b + 4 * c + 8 * d + 16 * e + 32 * f + 64 * g + 128 * h;
    Digit(n, 2, a, b, c + 2 * d + 4 * e + 8 * f + 16 * g + 32 * h);
    Digit(n, 4, a + 2 * b, c, d + 2 * e + 4 * f + 8 * g + 16 * h);
    Digit(n, 8, a + 2 * b + 4 * c, d, e + 2 * f + 4 * g + 8 * h);
    Digit(n, 16, a + 2 * b + 4 * c + 8 * d, e, f + 2 * g + 4 * h);
    Digit(n, 32, a + 2 * b + 4 * c + 8 * d + 16 * e, f, g + 2 * h);
    Digit(n, 64, a + 2 * b + 4 * c + 8 * d + 16 * e + 32 * f, g, h);
    Digit(n, 128, n - 128 * h, h, 0);
  }

  lemma Digit(n: nat, w: nat, low: nat, b: nat, rest: nat)
    requires 0 < w && low < w && b <= 1 && n == low + w * (b + 2 * rest)
    ensures n / w % 2 == b
  {
    RemainderUnique(n, w, b + 2 * rest, low);
  }

  lemma BitsRoundTrip(bits: seq<bool>)
    ensures Unpack(Pack(bits), |bits|) == bits
  {
    forall k | 0 <= k < |bits|
      ensures Unpack(Pack(bits), |bits|)[k] == bits[k]
    {
      PackedBit(bits, k);
    }
  }

  function EncodeFilter(f: Filter): seq<byte> {
    ToBytes(f.expected, 8) + f.rate + ToBytes(f.numBits, 8) + ToBytes(f.numHashes, 8) + Pack(f.bits)
  }

  /** Nothing if the bytes end before the fields do. */
  function DecodeFilter(s: seq<byte>): Option<Filter> {
    if |s| < 32 then None
    else
      var numBits := FromBytes(s[16..24]);
      if |s| < 32 + (numBits + 7) / 8 then None
      else Some(Filter(FromBytes(s[0..8]), s[8..16], numBits, FromBytes(s[24..32]), Unpack(s[32..], numBits)))
  }

  /** Decoding the filter's bytes gives back the filter. */
  lemma FilterRoundTrip(f: Filter)
    requires FilterOk(f)
    ensures DecodeFilter(EncodeFilter(f)) == Some(f)
  {
    hide ToBytes, FromBytes, Pow256, Pack, Unpack;
    Widths();
    var s, e, b, h := EncodeFilter(f), ToBytes(f.expected, 8), ToBytes(f.numBits, 8), ToBytes(f.numHashes, 8);
    ReadBackFits(f.expected, 8);
    ReadBackFits(f.numBits, 8);
    ReadBackFits(f.numHashes, 8);
    FiveParts(e, f.rate, b, h, Pack(f.bits));
    assert s[32..] == Pack(f.bits);
    BitsRoundTrip(f.bits);
  }
}
