/** The Bloom filter policy (util/bloom.cc, util/hash.cc). */
module Bloom {
  import opened Coding
  import opened Comparator

  // ---- hashing ----

  function Bits(n: nat): bv32
    requires n < MAX32
  {
    n as bv32
  }

  function Word(s: Bytes): bv32
    requires |s| >= 4
  {
    Bits(s[0]) | (Bits(s[1]) << 8) | (Bits(s[2]) << 16) | (Bits(s[3]) << 24)
  }

  /** A multiplication and a shift, in 32 bits. */
  function Mixed(h: bv32): bv32 {
    var h' := h * 0xc6a4a793;
    h' ^ (h' >> 16)
  }

  function Ended(h: bv32): bv32 {
    var h' := h * 0xc6a4a793;
    h' ^ (h' >> 24)
  }

  /** The loop of Hash and the switch after it. */
  function Mix(data: Bytes, h: bv32): bv32 {
    if |data| >= 4 then Mix(data[4..], Mixed(h + Word(data)))
    else if data == [] then h
    else
      var h3 := if |data| > 2 then h + (Bits(data[2]) << 16) else h;
      var h2 := if |data| > 1 then h3 + (Bits(data[1]) << 8) else h3;
      Ended(h2 + Bits(data[0]))
  }

  function Seeded(seed: bv32, n: bv32): bv32 {
    seed ^ (n * 0xc6a4a793)
  }

  function Hash(data: Bytes, seed: bv32): bv32 {
    Mix(data, Seeded(seed, Bits(Low32(|data|))))
  }

  /** BloomHash, and the step the probes go on by: the hash turned right by 17 bits. */
  function BloomHash(key: Bytes): (h: nat)
    ensures h < MAX32
  {
    Hash(key, 0xbc9f1d34) as nat
  }

  function Delta(h: nat): (d: nat)
    requires h < MAX32
    ensures d < MAX32
  {
    Turned(Bits(h)) as nat
  }

  function Turned(h: bv32): bv32 {
    (h >> 17) | (h << 15)
  }

  /** The hash of the j-th probe. */
  function Probe(h: nat, delta: nat, j: nat): (p: nat)
    requires h < MAX32
    ensures p < MAX32
  {
    if j == 0 then h else Low32(Probe(h, delta, j - 1) + delta)
  }

  /** The bit the j-th probe for a key looks at. */
  function Position(key: Bytes, j: nat, bits: nat): (p: nat)
    requires bits > 0
    ensures p < bits
  {
    Modulo(Probe(BloomHash(key), Delta(BloomHash(key)), j), bits)
  }

  function Modulo(h: nat, bits: nat): (p: nat)
    requires bits > 0
    ensures p < bits
  {
    h % bits
  }

  /** Known hashes, for each way a string can end. */
  lemma KnownHashes()
    ensures Hash([], 0xbc9f1d34) == 0xbc9f1d34
    ensures Hash([0x62], 0xbc9f1d34) == 0xef1345c4
    ensures Hash([0xc3, 0x97], 0xbc9f1d34) == 0x5b663814
    ensures Hash([0xe2, 0x99, 0xa5], 0xbc9f1d34) == 0x323c078f
    ensures Hash([0xe1, 0x80, 0xb9, 0x32], 0xbc9f1d34) == 0xed21633a
  {
    hide Mixed, Ended, Bits, Seeded, Low32, Word, Mix;
    SmallNumbers();
    Rounds();
    NothingToMix(Seeded(0xbc9f1d34, 0));
    ShortStrings();
    FourBytes();
  }

  lemma NothingToMix(h: bv32)
    ensures Mix([], h) == h
  {
  }

  lemma SmallNumbers()
    ensures Low32(0) == 0 && Low32(1) == 1 && Low32(2) == 2 && Low32(3) == 3 && Low32(4) == 4
    ensures Bits(0) == 0 && Bits(1) == 1 && Bits(2) == 2 && Bits(3) == 3 && Bits(4) == 4
  {
  }

  lemma ShortStrings()
    ensures forall h :: Mix([0x62], h) == Ended(h + 0x62)
    ensures forall h :: Mix([0xc3, 0x97], h) == Ended(h + 0x9700 + 0xc3)
    ensures forall h :: Mix([0xe2, 0x99, 0xa5], h) == Ended(h + 0xa5_0000 + 0x9900 + 0xe2)
  {
    hide Ended, Bits;
    SomeBytes();
  }

  lemma SomeBytes()
    ensures Bits(0x62) == 0x62 && Bits(0xc3) == 0xc3 && Bits(0x97) == 0x97 && Bits(0xe2) == 0xe2
    ensures Bits(0x99) == 0x99 && Bits(0xa5) == 0xa5
    ensures Bits(0xe1) == 0xe1 && Bits(0x80) == 0x80 && Bits(0xb9) == 0xb9 && Bits(0x32) == 0x32
  {
  }

  lemma FourBytes()
    ensures forall h :: Mix([0xe1, 0x80, 0xb9, 0x32], h) == Mixed(h + 0x32b9_80e1)
  {
    hide Mixed, Bits;
    SomeBytes();
    var four := [0xe1, 0x80, 0xb9, 0x32];
    assert four[4..] == [];
  }

  lemma Rounds()
    ensures Seeded(0xbc9f1d34, 0) == 0xbc9f1d34
    ensures Ended(Seeded(0xbc9f1d34, 1) + 0x62) == 0xef1345c4
    ensures Ended(Seeded(0xbc9f1d34, 2) + 0x9700 + 0xc3) == 0x5b663814
    ensures Ended(Seeded(0xbc9f1d34, 3) + 0xa5_0000 + 0x9900 + 0xe2) == 0x323c078f
    ensures Mixed(Seeded(0xbc9f1d34, 4) + 0x32b9_80e1) == 0xed21633a
  {
  }

  /** The step is the hash turned right by 17 bits. */
  lemma DeltaTurns(h: bv32)
    ensures Delta(h as nat) == h.RotateRight(17) as nat
  {
    hide Turned, Bits;
    BackToBits(h);
    RightTurn(h);
  }

  lemma BackToBits(h: bv32)
    ensures h as nat < MAX32 && Bits(h as nat) == h
  {
  }

  lemma RightTurn(h: bv32)
    ensures Turned(h) == h.RotateRight(17)
  {
  }

  /** The j-th probe lies j steps on, in 32 bits. */
  lemma {:induction false} ProbeIsSum(h: nat, delta: nat, j: nat)
    requires h < MAX32
    ensures Probe(h, delta, j) == (h + Product(j, delta)) % 0x1_0000_0000
  {
    if j == 0 {
    } else {
      ProbeIsSum(h, delta, j - 1);
      AddWraps(h + Product(j - 1, delta), delta);
      assert Product(j, delta) == Product(j - 1, delta) + delta;
    }
  }

  lemma AddWraps(a: nat, b: nat)
    ensures (a % 0x1_0000_0000 + b) % 0x1_0000_0000 == (a + b) % 0x1_0000_0000
  {
  }

  // ---- bits in bytes ----

  predicate BitOf(b: nat, k: nat) {
    if k == 0 then b % 2 == 1 else BitOf(b / 2, k - 1)
  }

  /** What the lowest n bits of a number add up to. */
  function BitSum(b: nat, n: nat): nat {
    if n == 0 then 0 else BitSum(b, n - 1) + if BitOf(b, n - 1) then Power(2, n - 1) else 0
  }

  lemma {:induction false} BitSumFront(b: nat, n: nat)
    requires n > 0
    ensures BitSum(b, n) == b % 2 + 2 * BitSum(b / 2, n - 1)
  {
    if n > 1 {
      BitSumFront(b, n - 1);
    } else {
      assert Power(2, 0) == 1 && BitSum(b / 2, 0) == 0 && BitSum(b, 1) == BitSum(b, 0) + b % 2;
    }
  }

  /** Bit k counts 2 to the k: the bits of a number add up to it. */
  lemma {:induction false} BitsAddUp(b: nat, n: nat)
    requires b < Power(2, n)
    ensures BitSum(b, n) == b
  {
    if n > 0 {
      BitSumFront(b, n);
      BitsAddUp(b / 2, n - 1);
    }
  }

  /** b | (1 << k) */
  function WithBit(b: nat, k: nat): nat {
    if k == 0 then b - b % 2 + 1 else 2 * WithBit(b / 2, k - 1) + b % 2
  }

  lemma {:induction false} WithBitSets(b: nat, k: nat, j: nat)
    ensures BitOf(WithBit(b, k), j) <==> j == k || BitOf(b, j)
  {
    if k > 0 && j > 0 {
      WithBitSets(b / 2, k - 1, j - 1);
    } else if k == 0 && j > 0 {
      assert WithBit(b, k) / 2 == b / 2;
    }
  }

  lemma {:induction false} WithBitBound(b: nat, k: nat, n: nat)
    requires k < n && b < Power(2, n)
    ensures WithBit(b, k) < Power(2, n)
  {
    if k > 0 {
      WithBitBound(b / 2, k - 1, n - 1);
    }
  }

  /** A bit of an array of bytes. */
  predicate BitAt(bytes: Bytes, p: nat)
    requires p < 8 * |bytes|
  {
    BitOf(bytes[p / 8], p % 8)
  }

  function Set(b: Byte, k: nat): Byte
    requires k < 8
  {
    assert Power(2, 4) == 2 * (2 * (2 * (2 * Power(2, 0))));
    assert Power(2, 8) == 2 * (2 * (2 * (2 * Power(2, 4))));
    WithBitBound(b, k, 8);
    WithBit(b, k)
  }

  // ---- filters ----

  predicate Hits(key: Bytes, j: nat, bits: nat, p: nat)
    requires bits > 0
  {
    Position(key, j, bits) == p
  }

  /** One of the first n probes for the key hits bit p. */
  ghost predicate HitBy(key: Bytes, n: nat, bits: nat, p: nat)
    requires bits > 0
  {
    exists j: nat :: j < n && Hits(key, j, bits, p)
  }

  ghost predicate Probed(keys: seq<Bytes>, k: nat, bits: nat, p: nat)
    requires bits > 0
  {
    exists i :: 0 <= i < |keys| && HitBy(keys[i], k, bits, p)
  }

  /** The bits of the keys' k probes are set, and no others. */
  ghost predicate Marks(bytes: Bytes, keys: seq<Bytes>, k: nat)
    requires |bytes| > 0
  {
    forall p: nat :: p < 8 * |bytes| ==> (BitAt(bytes, p) <==> Probed(keys, k, 8 * |bytes|, p))
  }

  /** So far: all probes for some keys, and n for one more. */
  ghost predicate Marking(bytes: Bytes, keys: seq<Bytes>, k: nat, key: Bytes, n: nat)
    requires |bytes| > 0
  {
    forall p: nat :: p < 8 * |bytes| ==>
      (BitAt(bytes, p) <==> Probed(keys, k, 8 * |bytes|, p) || HitBy(key, n, 8 * |bytes|, p))
  }

  /** The filter for these keys: the marks, and the number of probes behind them. */
  ghost predicate IsFilter(filter: Bytes, keys: seq<Bytes>, k: nat) {
    |filter| >= 9 && filter[|filter| - 1] == k && Marks(filter[..|filter| - 1], keys, k)
  }

  /** What a filter says of a key. */
  predicate MayMatch(key: Bytes, filter: Bytes) {
    && |filter| >= 2
    && var m := |filter| - 1;
       (filter[m] > 30 || forall j: nat :: j < filter[m] ==> BitAt(filter[..m], Position(key, j, 8 * m)))
  }

  /** A filter never says no to a key it was made for. */
  lemma NeverMisses(filter: Bytes, keys: seq<Bytes>, k: nat, key: Bytes)
    requires IsFilter(filter, keys, k) && key in keys
    ensures MayMatch(key, filter)
  {
    hide BitAt, Position;
    var m := |filter| - 1;
    var i :| 0 <= i < |keys| && keys[i] == key;
    forall j: nat | j < filter[m]
      ensures BitAt(filter[..m], Position(key, j, 8 * m))
    {
      var p := Position(key, j, 8 * m);
      assert Hits(keys[i], j, 8 * m, p);
      assert HitBy(keys[i], k, 8 * m, p);
    }
  }

  class BloomFilterPolicy {
    const bitsPerKey: nat
    const k: nat

    ghost predicate Valid() {
      1 <= k <= 30
    }

    constructor (bitsPerKey: nat)
      ensures Valid() && this.bitsPerKey == bitsPerKey
      ensures k == if bitsPerKey < 2 then 1 else if bitsPerKey >= 45 then 30 else bitsPerKey * 69 / 100
    {
      this.bitsPerKey := bitsPerKey;
      var probes := bitsPerKey * 69 / 100;
      if probes < 1 { probes := 1; }
      if probes > 30 { probes := 30; }
      k := probes;
    }

    method CreateFilter(keys: seq<Bytes>, dst: Bytes) returns (r: Bytes)
      requires Valid()
      ensures |dst| < |r| && r[..|dst|] == dst && IsFilter(r[|dst|..], keys, k)
      ensures var bits := 8 * (|r| - |dst| - 1);
              Larger(Product(|keys|, bitsPerKey), 64) <= bits < Larger(Product(|keys|, bitsPerKey), 64) + 8
    {
      hide Marks, Marking, Product, Position, Probe, Modulo, BloomHash, Delta, Set, Low32;
      var bits := Product(|keys|, bitsPerKey);
      if bits < 64 { bits := 64; }
      var size := (bits + 7) / 8;
      bits := size * 8;
      var bytes := new Byte[size](_ => 0);
      NoMarks(bytes[..], k);
      for i := 0 to |keys|
        invariant Marks(bytes[..], keys[..i], k)
      {
        var h := BloomHash(keys[i]);
        var delta := Delta(h);
        MarkingStarts(bytes[..], keys[..i], k, keys[i]);
        for j := 0 to k
          invariant h < MAX32 && h == ProbeOf(keys[i], j)
          invariant Marking(bytes[..], keys[..i], k, keys[i], j)
        {
          ProbeStep(keys[i], j, bits);
          var bitpos := Modulo(h, bits);
          ghost var before := bytes[..];
          bytes[bitpos / 8] := Set(bytes[bitpos / 8], bitpos % 8);
          MarkingStep(before, bytes[..], keys[..i], k, keys[i], j, bitpos);
          h := Low32(h + delta);
        }
        MarkingEnds(bytes[..], keys, k, i);
      }
      assert keys[..|keys|] == keys;
      r := dst + bytes[..] + [k];
      assert r[|dst|..] == bytes[..] + [k];
      assert (bytes[..] + [k])[..size] == bytes[..];
    }

    method KeyMayMatch(key: Bytes, filter: Bytes) returns (r: bool)
      ensures r == MayMatch(key, filter)
    {
      hide Position, Probe, Modulo, BloomHash, Delta, Low32, BitAt;
      if |filter| < 2 {
        return false;
      }
      var m := |filter| - 1;
      var bits := m * 8;
      var k := filter[m];
      if k > 30 {
        return true;
      }
      var h := BloomHash(key);
      var delta := Delta(h);
      ProbeStarts(key);
      for j := 0 to k
        invariant h < MAX32 && h == ProbeOf(key, j)
        invariant forall j': nat :: j' < j ==> BitAt(filter[..m], Position(key, j', bits))
      {
        ProbeStep(key, j, bits);
        var bitpos := Modulo(h, bits);
        if !BitAt(filter[..m], bitpos) {
          return false;
        }
        h := Low32(h + delta);
      }
      return true;
    }
  }

  function ProbeOf(key: Bytes, j: nat): nat {
    Probe(BloomHash(key), Delta(BloomHash(key)), j)
  }

  lemma ProbeStarts(key: Bytes)
    ensures BloomHash(key) == ProbeOf(key, 0)
  {
    hide BloomHash, Delta;
  }

  lemma ProbeStep(key: Bytes, j: nat, bits: nat)
    requires bits > 0
    ensures Position(key, j, bits) == Modulo(ProbeOf(key, j), bits)
    ensures ProbeOf(key, j + 1) == Low32(ProbeOf(key, j) + Delta(BloomHash(key)))
  {
    hide BloomHash, Delta, Low32, Modulo;
  }

  function Larger(a: nat, b: nat): nat {
    if a < b then b else a
  }

  function Product(a: nat, b: nat): nat {
    a * b
  }

  lemma NoMarks(bytes: Bytes, k: nat)
    requires |bytes| > 0 && forall i :: 0 <= i < |bytes| ==> bytes[i] == 0
    ensures Marks(bytes, [], k)
  {
    hide BitOf;
    forall j: nat
      ensures !BitOf(0, j)
    {
      ZeroBit(j);
    }
  }

  lemma {:induction false} ZeroBit(j: nat)
    ensures !BitOf(0, j)
  {
    if j > 0 { ZeroBit(j - 1); }
  }

  lemma MarkingStarts(bytes: Bytes, keys: seq<Bytes>, k: nat, key: Bytes)
    requires |bytes| > 0 && Marks(bytes, keys, k)
    ensures Marking(bytes, keys, k, key, 0) && BloomHash(key) == ProbeOf(key, 0)
  {
    hide BitAt, Hits, Probed, BloomHash, Delta;
  }

  /** One probe sets one bit. */
  lemma MarkingStep(before: Bytes, after: Bytes, keys: seq<Bytes>, k: nat, key: Bytes, n: nat, p: nat)
    requires |before| > 0 && Marking(before, keys, k, key, n)
    requires p < 8 * |before| && p == Position(key, n, 8 * |before|)
    requires after == before[p / 8 := Set(before[p / 8], p % 8)]
    ensures Marking(after, keys, k, key, n + 1)
  {
    hide BitOf, WithBit, Probed, HitBy, Position;
    forall q: nat | q < 8 * |before|
      ensures BitAt(after, q) <==> q == p || BitAt(before, q)
      ensures HitBy(key, n + 1, 8 * |before|, q) <==> q == p || HitBy(key, n, 8 * |before|, q)
    {
      if q / 8 == p / 8 {
        WithBitSets(before[p / 8], p % 8, q % 8);
      }
      HitByOneMore(key, n, 8 * |before|, q);
    }
  }

  lemma HitByOneMore(key: Bytes, n: nat, bits: nat, q: nat)
    requires bits > 0
    ensures HitBy(key, n + 1, bits, q) <==> Position(key, n, bits) == q || HitBy(key, n, bits, q)
  {
    hide Position;
    assert Hits(key, n, bits, q) <==> Position(key, n, bits) == q;
  }

  lemma MarkingEnds(bytes: Bytes, keys: seq<Bytes>, k: nat, i: nat)
    requires |bytes| > 0 && i < |keys| && Marking(bytes, keys[..i], k, keys[i], k)
    ensures Marks(bytes, keys[..i + 1], k)
  {
    hide BitAt, HitBy;
    var some, more := keys[..i], keys[..i + 1];
    forall p: nat | p < 8 * |bytes|
      ensures Probed(more, k, 8 * |bytes|, p) <==> Probed(some, k, 8 * |bytes|, p) || HitBy(keys[i], k, 8 * |bytes|, p)
    {
      assert more[i] == keys[i] && forall j :: 0 <= j < i ==> more[j] == some[j];
    }
  }
}
