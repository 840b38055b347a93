/** The catalog's split-block bloom filter, probed in memory (src/bloom.rs). */
module Blooms {
  import opened Bytes

  const WordsPerBlock: nat := 8
  const Salt: seq<bv32> := [
    0x47b6137b, 0x44974d91, 0x8824ad5b, 0xa2b7289d, 0x705495c7, 0x2df1424c, 0x9efc4947, 0x5c6bfb31]
  const C1: bv32 := 0xcc9e2d51
  const C2: bv32 := 0x1b873593

  /** `num_blocks` blocks of eight words. */
  datatype Bloom = Bloom(words: seq<bv32>, numBlocks: nat) {
    predicate Valid() {
      1 <= numBlocks <= U32 && |words| == numBlocks * WordsPerBlock
    }
  }

  // ---- Hashing ----------------------------------------------------------------------------------

  function Word(data: seq<byte>, i: nat): bv32
    requires 4 * i + 4 <= |data|
  {
    (data[4 * i] as bv32) | ((data[4 * i + 1] as bv32) << 8)
    | ((data[4 * i + 2] as bv32) << 16) | ((data[4 * i + 3] as bv32) << 24)
  }

  function Scramble(k: bv32): bv32 {
    (k * C1).RotateLeft(15) * C2
  }

  /** The hash state after the first `blocks` four-byte blocks. */
  function Body(data: seq<byte>, seed: bv32, blocks: nat): bv32
    requires 4 * blocks <= |data|
  {
    if blocks == 0 then seed else Absorb(Body(data, seed, blocks - 1), Word(data, blocks - 1))
  }

  function Absorb(h: bv32, k: bv32): bv32 {
    (h ^ Scramble(k)).RotateLeft(13) * 5 + 0xe6546b64
  }

  /** The one to three bytes after the last whole block. */
  function Tail(tail: seq<byte>): bv32
    requires |tail| < 4
  {
    var k: bv32 := 0;
    var k := if |tail| == 3 then k ^ ((tail[2] as bv32) << 16) else k;
    var k := if |tail| >= 2 then k ^ ((tail[1] as bv32) << 8) else k;
    if |tail| >= 1 then Scramble(k ^ (tail[0] as bv32)) else 0
  }

  function FinalMix(h: bv32): bv32 {
    var h := (h ^ (h >> 16)) * 0x85ebca6b;
    var h := (h ^ (h >> 13)) * 0xc2b2ae35;
    h ^ (h >> 16)
  }

  /** `data.len() as u32`. */
  function LengthWord(len: nat): bv32 {
    (len % U32) as bv32
  }

  function Finish(h: bv32, len: nat): bv32 {
    FinalMix(h ^ LengthWord(len))
  }

  function Finalized(h: bv32, tail: seq<byte>, len: nat): bv32
    requires |tail| < 4
  {
    Finish(h ^ Tail(tail), len)
  }

  function Murmur(data: seq<byte>, seed: bv32): bv32 {
    Finalized(Body(data, seed, |data| / 4), data[|data| / 4 * 4..], |data|)
  }

  method Murmur3(data: seq<byte>, seed: bv32) returns (h: bv32)
    ensures h == Murmur(data, seed)
  {
    hide Absorb, Word, Finalized;
    h := seed;
    for i := 0 to |data| / 4
      invariant h == Body(data, seed, i)
    {
      h := Absorb(h, Word(data, i));
    }
    h := Finalized(h, data[|data| / 4 * 4..], |data|);
  }

  /** The upper and lower halves of the 64-bit hash. */
  function UpperHash(key: Key): (h: nat)
    ensures h < U32
  {
    Murmur(key, 0) as nat
  }

  function LowerHash(key: Key): bv32 {
    Murmur(key, 0x9747b28c)
  }

  // ---- Blocks -------------------------------------------------------------------------------------

  /** `(upper * num_blocks as u64) >> 32`, with the 64-bit product's wrap-around written out. */
  function BlockIndex(upper: nat, numBlocks: nat): nat {
    upper * numBlocks % U64 / U32
  }

  function MaskBit(key: bv32, i: nat): bv32
    requires i < WordsPerBlock
  {
    1 << ((key * Salt[i]) >> 27)
  }

  /** One bit per word of the block. */
  method ComputeMask(key: bv32) returns (mask: array<bv32>)
    ensures fresh(mask) && mask.Length == WordsPerBlock
    ensures forall i :: 0 <= i < WordsPerBlock ==> mask[i] == MaskBit(key, i)
  {
    hide MaskBit;
    mask := new bv32[WordsPerBlock];
    for i := 0 to WordsPerBlock
      invariant forall j :: 0 <= j < i ==> mask[j] == MaskBit(key, j)
    {
      mask[i] := MaskBit(key, i);
    }
  }

  lemma {:induction false} MulMonotone(a: nat, b: nat, n: nat)
    requires a <= b
    ensures a * n <= b * n
    decreases b - a
  {
    if a < b {
      MulMonotone(a, b - 1, n);
      assert b * n == (b - 1) * n + n;
    }
  }

  lemma MulAdds(a: nat, b: nat, n: nat)
    ensures (a + b) * n == a * n + b * n
  {
  }

  lemma ProductBounds(p: nat, n: nat)
    requires p <= (U32 - 1) * n && 1 <= n <= U32
    ensures p < U64 && p % U64 == p && p / U32 < n
  {
  }

  lemma ProductFits(upper: nat, n: nat)
    requires upper < U32 && 1 <= n <= U32
    ensures upper * n < U64 && BlockIndex(upper, n) == upper * n / U32 < n
  {
    MulMonotone(upper, U32 - 1, n);
    ProductBounds(upper * n, n);
  }

  lemma QuotientsMonotone(p: nat, q: nat)
    requires p <= q
    ensures p / U32 <= q / U32
  {
  }

  /** In bounds for every hash, with no 64-bit overflow, and monotone in the upper half. */
  lemma BlockIndexInBounds(lower: nat, upper: nat, n: nat)
    requires lower <= upper < U32 && 1 <= n <= U32
    ensures upper * n < U64 && BlockIndex(lower, n) <= BlockIndex(upper, n) < n
  {
    hide BlockIndex;
    ProductFits(upper, n);
    ProductFits(lower, n);
    MulMonotone(lower, upper, n);
    QuotientsMonotone(lower * n, upper * n);
  }

  function CeilDiv(x: nat, n: nat): nat
    requires n > 0
  {
    if x % n == 0 then x / n else x / n + 1
  }

  lemma DivMod(x: nat, n: nat)
    requires n > 0
    ensures x == x / n * n + x % n && 0 <= x % n < n
  {
  }

  lemma CeilDivIs(x: nat, n: nat, h: nat)
    requires n > 0
    ensures h >= CeilDiv(x, n) <==> h * n >= x
  {
    var q, r := x / n, x % n;
    DivMod(x, n);
    if h > q {
      MulMonotone(q + 1, h, n);
      MulAdds(q, 1, n);
    } else {
      MulMonotone(h, q, n);
      if h < q {
        MulMonotone(h, q - 1, n);
        MulAdds(q - 1, 1, n);
      }
    }
  }

  lemma CeilDivUnique(x: nat, n: nat, q: nat)
    requires n > 0 && q * n >= x && (q == 0 || q * n - n < x)
    ensures CeilDiv(x, n) == q
  {
    hide CeilDiv;
    CeilDivIs(x, n, q);
    if q > 0 {
      MulAdds(q - 1, 1, n);
      CeilDivIs(x, n, q - 1);
    }
  }

  lemma CeilDivSlack(x: nat, n: nat)
    requires n > 0
    ensures 0 <= CeilDiv(x, n) * n - x < n
  {
    DivMod(x, n);
    MulAdds(x / n, 1, n);
  }

  lemma WithinBlock(p: nat, b: nat)
    ensures p / U32 == b <==> b * U32 <= p < (b + 1) * U32
  {
  }

  /** The upper halves that land on block `b` are one interval. */
  lemma BlockIsInterval(n: nat, b: nat, upper: nat)
    requires 1 <= n <= U32 && b < n && upper < U32
    ensures BlockIndex(upper, n) == b <==> CeilDiv(b * U32, n) <= upper < CeilDiv((b + 1) * U32, n)
  {
    hide BlockIndex, CeilDiv;
    ProductFits(upper, n);
    WithinBlock(upper * n, b);
    CeilDivIs(b * U32, n, upper);
    CeilDivIs((b + 1) * U32, n, upper);
  }

  /** Adding `y` to a dividend adds the floor or the ceiling of `y / n` to its rounded-up quotient. */
  lemma CeilDivStep(x: nat, y: nat, n: nat)
    requires n > 0
    ensures CeilDiv(x + y, n) - CeilDiv(x, n) == y / n || CeilDiv(x + y, n) - CeilDiv(x, n) == CeilDiv(y, n)
  {
    hide CeilDiv;
    var lo, q, r := CeilDiv(x, n), y / n, y % n;
    CeilDivSlack(x, n);
    DivMod(y, n);
    MulAdds(lo, q, n);
    if r <= lo * n - x {
      CeilDivUnique(x + y, n, lo + q);
    } else {
      MulAdds(lo + q, 1, n);
      CeilDivUnique(x + y, n, lo + q + 1);
      MulAdds(q, 1, n);
      CeilDivUnique(y, n, q + 1);
    }
  }

  lemma CeilDivMonotone(x: nat, y: nat, n: nat)
    requires n > 0 && x <= y
    ensures CeilDiv(x, n) <= CeilDiv(y, n)
  {
    hide CeilDiv;
    CeilDivIs(y, n, CeilDiv(y, n));
    CeilDivIs(x, n, CeilDiv(y, n));
  }

  function Range(lo: nat, hi: nat): (s: set<nat>)
    requires lo <= hi
    ensures |s| == hi - lo && forall h :: h in s <==> lo <= h < hi
    decreases hi - lo
  {
    if lo == hi then {} else Range(lo, hi - 1) + {hi - 1}
  }

  /** Uniformity: every block receives the floor or the ceiling of 2^32 / n upper halves. */
  lemma BlocksAreUniform(n: nat, b: nat)
    requires 1 <= n <= U32 && b < n
    ensures var share := |set h | 0 <= h < U32 && BlockIndex(h, n) == b|;
            share == U32 / n || share == CeilDiv(U32, n)
  {
    hide BlockIndex, CeilDiv;
    var lo, hi := CeilDiv(b * U32, n), CeilDiv((b + 1) * U32, n);
    CeilDivStep(b * U32, U32, n);
    CeilDivMonotone(b * U32, (b + 1) * U32, n);
    CeilDivIs((b + 1) * U32, n, U32);
    assert lo <= hi <= U32;
    forall h: nat | h < U32
      ensures BlockIndex(h, n) == b <==> lo <= h < hi
    {
      BlockIsInterval(n, b, h);
    }
    assert (set h | 0 <= h < U32 && BlockIndex(h, n) == b) == Range(lo, hi);
  }

  // ---- Membership ------------------------------------------------------------------------------------

  /** The word of the filter that the key's `i`-th bit lives in. */
  function Slot(key: Key, numBlocks: nat, i: nat): nat {
    BlockIndex(UpperHash(key), numBlocks) * WordsPerBlock + i
  }

  lemma SlotInBounds(b: Bloom, key: Key, i: nat)
    requires b.Valid() && i < WordsPerBlock
    ensures Slot(key, b.numBlocks, i) < |b.words|
  {
    hide UpperHash, BlockIndex;
    BlockIndexInBounds(UpperHash(key), UpperHash(key), b.numBlocks);
  }

  predicate AllSet(word: bv32, bits: bv32) {
    word & bits == bits
  }

  function Or(word: bv32, bits: bv32): bv32 {
    word | bits
  }

  lemma OrSets(word: bv32, bits: bv32)
    ensures AllSet(Or(word, bits), word) && AllSet(Or(word, bits), bits)
  {
  }

  lemma AllSetTransitive(a: bv32, b: bv32, c: bv32)
    ensures AllSet(a, a) && (AllSet(a, b) && AllSet(b, c) ==> AllSet(a, c))
  {
  }

  function KeyBit(key: Key, i: nat): bv32
    requires i < WordsPerBlock
  {
    MaskBit(LowerHash(key), i)
  }

  function WordAt(b: Bloom, key: Key, i: nat): bv32
    requires b.Valid() && i < WordsPerBlock
  {
    SlotInBounds(b, key, i);
    b.words[Slot(key, b.numBlocks, i)]
  }

  predicate HasBit(b: Bloom, key: Key, i: nat)
    requires b.Valid() && i < WordsPerBlock
  {
    AllSet(WordAt(b, key, i), KeyBit(key, i))
  }

  predicate MayContain(b: Bloom, key: Key)
    requires b.Valid()
  {
    forall i :: 0 <= i < WordsPerBlock ==> HasBit(b, key, i)
  }

  method MightContain(b: Bloom, key: Key) returns (maybe: bool)
    requires b.Valid()
    ensures maybe == MayContain(b, key)
  {
    hide Murmur, BlockIndex, MaskBit, AllSet;
    var hi := Murmur3(key, 0);
    var lo := Murmur3(key, 0x9747b28c);
    var block := BlockIndex(hi as nat, b.numBlocks);
    var mask := ComputeMask(lo);
    for i := 0 to WordsPerBlock
      invariant forall j :: 0 <= j < WordsPerBlock ==> mask[j] == MaskBit(lo, j)
      invariant forall j :: 0 <= j < i ==> HasBit(b, key, j)
    {
      SlotInBounds(b, key, i);
      assert mask[i] == KeyBit(key, i);
      assert b.words[block * WordsPerBlock + i] == WordAt(b, key, i);
      if !AllSet(b.words[block * WordsPerBlock + i], mask[i]) {
        assert !HasBit(b, key, i);
        return false;
      }
    }
    maybe := true;
  }

  function Replaced(b: Bloom, slot: nat, word: bv32): (b': Bloom)
    requires b.Valid() && slot < |b.words|
    ensures b'.Valid() && b'.numBlocks == b.numBlocks
  {
    b.(words := b.words[slot := word])
  }

  /** The writer's side: OR one bit of the key into its word. */
  function WithBit(b: Bloom, key: Key, i: nat): (b': Bloom)
    requires b.Valid() && i < WordsPerBlock
    ensures b'.Valid() && b'.numBlocks == b.numBlocks
  {
    SlotInBounds(b, key, i);
    Replaced(b, Slot(key, b.numBlocks, i), Or(WordAt(b, key, i), KeyBit(key, i)))
  }

  /** The first `n` bits of the key ORed in. */
  function WithBits(b: Bloom, key: Key, n: nat): (b': Bloom)
    requires b.Valid() && n <= WordsPerBlock
    ensures b'.Valid() && b'.numBlocks == b.numBlocks
    decreases n, key
  {
    if n == 0 then b
    else WithBit(WithBits(b, key, n - 1), key, n - 1)
  }

  function WithKeys(b: Bloom, keys: seq<Key>): (b': Bloom)
    requires b.Valid()
    ensures b'.Valid() && b'.numBlocks == b.numBlocks
  {
    if keys == [] then b
    else WithBits(WithKeys(b, keys[..|keys| - 1]), keys[|keys| - 1], WordsPerBlock)
  }

  /** Every bit of `a` is in `b`. */
  predicate Covers(b: Bloom, a: Bloom)
    requires a.Valid() && b.Valid() && a.numBlocks == b.numBlocks
  {
    forall s :: 0 <= s < |a.words| ==> AllSet(b.words[s], a.words[s])
  }

  lemma CoversTransitive(c: Bloom, b: Bloom, a: Bloom)
    requires a.Valid() && b.Valid() && c.Valid() && a.numBlocks == b.numBlocks == c.numBlocks
    requires Covers(c, b) && Covers(b, a)
    ensures Covers(c, a)
  {
    hide AllSet;
    forall s | 0 <= s < |a.words|
      ensures AllSet(c.words[s], a.words[s])
    {
      AllSetTransitive(c.words[s], b.words[s], a.words[s]);
    }
  }

  lemma CoversItself(b: Bloom)
    requires b.Valid()
    ensures Covers(b, b)
  {
    hide AllSet;
    forall s | 0 <= s < |b.words|
      ensures AllSet(b.words[s], b.words[s])
    {
      AllSetTransitive(b.words[s], 0, 0);
    }
  }

  lemma WithBitGrows(b: Bloom, key: Key, i: nat)
    requires b.Valid() && i < WordsPerBlock
    ensures Covers(WithBit(b, key, i), b) && HasBit(WithBit(b, key, i), key, i)
  {
    hide KeyBit, AllSet, Or, Slot;
    var b' := WithBit(b, key, i);
    SlotInBounds(b, key, i);
    OrSets(WordAt(b, key, i), KeyBit(key, i));
    forall s | 0 <= s < |b.words|
      ensures AllSet(b'.words[s], b.words[s])
    {
      AllSetTransitive(b.words[s], 0, 0);
    }
  }

  lemma CoversKeepsBit(b: Bloom, a: Bloom, key: Key, i: nat)
    requires a.Valid() && b.Valid() && a.numBlocks == b.numBlocks && Covers(b, a)
    requires i < WordsPerBlock && HasBit(a, key, i)
    ensures HasBit(b, key, i)
  {
    hide KeyBit, AllSet, Slot;
    SlotInBounds(a, key, i);
    AllSetTransitive(WordAt(b, key, i), WordAt(a, key, i), KeyBit(key, i));
  }

  lemma {:induction false} WithBitsHas(b: Bloom, key: Key, n: nat)
    requires b.Valid() && n <= WordsPerBlock
    ensures Covers(WithBits(b, key, n), b)
    ensures forall i :: 0 <= i < n ==> HasBit(WithBits(b, key, n), key, i)
  {
    hide HasBit, WithBit, Covers;
    if n == 0 {
      CoversItself(b);
    } else {
      var before := WithBits(b, key, n - 1);
      WithBitsHas(b, key, n - 1);
      WithBitGrows(before, key, n - 1);
      CoversTransitive(WithBits(b, key, n), before, b);
      forall i | 0 <= i < n - 1
        ensures HasBit(WithBits(b, key, n), key, i)
      {
        CoversKeepsBit(WithBits(b, key, n), before, key, i);
      }
    }
  }

  /** No false negatives: whatever the filter held before, whatever order the keys were added
      in, and whatever else is ORed in later, every added key probes present. */
  lemma {:induction false} AddedKeysAreFound(b: Bloom, keys: seq<Key>, later: Bloom, key: Key)
    requires b.Valid() && later.Valid() && later.numBlocks == b.numBlocks
    requires Covers(later, WithKeys(b, keys)) && key in keys
    ensures MayContain(later, key)
    decreases |keys|
  {
    hide HasBit, WithBits, Covers;
    var init, last := keys[..|keys| - 1], keys[|keys| - 1];
    var before := WithKeys(b, init);
    WithBitsHas(before, last, WordsPerBlock);
    if key == last {
      forall i | 0 <= i < WordsPerBlock
        ensures HasBit(later, key, i)
      {
        CoversKeepsBit(later, WithKeys(b, keys), key, i);
      }
    } else {
      assert key in init;
      CoversTransitive(later, WithKeys(b, keys), before);
      AddedKeysAreFound(b, init, later, key);
    }
  }

  // ---- Exactly which keys an honest filter answers for -----------------------------------------------

  /** A single bit. */
  predicate IsOneBit(x: bv32) {
    x != 0 && x & (x - 1) == 0
  }

  lemma ShiftIsOneBit(n: bv32)
    requires n < 32
    ensures IsOneBit(1 << n)
  {
  }

  lemma TopFiveBits(x: bv32)
    ensures x >> 27 < 32
  {
  }

  /** Each word of a key's mask is one bit. */
  lemma MaskBitIsOneBit(key: bv32, i: nat)
    requires i < WordsPerBlock
    ensures IsOneBit(MaskBit(key, i))
  {
    hide IsOneBit;
    TopFiveBits(key * Salt[i]);
    ShiftIsOneBit((key * Salt[i]) >> 27);
  }

  function And(word: bv32, bits: bv32): bv32 {
    word & bits
  }

  lemma AllSetIsAnd(word: bv32, bits: bv32)
    ensures AllSet(word, bits) <==> And(word, bits) == bits
  {
  }

  lemma OneBitMeets(a: bv32, x: bv32)
    requires IsOneBit(x)
    ensures x != 0 && (And(a, x) == 0 || And(a, x) == x)
  {
  }

  lemma AndOverOr(a: bv32, b: bv32, x: bv32)
    ensures And(Or(a, b), x) == Or(And(a, x), And(b, x))
  {
  }

  lemma OrOfSame(x: bv32)
    ensures Or(x, 0) == x && Or(0, x) == x && Or(x, x) == x && Or(0, 0) == 0
  {
  }

  lemma OneBitOfOr(a: bv32, b: bv32, x: bv32)
    requires IsOneBit(x)
    ensures AllSet(Or(a, b), x) <==> AllSet(a, x) || AllSet(b, x)
  {
    hide And, Or, AllSet, IsOneBit;
    AllSetIsAnd(Or(a, b), x);
    AllSetIsAnd(a, x);
    AllSetIsAnd(b, x);
    OneBitMeets(a, x);
    OneBitMeets(b, x);
    AndOverOr(a, b, x);
    OrOfSame(x);
  }

  lemma OneBitInside(x: bv32, y: bv32)
    requires IsOneBit(x) && IsOneBit(y)
    ensures AllSet(x, y) <==> x == y
  {
  }

  lemma ZeroHasNoBit(x: bv32)
    requires IsOneBit(x)
    ensures !AllSet(0, x)
  {
  }

  function Block(key: Key, numBlocks: nat): nat {
    BlockIndex(UpperHash(key), numBlocks)
  }

  /** `added` sets the same bit of the same word as `key` does. */
  predicate SetsBit(added: Key, key: Key, i: nat, numBlocks: nat)
    requires i < WordsPerBlock
  {
    Block(added, numBlocks) == Block(key, numBlocks) && KeyBit(added, i) == KeyBit(key, i)
  }

  predicate BitWasSet(keys: seq<Key>, key: Key, j: nat, numBlocks: nat)
    requires j < WordsPerBlock
  {
    exists k :: k in keys && SetsBit(k, key, j, numBlocks)
  }

  /** A filter with nothing in it. */
  function EmptyBloom(numBlocks: nat): (b: Bloom)
    requires 1 <= numBlocks <= U32
    ensures b.Valid() && b.numBlocks == numBlocks
  {
    Bloom(seq(numBlocks * WordsPerBlock, _ => 0), numBlocks)
  }

  /** Different words are different places. */
  lemma SlotsDiffer(a: Key, key: Key, i: nat, j: nat, numBlocks: nat)
    requires i < WordsPerBlock && j < WordsPerBlock
    ensures Slot(a, numBlocks, i) == Slot(key, numBlocks, j) <==> Block(a, numBlocks) == Block(key, numBlocks) && i == j
  {
    hide UpperHash, BlockIndex;
  }

  /** ORing one bit in changes the answer to one probe exactly if it is the bit probed. */
  lemma WithBitExact(b: Bloom, added: Key, i: nat, key: Key, j: nat)
    requires b.Valid() && i < WordsPerBlock && j < WordsPerBlock
    ensures HasBit(WithBit(b, added, i), key, j) <==> HasBit(b, key, j) || (i == j && SetsBit(added, key, j, b.numBlocks))
  {
    hide AllSet, Or, Slot, Block, LowerHash, MaskBit, IsOneBit;
    SlotsDiffer(added, key, i, j, b.numBlocks);
    SlotInBounds(b, added, i);
    SlotInBounds(b, key, j);
    MaskBitIsOneBit(LowerHash(key), j);
    MaskBitIsOneBit(LowerHash(added), i);
    if Slot(added, b.numBlocks, i) == Slot(key, b.numBlocks, j) {
      OneBitOfOr(WordAt(b, key, j), KeyBit(added, i), KeyBit(key, j));
      OneBitInside(KeyBit(added, i), KeyBit(key, j));
    }
  }

  lemma {:induction false} WithBitsExact(b: Bloom, added: Key, n: nat, key: Key, j: nat)
    requires b.Valid() && n <= WordsPerBlock && j < WordsPerBlock
    ensures HasBit(WithBits(b, added, n), key, j) <==> HasBit(b, key, j) || (j < n && SetsBit(added, key, j, b.numBlocks))
    decreases n
  {
    hide HasBit, WithBit, SetsBit;
    if n > 0 {
      WithBitsExact(b, added, n - 1, key, j);
      WithBitExact(WithBits(b, added, n - 1), added, n - 1, key, j);
    }
  }

  lemma {:induction false} BitExact(numBlocks: nat, keys: seq<Key>, key: Key, j: nat)
    requires 1 <= numBlocks <= U32 && j < WordsPerBlock
    ensures HasBit(WithKeys(EmptyBloom(numBlocks), keys), key, j) <==> BitWasSet(keys, key, j, numBlocks)
    decreases |keys|
  {
    hide SetsBit, WithBits, HasBit;
    if keys == [] {
      EmptyHasNoBit(numBlocks, key, j);
    } else {
      var init, last := keys[..|keys| - 1], keys[|keys| - 1];
      BitExact(numBlocks, init, key, j);
      WithBitsExact(WithKeys(EmptyBloom(numBlocks), init), last, WordsPerBlock, key, j);
      assert forall k :: k in keys <==> k in init || k == last;
    }
  }

  lemma EmptyHasNoBit(numBlocks: nat, key: Key, j: nat)
    requires 1 <= numBlocks <= U32 && j < WordsPerBlock
    ensures !HasBit(EmptyBloom(numBlocks), key, j)
  {
    hide AllSet, Slot, LowerHash, MaskBit, IsOneBit;
    SlotInBounds(EmptyBloom(numBlocks), key, j);
    MaskBitIsOneBit(LowerHash(key), j);
    ZeroHasNoBit(KeyBit(key, j));
  }

  /** A filter built from nothing answers yes for a key exactly when each of the key's eight bits
      was set by some added key of the same block; so an empty one rejects every key. */
  lemma FilterIsExact(numBlocks: nat, keys: seq<Key>, key: Key)
    requires 1 <= numBlocks <= U32
    ensures MayContain(WithKeys(EmptyBloom(numBlocks), keys), key) <==>
              forall j :: 0 <= j < WordsPerBlock ==> BitWasSet(keys, key, j, numBlocks)
    ensures keys == [] ==> !MayContain(WithKeys(EmptyBloom(numBlocks), keys), key)
  {
    hide WithKeys, HasBit, SetsBit;
    forall j | 0 <= j < WordsPerBlock
      ensures HasBit(WithKeys(EmptyBloom(numBlocks), keys), key, j) <==> BitWasSet(keys, key, j, numBlocks)
    {
      BitExact(numBlocks, keys, key, j);
    }
    if keys == [] {
      assert !BitWasSet(keys, key, 0, numBlocks);
    }
  }
}
