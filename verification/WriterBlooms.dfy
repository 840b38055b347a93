/** The filter and hash functions against a filter that the catalog's writer produced
    (src/bloom.rs:155-183): keys it holds are found and a key it lacks is dismissed. */
module WriterBlooms {
  import opened Bytes
  import opened Blooms

  /** The writer's filter over the keys "k1" to "k100", four blocks of eight words. */
  const WriterWords: seq<bv32> := [
    0x70fa7936, 0xa4b4f2d5, 0xe0a6576e, 0x2c4f8659, 0x9b1b218b, 0xaa398639, 0x5996bcdc, 0x25b37f2a,
    0xbfb64cc7, 0xd83b86af, 0x1b1d8737, 0xcec5b514, 0xf27e7394, 0xe7f2d8da, 0x2ab3a63f, 0xfbc8b3b4,
    0xdcdd65bd, 0x6cfdbdf8, 0x327b7e6b, 0x7cd51732, 0xded6c538, 0x9c21f9bf, 0xe996a6e9, 0xcbc3d8db,
    0x6fc67646, 0x4d97b9dd, 0xaa836ed3, 0x367c37a3, 0x4f37670f, 0x93926ff9, 0x296f3635, 0x679e2b4c]

  const WriterBloom: Bloom := Bloom(WriterWords, 4)

  // ---- The hash of a short key -----------------------------------------------------------------

  lemma LengthIs(len: bv32, n: nat)
    requires len as nat == n < 0x100
    ensures LengthWord(n) == len
  {
    SmallLength(n);
    BitsOfLength(len, n % U32);
  }

  lemma SmallLength(n: nat)
    requires n < 0x100
    ensures n % U32 == n
  {
  }

  lemma BitsOfLength(b: bv32, n: nat)
    requires b as nat == n
    ensures n as bv32 == b
  {
  }

  lemma FinishIs(h: bv32, len: bv32, n: nat, hash: bv32)
    requires LengthWord(n) == len && FinalMix(h ^ len) == hash
    ensures Finish(h, n) == hash
  {
    hide FinalMix, LengthWord;
  }

  lemma TailOfTwo(t: seq<byte>, a: bv32, b: bv32)
    requires |t| == 2 && t[0] as nat == a as nat && t[1] as nat == b as nat
    ensures Tail(t) == Scramble((0 ^ (b << 8)) ^ a)
  {
    hide Scramble;
    BitsOfByte(a, t[0]);
    BitsOfByte(b, t[1]);
  }

  lemma TailOfThree(t: seq<byte>, a: bv32, b: bv32, c: bv32)
    requires |t| == 3 && t[0] as nat == a as nat && t[1] as nat == b as nat && t[2] as nat == c as nat
    ensures Tail(t) == Scramble(((0 ^ (c << 16)) ^ (b << 8)) ^ a)
  {
    hide Scramble;
    BitsOfByte(a, t[0]);
    BitsOfByte(b, t[1]);
    BitsOfByte(c, t[2]);
  }

  lemma WordOfFour(data: seq<byte>, a: bv32, b: bv32, c: bv32, d: bv32)
    requires |data| >= 4 && data[0] as nat == a as nat && data[1] as nat == b as nat
    requires data[2] as nat == c as nat && data[3] as nat == d as nat
    ensures Word(data, 0) == a | (b << 8) | (c << 16) | (d << 24)
  {
    BitsOfByte(a, data[0]);
    BitsOfByte(b, data[1]);
    BitsOfByte(c, data[2]);
    BitsOfByte(d, data[3]);
  }

  lemma HashOfTail(data: seq<byte>, seed: bv32, tail: bv32, hash: bv32)
    requires |data| < 4 && Tail(data) == tail && Finish(seed ^ tail, |data|) == hash
    ensures Murmur(data, seed) == hash
  {
    hide Finish, Tail;
    assert data[0..] == data;
  }

  lemma HashOfBlock(data: seq<byte>, seed: bv32, word: bv32, state: bv32, tail: bv32, hash: bv32)
    requires 4 <= |data| < 8 && Word(data, 0) == word && Tail(data[4..]) == tail
    requires Absorb(seed, word) == state && Finish(state ^ tail, |data|) == hash
    ensures Murmur(data, seed) == hash
  {
    hide Finish, Tail, Absorb, Word;
    assert Body(data, seed, 1) == Absorb(Body(data, seed, 0), Word(data, 0));
  }

  lemma TailOfNone()
    ensures Tail([]) == 0
  {
  }

  // ---- Keys ----------------------------------------------------------------------------------------

  const K1: Key := [0x6b, 0x31]
  const K10: Key := [0x6b, 0x31, 0x30]
  const K100: Key := [0x6b, 0x31, 0x30, 0x30]
  const Stranger: Key := [0x6b, 0x31, 0x30, 0x30, 0x30, 0x30, 0x30]

  lemma TailOfK1()
    ensures Tail(K1) == 0x7c09ff6c
  {
    hide Tail;
    TailOfTwo(K1, 0x6b, 0x31);
  }

  lemma BlockOfK1()
    ensures Block(K1, 4) == 3
  {
    hide Murmur, Tail, Word, Finish, LengthWord;
    TailOfK1();
    LengthIs(2, 2);
    FinishIs(0x7c09ff6c, 2, 2, 0xfdc6602a);
    HashOfTail(K1, 0x00000000, 0x7c09ff6c, 0xfdc6602a);
  }

  lemma LowerOfK1()
    ensures LowerHash(K1) == 0xf724b00f
  {
    hide Murmur, Tail, Word, Finish, LengthWord;
    TailOfK1();
    LengthIs(2, 2);
    FinishIs(0xeb4e4de0, 2, 2, 0xf724b00f);
    HashOfTail(K1, 0x9747b28c, 0x7c09ff6c, 0xf724b00f);
  }

  lemma TailOfK10()
    ensures Tail(K10) == 0x7fb77bb4
  {
    hide Tail;
    TailOfThree(K10, 0x6b, 0x31, 0x30);
  }

  lemma BlockOfK10()
    ensures Block(K10, 4) == 1
  {
    hide Murmur, Tail, Word, Finish, LengthWord;
    TailOfK10();
    LengthIs(3, 3);
    FinishIs(0x7fb77bb4, 3, 3, 0x782a45d3);
    HashOfTail(K10, 0x00000000, 0x7fb77bb4, 0x782a45d3);
  }

  lemma LowerOfK10()
    ensures LowerHash(K10) == 0x646487cb
  {
    hide Murmur, Tail, Word, Finish, LengthWord;
    TailOfK10();
    LengthIs(3, 3);
    FinishIs(0xe8f0c938, 3, 3, 0x646487cb);
    HashOfTail(K10, 0x9747b28c, 0x7fb77bb4, 0x646487cb);
  }

  lemma TailOfK100()
    ensures Tail(K100[4..]) == 0x00000000
  {
    TailOfNone();
    assert K100[4..] == [];
  }

  lemma BlockOfK100()
    ensures Block(K100, 4) == 2
  {
    hide Murmur, Tail, Word, Finish, LengthWord;
    TailOfK100();
    WordOfFour(K100, 0x6b, 0x31, 0x30, 0x30);
    LengthIs(4, 4);
    FinishIs(0x30a50757, 4, 4, 0x80bb77be);
    HashOfBlock(K100, 0x00000000, 0x3030316b, 0x30a50757, 0x00000000, 0x80bb77be);
  }

  lemma LowerOfK100()
    ensures LowerHash(K100) == 0x7f825f83
  {
    hide Murmur, Tail, Word, Finish, LengthWord;
    TailOfK100();
    WordOfFour(K100, 0x6b, 0x31, 0x30, 0x30);
    LengthIs(4, 4);
    FinishIs(0xbd17e0df, 4, 4, 0x7f825f83);
    HashOfBlock(K100, 0x9747b28c, 0x3030316b, 0xbd17e0df, 0x00000000, 0x7f825f83);
  }

  lemma TailOfStranger()
    ensures Tail(Stranger[4..]) == 0x8368af31
  {
    hide Tail;
    TailOfThree(Stranger[4..], 0x30, 0x30, 0x30);
  }

  lemma BlockOfStranger()
    ensures Block(Stranger, 4) == 2
  {
    hide Murmur, Tail, Word, Finish, LengthWord;
    TailOfStranger();
    WordOfFour(Stranger, 0x6b, 0x31, 0x30, 0x30);
    LengthIs(7, 7);
    FinishIs(0xb3cda866, 7, 7, 0x890d0873);
    HashOfBlock(Stranger, 0x00000000, 0x3030316b, 0x30a50757, 0x8368af31, 0x890d0873);
  }

  lemma LowerOfStranger()
    ensures LowerHash(Stranger) == 0xc17a64ae
  {
    hide Murmur, Tail, Word, Finish, LengthWord;
    TailOfStranger();
    WordOfFour(Stranger, 0x6b, 0x31, 0x30, 0x30);
    LengthIs(7, 7);
    FinishIs(0x3e7f4fee, 7, 7, 0xc17a64ae);
    HashOfBlock(Stranger, 0x9747b28c, 0x3030316b, 0xbd17e0df, 0x8368af31, 0xc17a64ae);
  }

  /** Every word of the block holds its bit of the mask. */
  predicate BlockHas(block: nat, lower: bv32)
    requires block < 4
  {
    forall i :: 0 <= i < WordsPerBlock ==> AllSet(WriterWords[block * WordsPerBlock + i], MaskBit(lower, i))
  }

  lemma ProbeIs(key: Key, lower: bv32, block: nat, i: nat)
    requires LowerHash(key) == lower && i < WordsPerBlock && block < 4 && Block(key, 4) == block
    ensures HasBit(WriterBloom, key, i) <==> AllSet(WriterWords[block * WordsPerBlock + i], MaskBit(lower, i))
  {
    hide UpperHash, LowerHash, BlockIndex, AllSet, MaskBit;
    assert WriterBloom.words == WriterWords;
    assert Slot(key, 4, i) == block * WordsPerBlock + i;
  }

  lemma ProbesAre(key: Key, lower: bv32, block: nat)
    requires LowerHash(key) == lower && block < 4 && Block(key, 4) == block
    ensures MayContain(WriterBloom, key) <==> BlockHas(block, lower)
  {
    hide Block, LowerHash, HasBit, AllSet, MaskBit;
    forall i | 0 <= i < WordsPerBlock
      ensures HasBit(WriterBloom, key, i) <==> AllSet(WriterWords[block * WordsPerBlock + i], MaskBit(lower, i))
    {
      ProbeIs(key, lower, block, i);
    }
  }

  lemma BitsOfK1()
    ensures BlockHas(3, 0xf724b00f)
  {
    assert AllSet(WriterWords[24], MaskBit(0xf724b00f, 0));
    assert AllSet(WriterWords[25], MaskBit(0xf724b00f, 1));
    assert AllSet(WriterWords[26], MaskBit(0xf724b00f, 2));
    assert AllSet(WriterWords[27], MaskBit(0xf724b00f, 3));
    assert AllSet(WriterWords[28], MaskBit(0xf724b00f, 4));
    assert AllSet(WriterWords[29], MaskBit(0xf724b00f, 5));
    assert AllSet(WriterWords[30], MaskBit(0xf724b00f, 6));
    assert AllSet(WriterWords[31], MaskBit(0xf724b00f, 7));
  }

  lemma FindsK1()
    ensures MayContain(WriterBloom, K1)
  {
    hide LowerHash, MayContain, BlockHas, Block;
    BlockOfK1();
    LowerOfK1();
    BitsOfK1();
    ProbesAre(K1, 0xf724b00f, 3);
  }

  lemma BitsOfK10()
    ensures BlockHas(1, 0x646487cb)
  {
    assert AllSet(WriterWords[8], MaskBit(0x646487cb, 0));
    assert AllSet(WriterWords[9], MaskBit(0x646487cb, 1));
    assert AllSet(WriterWords[10], MaskBit(0x646487cb, 2));
    assert AllSet(WriterWords[11], MaskBit(0x646487cb, 3));
    assert AllSet(WriterWords[12], MaskBit(0x646487cb, 4));
    assert AllSet(WriterWords[13], MaskBit(0x646487cb, 5));
    assert AllSet(WriterWords[14], MaskBit(0x646487cb, 6));
    assert AllSet(WriterWords[15], MaskBit(0x646487cb, 7));
  }

  lemma FindsK10()
    ensures MayContain(WriterBloom, K10)
  {
    hide LowerHash, MayContain, BlockHas, Block;
    BlockOfK10();
    LowerOfK10();
    BitsOfK10();
    ProbesAre(K10, 0x646487cb, 1);
  }

  lemma BitsOfK100()
    ensures BlockHas(2, 0x7f825f83)
  {
    assert AllSet(WriterWords[16], MaskBit(0x7f825f83, 0));
    assert AllSet(WriterWords[17], MaskBit(0x7f825f83, 1));
    assert AllSet(WriterWords[18], MaskBit(0x7f825f83, 2));
    assert AllSet(WriterWords[19], MaskBit(0x7f825f83, 3));
    assert AllSet(WriterWords[20], MaskBit(0x7f825f83, 4));
    assert AllSet(WriterWords[21], MaskBit(0x7f825f83, 5));
    assert AllSet(WriterWords[22], MaskBit(0x7f825f83, 6));
    assert AllSet(WriterWords[23], MaskBit(0x7f825f83, 7));
  }

  lemma FindsK100()
    ensures MayContain(WriterBloom, K100)
  {
    hide LowerHash, MayContain, BlockHas, Block;
    BlockOfK100();
    LowerOfK100();
    BitsOfK100();
    ProbesAre(K100, 0x7f825f83, 2);
  }

  lemma BitsOfStranger()
    ensures !BlockHas(2, 0xc17a64ae)
  {
    assert !AllSet(WriterWords[17], MaskBit(0xc17a64ae, 1));
  }

  lemma DismissesStranger()
    ensures !MayContain(WriterBloom, Stranger)
  {
    hide LowerHash, MayContain, BlockHas, Block;
    BlockOfStranger();
    LowerOfStranger();
    BitsOfStranger();
    ProbesAre(Stranger, 0xc17a64ae, 2);
  }

  /** The port agrees with the writer, bit for bit, on keys with and without whole blocks and tails. */
  lemma AgreesWithWriter()
    ensures MayContain(WriterBloom, K1) && MayContain(WriterBloom, K10) && MayContain(WriterBloom, K100)
    ensures !MayContain(WriterBloom, Stranger)
  {
    hide MayContain;
    FindsK1();
    FindsK10();
    FindsK100();
    DismissesStranger();
  }
}
