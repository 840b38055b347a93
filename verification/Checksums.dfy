/** What the frame's checksum catches (src/record.rs): damage within any four consecutive payload
    bytes reads as a torn tail. */
module Checksums {
  import opened Bytes
  import opened Records

  /** Eight zero bits through the register. */
  function ByteShift(c: bv32): bv32 {
    var c := CrcShift(CrcShift(CrcShift(CrcShift(c))));
    CrcShift(CrcShift(CrcShift(CrcShift(c))))
  }

  /** The register after the first `n` bytes. */
  function After(data: seq<byte>, n: nat): bv32
    requires n <= |data|
  {
    CrcRegister(data, 8 * n)
  }

  function Xor(a: bv32, b: bv32): bv32 {
    a ^ b
  }

  /** One more bit of the data: a byte enters the register with its first bit. */
  lemma BitStep(data: seq<byte>, n: nat, bit: nat)
    requires n < |data| && bit < 8
    ensures CrcRegister(data, 8 * n + bit + 1)
         == CrcShift(if bit == 0 then After(data, n) ^ (data[n] as bv32) else CrcRegister(data, 8 * n + bit))
  {
    hide CrcShift;
    assert (8 * n + bit) % 8 == bit && (8 * n + bit) / 8 == n;
  }

  lemma ByteStep(data: seq<byte>, n: nat)
    requires n < |data|
    ensures After(data, n + 1) == ByteShift(Xor(After(data, n), data[n] as bv32))
  {
    hide CrcShift, CrcRegister;
    BitStep(data, n, 0);
    BitStep(data, n, 1);
    BitStep(data, n, 2);
    BitStep(data, n, 3);
    BitStep(data, n, 4);
    BitStep(data, n, 5);
    BitStep(data, n, 6);
    BitStep(data, n, 7);
    assert 8 * n + 8 == 8 * (n + 1);
  }

  // ---- The register is linear ---------------------------------------------------------------------

  lemma XorShifts(a: bv32, b: bv32)
    ensures (a ^ b) >> 1 == (a >> 1) ^ (b >> 1)
  {
  }

  lemma XorParity(a: bv32, b: bv32)
    ensures (a ^ b) & 1 == (a & 1) ^ (b & 1)
  {
  }

  lemma XorMoves(a: bv32, b: bv32, p: bv32)
    ensures (a ^ p) ^ b == (a ^ b) ^ p && a ^ (b ^ p) == (a ^ b) ^ p && (a ^ p) ^ (b ^ p) == a ^ b
  {
  }

  lemma Parity(c: bv32)
    ensures c & 1 == 0 || c & 1 == 1
  {
  }

  lemma ShiftLinear(a: bv32, b: bv32)
    ensures Xor(CrcShift(a), CrcShift(b)) == CrcShift(Xor(a, b))
  {
    Parity(a);
    Parity(b);
    XorShifts(a, b);
    XorParity(a, b);
    XorMoves(a >> 1, b >> 1, 0xEDB88320);
  }

  lemma ByteShiftLinear(a: bv32, b: bv32)
    ensures Xor(ByteShift(a), ByteShift(b)) == ByteShift(Xor(a, b))
  {
    hide CrcShift, Xor;
    var a1, b1 := CrcShift(a), CrcShift(b);
    var a2, b2 := CrcShift(a1), CrcShift(b1);
    var a3, b3 := CrcShift(a2), CrcShift(b2);
    var a4, b4 := CrcShift(a3), CrcShift(b3);
    var a5, b5 := CrcShift(a4), CrcShift(b4);
    var a6, b6 := CrcShift(a5), CrcShift(b5);
    var a7, b7 := CrcShift(a6), CrcShift(b6);
    ShiftLinear(a, b);
    ShiftLinear(a1, b1);
    ShiftLinear(a2, b2);
    ShiftLinear(a3, b3);
    ShiftLinear(a4, b4);
    ShiftLinear(a5, b5);
    ShiftLinear(a6, b6);
    ShiftLinear(a7, b7);
  }

  /** A register whose high byte is clear came from itself shifted up by one byte. */
  lemma ShiftBack(d: bv32)
    requires ByteShift(d) < 0x100_0000
    ensures d == ByteShift(d) << 8
  {
  }

  // ---- Two texts side by side ---------------------------------------------------------------------

  /** How far apart the registers are after `n` bytes. */
  function Apart(a: seq<byte>, b: seq<byte>, n: nat): bv32
    requires n <= |a| == |b|
  {
    Xor(After(a, n), After(b, n))
  }

  function Differ(a: seq<byte>, b: seq<byte>, i: nat): bv32
    requires i < |a| == |b|
  {
    Xor(a[i] as bv32, b[i] as bv32)
  }

  lemma XorAssoc(a: bv32, b: bv32, c: bv32)
    ensures Xor(Xor(a, b), c) == Xor(a, Xor(b, c)) && Xor(b, c) == Xor(c, b)
  {
  }

  lemma XorSwap(r: bv32, q: bv32, x: bv32, y: bv32)
    ensures Xor(Xor(r, x), Xor(q, y)) == Xor(Xor(r, q), Xor(x, y))
  {
    hide Xor;
    XorAssoc(r, x, Xor(q, y));
    XorAssoc(x, q, y);
    XorAssoc(y, x, q);
    XorAssoc(q, x, y);
    XorAssoc(r, q, Xor(x, y));
  }

  lemma ApartStep(a: seq<byte>, b: seq<byte>, n: nat)
    requires n < |a| == |b|
    ensures Apart(a, b, n + 1) == ByteShift(Xor(Apart(a, b, n), Differ(a, b, n)))
  {
    hide After, ByteShift, Xor;
    ByteStep(a, n);
    ByteStep(b, n);
    ByteShiftLinear(Xor(After(a, n), a[n] as bv32), Xor(After(b, n), b[n] as bv32));
    XorSwap(After(a, n), After(b, n), a[n] as bv32, b[n] as bv32);
  }

  lemma XorUnit(a: bv32)
    ensures Xor(a, a) == 0 && Xor(a, 0) == a && Xor(0, a) == a
  {
  }

  lemma XorZero(a: bv32, b: bv32)
    ensures Xor(a, b) == 0 <==> a == b
    ensures Xor(a, 0) == a
  {
    hide Xor;
    XorUnit(a);
    XorUnit(b);
    XorAssoc(a, b, b);
  }

  lemma {:induction false} SameSoFar(a: seq<byte>, b: seq<byte>, n: nat)
    requires n <= |a| == |b| && a[..n] == b[..n]
    ensures Apart(a, b, n) == 0
  {
    hide ByteShift;
    XorZero(After(a, n), After(b, n));
    if n > 0 {
      ByteStep(a, n - 1);
      ByteStep(b, n - 1);
      assert a[n - 1] == a[..n][n - 1] == b[n - 1];
      assert a[..n - 1] == a[..n][..n - 1] == b[..n - 1];
      SameSoFar(a, b, n - 1);
      XorZero(After(a, n - 1), After(b, n - 1));
    }
  }

  // ---- Damage within four bytes ---------------------------------------------------------------------

  /** Only the lowest `width` bytes may be set. */
  predicate Narrow(d: bv32, width: nat)
    requires width <= 4
  {
    width == 4 || d < [1, 0x100, 0x1_0000, 0x100_0000][width]
  }

  lemma NarrowBack(d: bv32, x: bv32, width: nat)
    requires width < 4 && x < 0x100 && Narrow(ByteShift(Xor(d, x)), width)
    ensures Narrow(d, width + 1)
    ensures d == 0 ==> x == 0 && ByteShift(Xor(d, x)) == 0
  {
    hide ByteShift;
    ShiftBack(Xor(d, x));
  }

  lemma XorOfBytes(x: bv32, y: bv32)
    requires x < 0x100 && y < 0x100
    ensures Xor(x, y) < 0x100
  {
  }

  lemma BitsRoundTrip(b: bv32)
    ensures (b as nat) as bv32 == b
  {
  }

  lemma {:induction false} BitsOf(x: nat) returns (b: bv32)
    requires x < 0x100
    ensures b as nat == x && b < 0x100
  {
    if x == 0 {
      b := 0;
    } else {
      b := BitsOf(x - 1);
      b := b + 1;
    }
  }

  lemma ByteRoundTrip(x: byte)
    ensures (x as bv32) as nat == x as nat && x as bv32 < 0x100
  {
    var b := BitsOf(x as nat);
    BitsOfByte(b, x);
  }

  lemma SameByte(x: byte, y: byte)
    ensures Xor(x as bv32, y as bv32) < 0x100
    ensures Xor(x as bv32, y as bv32) == 0 ==> x == y
  {
    hide Xor;
    ByteRoundTrip(x);
    ByteRoundTrip(y);
    XorOfBytes(x as bv32, y as bv32);
    XorZero(x as bv32, y as bv32);
  }

  lemma DifferAt(a: seq<byte>, b: seq<byte>, i: nat)
    requires i < |a| == |b|
    ensures Differ(a, b, i) < 0x100 && (Differ(a, b, i) == 0 ==> a[i] == b[i])
  {
    SameByte(a[i], b[i]);
  }

  lemma NarrowNone(d: bv32)
    requires d == 0
    ensures Narrow(d, 0)
  {
  }

  /** From the register behind the damage back to the byte `i` inside it. */
  lemma {:induction false} Backwards(a: seq<byte>, b: seq<byte>, i: nat, end: nat)
    requires i <= end <= |a| == |b| && end <= i + 4 && Apart(a, b, end) == 0
    ensures Narrow(Apart(a, b, i), end - i)
    ensures Apart(a, b, i) == 0 ==> a[i..end] == b[i..end]
    decreases end - i
  {
    hide ByteShift, Apart, Xor, Differ, Narrow;
    if i == end {
      NarrowNone(Apart(a, b, i));
    } else {
      Backwards(a, b, i + 1, end);
      ApartStep(a, b, i);
      DifferAt(a, b, i);
      NarrowBack(Apart(a, b, i), Differ(a, b, i), end - i - 1);
      if Apart(a, b, i) == 0 {
        assert a[i..end] == [a[i]] + a[i + 1..end] && b[i..end] == [b[i]] + b[i + 1..end];
      }
    }
  }

  lemma {:induction false} Forwards(a: seq<byte>, b: seq<byte>, end: nat, n: nat)
    requires end <= n <= |a| == |b| && a[end..n] == b[end..n] && Apart(a, b, n) == 0
    ensures Apart(a, b, end) == 0
    decreases n
  {
    hide ByteShift, Apart, Xor, Differ;
    if end < n {
      assert a[n - 1] == a[end..n][n - 1 - end] == b[n - 1];
      assert a[end..n - 1] == a[end..n][..n - 1 - end] == b[end..n - 1];
      ApartStep(a, b, n - 1);
      Undisturbed(a, b, n - 1);
      Forwards(a, b, end, n - 1);
    }
  }

  /** An equal byte leaves no gap only where there was none. */
  lemma Undisturbed(a: seq<byte>, b: seq<byte>, i: nat)
    requires i < |a| == |b| && a[i] == b[i] && ByteShift(Xor(Apart(a, b, i), Differ(a, b, i))) == 0
    ensures Apart(a, b, i) == 0
  {
    hide ByteShift, Apart, Xor;
    XorZero(a[i] as bv32, b[i] as bv32);
    XorZero(Apart(a, b, i), 0);
    ShiftBack(Apart(a, b, i));
  }

  /** Equal outside the four bytes that start at `p`. */
  predicate SameOutside(a: seq<byte>, b: seq<byte>, p: nat) {
    |a| == |b| && forall i :: 0 <= i < |a| && !(p <= i < p + 4) ==> a[i] == b[i]
  }

  lemma Flip(r: bv32, q: bv32)
    requires CrcFinal(r) == CrcFinal(q)
    ensures r == q
  {
    BitsRoundTrip(r ^ 0xFFFFFFFF);
    BitsRoundTrip(q ^ 0xFFFFFFFF);
  }

  lemma CrcOfRegisters(a: seq<byte>, b: seq<byte>)
    requires |a| == |b| && Crc32(a) == Crc32(b)
    ensures Apart(a, b, |a|) == 0
  {
    hide CrcRegister, CrcFinal, Xor;
    var r, q := After(a, |a|), After(b, |b|);
    Flip(r, q);
    XorZero(r, q);
  }

  lemma Pieces(a: seq<byte>, start: nat, end: nat)
    requires start <= end <= |a|
    ensures a == a[..start] + a[start..end] + a[end..|a|]
  {
  }

  /** Texts of one length that differ only within four consecutive bytes have different checksums. */
  lemma BurstIsCaught(a: seq<byte>, b: seq<byte>, p: nat)
    requires SameOutside(a, b, p)
    ensures Crc32(a) == Crc32(b) ==> a == b
  {
    hide Crc32, Apart;
    if Crc32(a) == Crc32(b) {
      CrcOfRegisters(a, b);
      var start := if p <= |a| then p else |a|;
      var end := if p + 4 <= |a| then p + 4 else |a|;
      assert a[end..|a|] == b[end..|a|] && a[..start] == b[..start];
      Forwards(a, b, end, |a|);
      SameSoFar(a, b, start);
      Backwards(a, b, start, end);
      Pieces(a, start, end);
      Pieces(b, start, end);
    }
  }

  /** A frame whose payload was damaged within four consecutive bytes is a torn tail, never a record. */
  lemma DamagedFrameIsTorn(rec: Record, damaged: seq<byte>, p: nat, rest: seq<byte>)
    requires |Payload(rec)| < U32 && SameOutside(Payload(rec), damaged, p) && damaged != Payload(rec)
    ensures Decode(Frame(rec)[..FrameHeaderLen] + damaged + rest) == Torn
  {
    hide FromLe, Crc32, Payload, SameOutside, Le32;
    BurstIsCaught(Payload(rec), damaged, p);
    SameLength(Payload(rec), damaged, p);
    var crc, len := Crc32(Payload(rec)), |Payload(rec)|;
    HeaderValues(crc, len, damaged, rest);
    assert Frame(rec)[..FrameHeaderLen] == Le32(crc) + Le32(len);
    assert len % U32 == len;
  }

  lemma SameLength(a: seq<byte>, b: seq<byte>, p: nat)
    requires SameOutside(a, b, p)
    ensures |a| == |b|
  {
  }

  /** The bytes of "123456789". */
  const CheckText: seq<byte> := [0x31, 0x32, 0x33, 0x34, 0x35, 0x36, 0x37, 0x38, 0x39]

  lemma RegisterStep(data: seq<byte>, n: nat, before: bv32, b: bv32, after: bv32)
    requires n < |data| && After(data, n) == before
    requires b as nat == data[n] as nat && ByteShift(Xor(before, b)) == after
    ensures After(data, n + 1) == after
  {
    hide After, ByteShift, Xor;
    ByteStep(data, n);
    BitsOfByte(b, data[n]);
  }

  lemma StartRegister(data: seq<byte>)
    ensures After(data, 0) == 0xFFFFFFFF
  {
  }

  lemma FirstRegisters()
    ensures After(CheckText, 5) == 0x340AC5E3
  {
    hide After;
    StartRegister(CheckText);
    RegisterStep(CheckText, 0, 0xFFFFFFFF, 0x31, 0x7C231048);
    RegisterStep(CheckText, 1, 0x7C231048, 0x32, 0xB0ACBB32);
    RegisterStep(CheckText, 2, 0xB0ACBB32, 0x33, 0x77B79C2D);
    RegisterStep(CheckText, 3, 0x77B79C2D, 0x34, 0x641C1F5C);
    RegisterStep(CheckText, 4, 0x641C1F5C, 0x35, 0x340AC5E3);
  }

  /** The published check value of CRC-32, which fixes the polynomial, the bit order and both
      complements. */
  lemma CheckValue()
    ensures Crc32(CheckText) == 0xCBF43926
  {
    FirstRegisters();
    hide CrcRegister;
    RegisterStep(CheckText, 5, 0x340AC5E3, 0x36, 0xF68D2C9E);
    RegisterStep(CheckText, 6, 0xF68D2C9E, 0x37, 0xAFFC9660);
    RegisterStep(CheckText, 7, 0xAFFC9660, 0x38, 0x651F2550);
    RegisterStep(CheckText, 8, 0x651F2550, 0x39, 0x340BC6D9);
  }
}
