/** Bytes, little-endian integers and the byte-lexicographic order of keys. */
module Bytes {

  newtype byte = x: int | 0 <= x < 256

  type Key = seq<byte>

  const U32: nat := 0x1_0000_0000
  const U64: nat := 0x1_0000_0000_0000_0000

  datatype Option<+T> = None | Some(value: T)

  datatype Result<+T, +E> = Ok(value: T) | Err(error: E)

  // ---- Little-endian integers ------------------------------------------------

  function Pow256(width: nat): (p: nat)
    ensures p >= 1
  {
    if width == 0 then 1 else 256 * Pow256(width - 1)
  }

  /** The low `width` bytes of `n`, least significant first. */
  function ToLe(n: nat, width: nat): (b: seq<byte>)
    ensures |b| == width
    decreases width, n
  {
    if width == 0 then [] else [(n % 256) as byte] + ToLe(n / 256, width - 1)
  }

  function FromLe(b: seq<byte>): nat {
    if b == [] then 0 else b[0] as nat + 256 * FromLe(b[1..])
  }

  lemma {:induction false} LeRoundTrip(n: nat, width: nat)
    requires n < Pow256(width)
    ensures FromLe(ToLe(n, width)) == n
    decreases width
  {
    if width > 0 {
      LeRoundTrip(n / 256, width - 1);
      assert ToLe(n, width)[1..] == ToLe(n / 256, width - 1);
    }
  }

  lemma DivDiv(n: nat, p: nat)
    requires p > 0
    ensures n / 256 / p == n / (256 * p)
  {
    var q := n / (256 * p);
    var r := n % (256 * p);
    assert n == 256 * p * q + r;
    assert n / 256 == p * q + r / 256;
    assert r / 256 < p;
    QuotientUnique(n / 256, p, q, r / 256);
  }

  lemma {:induction false} MultipleIsFar(p: nat, d: nat)
    requires d > 0
    ensures p * d >= p
  {
    if d > 1 {
      MultipleIsFar(p, d - 1);
      assert p * d == p * (d - 1) + p;
    }
  }

  lemma QuotientUnique(n: nat, p: nat, q: nat, r: nat)
    requires n == p * q + r && r < p
    ensures n / p == q
  {
    var d := n / p - q;
    assert p * d == r - n % p;
    if d > 0 {
      MultipleIsFar(p, d);
    }
  }

  /** Byte `i` carries the digit of weight 256^i. */
  lemma {:induction false} LeDigit(n: nat, width: nat, i: nat)
    requires i < width
    ensures ToLe(n, width)[i] as nat == n / Pow256(i) % 256
    decreases i
  {
    if i > 0 {
      LeDigit(n / 256, width - 1, i - 1);
      DivDiv(n, Pow256(i - 1));
    }
  }

  lemma {:induction false} LeBytes(b: seq<byte>)
    ensures FromLe(b) < Pow256(|b|) && ToLe(FromLe(b), |b|) == b
  {
    if b != [] {
      LeBytes(b[1..]);
      assert b == [b[0]] + b[1..];
    }
  }

  /** `b` is the number's low bytes, least significant first. */
  predicate Spells(b: seq<byte>, n: nat) {
    forall i :: 0 <= i < |b| ==> b[i] as nat == n / Pow256(i) % 256
  }

  lemma LeSpells(n: nat, width: nat)
    ensures Spells(ToLe(n, width), n)
  {
    forall i | 0 <= i < width
      ensures ToLe(n, width)[i] as nat == n / Pow256(i) % 256
    {
      LeDigit(n, width, i);
    }
  }

  /** `n as u32` as four bytes: a larger `n` loses its high bits. */
  function Le32(n: nat): (b: seq<byte>)
    ensures |b| == 4
  {
    ToLe(n % U32, 4)
  }

  function Le64(n: nat): (b: seq<byte>)
    ensures |b| == 8
  {
    ToLe(n, 8)
  }

  lemma Le32RoundTrip(n: nat)
    ensures FromLe(Le32(n)) == n % U32
  {
    Widths();
    LeRoundTrip(n % U32, 4);
  }

  lemma Widths()
    ensures Pow256(4) == U32 && Pow256(8) == U64
  {
    assert Pow256(2) == 0x1_0000;
    assert Pow256(4) == 256 * (256 * Pow256(2));
    assert Pow256(6) == 256 * (256 * Pow256(4));
    assert Pow256(8) == 256 * (256 * Pow256(6));
  }

  lemma Le64RoundTrip(n: nat)
    requires n < U64
    ensures FromLe(Le64(n)) == n
  {
    Widths();
    LeRoundTrip(n, 8);
  }

  lemma FieldBytes(b: seq<byte>)
    ensures |b| == 4 ==> Le32(FromLe(b)) == b && FromLe(b) < U32
    ensures |b| == 8 ==> Le64(FromLe(b)) == b && FromLe(b) < U64
  {
    Widths();
    LeBytes(b);
  }

  lemma BitsOfByte(b: bv32, x: byte)
    requires b as nat == x as nat
    ensures x as bv32 == b
  {
  }

  // ---- Byte-lexicographic order ------------------------------------------------

  predicate Less(a: Key, b: Key) {
    && b != []
    && (a == [] || a[0] < b[0] || (a[0] == b[0] && Less(a[1..], b[1..])))
  }

  predicate AtMost(a: Key, b: Key) {
    a == b || Less(a, b)
  }

  lemma {:induction false} LessIrreflexive(a: Key)
    ensures !Less(a, a)
  {
    if a != [] {
      LessIrreflexive(a[1..]);
    }
  }

  lemma {:induction false} LessTransitive(a: Key, b: Key, c: Key)
    requires Less(a, b) && Less(b, c)
    ensures Less(a, c)
  {
    if a != [] && a[0] == b[0] == c[0] {
      LessTransitive(a[1..], b[1..], c[1..]);
    }
  }

  lemma {:induction false} LessTotal(a: Key, b: Key)
    ensures a == b || Less(a, b) || Less(b, a)
  {
    if a != [] && b != [] && a[0] == b[0] {
      LessTotal(a[1..], b[1..]);
      assert a == [a[0]] + a[1..] && b == [b[0]] + b[1..];
    }
  }
}
