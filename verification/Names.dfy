/** File names that carry an LSN: log segments (src/wal.rs) and staging files (src/flush.rs). */
module Names {
  import opened Bytes

  const SegmentSuffix: string := ".wal"
  const StagePrefix: string := "hg-stage-"
  const StageSuffix: string := ".parquet"

  function Digit(d: nat): char
    requires d < 10
  {
    ('0' as int + d) as char
  }

  predicate IsDigit(c: char) {
    '0' <= c <= '9'
  }

  function DigitValue(c: char): (d: nat)
    requires IsDigit(c)
    ensures d < 10
  {
    c as int - '0' as int
  }

  /** Plain decimal. */
  function Decimal(n: nat): (s: string)
    ensures |s| > 0
  {
    if n < 10 then [Digit(n)] else Decimal(n / 10) + [Digit(n % 10)]
  }

  function Zeros(k: nat): (s: string)
    ensures |s| == k
    decreases k
  {
    if k == 0 then "" else Zeros(k - 1) + "0"
  }

  /** `{n:020}`: decimal, zero-padded on the left to at least 20 characters. */
  function Padded(n: nat): string {
    var s := Decimal(n);
    if |s| >= 20 then s else Zeros(20 - |s|) + s
  }

  function SegmentName(startLsn: nat): string {
    Padded(startLsn) + SegmentSuffix
  }

  function StageName(watermark: nat): string {
    StagePrefix + Padded(watermark) + StageSuffix
  }

  function StripSuffix(s: string, suffix: string): Option<string> {
    if |s| >= |suffix| && s[|s| - |suffix|..] == suffix then Some(s[..|s| - |suffix|]) else None
  }

  function Digits(s: string): Option<nat> {
    if s == [] then Some(0)
    else
      var c := s[|s| - 1];
      match Digits(s[..|s| - 1])
      case None => None
      case Some(n) => if IsDigit(c) then Some(10 * n + DigitValue(c)) else None
  }

  /** `str::parse::<u64>`: an optional plus sign, then digits that do not overflow. */
  function ParseU64(s: string): Option<nat> {
    var body := if s != [] && s[0] == '+' then s[1..] else s;
    if body == [] then None
    else match Digits(body)
         case None => None
         case Some(n) => if n < U64 then Some(n) else None
  }

  /** What `list_segments` makes of a directory entry. */
  function ParseSegmentName(name: string): Option<nat> {
    match StripSuffix(name, SegmentSuffix)
    case None => None
    case Some(stem) => ParseU64(stem)
  }

  // ---- Round trip ---------------------------------------------------------------------------

  /** The low `width` decimal digits, most significant first. */
  function Fixed(n: nat, width: nat): (s: string)
    ensures |s| == width
    decreases width, n
  {
    if width == 0 then "" else Fixed(n / 10, width - 1) + [Digit(n % 10)]
  }

  function Pow10(width: nat): nat {
    if width == 0 then 1 else 10 * Pow10(width - 1)
  }

  lemma {:induction false} FixedOfZero(width: nat)
    ensures Fixed(0, width) == Zeros(width)
    decreases width
  {
    if width > 0 {
      FixedOfZero(width - 1);
    }
  }

  lemma {:induction false} FixedIsPadded(n: nat, width: nat)
    requires n < Pow10(width) && width > 0
    ensures |Decimal(n)| <= width && Fixed(n, width) == Zeros(width - |Decimal(n)|) + Decimal(n)
    decreases width
  {
    if n < 10 {
      FixedOfZero(width - 1);
    } else {
      assert width > 1;
      FixedIsPadded(n / 10, width - 1);
      var zeros := Zeros(width - |Decimal(n)|);
      assert zeros + Decimal(n / 10) + [Digit(n % 10)] == zeros + (Decimal(n / 10) + [Digit(n % 10)]);
    }
  }

  lemma PaddedIsFixed(n: nat)
    requires n < U64
    ensures Padded(n) == Fixed(n, 20)
  {
    hide Decimal, Fixed, Zeros;
    assert Pow10(5) == 100000;
    assert Pow10(10) == 100000 * Pow10(5);
    assert Pow10(15) == 100000 * Pow10(10);
    assert Pow10(20) == 100000 * Pow10(15);
    FixedIsPadded(n, 20);
    assert Zeros(0) == "" by { NoZeros(); }
  }

  lemma NoZeros()
    ensures Zeros(0) == ""
  {
  }

  lemma {:induction false} DigitsOfFixed(n: nat, width: nat)
    requires n < Pow10(width)
    ensures Digits(Fixed(n, width)) == Some(n)
    ensures width > 0 ==> IsDigit(Fixed(n, width)[0])
    decreases width
  {
    if width > 0 {
      DigitsOfFixed(n / 10, width - 1);
      assert Fixed(n, width)[..width - 1] == Fixed(n / 10, width - 1);
    }
  }

  /** Printing then parsing a segment name is the identity on every u64, and the name is always
      20 digits and the suffix. */
  lemma SegmentNameRoundTrip(lsn: nat)
    requires lsn < U64
    ensures ParseSegmentName(SegmentName(lsn)) == Some(lsn)
    ensures |SegmentName(lsn)| == 24 && SegmentName(lsn)[20..] == ".wal"
  {
    hide Fixed, Digits, Padded;
    PaddedIsFixed(lsn);
    assert Pow10(5) == 100000;
    assert Pow10(10) == 100000 * Pow10(5);
    assert Pow10(15) == 100000 * Pow10(10);
    assert Pow10(20) == 100000 * Pow10(15);
    DigitsOfFixed(lsn, 20);
    assert SegmentName(lsn)[..20] == Fixed(lsn, 20);
  }

  // ---- Order -----------------------------------------------------------------------------------

  /** Byte-lexicographic order of names. */
  predicate NameLess(a: string, b: string) {
    && b != []
    && (a == [] || a[0] < b[0] || (a[0] == b[0] && NameLess(a[1..], b[1..])))
  }

  lemma {:induction false} NameLessAppend(a: string, b: string, x: string, y: string)
    requires |a| == |b|
    ensures NameLess(a + x, b + y) <==> NameLess(a, b) || (a == b && NameLess(x, y))
  {
    if a == [] {
      assert a + x == x && b + y == y;
    } else {
      NameLessAppend(a[1..], b[1..], x, y);
      assert (a + x)[1..] == a[1..] + x && (b + y)[1..] == b[1..] + y;
      assert a == [a[0]] + a[1..] && b == [b[0]] + b[1..];
    }
  }

  lemma {:induction false} FixedOrder(m: nat, n: nat, width: nat)
    requires m < Pow10(width) && n < Pow10(width)
    ensures NameLess(Fixed(m, width), Fixed(n, width)) <==> m < n
    ensures Fixed(m, width) == Fixed(n, width) <==> m == n
    decreases width
  {
    if width > 0 {
      FixedOrder(m / 10, n / 10, width - 1);
      var a, b := Fixed(m / 10, width - 1), Fixed(n / 10, width - 1);
      NameLessAppend(a, b, [Digit(m % 10)], [Digit(n % 10)]);
      assert Fixed(m, width)[..width - 1] == a && Fixed(n, width)[..width - 1] == b;
      assert Fixed(m, width)[width - 1] == Digit(m % 10) && Fixed(n, width)[width - 1] == Digit(n % 10);
    }
  }

  lemma {:induction false} NameLessSame(a: string)
    ensures !NameLess(a, a)
  {
    if a != [] {
      NameLessSame(a[1..]);
    }
  }

  lemma {:induction false} NameLessPrefix(p: string, a: string, b: string)
    ensures NameLess(p + a, p + b) <==> NameLess(a, b)
  {
    NameLessAppend(p, p, a, b);
    NameLessSame(p);
  }

  lemma NamesOrder(m: nat, n: nat, suffix: string)
    requires m < U64 && n < U64
    ensures NameLess(Padded(m) + suffix, Padded(n) + suffix) <==> m < n
  {
    hide Fixed, Padded, NameLess;
    PaddedIsFixed(m);
    PaddedIsFixed(n);
    assert Pow10(5) == 100000;
    assert Pow10(10) == 100000 * Pow10(5);
    assert Pow10(15) == 100000 * Pow10(10);
    assert Pow10(20) == 100000 * Pow10(15);
    FixedOrder(m, n, 20);
    NameLessAppend(Padded(m), Padded(n), suffix, suffix);
    NameLessSame(suffix);
  }

  /** Listing segment files or staging files by name lists them in LSN order. */
  lemma NameOrderIsLsnOrder(m: nat, n: nat)
    requires m < U64 && n < U64
    ensures NameLess(SegmentName(m), SegmentName(n)) <==> m < n
    ensures NameLess(StageName(m), StageName(n)) <==> m < n
  {
    hide Padded, NameLess;
    NamesOrder(m, n, SegmentSuffix);
    NamesOrder(m, n, StageSuffix);
    NameLessPrefix(StagePrefix, Padded(m) + StageSuffix, Padded(n) + StageSuffix);
    assert StageName(m) == StagePrefix + (Padded(m) + StageSuffix);
    assert StageName(n) == StagePrefix + (Padded(n) + StageSuffix);
  }
}
