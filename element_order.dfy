/**
 * The per-type comparators used by array_max: booleans, integers of every
 * width, dates, timestamps, strings and floating point with NaN as the
 * greatest value. Each one is a strict total order.
 */
module ElementOrder {

  // ---------------------------------------------------------------------
  // Strict total orders
  // ---------------------------------------------------------------------

  ghost predicate Irreflexive<T(!new)>(lt: (T, T) -> bool) {
    forall x :: !lt(x, x)
  }

  ghost predicate Transitive<T(!new)>(lt: (T, T) -> bool) {
    forall x, y, z :: lt(x, y) && lt(y, z) ==> lt(x, z)
  }

  ghost predicate Connected<T(!new)>(lt: (T, T) -> bool) {
    forall x, y :: x != y ==> lt(x, y) || lt(y, x)
  }

  /** `lt` is a strict "less than": exactly one of x < y, x == y, y < x holds. */
  ghost predicate StrictTotalOrder<T(!new)>(lt: (T, T) -> bool) {
    Irreflexive(lt) && Transitive(lt) && Connected(lt)
  }

  lemma StrictTotalOrderAsymmetric<T(!new)>(lt: (T, T) -> bool, x: T, y: T)
    requires StrictTotalOrder(lt)
    ensures !(lt(x, y) && lt(y, x))
  {
  }

  // ---------------------------------------------------------------------
  // Booleans: false < true
  // ---------------------------------------------------------------------

  function BoolLess(a: bool, b: bool): bool {
    !a && b
  }

  lemma BoolLessIsStrictTotal()
    ensures StrictTotalOrder(BoolLess)
  {
  }

  // ---------------------------------------------------------------------
  // Signed integers of a fixed width, and dates as day counts
  // ---------------------------------------------------------------------

  /** The integral widths array_max supports: TINYINT, SMALLINT, INTEGER, BIGINT. */
  datatype IntWidth = W8 | W16 | W32 | W64

  /** The width in bits; the limits below are stated in terms of it. */
  function Bits(w: IntWidth): nat {
    match w
    case W8 => 8
    case W16 => 16
    case W32 => 32
    case W64 => 64
  }

  function Pow2(n: nat): (p: nat)
    ensures p >= 1
  {
    if n == 0 then 1 else 2 * Pow2(n - 1)
  }

  lemma {:induction false} Pow2Add(a: nat, b: nat)
    ensures Pow2(a + b) == Pow2(a) * Pow2(b)
    decreases a
  {
    if a > 0 {
      Pow2Add(a - 1, b);
    }
  }

  /** The sign bit of each width. */
  lemma SignBits()
    ensures Pow2(7) == 0x80 && Pow2(15) == 0x8000
    ensures Pow2(31) == 0x8000_0000 && Pow2(63) == 0x8000_0000_0000_0000
  {
    assert Pow2(8) == 0x100;
    Pow2Add(7, 8);
    Pow2Add(15, 16);
    assert Pow2(16) == 0x1_0000 by { Pow2Add(8, 8); }
    Pow2Add(31, 32);
    assert Pow2(32) == 0x1_0000_0000 by { Pow2Add(16, 16); }
  }

  /** Two's-complement minimum, std::numeric_limits<T>::min(). */
  function MinValue(w: IntWidth): (m: int)
    ensures m == -(Pow2(Bits(w) - 1) as int)
  {
    SignBits();
    match w
    case W8 => -0x80
    case W16 => -0x8000
    case W32 => -0x8000_0000
    case W64 => -0x8000_0000_0000_0000
  }

  /** Two's-complement maximum, std::numeric_limits<T>::max(). */
  function MaxValue(w: IntWidth): (m: int)
    ensures m == Pow2(Bits(w) - 1) - 1
    ensures m == -MinValue(w) - 1
  {
    SignBits();
    match w
    case W8 => 0x7F
    case W16 => 0x7FFF
    case W32 => 0x7FFF_FFFF
    case W64 => 0x7FFF_FFFF_FFFF_FFFF
  }

  predicate InRange(w: IntWidth, x: int) {
    MinValue(w) <= x <= MaxValue(w)
  }

  /** Signed numeric order; used for every integer width and for dates. */
  function IntLess(a: int, b: int): bool {
    a < b
  }

  lemma IntLessIsStrictTotal()
    ensures StrictTotalOrder(IntLess)
  {
  }

  /** A DATE value: days since 1970-01-01. */
  type Date = int

  /** 1970-01-01 as a day count. */
  const Epoch: Date := 0

  /** 2023-08-23 as a day count: 53 years with 13 leap days, then 234 days. */
  const Aug23Of2023: Date := 53 * 365 + 13 + 234

  // ---------------------------------------------------------------------
  // Timestamps: seconds since the epoch and a nanosecond fraction
  // ---------------------------------------------------------------------

  const NanosPerSecond: int := 1_000_000_000
  const MicrosPerSecond: int := 1_000_000
  const MaxNanos: int := NanosPerSecond - 1

  datatype Timestamp = Timestamp(seconds: int, nanos: int)

  /** Seconds fit a signed 64-bit integer and the fraction is below one second. */
  predicate ValidTimestamp(t: Timestamp) {
    InRange(W64, t.seconds) && 0 <= t.nanos <= MaxNanos
  }

  /** Timestamp::min(): the least seconds value with no fraction. */
  const TimestampMin: Timestamp := Timestamp(MinValue(W64), 0)

  /** Timestamp::max(): the greatest seconds value with the greatest fraction. */
  const TimestampMax: Timestamp := Timestamp(MaxValue(W64), MaxNanos)

  /**
   * Timestamp::fromMicros: seconds are the floor of micros / 10^6 and the
   * remaining microseconds become the nanosecond fraction, so the fraction
   * never goes negative (Dafny's `/` and `%` are floor-based here, the
   * divisor being positive).
   */
  function FromMicros(micros: int): (t: Timestamp)
    requires InRange(W64, micros)
    ensures ValidTimestamp(t)
    ensures TotalNanos(t) == micros * 1000
  {
    Timestamp(micros / MicrosPerSecond, (micros % MicrosPerSecond) * 1000)
  }

  /** The instant a timestamp denotes, in nanoseconds since the epoch. */
  function TotalNanos(t: Timestamp): int {
    t.seconds * NanosPerSecond + t.nanos
  }

  /** Chronological order: by seconds, then by the sub-second fraction. */
  function TimestampLess(a: Timestamp, b: Timestamp): bool {
    a.seconds < b.seconds || (a.seconds == b.seconds && a.nanos < b.nanos)
  }

  lemma TimestampLessIsStrictTotal()
    ensures StrictTotalOrder(TimestampLess)
  {
  }

  /** On valid timestamps the lexicographic order is the order of instants. */
  lemma TimestampLessIsChronological(a: Timestamp, b: Timestamp)
    requires ValidTimestamp(a) && ValidTimestamp(b)
    ensures TimestampLess(a, b) <==> TotalNanos(a) < TotalNanos(b)
  {
    if a.seconds < b.seconds {
      assert a.seconds * NanosPerSecond + NanosPerSecond <= b.seconds * NanosPerSecond;
    } else if b.seconds < a.seconds {
      assert b.seconds * NanosPerSecond + NanosPerSecond <= a.seconds * NanosPerSecond;
    }
  }

  /** Decoding microseconds preserves their order. */
  lemma FromMicrosMonotonic(x: int, y: int)
    requires InRange(W64, x) && InRange(W64, y)
    ensures x < y <==> TimestampLess(FromMicros(x), FromMicros(y))
  {
    TimestampLessIsChronological(FromMicros(x), FromMicros(y));
  }

  /** Timestamp::max() lies after every other valid timestamp. */
  lemma TimestampMaxIsGreatest(t: Timestamp)
    requires ValidTimestamp(t) && t != TimestampMax
    ensures TimestampLess(t, TimestampMax)
  {
  }

  /** Timestamp::min() lies before every other valid timestamp. */
  lemma TimestampMinIsLeast(t: Timestamp)
    requires ValidTimestamp(t) && t != TimestampMin
    ensures TimestampLess(TimestampMin, t)
  {
  }

  // ---------------------------------------------------------------------
  // Strings: lexicographic order of their contents
  // ---------------------------------------------------------------------

  /** Lexicographic order: compare the first characters, the shorter prefix is less. */
  function StringLess(a: string, b: string): bool
    decreases |a|
  {
    if |b| == 0 then false
    else if |a| == 0 then true
    else if a[0] != b[0] then a[0] < b[0]
    else StringLess(a[1..], b[1..])
  }

  /** Reference definition: a proper prefix, or the first difference is smaller. */
  ghost predicate Lexicographic(a: string, b: string) {
    (|a| < |b| && a == b[..|a|])
    || exists k :: 0 <= k < |a| && k < |b| && a[..k] == b[..k] && a[k] < b[k]
  }

  lemma {:induction false} StringLessIsLexicographic(a: string, b: string)
    ensures StringLess(a, b) <==> Lexicographic(a, b)
    decreases |a|
  {
    if |b| == 0 {
    } else if |a| == 0 {
      assert a == b[..0];
    } else if a[0] != b[0] {
      if a[0] < b[0] {
        assert a[..0] == b[..0];
      }
      if Lexicographic(a, b) && !(|a| < |b| && a == b[..|a|]) {
        var k :| 0 <= k < |a| && k < |b| && a[..k] == b[..k] && a[k] < b[k];
        if k > 0 {
          assert false;
        }
      }
    } else {
      StringLessIsLexicographic(a[1..], b[1..]);
      if Lexicographic(a[1..], b[1..]) {
        if |a[1..]| < |b[1..]| && a[1..] == b[1..][..|a[1..]|] {
          assert a == b[..|a|];
        } else {
          var k :| 0 <= k < |a[1..]| && k < |b[1..]| && a[1..][..k] == b[1..][..k] && a[1..][k] < b[1..][k];
          assert a[..k + 1] == [a[0]] + a[1..][..k];
          assert b[..k + 1] == [b[0]] + b[1..][..k];
        }
      }
      if Lexicographic(a, b) {
        if |a| < |b| && a == b[..|a|] {
          assert a[1..] == b[1..][..|a[1..]|];
        } else {
          var k :| 0 <= k < |a| && k < |b| && a[..k] == b[..k] && a[k] < b[k];
          assert k > 0;
          assert a[1..][..k - 1] == a[..k][1..] == b[..k][1..] == b[1..][..k - 1];
          assert a[1..][k - 1] < b[1..][k - 1];
        }
      }
    }
  }

  lemma {:induction false} StringLessIrreflexive(a: string)
    ensures !StringLess(a, a)
    decreases |a|
  {
    if |a| > 0 {
      StringLessIrreflexive(a[1..]);
    }
  }

  lemma {:induction false} StringLessTransitive(a: string, b: string, c: string)
    requires StringLess(a, b) && StringLess(b, c)
    ensures StringLess(a, c)
    decreases |a|
  {
    if |a| > 0 && a[0] == b[0] && b[0] == c[0] {
      StringLessTransitive(a[1..], b[1..], c[1..]);
    }
  }

  lemma {:induction false} StringLessConnected(a: string, b: string)
    requires a != b
    ensures StringLess(a, b) || StringLess(b, a)
    decreases |a|
  {
    if |a| > 0 && |b| > 0 && a[0] == b[0] {
      assert a == [a[0]] + a[1..] && b == [b[0]] + b[1..];
      StringLessConnected(a[1..], b[1..]);
    }
  }

  lemma StringLessIsStrictTotal()
    ensures StrictTotalOrder(StringLess)
  {
    forall a: string ensures !StringLess(a, a) {
      StringLessIrreflexive(a);
    }
    forall a: string, b: string, c: string | StringLess(a, b) && StringLess(b, c)
      ensures StringLess(a, c)
    {
      StringLessTransitive(a, b, c);
    }
    forall a: string, b: string | a != b
      ensures StringLess(a, b) || StringLess(b, a)
    {
      StringLessConnected(a, b);
    }
  }

  // ---------------------------------------------------------------------
  // Floating point, abstracted to a real number or NaN
  // ---------------------------------------------------------------------

  /** A REAL or DOUBLE value: an ordinary number (both zeros are 0.0) or NaN. */
  datatype Float = Num(r: real) | NaN

  /** Numeric order on numbers, with NaN greater than every number. */
  function FloatLess(a: Float, b: Float): bool {
    match (a, b)
    case (Num(x), Num(y)) => x < y
    case (Num(_), NaN) => true
    case (NaN, _) => false
  }

  lemma FloatLessIsStrictTotal()
    ensures StrictTotalOrder(FloatLess)
  {
  }

  /** NaN is above every other value. */
  lemma NaNIsGreatest(x: Float)
    requires x != NaN
    ensures FloatLess(x, NaN) && !FloatLess(NaN, x)
  {
  }

  datatype FloatWidth = F32 | F64

  /**
   * std::numeric_limits<T>::max(): the largest finite value,
   * (2^24 - 1) * 2^104 for REAL and (2^53 - 1) * 2^971 for DOUBLE.
   */
  function MaxFinite(w: FloatWidth): real {
    match w
    case F32 => 340282346638528859811704183484516925440.0
    case F64 => 179769313486231570814527423731704356798070567525844996598917476803157260780028538760589558632766878171540458953514382464234321326889464182768467546703537516986049910576551282076245490090389328944075868508455133942304583236903222948165808559332123348274797826204144723168738177180919299881250404026184124858368.0
  }

  /** std::numeric_limits<T>::lowest(): the most negative finite value. */
  function Lowest(w: FloatWidth): real {
    -MaxFinite(w)
  }
}
