/**
 * src/scanner/utils.rs: turning byte counts and timestamps into display text.
 *
 * `human_readable_size` is modelled down to the characters it produces. Its
 * scaled branches divide `size as f64` by a power of two and print the quotient
 * with `{:.2}`; both floating-point steps are written out on integers:
 * the cast rounds to the nearest double (53-bit significand, ties to even),
 * the division by 2^10, 2^20 or 2^30 is exact, and `{:.2}` prints the exact
 * quotient rounded to hundredths, a tie going to the even last digit.
 */
module Utils {
  import opened Wrappers
  import opened Decimal

  const KiB: nat := 0x400            // 1 << 10
  const MiB: nat := 0x10_0000        // 1 << 20
  const GiB: nat := 0x4000_0000      // 1 << 30

  /** 2^53: every integer below it is a double. */
  const F64Exact: nat := 0x20_0000_0000_0000

  function Pow2(k: nat): (r: nat)
    ensures r >= 1
  {
    if k == 0 then 1 else 2 * Pow2(k - 1)
  }

  /** n / d rounded to the nearest integer, a tie going to the even neighbour. */
  function RoundHalfEven(n: nat, d: nat): (q: nat)
    requires d >= 1
    ensures n / d <= q <= n / d + 1
  {
    var q, r := n / d, n % d;
    if 2 * r > d || (2 * r == d && q % 2 == 1) then q + 1 else q
  }

  /** How many low-order bits of n do not fit in a 53-bit significand. */
  function Excess(n: nat): nat
  {
    if n < F64Exact then 0 else 1 + Excess(n / 2)
  }

  /** `n as f64`: the double nearest to n, a tie going to the even significand. */
  function AsF64(n: nat): nat
  {
    RoundHalfEven(n, Pow2(Excess(n))) * Pow2(Excess(n))
  }

  /** `format!("{:.2}", v / unit)` for an exact quotient of a double by a power of two. */
  function TwoDecimals(v: nat, unit: nat): string
    requires unit >= 1
  {
    var hundredths := RoundHalfEven(100 * v, unit);
    Show(hundredths / 100) + "." + Pad2(hundredths % 100)
  }

  /** `human_readable_size`: thresholds tested from the largest unit down. */
  function HumanReadableSize(size: nat): string
  {
    if size >= GiB then TwoDecimals(AsF64(size), GiB) + " GB"
    else if size >= MiB then TwoDecimals(AsF64(size), MiB) + " MB"
    else if size >= KiB then TwoDecimals(AsF64(size), KiB) + " KB"
    else Show(size) + " B"
  }

  // ---------------------------------------------------------------------
  // The unit a size is shown in, defined independently of the threshold chain

  datatype SizeUnit = B | KB | MB | GB

  function Rank(u: SizeUnit): nat
  {
    match u
    case B => 0
    case KB => 1
    case MB => 2
    case GB => 3
  }

  function Scale(u: SizeUnit): nat
  {
    match u
    case B => 1
    case KB => KiB
    case MB => MiB
    case GB => GiB
  }

  function Suffix(u: SizeUnit): string
  {
    match u
    case B => " B"
    case KB => " KB"
    case MB => " MB"
    case GB => " GB"
  }

  /** How many times 1024 divides into n: floor(log_1024(n)) for n >= 1. */
  function Log1024(n: nat): nat
  {
    if n < 1024 then 0 else 1 + Log1024(n / 1024)
  }

  /** The largest of the four units whose magnitude does not exceed the size. */
  function UnitFor(size: nat): SizeUnit
  {
    var k := Log1024(size);
    if k == 0 then B else if k == 1 then KB else if k == 2 then MB else GB
  }

  // ---------------------------------------------------------------------
  // Reading a rendered size back

  predicate EndsWith(s: string, t: string)
  {
    |t| <= |s| && s[|s| - |t|..] == t
  }

  datatype SizeText = SizeText(number: string, unit: SizeUnit)

  /** Splits a rendered size into its number and its unit. */
  function ParseSize(s: string): (r: Option<SizeText>)
    ensures r.Some? ==> s == r.value.number + Suffix(r.value.unit)
  {
    if EndsWith(s, " GB") then Some(SizeText(s[..|s| - 3], GB))
    else if EndsWith(s, " MB") then Some(SizeText(s[..|s| - 3], MB))
    else if EndsWith(s, " KB") then Some(SizeText(s[..|s| - 3], KB))
    else if EndsWith(s, " B") then Some(SizeText(s[..|s| - 2], B))
    else None
  }

  /** A number printed with `{:.2}`: digits, a point, exactly two digits. */
  predicate IsFixed2(s: string)
  {
    |s| >= 4 && s[|s| - 3] == '.' && AllDigits(s[..|s| - 3]) && AllDigits(s[|s| - 2..])
  }

  /** Reads a `{:.2}` number as a count of hundredths. */
  function Fixed2Value(s: string): nat
    requires IsFixed2(s)
  {
    Value(s[..|s| - 3]) * 100 + Value(s[|s| - 2..])
  }

  // ---------------------------------------------------------------------
  // Properties of the size formatter

  /** RoundHalfEven is within half a unit of the exact quotient, and even on a tie. */
  lemma RoundHalfEvenNearest(n: nat, d: nat)
    requires d >= 1
    ensures var q := RoundHalfEven(n, d);
      && 2 * (q * d - n) <= d && 2 * (n - q * d) <= d
      && (2 * (q * d - n) == d || 2 * (n - q * d) == d ==> q % 2 == 0)
  {
    var q, r := n / d, n % d;
    assert n == q * d + r;
    assert (q + 1) * d == q * d + d;
  }

  lemma ParseScaled(n: string, u: SizeUnit)
    requires u != B && IsFixed2(n)
    ensures ParseSize(n + Suffix(u)) == Some(SizeText(n, u))
  {
    var r := n + Suffix(u);
    assert r[..|r| - 3] == n;
    assert r[|r| - 3..] == Suffix(u);
  }

  lemma ParseBytes(n: string)
    requires |n| >= 1 && AllDigits(n)
    ensures ParseSize(n + " B") == Some(SizeText(n, B))
  {
    var r := n + " B";
    assert r[|r| - 2..] == " B";
    assert r[|r| - 3] == n[|n| - 1];
    assert r[..|r| - 2] == n;
  }

  /** The reference unit and the threshold chain pick the same bucket. */
  lemma UnitForThresholds(size: nat)
    ensures UnitFor(size) == B <==> size < KiB
    ensures UnitFor(size) == KB <==> KiB <= size < MiB
    ensures UnitFor(size) == MB <==> MiB <= size < GiB
    ensures UnitFor(size) == GB <==> GiB <= size
  {
    if size >= KiB {
      var k := size / 1024;
      assert Log1024(size) == 1 + Log1024(k);
      assert k >= 1024 <==> size >= MiB;
      if k >= 1024 {
        assert Log1024(k) == 1 + Log1024(k / 1024);
        assert k / 1024 >= 1024 <==> size >= GiB;
      }
    }
  }

  /** Exactly one unit applies to every size, and its magnitude brackets the size:
      B below 1024, the scaled units from one up to (not including) 1024 of the unit,
      and GB, the largest unit, from 2^30 up without bound. */
  lemma ScaledValueInRange(size: nat)
    ensures var u := UnitFor(size);
      && (u != B ==> Scale(u) <= size)
      && (u != GB ==> size < 1024 * Scale(u))
  {
    UnitForThresholds(size);
  }

  lemma {:induction false} Log1024Monotone(a: nat, b: nat)
    requires a <= b
    ensures Log1024(a) <= Log1024(b)
  {
    if a >= 1024 {
      Log1024Monotone(a / 1024, b / 1024);
    }
  }

  /** A larger size is never shown in a smaller unit. */
  lemma UnitMonotone(a: nat, b: nat)
    requires a <= b
    ensures Rank(UnitFor(a)) <= Rank(UnitFor(b))
  {
    Log1024Monotone(a, b);
  }

  lemma AsF64Exact(n: nat)
    requires n < F64Exact
    ensures AsF64(n) == n
  {
  }

  lemma MulAtLeast(d: int, k: int)
    requires d > 0 && k >= 1
    ensures d * k >= d
  {
    if k > 1 {
      MulAtLeast(d, k - 1);
      assert d * k == d * (k - 1) + d;
    }
  }

  lemma DivUnique(n: int, d: int, q: int, r: int)
    requires d > 0 && 0 <= r < d && n == d * q + r
    ensures n / d == q
  {
    var q', r' := n / d, n % d;
    assert n == d * q' + r';
    if q > q' {
      assert d * q - d * q' == d * (q - q');
      MulAtLeast(d, q - q');
    } else if q < q' {
      assert d * q' - d * q == d * (q' - q);
      MulAtLeast(d, q' - q);
    }
  }

  lemma HalveThenDivide(n: nat, p: nat)
    requires p >= 1
    ensures n / (2 * p) == (n / 2) / p
  {
    var h := n / 2;
    var q, r := h / p, h % p;
    assert h == p * q + r;
    assert n == (2 * p) * q + (2 * r + n % 2);
    DivUnique(n, 2 * p, q, 2 * r + n % 2);
  }

  lemma {:induction false} ExcessQuotient(n: nat)
    requires n >= F64Exact
    ensures n / Pow2(Excess(n)) >= F64Exact / 2
  {
    var h := n / 2;
    if h >= F64Exact {
      ExcessQuotient(h);
      HalveThenDivide(n, Pow2(Excess(h)));
    }
  }

  /** Casting a size of at least 2^30 to a double keeps it at least 2^30. */
  lemma AsF64AtLeastGiB(n: nat)
    requires n >= GiB
    ensures AsF64(n) >= GiB
  {
    if n < F64Exact {
      AsF64Exact(n);
    } else {
      ExcessQuotient(n);
      var p := Pow2(Excess(n));
      var q := RoundHalfEven(n, p);
      assert q >= F64Exact / 2;
      MulAtLeast(q, p);
      assert AsF64(n) == q * p;
    }
  }

  lemma ValuePad2(k: nat)
    requires k < 100
    ensures Value(Pad2(k)) == k
  {
    ValueShow(k);
    if k < 10 {
      var s := Pad2(k);
      assert s[..1] == "0";
    }
  }

  /** `{:.2}` text holds the rounded quotient in hundredths. */
  lemma TwoDecimalsValue(v: nat, unit: nat)
    requires unit >= 1
    ensures IsFixed2(TwoDecimals(v, unit))
    ensures Fixed2Value(TwoDecimals(v, unit)) == RoundHalfEven(100 * v, unit)
  {
    var h := RoundHalfEven(100 * v, unit);
    var s := TwoDecimals(v, unit);
    var pad := Pad2(h % 100);
    assert |pad| == 2 by {
      if h % 100 >= 10 {
        assert Show(h % 100) == Show(h % 100 / 10) + [DigitChar(h % 100 % 10)];
      }
    }
    assert s[..|s| - 3] == Show(h / 100);
    assert s[|s| - 2..] == pad;
    ValueShow(h / 100);
    ValuePad2(h % 100);
  }

  /** A rendered size reads back as its unit and number: the unit is the one UnitFor
      picks; in bytes the number is the exact size; otherwise it is a `{:.2}` number. */
  lemma HumanReadableSizeReadsBack(size: nat)
    ensures var p := ParseSize(HumanReadableSize(size));
      && p.Some?
      && p.value.unit == UnitFor(size)
      && (p.value.unit == B ==> Read(p.value.number) == Some(size))
      && (p.value.unit != B ==> IsFixed2(p.value.number))
      && (p.value.unit != B ==> Fixed2Value(p.value.number) == RoundHalfEven(100 * AsF64(size), Scale(p.value.unit)))
  {
    UnitForThresholds(size);
    var u := UnitFor(size);
    if u == B {
      ParseBytes(Show(size));
      ReadShow(size);
    } else {
      var n := TwoDecimals(AsF64(size), Scale(u));
      assert HumanReadableSize(size) == n + Suffix(u);
      TwoDecimalsValue(AsF64(size), Scale(u));
      ParseScaled(n, u);
    }
  }

  /** Below 2^53 the printed number of a scaled size is the size itself, in hundredths of
      its unit, correctly rounded. */
  lemma ScaledSizeValue(size: nat)
    requires KiB <= size < F64Exact
    ensures var p := ParseSize(HumanReadableSize(size));
      && p.Some? && p.value.unit != B && IsFixed2(p.value.number)
      && Fixed2Value(p.value.number) == RoundHalfEven(100 * size, Scale(p.value.unit))
  {
    HumanReadableSizeReadsBack(size);
    UnitForThresholds(size);
    AsF64Exact(size);
  }

  lemma MulMonotone(a: nat, b: nat, c: nat)
    requires b <= c
    ensures a * b <= a * c
  {
  }

  /** A quotient of at least one unit, and below 1024 units, rounds in hundredths to
      between 100 and 102400. */
  lemma HundredthsRange(v: nat, unit: nat)
    requires 1 <= unit <= v
    ensures 100 <= RoundHalfEven(100 * v, unit)
    ensures v < 1024 * unit ==> RoundHalfEven(100 * v, unit) <= 102400
  {
    var q, r := (100 * v) / unit, (100 * v) % unit;
    assert 100 * v == unit * q + r && r < unit;
    if q < 100 {
      MulMonotone(unit, q, 99);
      assert false;
    }
    if v < 1024 * unit && q >= 102400 {
      MulMonotone(unit, 102400, q);
      assert false;
    }
  }

  /** The printed number of a scaled size is at least 1.00, and in KB and MB at most
      1024.00: 1024.00 itself appears when rounding carries just below the next unit. */
  lemma ScaledNumberRange(size: nat)
    requires size >= KiB
    ensures var p := ParseSize(HumanReadableSize(size));
      && p.Some? && IsFixed2(p.value.number)
      && 100 <= Fixed2Value(p.value.number)
      && (size < GiB ==> Fixed2Value(p.value.number) <= 102400)
  {
    HumanReadableSizeReadsBack(size);
    UnitForThresholds(size);
    ScaledValueInRange(size);
    var u := UnitFor(size);
    var v := AsF64(size);
    var r := HumanReadableSize(size);
    var n := TwoDecimals(v, Scale(u));
    TwoDecimalsValue(v, Scale(u));
    assert r[..|r| - 3] == n;
    if size < GiB {
      AsF64Exact(size);
    } else {
      AsF64AtLeastGiB(size);
    }
    HundredthsRange(v, Scale(u));
  }

  /** One byte short of a mebibyte is shown as 1024.00 KB, not 1.00 MB. */
  lemma RoundingReachesNextUnit()
    ensures HumanReadableSize(MiB - 1) == "1024.00 KB"
  {
    AsF64Exact(MiB - 1);
    assert RoundHalfEven(100 * (MiB - 1), KiB) == 102400;
    assert Show(1024) == "1024";
  }

  /** Sizes below 1024 are shown as the exact byte count. */
  lemma ByteExamples()
    ensures HumanReadableSize(0) == "0 B"
    ensures HumanReadableSize(1023) == "1023 B"
  {
    assert Show(1023) == "1023";
  }

  lemma OneKiB()
    ensures HumanReadableSize(KiB) == "1.00 KB"
  {
    AsF64Exact(KiB);
    assert RoundHalfEven(100 * KiB, KiB) == 100;
  }

  lemma TwoKiB()
    ensures HumanReadableSize(2048) == "2.00 KB"
  {
    AsF64Exact(2048);
    assert RoundHalfEven(100 * 2048, KiB) == 200;
  }

  lemma OneMiB()
    ensures HumanReadableSize(MiB) == "1.00 MB"
  {
    AsF64Exact(MiB);
    assert RoundHalfEven(100 * MiB, MiB) == 100;
  }

  lemma OneGiB()
    ensures HumanReadableSize(GiB) == "1.00 GB"
  {
    AsF64Exact(GiB);
    assert RoundHalfEven(100 * GiB, GiB) == 100;
  }

  /** One of each scaled unit is shown as 1.00 of it; 2048 bytes as 2.00 KB. */
  lemma ScaledExamples()
    ensures HumanReadableSize(KiB) == "1.00 KB"
    ensures HumanReadableSize(2048) == "2.00 KB"
    ensures HumanReadableSize(MiB) == "1.00 MB"
    ensures HumanReadableSize(GiB) == "1.00 GB"
  {
    OneKiB();
    TwoKiB();
    OneMiB();
    OneGiB();
  }

  // ---------------------------------------------------------------------
  // Timestamps

  /** A `SystemTime`: nanoseconds since 1970-01-01T00:00:00Z, negative before it. */
  type Time = int

  const NanosPerSecond: nat := 1_000_000_000
  const SecondsPerDay: nat := 86400

  datatype Date = Date(year: int, month: nat, day: nat)

  /** The proleptic Gregorian date that lies `days` days after 1970-01-01. */
  function CivilFromDays(days: int): (d: Date)
    ensures 1 <= d.month <= 12 && 1 <= d.day <= 31
  {
    var z := days + 719468;
    var era := z / 146097;
    var doe := z % 146097;
    var yoe := (doe - doe / 1460 + doe / 36524 - doe / 146096) / 365;
    var doy := doe - (365 * yoe + yoe / 4 - yoe / 100);
    var mp := (5 * doy + 2) / 153;
    var day := doy - (153 * mp + 2) / 5 + 1;
    var month := if mp < 10 then mp + 3 else mp - 9;
    Date(yoe + era * 400 + (if month <= 2 then 1 else 0), month, day)
  }

  /** chrono's `%Y`: four digits inside 0..=9999, otherwise a sign and at least four digits. */
  function YearText(y: int): string
  {
    if 0 <= y <= 9999 then Pad4(y)
    else if y < 0 then "-" + Pad4(-y)
    else "+" + Pad4(y)
  }

  /** `human_readable_time`: `%d/%m/%Y %H:%M:%S` in UTC, to the whole second. */
  function HumanReadableTime(t: Time): string
  {
    var secs := t / NanosPerSecond;
    var date := CivilFromDays(secs / SecondsPerDay);
    var secOfDay := secs % SecondsPerDay;
    Pad2(date.day) + "/" + Pad2(date.month) + "/" + YearText(date.year) + " "
    + Pad2(secOfDay / 3600) + ":" + Pad2(secOfDay % 3600 / 60) + ":" + Pad2(secOfDay % 60)
  }

  /** A rendered time starts with a digit, so it is never the text "Unknown". */
  lemma TimeTextIsNotUnknown(t: Time)
    ensures |HumanReadableTime(t)| > 0 && IsDigit(HumanReadableTime(t)[0])
    ensures HumanReadableTime(t) != "Unknown"
  {
    var date := CivilFromDays(t / NanosPerSecond / SecondsPerDay);
    var s := HumanReadableTime(t);
    assert s[0] == Pad2(date.day)[0];
  }

  lemma CivilExample()
    ensures CivilFromDays(18629) == Date(2021, 1, 2)
  {
    assert 18629 + 719468 == 738097;
    assert 738097 / 146097 == 5 && 738097 % 146097 == 7612;
    assert (7612 - 7612 / 1460 + 7612 / 36524 - 7612 / 146096) / 365 == 20;
    assert 7612 - (365 * 20 + 20 / 4 - 20 / 100) == 307;
    assert (5 * 307 + 2) / 153 == 10;
    assert 307 - (153 * 10 + 2) / 5 + 1 == 2;
  }

  /** Every instant within the second 2021-01-02T03:04:05Z is shown as 02/01/2021 03:04:05. */
  lemma TimeExample(t: Time)
    requires t / NanosPerSecond == 1609556645
    ensures HumanReadableTime(t) == "02/01/2021 03:04:05"
  {
    assert 1609556645 / SecondsPerDay == 18629 && 1609556645 % SecondsPerDay == 11045;
    CivilExample();
    assert 11045 / 3600 == 3 && 11045 % 3600 / 60 == 4 && 11045 % 60 == 5;
    ExampleFieldTexts();
  }

  lemma ExampleFieldTexts()
    ensures YearText(2021) == "2021"
    ensures Pad2(1) == "01" && Pad2(2) == "02" && Pad2(3) == "03" && Pad2(4) == "04" && Pad2(5) == "05"
  {
    assert Show(2021) == "2021";
  }
}
