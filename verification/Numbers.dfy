/** Decimal map keys and float64 numbers, as far as the codec depends on them. */
module Numbers {
  import opened Arithmetic
  import opened Wrappers

  /** A float64; the finite ones are exact reals. */
  datatype Float = Finite(r: real) | PosInf | NegInf | NaN

  const MIN_INT64: int := -0x8000_0000_0000_0000
  const MAX_INT64: int := 0x7fff_ffff_ffff_ffff
  const EXACT: int := 0x20_0000_0000_0000  // 2^53

  predicate IsInt64(i: int) {
    MIN_INT64 <= i <= MAX_INT64
  }

  // ---------------------------------------------------------------- integers as float64

  /** How many low bits of a magnitude do not fit the 53-bit significand. */
  function ExcessBits(m: nat): nat {
    if m < EXACT then 0 else 1 + ExcessBits(m / 2)
  }

  function RoundMagnitude(m: nat): nat {
    var unit := Pow2(ExcessBits(m));
    var q, rest := m / unit, m % unit;
    if 2 * rest < unit || (2 * rest == unit && q % 2 == 0) then q * unit else (q + 1) * unit
  }

  /** float64(i): the nearest number with a 53-bit significand, ties to even. */
  function RoundInt(i: int): int {
    var magnitude: int := RoundMagnitude(Magnitude(i));
    if i < 0 then -magnitude else magnitude
  }

  lemma RoundIntExact(i: int)
    requires -EXACT <= i <= EXACT
    ensures RoundInt(i) == i
  {
    assert ExcessBits(EXACT) == 1;
  }

  function Magnitude(i: int): nat {
    if i < 0 then -i else i
  }

  /** Exactly the integers whose bits below the significand are zero pass through a float64 unchanged. */
  lemma RoundIntKeeps(i: int)
    ensures RoundInt(i) == i <==> Magnitude(i) % Pow2(ExcessBits(Magnitude(i))) == 0
  {
    hide RoundMagnitude, Pow2, ExcessBits;
    RoundMagnitudeKeeps(Magnitude(i));
  }

  lemma RoundMagnitudeKeeps(m: nat)
    ensures RoundMagnitude(m) == m <==> m % Pow2(ExcessBits(m)) == 0
  {
    hide Pow2, ExcessBits;
    var unit := Pow2(ExcessBits(m));
    var q, rest := m / unit, m % unit;
    assert m == q * unit + rest;
    OneMore(q, unit);
  }

  /** The significand keeps all of its 53 bits. */
  lemma {:induction false} ExcessBitsBound(m: nat)
    ensures m < 0x20_0000_0000_0000 * Pow2(ExcessBits(m))
    ensures ExcessBits(m) > 0 ==> 0x10_0000_0000_0000 * Pow2(ExcessBits(m)) <= m
  {
    if m >= EXACT { ExcessBitsBound(m / 2); }
  }

  function Distance(a: int, b: int): nat {
    if a < b then b - a else a - b
  }

  /** A multiple of `unit` is no nearer than the closer one of the two around `m`. */
  lemma NearestMultiple(m: nat, unit: nat, k: nat)
    requires unit > 0
    ensures Distance(k * unit, m) >= if 2 * (m % unit) <= unit then m % unit else unit - m % unit
  {
    var q := m / unit;
    OneMore(q, unit);
    MultiplesApart(k, q, unit);
    MultiplesApart(q, k, unit);
    var low, multiple := q * unit, k * unit;
    assert m == low + m % unit && low + unit == (q + 1) * unit;
    assert multiple <= low || low + unit <= multiple;
  }

  /** The result has a 53-bit significand, which is even if another such number is as near. */
  lemma RoundsToSignificand(m: nat) returns (q: nat, x: nat)
    ensures RoundMagnitude(m) == q * Pow2(x) && q <= 0x20_0000_0000_0000
    ensures 2 * Distance(q * Pow2(x), m) <= Pow2(x)
    ensures 2 * Distance(q * Pow2(x), m) == Pow2(x) ==> q % 2 == 0
  {
    hide ExcessBits, Pow2;
    x := ExcessBits(m);
    var unit := Pow2(x);
    var low, rest := m / unit, m % unit;
    ExcessBitsBound(m);
    OneMore(low, unit);
    MultiplesApart(0x20_0000_0000_0000, low, unit);
    q := if 2 * rest < unit || (2 * rest == unit && low % 2 == 0) then low else low + 1;
    var product := low * unit;
    assert m == product + rest;
    assert RoundMagnitude(m) == if q == low then product else product + unit;
  }

  /** No number with a 53-bit significand is nearer. */
  lemma RoundsToNearest(m: nat, p: nat, e: nat)
    requires p <= 0x20_0000_0000_0000
    ensures Distance(RoundMagnitude(m), m) <= Distance(p * Pow2(e), m)
  {
    hide ExcessBits, Pow2, RoundMagnitude;
    RoundedBy(m);
    var x := ExcessBits(m);
    if e >= x { MultipleIsFarther(m, p, e, x); } else { SmallIsFarther(m, p, e); }
  }

  lemma MultipleIsFarther(m: nat, p: nat, e: nat, x: nat)
    requires x <= e
    ensures Distance(p * Pow2(e), m) >= if 2 * (m % Pow2(x)) <= Pow2(x) then m % Pow2(x) else Pow2(x) - m % Pow2(x)
  {
    hide Pow2;
    Pow2Sum(x, e - x);
    Regroup(p, Pow2(e - x), Pow2(x));
    NearestMultiple(m, Pow2(x), p * Pow2(e - x));
  }

  lemma SmallIsFarther(m: nat, p: nat, e: nat)
    requires p <= 0x20_0000_0000_0000 && e < ExcessBits(m)
    ensures Distance(p * Pow2(e), m) >= m % Pow2(ExcessBits(m))
  {
    hide ExcessBits, Pow2;
    var unit := Pow2(ExcessBits(m));
    ExcessBitsBound(m);
    BelowSignificand(p, e, ExcessBits(m));
    OneMore(m / unit, unit);
    MultiplesApart(m / unit + 1, 0x10_0000_0000_0000, unit);
    MultiplesApart(0x10_0000_0000_0000, m / unit, unit);
    BelowNearest(m, unit, p * Pow2(e));
  }

  lemma BelowNearest(m: nat, unit: nat, below: nat)
    requires unit > 0 && below <= m / unit * unit
    ensures Distance(below, m) >= m % unit
  {
  }

  lemma RoundedBy(m: nat)
    ensures var unit := Pow2(ExcessBits(m));
      Distance(RoundMagnitude(m), m) == if 2 * (m % unit) <= unit then m % unit else unit - m % unit
  {
    hide ExcessBits, Pow2;
    var unit := Pow2(ExcessBits(m));
    var low, rest := m / unit, m % unit;
    OneMore(low, unit);
    var product := low * unit;
    assert m == product + rest;
    assert RoundMagnitude(m) == product || RoundMagnitude(m) == product + unit;
  }

  lemma Regroup(a: nat, b: nat, c: nat)
    ensures a * (c * b) == (a * b) * c
  {
  }

  lemma BelowSignificand(p: nat, e: nat, x: nat)
    requires p <= 0x20_0000_0000_0000 && e < x
    ensures p * Pow2(e) <= 0x10_0000_0000_0000 * Pow2(x)
  {
    Pow2Sum(e, x - e);
    MultiplesApart(p, 0x20_0000_0000_0000, Pow2(e));
    MultiplesApart(2, Pow2(x - e), Pow2(e));
    assert Pow2(x - e) == 2 * Pow2(x - e - 1);
  }

  function FloatOfInt(i: int): Float {
    Finite(RoundInt(i) as real)
  }

  /** int64(f): truncation toward zero.  Outside int64 the language leaves the result to the
      implementation; the value given here is never relied on. */
  function IntOfFloat(f: Float): int {
    match f
    case Finite(r) =>
      var i := if r < 0.0 then -((-r).Floor) else r.Floor;
      if IsInt64(i) then i else MIN_INT64
    case _ => MIN_INT64
  }

  lemma IntThroughFloat(i: int)
    requires IsInt64(RoundInt(i))
    ensures IntOfFloat(FloatOfInt(i)) == RoundInt(i)
  {
    var j := RoundInt(i);
    assert (-(j as real)) == ((-j) as real);
  }

  /** A fraction is cut off, on either side of zero. */
  lemma TruncatesTowardZero(r: real, i: int)
    requires -0x8000_0000_0000_0000 <= i < 0x8000_0000_0000_0000
    requires if r < 0.0 then i as real - 1.0 < r <= i as real else i as real <= r < i as real + 1.0
    ensures IntOfFloat(Finite(r)) == i
  {
    if r < 0.0 { assert (-r).Floor == -i; } else { assert r.Floor == i; }
  }

  /** reflect's SetInt on a signed field of the given width keeps the low bits. */
  function Narrow(bits: nat, i: int): int
    requires bits > 0
  {
    var half := Pow2(bits - 1);
    (i + half) % (2 * half) - half
  }

  predicate FitsWidth(bits: nat, i: int)
    requires bits > 0
  {
    var half: int := Pow2(bits - 1);
    -half <= i < half
  }

  lemma NarrowKeeps(bits: nat, i: int)
    requires bits > 0 && FitsWidth(bits, i)
    ensures Narrow(bits, i) == i
  {
    SmallModulus(i + Pow2(bits - 1), 2 * Pow2(bits - 1));
  }

  lemma WidthsAre(i: int)
    ensures FitsWidth(8, i) <==> -128 <= i <= 127
    ensures FitsWidth(16, i) <==> -32768 <= i <= 32767
    ensures FitsWidth(32, i) <==> -2147483648 <= i <= 2147483647
    ensures FitsWidth(64, i) <==> -9223372036854775808 <= i <= 9223372036854775807
    ensures IsInt64(i) <==> FitsWidth(64, i)
  {
    hide Pow2;
    PowersOfTwo();
  }

  /** What is kept fits the width and differs from the number by a multiple of two to the width. */
  lemma KeepsLowBits(bits: nat, i: int) returns (k: int)
    requires bits > 0
    ensures FitsWidth(bits, Narrow(bits, i)) && Narrow(bits, i) == i + k * Pow2(bits)
  {
    hide Pow2;
    var half := Pow2(bits - 1);
    DoubledPower(bits);
    var x, whole := i + half, 2 * half;
    k := -(x / whole);
    assert x == x / whole * whole + x % whole;
    Negated(x / whole, whole);
  }

  lemma DoubledPower(e: nat)
    requires e > 0
    ensures Pow2(e) == 2 * Pow2(e - 1)
  {
  }

  lemma Negated(a: int, b: int)
    ensures (-a) * b == -(a * b)
  {
  }

  // ---------------------------------------------------------------- decimal text

  const DIGITS := "0123456789"

  function DigitsOf(n: nat): string {
    if n < 10 then [DIGITS[n]] else DigitsOf(n / 10) + [DIGITS[n % 10]]
  }

  function Itoa(i: int): string {
    if i < 0 then "-" + DigitsOf(-i) else DigitsOf(i)
  }

  function DigitValue(c: char): Option<nat> {
    if '0' <= c <= '9' then Some(c as int - '0' as int) else None
  }

  /** The number a non-empty text of digits denotes. */
  function ParseDigits(s: string): Option<nat> {
    if s == [] then None
    else
      var last := DigitValue(s[|s| - 1]);
      if last.None? then None
      else if |s| == 1 then last
      else
        var front := ParseDigits(s[..|s| - 1]);
        if front.None? then None else Some(10 * front.value + last.value)
  }

  /** strconv.Atoi with its optional sign and its range check. */
  function Atoi(s: string): Option<int> {
    var signed := s != [] && (s[0] == '-' || s[0] == '+');
    var digits := ParseDigits(if signed then s[1..] else s);
    if digits.None? then None
    else
      var magnitude: int := digits.value;
      var i := if signed && s[0] == '-' then -magnitude else magnitude;
      if IsInt64(i) then Some(i) else None
  }

  lemma {:induction false} ParseDigitsOf(n: nat)
    ensures ParseDigits(DigitsOf(n)) == Some(n)
    ensures DigitsOf(n) != [] && DigitValue(DigitsOf(n)[0]).Some?
  {
    if n >= 10 {
      ParseDigitsOf(n / 10);
      assert DigitsOf(n)[..|DigitsOf(n)| - 1] == DigitsOf(n / 10);
    }
  }

  /** A text is a number exactly when it is a non-empty row of digits after an optional sign, in range. */
  lemma {:induction false} DigitsExactly(s: string)
    ensures ParseDigits(s).Some? <==> s != "" && forall k :: 0 <= k < |s| ==> '0' <= s[k] <= '9'
  {
    if |s| > 1 { DigitsExactly(s[..|s| - 1]); }
  }

  /** A digit in front counts for ten to the number of digits after it. */
  lemma {:induction false} LeadingDigit(c: char, s: string)
    requires '0' <= c <= '9' && ParseDigits(s).Some?
    ensures ParseDigits([c] + s) == Some((c as int - '0' as int) * Pow10(|s|) + ParseDigits(s).value)
  {
    var t := [c] + s;
    assert t[|t| - 1] == s[|s| - 1] && t[..|t| - 1] == [c] + s[..|s| - 1];
    if |s| > 1 {
      LeadingDigit(c, s[..|s| - 1]);
      TenTimes(c as int - '0' as int, Pow10(|s| - 1));
    } else {
      assert t[..|t| - 1] == [c];
    }
  }

  lemma TenTimes(digit: nat, power: nat)
    ensures digit * (10 * power) == 10 * (digit * power)
  {
  }

  function Pow10(n: nat): nat {
    if n == 0 then 1 else 10 * Pow10(n - 1)
  }

  lemma TextsOfNumbers()
    ensures Itoa(0) == "0" && Itoa(7) == "7" && Itoa(-120) == "-120"
    ensures Atoi("7") == Some(7) && Atoi("+7") == Some(7) && Atoi("-7") == Some(-7)
    ensures Atoi("") == None && Atoi("-") == None && Atoi("--7") == None && Atoi("7a") == None && Atoi(" 7") == None
  {
  }

  /** The texts just outside int64 are no keys. */
  lemma KeysInRange(s: string, n: nat)
    requires ParseDigits(s) == Some(n) && n >= 0x8000_0000_0000_0000
    ensures Atoi(s) == None && Atoi("+" + s) == None
    ensures Atoi("-" + s) == if n == 0x8000_0000_0000_0000 then Some(-0x8000_0000_0000_0000) else None
  {
    DigitsExactly(s);
  }

  /** Integer keys survive the trip through text, hence never collide. */
  lemma AtoiOfItoa(i: int)
    requires IsInt64(i)
    ensures Atoi(Itoa(i)) == Some(i)
  {
    hide DigitsOf, ParseDigits, RoundInt;
    ParseDigitsOf(if i < 0 then -i else i);
    if i < 0 {
      assert Itoa(i)[0] == '-' && Itoa(i)[1..] == DigitsOf(-i);
    } else {
      assert Itoa(i)[0] != '-' && Itoa(i)[0] != '+';
    }
  }

  lemma ItoaInjective(i: int, j: int)
    requires Itoa(i) == Itoa(j)
    ensures i == j
  {
    ParseDigitsOf(if i < 0 then -i else i);
    ParseDigitsOf(if j < 0 then -j else j);
    if i < 0 { assert Itoa(i)[1..] == DigitsOf(-i); }
    if j < 0 { assert Itoa(j)[1..] == DigitsOf(-j); }
  }
}
