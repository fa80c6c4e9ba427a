/**
 * Binary diagnostic (src/day03.rs): 12-bit report numbers. The power
 * consumption takes, bit by bit, the more common digit for gamma and the
 * other one for epsilon; the life-support ratings filter the list digit by
 * digit, from the most significant one, until one number is left.
 */
module Diagnostic {
  import opened Wrappers

  function Pow2(d: nat): (r: nat)
    ensures r >= 1
  {
    if d == 0 then 1 else 2 * Pow2(d - 1)
  }

  /** The range of a `u32`. */
  const U32: nat := 0x1_0000_0000

  /** Binary digit d of n. */
  function Bit(n: nat, d: nat): nat {
    (n / Pow2(d)) % 2
  }

  /**
   * `nth_digit`: binary digit d of the number cast to `u32`. `2u32.pow(d)`
   * overflows from d = 32 on.
   */
  function NthDigit(n: nat, d: nat): (r: nat)
    requires d < 32
    ensures r == 0 || r == 1
    ensures n < U32 ==> r == Bit(n, d)
  {
    Bit(n % U32, d)
  }

  // ---------------------------------------------------------------------------
  // Division facts
  // ---------------------------------------------------------------------------

  /** Raising the multiplier by at least one adds at least m. */
  lemma {:induction false} MulStep(m: nat, a: nat, b: nat)
    requires a < b
    ensures m * a + m <= m * b
    decreases b - a
  {
    assert m * b == m * (b - 1) + m;
    if a + 1 < b {
      MulStep(m, a, b - 1);
    }
  }

  /** The quotient is the one multiplier that leaves a remainder below m. */
  lemma DivUnique(n: nat, m: nat, x: nat, y: nat)
    requires m > 0 && n == m * x + y && y < m
    ensures n / m == x && n % m == y
  {
    var q, r := n / m, n % m;
    assert n == m * q + r;
    if q < x {
      MulStep(m, q, x);
      assert false;
    } else if q > x {
      MulStep(m, x, q);
      assert false;
    }
  }

  lemma Regroup(p: nat, h: nat, b: nat, r: nat)
    ensures p * (2 * h + b) + r == (2 * p) * h + (p * b + r)
  {
  }

  /** Halving n / 2^d gives n / 2^(d+1). */
  lemma HalveStep(n: nat, d: nat)
    ensures (n / Pow2(d)) / 2 == n / Pow2(d + 1)
  {
    var p := Pow2(d);
    var q, r := n / p, n % p;
    var h, b := q / 2, q % 2;
    assert n == p * q + r && q == 2 * h + b;
    Regroup(p, h, b, r);
    assert p * b <= p;
    DivUnique(n, 2 * p, h, p * b + r);
  }

  // ---------------------------------------------------------------------------
  // q1: gamma and epsilon
  // ---------------------------------------------------------------------------

  /** How many of the numbers have a 1 as binary digit d. */
  function Ones(ns: seq<nat>, d: nat): (k: nat)
    ensures k <= |ns|
  {
    if ns == [] then 0 else Ones(ns[..|ns| - 1], d) + Bit(ns[|ns| - 1], d)
  }

  /** Digit d is 1 in more than half of the numbers (a tie counts as 0). */
  predicate MostlyOnes(ns: seq<nat>, d: nat) {
    Ones(ns, d) > |ns| / 2
  }

  /** The low `digits` bits of gamma: bit d is set when 1 is the more common digit d. */
  function Gamma(ns: seq<nat>, digits: nat): nat {
    if digits == 0 then 0
    else Gamma(ns, digits - 1) + (if MostlyOnes(ns, digits - 1) then Pow2(digits - 1) else 0)
  }

  /** The low `digits` bits of epsilon: the bits gamma leaves clear. */
  function Epsilon(ns: seq<nat>, digits: nat): nat {
    if digits == 0 then 0
    else Epsilon(ns, digits - 1) + (if MostlyOnes(ns, digits - 1) then 0 else Pow2(digits - 1))
  }

  /** Gamma and epsilon share no bit and together set all of them. */
  lemma {:induction false} GammaEpsilonComplement(ns: seq<nat>, digits: nat)
    ensures Gamma(ns, digits) + Epsilon(ns, digits) == Pow2(digits) - 1
  {
    if digits > 0 {
      GammaEpsilonComplement(ns, digits - 1);
    }
  }

  /** Digit d of gamma is 1 exactly when 1 is the more common digit d. */
  lemma {:induction false} GammaBits(ns: seq<nat>, digits: nat, d: nat)
    requires d < digits
    ensures Bit(Gamma(ns, digits), d) == if MostlyOnes(ns, d) then 1 else 0
  {
    var k := digits - 1;
    var low := Gamma(ns, k);
    GammaBelow(ns, k);
    var g := Gamma(ns, digits);
    if MostlyOnes(ns, k) {
      assert g == low + Pow2(k);
      BitAbove(low, k, d);
      if d < k {
        GammaBits(ns, k, d);
      }
    } else {
      assert g == low;
      if d < k {
        GammaBits(ns, k, d);
      } else {
        DivUnique(low, Pow2(k), 0, low);
      }
    }
  }

  /** Adding 2^k to a number below 2^k sets digit k and keeps the digits below it. */
  lemma BitAbove(low: nat, k: nat, d: nat)
    requires low < Pow2(k) && d <= k
    ensures Bit(low + Pow2(k), d) == if d == k then 1 else Bit(low, d)
  {
    if d == k {
      DivUnique(low + Pow2(k), Pow2(k), 1, low);
    } else {
      var e := k - d;
      PowAdd(d, e);
      var p := Pow2(d);
      DivFacts(low, p);
      var q: nat, r: nat := low / p, low % p;
      var t := Pow2(e - 1);
      assert Pow2(k) == p * (2 * t);
      Distrib(p, q, 2 * t);
      DivUnique(low + Pow2(k), p, q + 2 * t, r);
      DivUnique(q + 2 * t, 2, q / 2 + t, q % 2);
    }
  }

  lemma DivFacts(n: nat, m: nat)
    requires m > 0
    ensures 0 <= n / m && 0 <= n % m < m && n == m * (n / m) + n % m
  {
  }

  lemma Distrib(a: nat, b: nat, c: nat)
    ensures a * (b + c) == a * b + a * c
  {
  }

  lemma {:induction false} GammaBelow(ns: seq<nat>, digits: nat)
    ensures Gamma(ns, digits) < Pow2(digits)
  {
    if digits > 0 {
      GammaBelow(ns, digits - 1);
    }
  }

  lemma {:induction false} PowAdd(a: nat, b: nat)
    ensures Pow2(a + b) == Pow2(a) * Pow2(b)
  {
    if b > 0 {
      PowAdd(a, b - 1);
    }
  }

  lemma {:induction false} PowMonotone(a: nat, b: nat)
    requires a <= b
    ensures Pow2(a) <= Pow2(b)
  {
    if a < b {
      PowMonotone(a, b - 1);
    }
  }

  /**
   * The loop of `q1`: for each of the 12 digits, count the numbers ending in
   * 1, give the digit to gamma when they are more than half and to epsilon
   * otherwise, then halve every number.
   */
  method GammaEpsilon(numbers: seq<nat>) returns (gamma: nat, epsilon: nat)
    ensures gamma == Gamma(numbers, 12) && epsilon == Epsilon(numbers, 12)
  {
    var target := |numbers| / 2;
    gamma, epsilon := 0, 0;
    var current := numbers;
    for digit := 0 to 12
      invariant |current| == |numbers|
      invariant forall i :: 0 <= i < |current| ==> current[i] == numbers[i] / Pow2(digit)
      invariant gamma == Gamma(numbers, digit) && epsilon == Epsilon(numbers, digit)
    {
      var ones := 0;
      for i := 0 to |current|
        invariant ones == Ones(numbers[..i], digit)
      {
        assert numbers[..i + 1][..i] == numbers[..i];
        if current[i] % 2 == 1 {
          ones := ones + 1;
        }
      }
      assert numbers[..|current|] == numbers;
      if ones > target {
        gamma := gamma + Pow2(digit);
      } else {
        epsilon := epsilon + Pow2(digit);
      }
      forall i | 0 <= i < |current|
        ensures current[i] / 2 == numbers[i] / Pow2(digit + 1)
      {
        HalveStep(numbers[i], digit);
      }
      current := seq(|current|, i requires 0 <= i < |current| => current[i] / 2);
    }
  }

  // ---------------------------------------------------------------------------
  // q2: find_report
  // ---------------------------------------------------------------------------

  /** How many of the numbers have a 1 as `nth_digit` d. */
  function DigitOnes(ns: seq<nat>, d: nat): (k: nat)
    requires d < 32
    ensures k <= |ns|
  {
    if ns == [] then 0 else DigitOnes(ns[..|ns| - 1], d) + NthDigit(ns[|ns| - 1], d)
  }

  /**
   * The digit `find_report` keeps, as written: the o2 rating keeps 1 on a tie
   * and when `ones >= len / 2`, the co2 rating the opposite.
   */
  function KeepDigitAsWritten(len: nat, ones: nat, o2: bool): nat {
    if o2 && len % 2 == 0 && ones == len / 2 then 1
    else if len % 2 == 0 && ones == len / 2 then 0
    else if o2 && ones >= len / 2 then 1
    else if ones >= len / 2 then 0
    else if o2 then 0
    else 1
  }

  /**
   * With three numbers of which one has a 1, `ones >= len / 2` holds, so the
   * o2 rating keeps the minority digit 1 and the co2 rating the majority 0.
   */
  lemma KeepDigitAsWrittenOddLength()
    ensures KeepDigitAsWritten(3, 1, true) == 1 && 2 * 1 < 3
    ensures KeepDigitAsWritten(3, 1, false) == 0 && 2 * (3 - 1) > 3
  {
  }

  /**
   * The digit the ratings are meant to keep: o2 the more common digit, 1 on
   * a tie; co2 the less common digit, 0 on a tie.
   */
  function KeepDigit(len: nat, ones: nat, o2: bool): (keep: nat)
    ensures keep == 0 || keep == 1
  {
    if o2 then (if 2 * ones >= len then 1 else 0)
    else (if 2 * ones >= len then 0 else 1)
  }

  /** How many numbers share the kept digit, given the count of ones. */
  function Sharing(len: nat, ones: nat, keep: nat): nat
    requires ones <= len
  {
    if keep == 1 then ones else len - ones
  }

  /**
   * o2 keeps a digit that at least half the numbers share, and co2 one that at
   * most half share; on a tie o2 keeps 1 and co2 keeps 0.
   */
  lemma KeepDigitMajority(len: nat, ones: nat, o2: bool)
    requires ones <= len
    ensures o2 ==> 2 * Sharing(len, ones, KeepDigit(len, ones, o2)) >= len
    ensures !o2 ==> 2 * Sharing(len, ones, KeepDigit(len, ones, o2)) <= len
    ensures 2 * ones == len ==> KeepDigit(len, ones, o2) == if o2 then 1 else 0
  {
  }

  /** The source's rule agrees with the intended one except for odd lengths with len / 2 ones. */
  lemma KeepDigitAgrees(len: nat, ones: nat, o2: bool)
    requires len % 2 == 0 || ones != len / 2
    ensures KeepDigitAsWritten(len, ones, o2) == KeepDigit(len, ones, o2)
  {
  }

  /** The numbers whose `nth_digit` d is `keep`, in order. */
  function KeepOnly(ns: seq<nat>, d: nat, keep: nat): (r: seq<nat>)
    requires d < 32
    ensures |r| <= |ns|
    ensures forall n :: n in r <==> n in ns && NthDigit(n, d) == keep
  {
    if ns == [] then []
    else
      var last := ns[|ns| - 1];
      assert ns == ns[..|ns| - 1] + [last];
      KeepOnly(ns[..|ns| - 1], d, keep) + (if NthDigit(last, d) == keep then [last] else [])
  }

  /**
   * The rating `find_report` computes from the list and the current digit:
   * None where the source panics, which is when the filtering empties the list,
   * or when it runs past digit 0 and `digit -= 1` underflows.
   */
  function Report(ns: seq<nat>, digit: nat, o2: bool): Option<nat>
    requires digit < 32
    decreases digit
  {
    if |ns| < 2 then (if ns == [] then None else Some(ns[0]))
    else
      var next := KeepOnly(ns, digit, KeepDigit(|ns|, DigitOnes(ns, digit), o2));
      if digit == 0 then None else Report(next, digit - 1, o2)
  }

  /** A rating is one of the report's numbers. */
  lemma {:induction false} ReportInInput(ns: seq<nat>, digit: nat, o2: bool)
    requires digit < 32
    ensures Report(ns, digit, o2).Some? ==> Report(ns, digit, o2).value in ns
    decreases digit
  {
    if |ns| >= 2 && digit > 0 {
      var next := KeepOnly(ns, digit, KeepDigit(|ns|, DigitOnes(ns, digit), o2));
      ReportInInput(next, digit - 1, o2);
    }
  }

  /** A single number is its own rating, whatever the digit. */
  lemma ReportSingle(n: nat, digit: nat, o2: bool)
    requires digit < 32
    ensures Report([n], digit, o2) == Some(n)
  {
  }

  /** The counting loop of `find_report`: how many numbers have a 1 at digit d. */
  method CountOnes(ns: seq<nat>, digit: nat) returns (ones: nat)
    requires digit < 32
    ensures ones == DigitOnes(ns, digit)
  {
    ones := 0;
    for i := 0 to |ns|
      invariant ones == DigitOnes(ns[..i], digit)
    {
      assert ns[..i + 1][..i] == ns[..i];
      ones := ones + NthDigit(ns[i], digit);
    }
    assert ns[..|ns|] == ns;
  }

  /** The filtering loop of `find_report`: the numbers with `keep` at digit d, in order. */
  method Filter(ns: seq<nat>, digit: nat, keep: nat) returns (next: seq<nat>)
    requires digit < 32
    ensures next == KeepOnly(ns, digit, keep)
  {
    next := [];
    for i := 0 to |ns|
      invariant next == KeepOnly(ns[..i], digit, keep)
    {
      assert ns[..i + 1][..i] == ns[..i];
      if NthDigit(ns[i], digit) == keep {
        next := next + [ns[i]];
      }
    }
    assert ns[..|ns|] == ns;
  }

  /**
   * `find_report`: from digit 11 down, count the ones, keep the numbers with
   * the chosen digit, until fewer than two numbers remain.
   */
  method FindReport(numbers: seq<nat>, o2: bool) returns (rating: Option<nat>)
    ensures rating == Report(numbers, 11, o2)
  {
    var ns := numbers;
    var digit: nat := 11;
    while |ns| >= 2
      invariant digit <= 11 && Report(ns, digit, o2) == Report(numbers, 11, o2)
      decreases digit
    {
      var ones := CountOnes(ns, digit);
      var keep := KeepDigit(|ns|, ones, o2);
      var next := Filter(ns, digit, keep);
      assert Report(ns, digit, o2) == if digit == 0 then None else Report(next, digit - 1, o2);
      ns := next;
      if digit == 0 {
        return None;
      }
      digit := digit - 1;
    }
    rating := if ns == [] then None else Some(ns[0]);
  }
}
