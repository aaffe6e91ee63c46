/** The n-th "perfect" number, where a number counts as perfect when its
    decimal digits sum to exactly 10, found by trying 1, 2, 3, ... below a
    fixed bound and giving up with a ValueError at the bound. */
module PerfectNumbers {

  import opened Wrappers

  /** The search gives up at this number. */
  const MAX_ITERATIONS: nat := 10000

  datatype SearchError = ValueError

  // ---------------------------------------------------------------------
  // Decimal digits.

  /** `[int(i) for i in list(str(x))]`: the decimal digits of `x`, most
      significant first. There is at least one, and only 0 itself starts
      with 0. */
  function Digits(x: nat): (ds: seq<nat>)
    ensures |ds| >= 1
    ensures ds[0] == 0 ==> x == 0
    decreases x
  {
    if x < 10 then [x] else Digits(x / 10) + [x % 10]
  }

  /** The number a sequence of decimal digits spells. */
  function Value(ds: seq<nat>): nat
    decreases |ds|
  {
    if ds == [] then 0 else 10 * Value(ds[..|ds| - 1]) + ds[|ds| - 1]
  }

  /** The digits are single digits and spell the number back. */
  lemma {:induction false} DigitsRoundTrip(x: nat)
    ensures forall k :: 0 <= k < |Digits(x)| ==> Digits(x)[k] < 10
    ensures Value(Digits(x)) == x
    decreases x
  {
    if x >= 10 {
      DigitsRoundTrip(x / 10);
      var ds := Digits(x);
      assert ds[..|ds| - 1] == Digits(x / 10);
    }
  }

  /** `sum(digits)`: at least the leading digit. */
  function SumOf(ds: seq<nat>): (r: nat)
    ensures |ds| >= 1 ==> r >= ds[0]
    decreases |ds|
  {
    if ds == [] then 0 else SumOf(ds[..|ds| - 1]) + ds[|ds| - 1]
  }

  /** A positive number has a positive digit sum. */
  function DigitSum(x: nat): (r: nat)
    ensures x > 0 ==> r > 0
  {
    SumOf(Digits(x))
  }

  /** The digit sum of a number is that of the number without its last digit,
      plus the last digit. */
  lemma DigitSumStep(x: nat)
    ensures DigitSum(x) == if x < 10 then x else DigitSum(x / 10) + x % 10
  {
    var ds := Digits(x);
    if x >= 10 {
      assert ds[..|ds| - 1] == Digits(x / 10);
    } else {
      assert ds == [x] && ds[..0] == [];
      assert SumOf(ds) == SumOf([]) + x;
    }
  }

  predicate Perfect(x: nat) {
    DigitSum(x) == 10
  }

  // ---------------------------------------------------------------------
  // The perfect numbers below a bound.

  /** The perfect numbers in `[1, m)`, in increasing order. */
  function PerfectsBelow(m: nat): seq<nat>
    decreases m
  {
    if m <= 1 then [] else PerfectsBelow(m - 1) + (if Perfect(m - 1) then [m - 1] else [])
  }

  predicate Increasing(s: seq<nat>) {
    forall i, j :: 0 <= i < j < |s| ==> s[i] < s[j]
  }

  /** `PerfectsBelow(m)` lists every perfect number in `[1, m)` and nothing
      else, in strictly increasing order. */
  lemma {:induction false} PerfectsBelowSpec(m: nat)
    ensures forall x :: x in PerfectsBelow(m) <==> 1 <= x < m && Perfect(x)
    ensures Increasing(PerfectsBelow(m))
    decreases m
  {
    if m > 1 {
      var s := PerfectsBelow(m - 1);
      PerfectsBelowSpec(m - 1);
      if Perfect(m - 1) {
        var t := s + [m - 1];
        assert PerfectsBelow(m) == t;
        forall i, j | 0 <= i < j < |t| ensures t[i] < t[j] {
          assert t[i] == s[i] && s[i] in s;
          if j < |s| {
            assert t[j] == s[j];
          }
        }
      } else {
        assert PerfectsBelow(m) == s + [];
        assert s + [] == s;
      }
    }
  }

  /** Raising the bound only appends. */
  lemma {:induction false} PerfectsBelowPrefix(m: nat, m': nat)
    requires m <= m'
    ensures PerfectsBelow(m) <= PerfectsBelow(m')
    decreases m' - m
  {
    if m < m' {
      PerfectsBelowPrefix(m, m' - 1);
    }
  }

  /** A perfect number `x` below `m` sits in `PerfectsBelow(m)` right after
      the perfect numbers below `x`: it is the `|PerfectsBelow(x)| + 1`-th. */
  lemma NthPerfect(m: nat, x: nat)
    requires 1 <= x < m && Perfect(x)
    ensures |PerfectsBelow(x)| < |PerfectsBelow(m)|
    ensures PerfectsBelow(m)[|PerfectsBelow(x)|] == x
  {
    assert PerfectsBelow(x + 1) == PerfectsBelow(x) + [x];
    PerfectsBelowPrefix(x + 1, m);
  }

  /** A stretch without perfect numbers adds nothing. */
  lemma {:induction false} PerfectsBelowGap(lo: nat, m: nat)
    requires lo <= m
    requires forall x :: lo <= x < m ==> !Perfect(x)
    ensures PerfectsBelow(m) == PerfectsBelow(lo)
    decreases m - lo
  {
    if lo < m {
      PerfectsBelowGap(lo, m - 1);
      assert PerfectsBelow(m) == PerfectsBelow(m - 1) + [];
    }
  }

  // ---------------------------------------------------------------------
  // The search.

  /** The loop of `nth_perfect_number(n)`, with the bound it stops at as a
      parameter: the n-th perfect number, when there are n of them below
      `limit`; a ValueError otherwise, which includes every `n <= 0`. */
  method SearchBelow(n: int, limit: nat) returns (r: Result<nat, SearchError>)
    ensures r.Ok? <==> 1 <= n <= |PerfectsBelow(limit)|
    ensures r.Ok? ==> r.value == PerfectsBelow(limit)[n - 1]
    ensures r.Ok? ==> 1 <= r.value < limit && Perfect(r.value) && |PerfectsBelow(r.value)| == n - 1
  {
    var perfectNumbers: seq<nat> := [];
    var currentNumber: nat := 1;
    while currentNumber < limit
      invariant 1 <= currentNumber && (currentNumber <= limit || limit == 0)
      invariant perfectNumbers == PerfectsBelow(currentNumber)
      invariant n < 1 || |perfectNumbers| < n
    {
      var digits := Digits(currentNumber);
      if SumOf(digits) == 10 {
        perfectNumbers := perfectNumbers + [currentNumber];
        if |perfectNumbers| == n {
          NthPerfect(limit, currentNumber);
          return Ok(currentNumber);
        }
      }
      currentNumber := currentNumber + 1;
    }
    return Err(ValueError);
  }

  /** `nth_perfect_number(n)`: the search stopping at `MAX_ITERATIONS`. */
  method NthPerfectNumber(n: int) returns (r: Result<nat, SearchError>)
    ensures r.Ok? <==> 1 <= n <= |PerfectsBelow(MAX_ITERATIONS)|
    ensures r.Ok? ==> r.value == PerfectsBelow(MAX_ITERATIONS)[n - 1]
    ensures r.Ok? ==> 1 <= r.value < MAX_ITERATIONS && Perfect(r.value) && |PerfectsBelow(r.value)| == n - 1
  {
    r := SearchBelow(n, MAX_ITERATIONS);
  }

  /** A two-digit number's digit sum is its tens digit plus its units digit. */
  lemma TwoDigitSum(x: nat)
    requires 10 <= x < 100
    ensures DigitSum(x) == x / 10 + x % 10
  {
    DigitSumStep(x);
    DigitSumStep(x / 10);
  }

  /** The first two perfect numbers are 19 and 28: one digit is at most 9,
      10 to 18 have digit sums 1 to 9, and 20 to 27 have 2 to 9. */
  lemma FirstTwo()
    ensures Perfect(19) && Perfect(28)
    ensures PerfectsBelow(19) == [] && PerfectsBelow(28) == [19]
  {
    forall x | 1 <= x < 10 ensures !Perfect(x) {
      DigitSumStep(x);
    }
    forall x | 10 <= x < 30 ensures DigitSum(x) == x / 10 + x % 10 {
      TwoDigitSum(x);
    }
    PerfectsBelowGap(1, 19);
    assert PerfectsBelow(20) == PerfectsBelow(19) + [19];
    PerfectsBelowGap(20, 28);
    assert PerfectsBelow(29) == PerfectsBelow(28) + [28];
  }

  /** A number from 100 to 109 has digit sum 1 plus its units digit. */
  lemma LowHundredsSum(x: nat)
    requires 100 <= x < 110
    ensures DigitSum(x) == 1 + x % 10
  {
    DigitSumStep(x);
    TwoDigitSum(x / 10);
  }

  /** Between the two-digit perfect numbers `9 * t + 10` and `9 * t + 19`
      there is none: below `10 * (t + 1)` the digit sum is more than 10, from
      there on less. */
  lemma TwoDigitNext(t: nat)
    requires 1 <= t <= 8
    ensures Perfect(9 * t + 19)
    ensures |PerfectsBelow(9 * t + 20)| == |PerfectsBelow(9 * t + 11)| + 1
  {
    var p, q := 9 * t + 10, 9 * t + 19;
    forall x | p < x < q ensures !Perfect(x) {
      TwoDigitSum(x);
      if x < 10 * (t + 1) {
        assert x / 10 == t && x % 10 == x - 10 * t;
      } else {
        assert x / 10 == t + 1 && x % 10 == x - 10 * (t + 1);
      }
    }
    TwoDigitSum(q);
    assert q / 10 == t + 1 && q % 10 == 9 - t;
    PerfectsBelowGap(p + 1, q);
    assert PerfectsBelow(q + 1) == PerfectsBelow(q) + [q];
  }

  /** `9 * t + 10` is the t-th perfect number, for t from 1 to 9. */
  lemma {:induction false} TwoDigitCount(t: nat)
    requires 1 <= t <= 9
    ensures Perfect(9 * t + 10)
    ensures |PerfectsBelow(9 * t + 11)| == t
  {
    if t == 1 {
      FirstTwo();
      assert PerfectsBelow(20) == PerfectsBelow(19) + [19];
    } else {
      TwoDigitCount(t - 1);
      TwoDigitNext(t - 1);
    }
  }

  /** 92 to 99 and 100 to 108 have digit sums other than 10. */
  lemma NotPerfectAfterNinetyOne(x: nat)
    requires 92 <= x < 109
    ensures !Perfect(x)
  {
    if x < 100 {
      TwoDigitSum(x);
      assert x / 10 == 9;
    } else {
      LowHundredsSum(x);
    }
  }

  /** Every bound from 92 to 109 has the nine perfect numbers up to 91 below it. */
  lemma NineBelow(m: nat)
    requires 92 <= m <= 109
    ensures |PerfectsBelow(m)| == 9
  {
    forall x | 92 <= x < m ensures !Perfect(x) {
      NotPerfectAfterNinetyOne(x);
    }
    PerfectsBelowGap(92, m);
    TwoDigitCount(9);
    assert 9 * 9 + 11 == 92;
  }

  /** The tenth perfect number is 109. */
  lemma FirstTen()
    ensures Perfect(109)
    ensures |PerfectsBelow(109)| == 9
  {
    NineBelow(109);
    LowHundredsSum(109);
  }

  /** `nth_perfect_number(1)` is 19, `nth_perfect_number(2)` is 28 and
      `nth_perfect_number(10)` is 109. */
  method Example() returns (first: Result<nat, SearchError>, second: Result<nat, SearchError>,
                            tenth: Result<nat, SearchError>)
    ensures first == Ok(19) && second == Ok(28) && tenth == Ok(109)
  {
    FirstTwo();
    FirstTen();
    NthPerfect(MAX_ITERATIONS, 19);
    NthPerfect(MAX_ITERATIONS, 28);
    NthPerfect(MAX_ITERATIONS, 109);
    first := NthPerfectNumber(1);
    second := NthPerfectNumber(2);
    tenth := NthPerfectNumber(10);
  }
}
