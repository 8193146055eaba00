/** The memory ranges of the read-latency sweep: four equidistant sizes per power of two. */
module LatMemRanges {
  import opened Common

  function Pow2(k: nat): (p: nat)
    ensures p >= 1
  {
    if k == 0 then 1 else 2 * Pow2(k - 1)
  }

  /** Bitwise "and" of two natural numbers. */
  function BitAnd(a: nat, b: nat): nat {
    if a == 0 || b == 0 then 0
    else 2 * BitAnd(a / 2, b / 2) + if a % 2 == 1 && b % 2 == 1 then 1 else 0
  }

  predicate IsPow2(num: nat) { num != 0 && BitAnd(num, num - 1) == 0 }

  lemma {:induction false} BitAndSelf(m: nat)
    ensures BitAnd(m, m) == m
  {
    if m > 0 { BitAndSelf(m / 2); }
  }

  lemma {:induction false} BitTrick(n: nat)
    requires n > 0
    ensures BitAnd(n, n - 1) == 0 <==> n == 1 || (n % 2 == 0 && BitAnd(n / 2, n / 2 - 1) == 0)
  {
    if n > 1 {
      if n % 2 == 1 {
        assert (n - 1) / 2 == n / 2;
        BitAndSelf(n / 2);
      } else {
        assert (n - 1) / 2 == n / 2 - 1;
      }
    }
  }

  lemma TwiceIsPow2(n: nat)
    requires n > 0
    ensures IsPow2(2 * n) <==> IsPow2(n)
  {
    BitTrick(2 * n);
  }

  lemma {:induction false} PowersArePow2(k: nat)
    ensures IsPow2(Pow2(k))
  {
    if k > 0 {
      PowersArePow2(k - 1);
      TwiceIsPow2(Pow2(k - 1));
    }
  }

  lemma {:induction false} WhichPower(n: nat) returns (k: nat)
    requires IsPow2(n)
    ensures n == Pow2(k)
  {
    BitTrick(n);
    if n == 1 {
      k := 0;
    } else {
      k := WhichPower(n / 2);
      k := k + 1;
    }
  }

  /** The bit trick recognises exactly the powers of two. */
  lemma IsPow2Iff(n: nat)
    ensures IsPow2(n) <==> exists k: nat :: n == Pow2(k)
  {
    if IsPow2(n) {
      var k := WhichPower(n);
    }
    if k: nat :| n == Pow2(k) {
      PowersArePow2(k);
    }
  }

  /** Among the multiples 5, 6, 7 and 8 of a power of two only the last is a power of two. */
  lemma {:induction false} OnlyEightfold(k: nat, m: nat)
    requires 5 <= m <= 8
    ensures IsPow2(m * Pow2(k)) <==> m == 8
  {
    if k > 0 {
      OnlyEightfold(k - 1, m);
      Regroup(m, Pow2(k - 1));
      TwiceIsPow2(m * Pow2(k - 1));
    } else {
      assert m * Pow2(0) == m;
      SmallCases();
    }
  }

  lemma SmallCases()
    ensures !IsPow2(5) && !IsPow2(6) && !IsPow2(7) && IsPow2(8)
  {
  }

  lemma Regroup(m: nat, q: nat)
    requires m > 0 && q > 0
    ensures m * (2 * q) == 2 * (m * q) && m * q > 0
  {
  }

  /** The step in force once the `i`-th size has been listed. */
  function StepAt(i: nat): nat { Pow2(10 + i / 4) }

  /** The `i`-th size: 4, 5, 6 or 7 times a power of two, starting at 4096. */
  function Size(i: nat): nat {
    var p, r := StepAt(i), i % 4;
    if r == 0 then 4 * p else if r == 1 then 5 * p else if r == 2 then 6 * p else 7 * p
  }

  /** The next size is one step further, and the step doubles exactly at the powers of two. */
  lemma SizeNext(i: nat)
    ensures Size(i + 1) == Size(i) + StepAt(i)
    ensures StepAt(i + 1) == if IsPow2(Size(i + 1)) then 2 * StepAt(i) else StepAt(i)
  {
    var p, r := StepAt(i), i % 4;
    OnlyEightfold(10 + i / 4, 5 + r);
    OneMore(4 + r, p);
    if r == 3 {
      assert (i + 1) / 4 == i / 4 + 1 && (i + 1) % 4 == 0;
      assert StepAt(i + 1) == 2 * p;
      Eight(p);
    } else {
      assert (i + 1) / 4 == i / 4 && (i + 1) % 4 == r + 1;
    }
  }

  lemma Eight(p: nat)
    ensures (4 + 0) * (2 * p) == 8 * p && (4 + 3) * p + p == 8 * p
  {
  }

  /** The first `n` sizes. */
  function Sizes(n: nat): (sizes: seq<nat>)
    ensures |sizes| == n
  {
    if n == 0 then [] else Sizes(n - 1) + [Size(n - 1)]
  }

  method Ranges(maxRange: int) returns (ranges: seq<nat>)
    ensures ranges != [] && ranges[0] == 4096
    ensures ranges == Sizes(|ranges|)
    ensures ranges[|ranges| - 1] >= maxRange
    ensures |ranges| > 1 ==> ranges[|ranges| - 2] < maxRange
  {
    ranges := [4096];
    var step := 1024;
    FirstSize();
    while ranges[|ranges| - 1] < maxRange
      invariant Listed(ranges, step) && ranges[0] == 4096
      invariant |ranges| > 1 ==> ranges[|ranges| - 2] < maxRange
      decreases maxRange - ranges[|ranges| - 1]
    {
      var newRange := ranges[|ranges| - 1] + step;
      step := NextStep(ranges, newRange, step);
      ranges := ranges + [newRange];
    }
  }

  /** Doubles the step at a power of two. */
  method NextStep(ghost ranges: seq<nat>, newRange: nat, step: nat) returns (next: nat)
    requires Listed(ranges, step) && newRange == ranges[|ranges| - 1] + step
    ensures Listed(ranges + [newRange], next)
    ensures next == step || next == 2 * step
    ensures next == 2 * step <==> exists k: nat :: newRange == Pow2(k)
  {
    ListedNext(ranges, step);
    IsPow2Iff(newRange);
    next := if IsPow2(newRange) then step * 2 else step;
  }

  /** The first sizes, and the step in force behind them. */
  ghost predicate Listed(ranges: seq<nat>, step: nat) {
    ranges != [] && ranges == Sizes(|ranges|) && step == StepAt(|ranges| - 1) && step > 0
  }

  lemma ListedNext(ranges: seq<nat>, step: nat)
    requires Listed(ranges, step)
    ensures var next := ranges[|ranges| - 1] + step;
            Listed(ranges + [next], if IsPow2(next) then step * 2 else step)
  {
    SizeNext(|ranges| - 1);
  }

  lemma FirstSize()
    ensures StepAt(0) == 1024 && Size(0) == 4096 && Sizes(1) == [4096]
  {
    SmallPowers();
  }

  lemma SmallPowers()
    ensures Pow2(10) == 1024
  {
    assert Pow2(5) == 32;
    assert Pow2(10) == 32 * Pow2(5);
  }

  // ---------- what the sizes are like ----------

  /** The sizes one by one: four, five, six and seven times 1024, then of 2048, and so on. */
  lemma {:induction false} SizesAt(n: nat, k: nat)
    requires k < n
    ensures Sizes(n)[k] == (4 + k % 4) * Pow2(10 + k / 4)
  {
    if k < n - 1 { SizesAt(n - 1, k); }
  }

  lemma SizeSteps(i: nat)
    ensures Size(i) < Size(i + 1) && 4 * Size(i + 1) <= 5 * Size(i)
  {
    SizeNext(i);
    AtLeastFour(i % 4, StepAt(i), Size(i));
  }

  lemma AtLeastFour(r: nat, p: nat, n: nat)
    requires n == (4 + r) * p
    ensures n >= 4 * p
  {
    assert (4 + r) * p == 4 * p + r * p;
  }

  lemma {:induction false} SizesAscend(i: nat, j: nat)
    requires i < j
    ensures Size(i) < Size(j)
    decreases j
  {
    SizeSteps(j - 1);
    if i < j - 1 { SizesAscend(i, j - 1); }
  }

  /** Every power of two from 4096 up to a size of the sweep is itself a size of the sweep. */
  lemma PowersAreSizes(k: nat, i: nat)
    requires k >= 12 && Pow2(k) <= Size(i)
    ensures Size(4 * (k - 12)) == Pow2(k) && 4 * (k - 12) <= i
  {
    var j := 4 * (k - 12);
    SizeOfFour(k - 12);
    if i < j { SizesAscend(i, j); }
  }

  lemma SizeOfFour(d: nat)
    ensures Size(4 * d) == Pow2(d + 12)
  {
    assert (4 * d) % 4 == 0 && (4 * d) / 4 == d;
    assert Pow2(d + 12) == 2 * Pow2(d + 11) && Pow2(d + 11) == 2 * Pow2(d + 10);
  }
}
