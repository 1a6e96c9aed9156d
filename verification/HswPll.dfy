/** display/pll.cpp, Haswell: the exhaustive search for a WR PLL's dividers. The
    code compares ratios by cross-multiplying in 64 bits; what it means by that
    is said here with real numbers. */
module HswPll {
  import opened Machine

  const LC_FREQ := 2700
  const LC_FREQ_2K := 5_400_000
  const P_MIN := 2
  const P_MAX := 64
  const P_INC := 2
  const REF_MIN := 48
  const REF_MAX := 400
  const VCO_MIN := 2400
  const VCO_MAX := 4800

  const FIRST_R2 := LC_FREQ * 2 / REF_MAX + 1
  const LAST_R2 := LC_FREQ * 2 / REF_MIN

  /** struct hsw_wrpll_rnp; p == 0 stands for none yet. */
  datatype Rnp = Rnp(p: uint32, n2: uint32, r2: uint32)

  function FirstN2(r2: nat): nat { VCO_MIN * r2 / LC_FREQ + 1 }

  function LastN2(r2: nat): nat { VCO_MAX * r2 / LC_FREQ }

  /** What the search is for: a reference of 48 to 400 MHz, which is 2 * 2700 over
      r2, a VCO of 2400 to 4800 MHz, which is 2700 times n2 over r2, and an even
      post divider up to 64. */
  predicate Candidate(c: Rnp) {
    && 48 * c.r2 <= 5400 < 400 * c.r2
    && 2400 * c.r2 < 2700 * c.n2 <= 4800 * c.r2
    && 2 <= c.p <= 64 && c.p % 2 == 0
  }

  /** What it goes through. */
  predicate Searched(c: Rnp) {
    && FIRST_R2 <= c.r2 <= LAST_R2 && FirstN2(c.r2) <= c.n2 <= LastN2(c.r2)
    && P_MIN <= c.p <= P_MAX && c.p % P_INC == 0
  }

  /** That is every candidate and nothing else. */
  lemma CandidateBounds(c: Rnp)
    ensures Searched(c) <==> Candidate(c)
    ensures Searched(c) ==> c.r2 <= 112 && c.n2 <= 199 && c.p <= 64
  {}

  // ------------------------------------------------------------ what is wanted

  /** How far the output of a candidate is from the wanted frequency, both in the
      code's unit of half a hundred hertz. */
  function Deviation(freq2k: nat, c: Rnp): real
    requires c.p > 0 && c.r2 > 0
  {
    var delta := freq2k as real - (5_400_000 * c.n2) as real / (c.p * c.r2) as real;
    if delta >= 0.0 then delta else -delta
  }

  /** The deviation is at most `budget` parts in a million. */
  predicate InBudget(freq2k: nat, budget: nat, c: Rnp)
    requires c.p > 0 && c.r2 > 0
  {
    1_000_000.0 * Deviation(freq2k, c) <= (freq2k * budget) as real
  }

  /** N / R^2, up to a constant: reference times VCO frequency. */
  function Merit(c: Rnp): real
    requires c.r2 > 0
  {
    c.n2 as real / (c.r2 * c.r2) as real
  }

  /** Within the budget beats outside it; within it more merit wins, outside it
      less deviation. */
  predicate Better(freq2k: nat, budget: nat, x: Rnp, y: Rnp)
    requires x.p > 0 && x.r2 > 0 && y.p > 0 && y.r2 > 0
  {
    if InBudget(freq2k, budget, x) then
      !InBudget(freq2k, budget, y) || Merit(x) > Merit(y)
    else
      !InBudget(freq2k, budget, y) && Deviation(freq2k, x) < Deviation(freq2k, y)
  }

  // ------------------------------------------------------- cross-multiplication

  function AbsSubtr64(a: nat, b: nat): nat {
    if a >= b then a - b else b - a
  }

  // The code's products.

  function Allowed(freq2k: nat, budget: nat, c: Rnp): nat {
    freq2k * budget * c.p * c.r2
  }

  function Off(freq2k: nat, c: Rnp): nat {
    AbsSubtr64(freq2k * c.p * c.r2, LC_FREQ_2K * c.n2)
  }

  function Span(c: Rnp): nat {
    c.p * c.r2
  }

  /** n2 of one candidate by the square of another's r2. */
  function Crossed(x: Rnp, y: Rnp): nat {
    x.n2 * y.r2 * y.r2
  }

  lemma Scale(k: real, x: real, y: real)
    requires k > 0.0
    ensures k * x < k * y <==> x < y
    ensures k * x <= k * y <==> x <= y
  {}

  lemma Cast(a: nat, b: nat)
    ensures (a * b) as real == a as real * b as real
  {}

  lemma SpanPositive(c: Rnp)
    requires c.p > 0 && c.r2 > 0
    ensures Span(c) > 0
  {}

  /** |freq2k * p * r2 - LC * n2| is the deviation times p * r2. */
  lemma ScaledDeviation(freq2k: nat, c: Rnp)
    requires c.p > 0 && c.r2 > 0
    ensures Off(freq2k, c) as real == Span(c) as real * Deviation(freq2k, c)
  {
    SpanPositive(c);
    var k := Span(c) as real;
    var f, m := freq2k as real, (LC_FREQ_2K * c.n2) as real;
    Cast(Span(c), freq2k);
    assert freq2k * c.p * c.r2 == Span(c) * freq2k;
    Distribute(k, f, m);
  }

  lemma Distribute(k: real, f: real, m: real)
    requires k > 0.0
    ensures k * (f - m / k) == k * f - m && k * -(f - m / k) == m - k * f
  {
    assert k * (m / k) == m;
  }

  /** a >= c. */
  lemma CrossBudget(freq2k: nat, budget: nat, c: Rnp)
    requires c.p > 0 && c.r2 > 0
    ensures Allowed(freq2k, budget, c) >= 1_000_000 * Off(freq2k, c) <==> InBudget(freq2k, budget, c)
  {
    hide Deviation, Off;
    var k, d := Span(c), Deviation(freq2k, c);
    SpanPositive(c);
    ScaledDeviation(freq2k, c);
    Scale(k as real, 1_000_000.0 * d, (freq2k * budget) as real);
    Regroup(freq2k * budget, c.p, c.r2);
    Cast(k, freq2k * budget);
    Swap(k as real, d);
  }

  lemma Regroup(f: nat, p: nat, r: nat)
    ensures f * p * r == (p * r) * f
  {}

  lemma Swap(k: real, d: real)
    ensures k * (1_000_000.0 * d) == 1_000_000.0 * (k * d)
  {}

  lemma CrossReal(kx: real, ky: real, x: real, y: real)
    requires kx > 0.0 && ky > 0.0
    ensures ky * (kx * x) < kx * (ky * y) <==> x < y
  {
    Scale(kx, x, y);
    Scale(ky, kx * x, kx * y);
    assert ky * (kx * y) == kx * (ky * y);
  }

  /** best->p * best->r2 * diff < p * r2 * diff_best. */
  lemma CrossDeviation(freq2k: nat, x: Rnp, y: Rnp)
    requires x.p > 0 && x.r2 > 0 && y.p > 0 && y.r2 > 0
    ensures Span(y) * Off(freq2k, x) < Span(x) * Off(freq2k, y) <==> Deviation(freq2k, x) < Deviation(freq2k, y)
  {
    hide Deviation, Off, Span;
    SpanPositive(x);
    SpanPositive(y);
    ScaledDeviation(freq2k, x);
    ScaledDeviation(freq2k, y);
    Cast(Span(y), Off(freq2k, x));
    Cast(Span(x), Off(freq2k, y));
    CrossReal(Span(x) as real, Span(y) as real, Deviation(freq2k, x), Deviation(freq2k, y));
  }

  lemma SquarePositive(r: nat)
    requires r > 0
    ensures r * r > 0
  {}

  lemma MeritTimes(n: real, k: real)
    requires k > 0.0
    ensures k * (n / k) == n
  {}

  /** n2 * best->r2 * best->r2 > best->n2 * r2 * r2. */
  lemma CrossMerit(x: Rnp, y: Rnp)
    requires x.r2 > 0 && y.r2 > 0
    ensures Crossed(x, y) > Crossed(y, x) <==> Merit(x) > Merit(y)
  {
    var sx, sy := x.r2 * x.r2, y.r2 * y.r2;
    SquarePositive(x.r2);
    SquarePositive(y.r2);
    MeritTimes(x.n2 as real, sx as real);
    MeritTimes(y.n2 as real, sy as real);
    CrossReal(sy as real, sx as real, Merit(y), Merit(x));
    Regroup(x.n2, y.r2, y.r2);
    Regroup(y.n2, x.r2, x.r2);
    Cast(sy, x.n2);
    Cast(sx, y.n2);
  }

  // ----------------------------------------------------------------- the code

  /** hsw_wrpll_get_budget_for_freq. */
  function Budget(clock: int): (budget: nat)
    ensures budget <= 5000
  {
    if clock in {25175000, 25200000, 27000000, 27027000, 37762500, 37800000, 40500000, 40541000, 54000000, 54054000,
                 59341000, 59400000, 72000000, 74176000, 74250000, 81000000, 81081000, 89012000, 89100000, 108000000,
                 108108000, 111264000, 111375000, 148352000, 148500000, 162000000, 162162000, 222525000, 222750000,
                 296703000, 297000000} then 0
    else if clock in {233500000, 245250000, 247750000, 253250000, 298000000} then 1500
    else if clock in {169128000, 169500000, 179500000, 202000000} then 2000
    else if clock in {256250000, 262500000, 270000000, 272500000, 273750000, 280750000, 281250000, 286000000,
      291750000} then 4000
    else if clock in {267250000, 268500000} then 5000
    else 1000
  }

  /** The deviation a clock is allowed, by clocks: none for the standard ones, up
      to half a percent for some others, a thousandth for the rest. */
  lemma BudgetOf(clock: int)
    ensures Budget(clock) in {0, 1000, 1500, 2000, 4000, 5000}
    ensures Budget(clock) == 0 <==>
              || clock in {25_175_000, 25_200_000, 27_000_000, 27_027_000, 37_762_500, 37_800_000, 40_500_000}
              || clock in {40_541_000, 54_000_000, 54_054_000, 59_341_000, 59_400_000, 72_000_000, 74_176_000}
              || clock in {74_250_000, 81_000_000, 81_081_000, 89_012_000, 89_100_000, 108_000_000, 108_108_000}
              || clock in {111_264_000, 111_375_000}
              || clock in {148_352_000, 148_500_000, 162_000_000, 162_162_000, 222_525_000, 222_750_000, 296_703_000}
              || clock == 297_000_000
    ensures Budget(clock) == 1500 <==> clock in {233_500_000, 245_250_000, 247_750_000, 253_250_000, 298_000_000}
    ensures Budget(clock) == 2000 <==> clock in {169_128_000, 169_500_000, 179_500_000, 202_000_000}
    ensures Budget(clock) == 4000 <==>
              || clock in {256_250_000, 262_500_000, 270_000_000, 272_500_000, 273_750_000, 280_750_000, 281_250_000}
              || clock in {286_000_000, 291_750_000}
    ensures Budget(clock) == 5000 <==> clock in {267_250_000, 268_500_000}
  {}

  lemma Product(a: nat, b: nat, highA: nat, highB: nat)
    requires a <= highA && b <= highB
    ensures a * b <= highA * highB
  {
    assert a * b <= highA * b;
    assert highA * b <= highA * highB;
  }

  lemma ThreeFactors(x: nat, p: nat, r: nat, high: nat)
    requires x <= high && p <= 64 && r <= 112
    ensures x * p <= high * 64 && x * p * r <= high * 7168
  {
    Product(x, p, high, 64);
    Product(x * p, r, high * 64, 112);
  }

  // The products the comparison needs all fit, and so do their beginnings: 32
  // bits for the small ones, 64 for those with a frequency in them.

  lemma FitsAllowed(freq2k: nat, budget: nat, c: Rnp)
    requires freq2k <= 21_474_836 && budget <= 5000 && c.p <= 64 && c.r2 <= 112
    ensures freq2k * budget < 0x1_0000_0000_0000_0000 && freq2k * budget * c.p < 0x1_0000_0000_0000_0000
    ensures Allowed(freq2k, budget, c) < 0x1_0000_0000_0000_0000
  {
    Product(freq2k, budget, 21_474_836, 5000);
    ThreeFactors(freq2k * budget, c.p, c.r2, 107_374_180_000);
  }

  lemma FitsOff(freq2k: nat, c: Rnp)
    requires freq2k <= 21_474_836 && c.p <= 64 && c.r2 <= 112 && c.n2 <= 199
    ensures freq2k * c.p * c.r2 < 0x1_0000_0000_0000_0000
    ensures Off(freq2k, c) <= 153_931_624_448 && 1_000_000 * Off(freq2k, c) < 0x1_0000_0000_0000_0000
  {
    hide Off;
    ThreeFactors(freq2k, c.p, c.r2, 21_474_836);
    OffBound(freq2k, c);
  }

  lemma OffBound(freq2k: nat, c: Rnp)
    requires freq2k * c.p * c.r2 <= 153_931_624_448 && c.n2 <= 199
    ensures Off(freq2k, c) <= 153_931_624_448
  {
    hide AbsSubtr64;
    Apart(freq2k * c.p * c.r2, LC_FREQ_2K * c.n2, 153_931_624_448);
  }

  lemma Apart(a: nat, b: nat, high: nat)
    requires a <= high && b <= high
    ensures AbsSubtr64(a, b) <= high
  {}

  lemma FitsSpan(c: Rnp)
    requires c.p <= 64 && c.r2 <= 112
    ensures Span(c) <= 7168
  {
    Product(c.p, c.r2, 64, 112);
  }

  lemma FitsCrossed(x: Rnp, y: Rnp)
    requires x.n2 <= 199 && y.r2 <= 112
    ensures x.n2 * y.r2 < 0x1_0000_0000 && Crossed(x, y) < 0x1_0000_0000
  {
    Product(x.n2, y.r2, 199, 112);
    Product(x.n2 * y.r2, y.r2, 22_288, 112);
  }

  /** hsw_wrpll_update_rnp: keep the better of two, the old one on a tie. No
      product overflows. */
  method UpdateRnp(freq2k: uint64, budget: uint32, r2: uint32, n2: uint32, p: uint32, best: Rnp) returns (next: Rnp)
    requires freq2k <= 21_474_836 && budget <= 5000
    requires Searched(Rnp(p, n2, r2)) && (best.p != 0 ==> Searched(best))
    ensures next == if best.p == 0 || Better(freq2k, budget, Rnp(p, n2, r2), best) then Rnp(p, n2, r2) else best
  {
    hide Deviation, InBudget, Merit, Budget, Allowed, Off, Span, Crossed;
    if best.p == 0 {
      return Rnp(p, n2, r2);
    }
    var new_ := Rnp(p, n2, r2);
    CandidateBounds(new_);
    CandidateBounds(best);
    FitsAllowed(freq2k, budget, new_);
    FitsAllowed(freq2k, budget, best);
    FitsOff(freq2k, new_);
    FitsOff(freq2k, best);
    FitsSpan(new_);
    FitsSpan(best);
    Product(Span(best), Off(freq2k, new_), 7168, 153_931_624_448);
    Product(Span(new_), Off(freq2k, best), 7168, 153_931_624_448);
    FitsCrossed(new_, best);
    FitsCrossed(best, new_);
    CrossBudget(freq2k, budget, new_);
    CrossBudget(freq2k, budget, best);
    CrossDeviation(freq2k, new_, best);
    CrossMerit(new_, best);

    var a: uint64, b: uint64 := Allowed(freq2k, budget, new_), Allowed(freq2k, budget, best);
    var diff: uint64, diffBest: uint64 := Off(freq2k, new_), Off(freq2k, best);
    var c: uint64, d: uint64 := 1_000_000 * diff, 1_000_000 * diffBest;
    next := best;
    if a < c && b < d {
      var mine: uint64, other: uint64 := Span(best) * diff, Span(new_) * diffBest;
      if mine < other {
        next := new_;
      }
    } else if a >= c && b < d {
      next := new_;
    } else if a >= c && b >= d {
      var mine: uint32, other: uint32 := Crossed(new_, best), Crossed(best, new_);
      if mine > other {
        next := new_;
      }
    }
  }

  // ---------------------------------------------------------------- the search

  /** The search meets x before it gets to (r2, n2, p). */
  predicate Before(x: Rnp, r2: nat, n2: nat, p: nat) {
    x.r2 < r2 || (x.r2 == r2 && (x.n2 < n2 || (x.n2 == n2 && x.p < p)))
  }

  /** The best of everything met so far, and the first of those as good. */
  ghost predicate BestSoFar(freq2k: nat, budget: nat, best: Rnp, r2: nat, n2: nat, p: nat) {
    && (best.p == 0 ==> forall x :: Searched(x) ==> !Before(x, r2, n2, p))
    && (best.p != 0 ==>
          && Searched(best) && Before(best, r2, n2, p)
          && forall x :: Searched(x) && Before(x, r2, n2, p) ==> Rivals(freq2k, budget, best, x))
  }

  ghost predicate Rivals(freq2k: nat, budget: nat, best: Rnp, x: Rnp)
    requires best.p > 0 && best.r2 > 0 && x.p > 0 && x.r2 > 0
  {
    && !Better(freq2k, budget, x, best)
    && (Before(x, best.r2, best.n2, best.p) ==> Better(freq2k, budget, best, x))
  }

  /** Better orders the candidates by how good they are, without cycles. */
  lemma BetterChain(freq2k: nat, budget: nat, x: Rnp, y: Rnp, z: Rnp)
    requires x.p > 0 && x.r2 > 0 && y.p > 0 && y.r2 > 0 && z.p > 0 && z.r2 > 0
    requires Better(freq2k, budget, x, y) && !Better(freq2k, budget, z, y)
    ensures Better(freq2k, budget, x, z) && !Better(freq2k, budget, z, x)
  {
    hide Deviation, Merit, InBudget;
  }

  lemma BetterThanItself(freq2k: nat, budget: nat, x: Rnp)
    requires x.p > 0 && x.r2 > 0
    ensures !Better(freq2k, budget, x, x)
  {
    hide Deviation, Merit, InBudget;
  }

  /** One more candidate. */
  lemma OneMore(freq2k: nat, budget: nat, best: Rnp, next: Rnp, r2: uint32, n2: uint32, p: uint32)
    requires Searched(Rnp(p, n2, r2)) && BestSoFar(freq2k, budget, best, r2, n2, p)
    requires next == if best.p == 0 || Better(freq2k, budget, Rnp(p, n2, r2), best) then Rnp(p, n2, r2) else best
    ensures BestSoFar(freq2k, budget, next, r2, n2, p + P_INC)
  {
    hide Better;
    var new_ := Rnp(p, n2, r2);
    BetterThanItself(freq2k, budget, new_);
    forall x | Searched(x) && Before(x, r2, n2, p + P_INC)
      ensures Rivals(freq2k, budget, next, x)
    {
      assert x == new_ || Before(x, r2, n2, p);
      if x != new_ && next != best {
        assert best.p != 0 && Rivals(freq2k, budget, best, x);
        BetterChain(freq2k, budget, new_, best, x);
      }
    }
  }

  /** hsw_ddi_calculate_wrpll. */
  method Calculate(clock: int) returns (best: Rnp)
    requires 0 <= clock < 0x8000_0000
    // 540 MHz: the LC PLL goes through as it is.
    ensures clock / 100 == 5_400_000 ==> best == Rnp(1, 2, 2)
    ensures clock / 100 != 5_400_000 ==>
      Candidate(best) && forall x :: Candidate(x) ==> Rivals(clock / 100, Budget(clock), best, x)
  {
    hide Better, Budget;
    var freq2k: uint64 := clock / 100;
    var budget: uint32 := Budget(clock);
    if freq2k == 5_400_000 {
      return Rnp(1, 2, 2);
    }
    best := Rnp(0, 0, 0);
    var r2: uint32 := FIRST_R2;
    while r2 <= LAST_R2
      invariant FIRST_R2 <= r2 <= LAST_R2 + 1
      invariant BestSoFar(freq2k, budget, best, r2, 0, 0)
    {
      var n2: uint32 := FirstN2(r2);
      NothingBetween(freq2k, budget, best, r2, 0, n2);
      while n2 <= LastN2(r2)
        invariant FirstN2(r2) <= n2 <= LastN2(r2) + 1
        invariant BestSoFar(freq2k, budget, best, r2, n2, 0)
      {
        var p: uint32 := P_MIN;
        NoSmallP(freq2k, budget, best, r2, n2);
        while p <= P_MAX
          invariant P_MIN <= p <= P_MAX + P_INC && p % P_INC == 0
          invariant BestSoFar(freq2k, budget, best, r2, n2, p)
        {
          var next := UpdateRnp(freq2k, budget, r2, n2, p, best);
          OneMore(freq2k, budget, best, next, r2, n2, p);
          best := next;
          p := p + P_INC;
        }
        RowDone(freq2k, budget, best, r2, n2, p);
        n2 := n2 + 1;
      }
      ColumnDone(freq2k, budget, best, r2, n2);
      r2 := r2 + 1;
    }
    AllMet(freq2k, budget, best, r2);
  }

  /** At the end of the search every candidate has been met. */
  lemma AllMet(freq2k: nat, budget: nat, best: Rnp, r2: nat)
    requires BestSoFar(freq2k, budget, best, r2, 0, 0) && r2 > LAST_R2
    ensures Candidate(best) && forall x :: Candidate(x) ==> Rivals(freq2k, budget, best, x)
  {
    hide Better;
    var first := Rnp(2, FirstN2(FIRST_R2), FIRST_R2);
    assert Searched(first) && Before(first, r2, 0, 0);
    CandidateBounds(best);
    forall x | Candidate(x)
      ensures Rivals(freq2k, budget, best, x)
    {
      CandidateBounds(x);
      assert Before(x, r2, 0, 0);
    }
  }

  lemma NothingBetween(freq2k: nat, budget: nat, best: Rnp, r2: nat, n2: nat, first: nat)
    requires BestSoFar(freq2k, budget, best, r2, n2, 0) && first == FirstN2(r2) && n2 == 0
    ensures BestSoFar(freq2k, budget, best, r2, first, 0)
  {
    hide Better;
    assert forall x :: Searched(x) ==> (Before(x, r2, first, 0) <==> Before(x, r2, 0, 0));
  }

  lemma NoSmallP(freq2k: nat, budget: nat, best: Rnp, r2: nat, n2: nat)
    requires BestSoFar(freq2k, budget, best, r2, n2, 0)
    ensures BestSoFar(freq2k, budget, best, r2, n2, P_MIN)
  {
    hide Better;
    assert forall x :: Searched(x) ==> (Before(x, r2, n2, P_MIN) <==> Before(x, r2, n2, 0));
  }

  lemma RowDone(freq2k: nat, budget: nat, best: Rnp, r2: nat, n2: nat, p: nat)
    requires BestSoFar(freq2k, budget, best, r2, n2, p) && p > P_MAX
    ensures BestSoFar(freq2k, budget, best, r2, n2 + 1, 0)
  {
    hide Better;
    assert forall x :: Searched(x) ==> (Before(x, r2, n2 + 1, 0) <==> Before(x, r2, n2, p));
  }

  lemma ColumnDone(freq2k: nat, budget: nat, best: Rnp, r2: nat, n2: nat)
    requires BestSoFar(freq2k, budget, best, r2, n2, 0) && n2 > LastN2(r2)
    ensures BestSoFar(freq2k, budget, best, r2 + 1, 0, 0)
  {
    hide Better;
    assert forall x :: Searched(x) ==> (Before(x, r2 + 1, 0, 0) <==> Before(x, r2, n2, 0));
  }

  /** What the search promises, in words: within budget whenever that can be, and
      then with the most merit there is; otherwise with the least deviation. */
  lemma Optimal(freq2k: nat, budget: nat, best: Rnp)
    requires Candidate(best) && forall x :: Candidate(x) ==> Rivals(freq2k, budget, best, x)
    ensures (exists x :: Candidate(x) && InBudget(freq2k, budget, x)) ==> InBudget(freq2k, budget, best)
    ensures InBudget(freq2k, budget, best) ==>
              forall x :: Candidate(x) && InBudget(freq2k, budget, x) ==> Merit(x) <= Merit(best)
    ensures !InBudget(freq2k, budget, best) ==> forall x :: Candidate(x) ==>
            Deviation(freq2k, best) <= Deviation(freq2k, x)
  {
    hide Deviation, Merit, InBudget;
    forall x | Candidate(x)
      ensures !Better(freq2k, budget, x, best)
    {
      assert Rivals(freq2k, budget, best, x);
    }
  }
}
