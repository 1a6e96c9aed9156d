/** display/pll.cpp, Skylake: the choice of a divider that puts the DCO close to
    one of three central frequencies, the split of that divider over three
    counters, and the DCO's ratio to the reference clock in fixed point. */
module SklPll {
  import opened Machine

  const CENTRAL: seq<uint64> := [8_400_000_000, 9_000_000_000, 9_600_000_000]
  const EVEN: seq<uint32> := [
    4, 6, 8, 10, 12, 14, 16, 18, 20, 24, 28, 30, 32, 36, 40, 42, 44, 48, 52, 54, 56, 60, 64, 66, 68,
    70, 72, 76, 78, 80, 84, 88, 90, 92, 96, 98]
  const ODD: seq<uint32> := [3, 5, 7, 9, 15, 21, 35]

  /** In hundredths of a percent, above and below a central frequency. */
  const MAX_PDEVIATION := 100
  const MAX_NDEVIATION := 600

  /** struct skl_wrpll_context; p == 0 stands for nothing found. */
  datatype Context = Context(minDeviation: uint64, central: uint64, dco: uint64, p: uint32)

  const NOTHING := Context(0xffff_ffff_ffff_ffff, 0, 0, 0)

  /** struct skl_wrpll_params. A code that is not assigned is None. */
  datatype Params = Params(
    central: nat, pdiv: Option<nat>, kdiv: Option<nat>, qdivRatio: uint32, qdivMode: nat, dcoInteger: uint32,
      dcoFraction: uint32)

  // --------------------------------------------------------------- deviations

  function AbsSubtr64(a: nat, b: nat): nat {
    if a >= b then a - b else b - a
  }

  function Deviation(central: uint64, dco: uint64): nat
    requires central > 0
  {
    10_000 * AbsSubtr64(dco, central) / central
  }

  /** Less than one percent above, or less than six below. */
  predicate InWindow(central: uint64, dco: uint64)
    requires central > 0
  {
    if dco >= central then 100 * (dco - central) < central else 100 * (central - dco) < 6 * central
  }

  /** The code compares the rounded deviation; that makes no difference. */
  lemma RoundedWindow(central: uint64, dco: uint64)
    requires central > 0
    ensures InWindow(central, dco) <==>
            Deviation(central, dco) < if dco >= central then MAX_PDEVIATION else MAX_NDEVIATION
  {
    FloorBelow(10_000 * AbsSubtr64(dco, central), central, if dco >= central then MAX_PDEVIATION else MAX_NDEVIATION);
  }

  lemma FloorBelow(a: nat, b: nat, n: nat)
    requires b > 0
    ensures a / b < n <==> a < n * b
  {
    if a / b < n {
      assert a < (a / b + 1) * b;
      assert (a / b + 1) * b <= n * b;
    } else {
      assert n * b <= (a / b) * b <= a;
    }
  }

  /** skl_wrpll_try_divider. */
  method TryDivider(ctx: Context, central: uint64, dco: uint64, divider: uint32) returns (next: Context)
    requires central in CENTRAL && dco < 0x200_0000_0000
    ensures next == if InWindow(central, dco) && Deviation(central, dco) < ctx.minDeviation
                      then Context(Deviation(central, dco), central, dco, divider) else ctx
  {
    RoundedWindow(central, dco);
    var scaled: uint64 := 10_000 * AbsSubtr64(dco, central);
    var deviation: uint64 := scaled / central;
    next := ctx;
    if dco >= central {
      if deviation < MAX_PDEVIATION && deviation < ctx.minDeviation {
        next := Context(deviation, central, dco, divider);
      }
    } else if deviation < MAX_NDEVIATION && deviation < ctx.minDeviation {
      next := Context(deviation, central, dco, divider);
    }
  }

  // ---------------------------------------------------------------- the search

  /** Option (j, i): the j-th central frequency with the i-th divider of a list. */
  predicate Fits(list: seq<uint32>, afe: nat, j: nat, i: nat) {
    && j < |CENTRAL| && i < |list| && list[i] * afe < 0x1_0000_0000_0000_0000
    && InWindow(CENTRAL[j], list[i] * afe)
  }

  function Off(list: seq<uint32>, afe: nat, j: nat, i: nat): nat
    requires Fits(list, afe, j, i)
  {
    Deviation(CENTRAL[j], list[i] * afe)
  }

  /** The search gets to (j, i) before (m, n). */
  predicate Before(j: nat, i: nat, m: nat, n: nat) {
    j < m || (j == m && i < n)
  }

  /** Nothing if no option so far fits; or the one with the least deviation, the
      first of those with the same. */
  ghost predicate BestOf(list: seq<uint32>, afe: nat, ctx: Context, m: nat, n: nat) {
    if ctx.p == 0 then
      ctx == NOTHING && forall j, i :: Before(j, i, m, n) ==> !Fits(list, afe, j, i)
    else
      exists j, i :: Before(j, i, m, n) && Chosen(list, afe, ctx, j, i)
                     && forall k, l :: Before(k, l, m, n) && Fits(list, afe, k, l) ==> Beats(list, afe, j, i, k, l)
  }

  predicate Chosen(list: seq<uint32>, afe: nat, ctx: Context, j: nat, i: nat) {
    Fits(list, afe, j, i) && ctx == Context(Off(list, afe, j, i), CENTRAL[j], list[i] * afe, list[i])
  }

  predicate Beats(list: seq<uint32>, afe: nat, j: nat, i: nat, k: nat, l: nat)
    requires Fits(list, afe, j, i) && Fits(list, afe, k, l)
  {
    Off(list, afe, j, i) <= Off(list, afe, k, l) && (Before(k, l, j, i) ==> Off(list, afe, j, i) < Off(list, afe, k, l))
  }

  /** The whole list. */
  ghost predicate Best(list: seq<uint32>, afe: nat, ctx: Context) {
    BestOf(list, afe, ctx, |CENTRAL|, 0)
  }

  predicate Dividers(list: seq<uint32>) {
    forall i :: 0 <= i < |list| ==> 0 < list[i] < 100
  }

  lemma Step(list: seq<uint32>, afe: nat, ctx: Context, next: Context, j: nat, i: nat)
    requires BestOf(list, afe, ctx, j, i) && j < |CENTRAL| && i < |list| && list[i] > 0
    requires list[i] * afe < 0x1_0000_0000_0000_0000
    requires next == if InWindow(CENTRAL[j], list[i] * afe) && Deviation(CENTRAL[j], list[i] * afe) < ctx.minDeviation
                       then Context(Deviation(CENTRAL[j], list[i] * afe), CENTRAL[j], list[i] * afe, list[i]) else ctx
    ensures BestOf(list, afe, next, j, i + 1)
  {
    RoundedWindow(CENTRAL[j], list[i] * afe);
    StepFor(list, afe, ctx, next, j, i);
  }

  lemma StepFor(list: seq<uint32>, afe: nat, ctx: Context, next: Context, j: nat, i: nat)
    requires BestOf(list, afe, ctx, j, i) && j < |CENTRAL| && i < |list| && list[i] > 0
    requires list[i] * afe < 0x1_0000_0000_0000_0000
    requires InWindow(CENTRAL[j], list[i] * afe) ==> Deviation(CENTRAL[j], list[i] * afe) < MAX_NDEVIATION
    requires next == if InWindow(CENTRAL[j], list[i] * afe) && Deviation(CENTRAL[j], list[i] * afe) < ctx.minDeviation
                       then Context(Deviation(CENTRAL[j], list[i] * afe), CENTRAL[j], list[i] * afe, list[i]) else ctx
    ensures BestOf(list, afe, next, j, i + 1)
  {
    hide Deviation, InWindow;
    if next != ctx {
      assert Chosen(list, afe, next, j, i) && Before(j, i, j, i + 1);
    } else if ctx.p != 0 {
      var m, n :| Before(m, n, j, i) && Chosen(list, afe, ctx, m, n)
                  && forall k, l :: Before(k, l, j, i) && Fits(list, afe, k, l) ==> Beats(list, afe, m, n, k, l);
      assert Before(m, n, j, i + 1);
    }
  }

  /** A deviation of zero cannot be improved: the rest of the list can be left. */
  lemma ZeroIsBest(list: seq<uint32>, afe: nat, ctx: Context, m: nat, n: nat)
    requires BestOf(list, afe, ctx, m, n) && ctx.minDeviation == 0
    ensures Best(list, afe, ctx)
  {
    hide Deviation, InWindow;
    var j, i :| Before(j, i, m, n) && Chosen(list, afe, ctx, j, i)
                && forall k, l :: Before(k, l, m, n) && Fits(list, afe, k, l) ==> Beats(list, afe, j, i, k, l);
    assert Before(j, i, |CENTRAL|, 0);
  }

  /** The two inner loops. */
  method Search(list: seq<uint32>, afe: uint64) returns (ctx: Context)
    requires Dividers(list) && afe < 0x3_0000_0000
    ensures Best(list, afe, ctx)
  {
    hide Deviation, InWindow, BestOf;
    ctx := NOTHING;
    Nothing(list, afe);
    for dco := 0 to |CENTRAL|
      invariant BestOf(list, afe, ctx, dco, 0)
    {
      for i := 0 to |list|
        invariant BestOf(list, afe, ctx, dco, i)
      {
        var p := list[i];
        var dcoFreq: uint64 := p * afe;
        var next := TryDivider(ctx, CENTRAL[dco], dcoFreq, p);
        Step(list, afe, ctx, next, dco, i);
        ctx := next;
        if ctx.minDeviation == 0 {
          ZeroIsBest(list, afe, ctx, dco, i + 1);
          return;
        }
      }
      RowDone(list, afe, ctx, dco);
    }
  }

  lemma Nothing(list: seq<uint32>, afe: nat)
    ensures BestOf(list, afe, NOTHING, 0, 0)
  {}

  lemma RowDone(list: seq<uint32>, afe: nat, ctx: Context, m: nat)
    requires BestOf(list, afe, ctx, m, |list|)
    ensures BestOf(list, afe, ctx, m + 1, 0)
  {
    hide Deviation, InWindow;
    assert forall j, i :: Fits(list, afe, j, i) ==> (Before(j, i, m + 1, 0) <==> Before(j, i, m, |list|));
    if ctx.p != 0 {
      var j, i :| Before(j, i, m, |list|) && Chosen(list, afe, ctx, j, i)
                  && forall k, l :: Before(k, l, m, |list|) && Fits(list, afe, k, l) ==> Beats(list, afe, j, i, k, l);
      assert Before(j, i, m + 1, 0);
    }
  }

  // -------------------------------------------------------------- multipliers

  /** The dividers three counters can make up between them. */
  predicate Divisible(p: nat) {
    if p % 2 == 0 then
      var half := p / 2;
      half == 1 || half == 3 || half == 5 || half % 2 == 0 || half % 3 == 0 || half % 7 == 0
    else p == 3 || p == 5 || p == 7 || p == 9 || p == 15 || p == 21 || p == 35
  }

  /** skl_wrpll_get_multipliers, called with all three at zero: the divider comes
      apart exactly when it can, and the middle counter is only used with the
      last at two. */
  method GetMultipliers(p: uint32) returns (p0: uint32, p1: uint32, p2: uint32)
    ensures p0 * p1 * p2 == p <==> Divisible(p)
    ensures Divisible(p) ==> p0 in {2, 3, 5, 7} && p2 in {1, 2, 3, 5} && (p1 != 1 ==> p2 == 2)
    ensures Divisible(p) && p > 0 ==> p1 > 0
    ensures p0 == 5 && Divisible(p) ==> p == 5
  {
    p0, p1, p2 := 0, 0, 0;
    if p % 2 == 0 {
      var half := p / 2;
      if half == 1 || half == 2 || half == 3 || half == 5 {
        p0, p1, p2 := 2, 1, half;
      } else if half % 2 == 0 {
        p0, p1, p2 := 2, half / 2, 2;
      } else if half % 3 == 0 {
        p0, p1, p2 := 3, half / 3, 2;
      } else if half % 7 == 0 {
        p0, p1, p2 := 7, half / 7, 2;
      }
    } else if p == 3 || p == 9 {
      p0, p1, p2 := 3, 1, p / 3;
    } else if p == 5 || p == 7 {
      p0, p1, p2 := p, 1, 1;
    } else if p == 15 {
      p0, p1, p2 := 3, 1, 5;
    } else if p == 21 {
      p0, p1, p2 := 7, 1, 3;
    } else if p == 35 {
      p0, p1, p2 := 7, 1, 5;
    }
  }

  /** The halves of the even dividers that are not listed. */
  const GAPS: set<nat> := {11, 13, 17, 19, 23, 25, 29, 31, 37, 41, 43, 47}

  /** They are those with no factor two, three or seven, five itself apart. */
  lemma GapAt(half: nat)
    requires 2 <= half < 50
    ensures half in GAPS <==> !Divisible(2 * half)
  {
    var q := half / 6;
    assert half == 6 * q + half % 6 && q < 9;
    assert half % 2 == 0 || half % 3 == 0 || half == 6 * q + 1 || half == 6 * q + 5;
  }

  lemma EvenFrom(i: nat)
    requires i < |EVEN|
    ensures EVEN[i] % 2 == 0 && 4 <= EVEN[i] < 100 && EVEN[i] / 2 !in GAPS
  {}

  lemma SmallListed(half: nat)
    requires 2 <= half < 27 && half !in GAPS
    ensures 2 * half in EVEN
  {
    assert EVEN[0] == 4 && EVEN[1] == 6 && EVEN[2] == 8 && EVEN[3] == 10 && EVEN[4] == 12 && EVEN[5] == 14;
    assert EVEN[6] == 16 && EVEN[7] == 18 && EVEN[8] == 20 && EVEN[9] == 24 && EVEN[10] == 28 && EVEN[11] == 30;
    assert EVEN[12] == 32 && EVEN[13] == 36 && EVEN[14] == 40 && EVEN[15] == 42 && EVEN[16] == 44 && EVEN[17] == 48;
    assert EVEN[18] == 52 && EVEN[19] == 54;
  }

  lemma LargeListed(half: nat)
    requires 27 <= half < 50 && half !in GAPS
    ensures 2 * half in EVEN
  {
    assert EVEN[19] == 54 && EVEN[20] == 56 && EVEN[21] == 60 && EVEN[22] == 64 && EVEN[23] == 66 && EVEN[24] == 68;
    assert EVEN[25] == 70 && EVEN[26] == 72 && EVEN[27] == 76 && EVEN[28] == 78 && EVEN[29] == 80 && EVEN[30] == 84;
    assert EVEN[31] == 88 && EVEN[32] == 90 && EVEN[33] == 92 && EVEN[34] == 96 && EVEN[35] == 98;
  }

  /** The lists leave out nothing: every even divider from 4 on and below a hundred
      that comes apart is on the one, every odd one on the other. */
  lemma EvenComplete(p: nat)
    ensures p in EVEN <==> p % 2 == 0 && 4 <= p < 100 && Divisible(p)
  {
    hide Divisible;
    if p % 2 == 0 && 4 <= p < 100 {
      GapAt(p / 2);
      if p / 2 !in GAPS {
        if p < 54 {
          SmallListed(p / 2);
        } else {
          LargeListed(p / 2);
        }
      }
    }
    if p in EVEN {
      var i :| 0 <= i < |EVEN| && EVEN[i] == p;
      EvenFrom(i);
    }
  }

  lemma OddComplete(p: nat)
    ensures p in ODD <==> p % 2 == 1 && Divisible(p)
  {
    assert forall i :: 0 <= i < |ODD| ==> ODD[i] in {3, 5, 7, 9, 15, 21, 35};
    assert ODD[0] == 3 && ODD[1] == 5 && ODD[2] == 7 && ODD[3] == 9 && ODD[4] == 15 && ODD[5] == 21 && ODD[6] == 35;
  }

  lemma EvenDivisible(i: nat)
    requires i < |EVEN|
    ensures Divisible(EVEN[i]) && 0 < EVEN[i] < 100
  {}

  lemma OddDivisible(i: nat)
    requires i < |ODD|
    ensures Divisible(ODD[i]) && 0 < ODD[i] < 100
  {}

  // ------------------------------------------------------------------- the ratio

  function DcoInteger(dco: nat, ref: nat): nat
    requires ref >= 1000
  {
    dco / (ref * 1000)
  }

  function DcoFraction(dco: nat, ref: nat): int
    requires ref >= 1000
  {
    (dco / (ref / 1000) - DcoInteger(dco, ref) * 1_000_000) * 0x8000 / 1_000_000
  }

  /** Integer and fraction together, in units of 2^-15. */
  function Fixed(dco: nat, ref: nat): int
    requires ref >= 1000
  {
    DcoInteger(dco, ref) * 0x8000 + DcoFraction(dco, ref)
  }

  /** The fixed point ratio is at most dco / (ref * 1000), by less than two units. */
  predicate Accurate(dco: nat, ref: nat)
    requires ref >= 1000
  {
    Fixed(dco, ref) * (ref * 1000) <= 0x8000 * dco < (Fixed(dco, ref) + 2) * (ref * 1000)
  }

  lemma DivMod(a: nat, b: nat)
    requires b > 0
    ensures a == b * (a / b) + a % b && 0 <= a % b < b
  {}

  /** The whole part never takes more than there is. */
  lemma FractionPositive(dco: nat, ref: nat)
    requires ref >= 1000
    ensures DcoInteger(dco, ref) * 1_000_000 <= dco / (ref / 1000)
  {
    var k, n := ref / 1000, DcoInteger(dco, ref);
    DivMod(dco, ref * 1000);
    assert n * (ref * 1000) <= dco by { assert n * (ref * 1000) == (ref * 1000) * n; }
    assert k * 1000 <= ref;
    assert (n * 1_000_000) * k <= dco by {
      assert (n * 1_000_000) * k == n * (k * 1_000_000);
      assert n * (k * 1_000_000) <= n * (ref * 1000);
    }
    QuotientAbove(dco, k, n * 1_000_000);
  }

  lemma Monotone(x: nat, y: nat, b: nat)
    ensures x <= y ==> x * b <= y * b
  {}

  lemma QuotientAbove(a: nat, b: nat, q: nat)
    requires b > 0 && q * b <= a
    ensures q <= a / b
  {
    DivMod(a, b);
    Monotone(a / b + 1, q, b);
    assert (a / b + 1) * b > a;
  }

  /** Written out: with m = dco / k, k the reference in whole MHz, the fixed point
      value is 0x8000 * m / 1000000 short of g millionths of a unit. */
  lemma FixedIs(dco: nat, ref: nat) returns (m: nat, g: nat)
    requires ref >= 1000
    ensures m == dco / (ref / 1000) && g < 1_000_000 && Fixed(dco, ref) >= 0
    ensures Fixed(dco, ref) * 1_000_000 == 0x8000 * m - g
  {
    FractionPositive(dco, ref);
    m := dco / (ref / 1000);
    var f := m - DcoInteger(dco, ref) * 1_000_000;
    DivMod(f * 0x8000, 1_000_000);
    g := f * 0x8000 % 1_000_000;
  }

  lemma Distribute(k: nat, m: nat, g: nat)
    ensures k * (0x8000 * m - g) == 0x8000 * (k * m) - k * g
  {}

  lemma Rearrange(s: nat, k: nat)
    ensures s * (k * 1_000_000) == k * (s * 1_000_000)
  {}

  lemma Below(k: nat, g: nat, high: nat)
    requires g <= high
    ensures 0 <= k * g <= k * high
  {}

  /** The fixed point value times k million is this much off 0x8000 * dco. */
  lemma FixedTimes(dco: nat, k: nat, m: nat, r: nat, s: nat, g: nat)
    requires dco == k * m + r && s * 1_000_000 == 0x8000 * m - g
    ensures s * (k * 1_000_000) == 0x8000 * dco - 0x8000 * r - k * g
  {
    Distribute(k, m, g);
    Rearrange(s, k);
  }

  /** For a reference of whole MHz the ratio is right to two units. */
  lemma AccurateWhole(dco: nat, ref: nat)
    requires ref >= 1000 && ref % 1000 == 0
    ensures Accurate(dco, ref)
  {
    hide Fixed;
    var m, g := FixedIs(dco, ref);
    DivMod(dco, ref / 1000);
    WholeCore(dco, ref / 1000, m, dco % (ref / 1000), Fixed(dco, ref), g);
    assert ref * 1000 == ref / 1000 * 1_000_000;
  }

  lemma WholeCore(dco: nat, k: nat, m: nat, r: nat, s: nat, g: nat)
    requires dco == k * m + r && r < k && g < 1_000_000 && s * 1_000_000 == 0x8000 * m - g
    ensures s * (k * 1_000_000) <= 0x8000 * dco < (s + 2) * (k * 1_000_000)
  {
    FixedTimes(dco, k, m, r, s, g);
    Below(k, g, 1_000_000);
    TwoMore(s, k * 1_000_000);
  }

  lemma TwoMore(s: nat, t: nat)
    ensures (s + 2) * t == s * t + 2 * t
  {}

  /** For any other reference the division by whole MHz puts it above. */
  lemma InaccurateOtherwise(dco: nat, ref: nat)
    requires 1000 <= ref < 400_000 && ref % 1000 != 0 && dco >= 7_896_000_000
    ensures !Accurate(dco, ref)
  {
    hide Fixed;
    var m, g := FixedIs(dco, ref);
    DivMod(dco, ref / 1000);
    var t := ref / 1000 * 1_000_000 + 1000 * (ref % 1000);
    OtherCore(dco, ref / 1000, ref % 1000, m, dco % (ref / 1000), Fixed(dco, ref), g);
    assert ref * 1000 == t;
  }

  lemma OtherCore(dco: nat, k: nat, e: nat, m: nat, r: nat, s: nat, g: nat)
    requires dco == k * m + r && r < k < 400 && g < 1_000_000 && s * 1_000_000 == 0x8000 * m - g
    requires e > 0 && dco >= 7_896_000_000
    ensures s * (k * 1_000_000 + 1000 * e) > 0x8000 * dco
  {
    FixedTimes(dco, k, m, r, s, g);
    Below(k, g, 1_000_000);
    Below(m, k, 400);
    assert m >= 19_700_000;
    assert s >= 640_000;
    Below(s, 1, e);
    SplitTimes(s, k * 1_000_000, e);
  }

  lemma SplitTimes(s: nat, t: nat, e: nat)
    ensures s * (t + 1000 * e) == s * t + 1000 * (s * e)
  {}

  /** So a caller gets an accurate ratio exactly for whole MHz; 19.2 MHz, say, is
      not one of those. */
  lemma AccuracyOfRatio(dco: nat, ref: nat)
    requires 1000 <= ref < 400_000 && dco >= 7_896_000_000
    ensures Accurate(dco, ref) <==> ref % 1000 == 0
  {
    if ref % 1000 == 0 {
      AccurateWhole(dco, ref);
    } else {
      InaccurateOtherwise(dco, ref);
    }
  }

  lemma RatioAt19200(dco: nat)
    requires dco >= 7_896_000_000
    ensures !Accurate(dco, 19_200)
  {
    InaccurateOtherwise(dco, 19_200);
  }

  // ------------------------------------------------------------ the parameters

  // What the hardware makes of the codes.

  function PdivValue(code: nat): nat {
    if code == 0 then 1 else if code == 1 then 2 else if code == 2 then 3 else if code == 4 then 7 else 0
  }

  function KdivValue(code: nat): nat {
    if code == 0 then 5 else if code == 1 then 2 else if code == 2 then 3 else if code == 3 then 1 else 0
  }

  function CentralValue(code: nat): nat {
    if code == 0 then 9_600_000_000 else if code == 1 then 9_000_000_000 else if code == 3 then 8_400_000_000 else 0
  }

  /** A DCO frequency inside one of the windows. */
  predicate NearCentral(dco: nat) {
    7_896_000_000 <= dco < 9_696_000_000
  }

  /** skl_wrpll_params_populate: every code stands for what it encodes, and the
      ratio loses nothing on the way into 32 bits. Below 1000 kHz of reference
      the code divides by zero. */
  method Populate(dco: uint64, ref: nat, central: uint64, p0: uint32, p1: uint32, p2: uint32) returns (params: Params)
    requires ref >= 1000 && central in CENTRAL && NearCentral(dco)
    ensures CentralValue(params.central) == central
    ensures params.pdiv.Some? <==> p0 in {1, 2, 3, 7}
    ensures params.kdiv.Some? <==> p2 in {1, 2, 3, 5}
    ensures params.pdiv.Some? ==> PdivValue(params.pdiv.value) == p0
    ensures params.kdiv.Some? ==> KdivValue(params.kdiv.value) == p2
    ensures params.qdivRatio == p1 && (params.qdivMode == 0 <==> p1 == 1)
    ensures params.dcoInteger * 0x8000 + params.dcoFraction == Fixed(dco, ref)
  {
    var centralCode := if central == 9_600_000_000 then 0 else if central == 9_000_000_000 then 1 else 3;
    var pdiv := match p0 case 1 => Some(0) case 2 => Some(1) case 3 => Some(2) case 7 => Some(4) case _ => None;
    var kdiv := match p2 case 5 => Some(0) case 2 => Some(1) case 3 => Some(2) case 1 => Some(3) case _ => None;
    var mode := if p1 == 1 then 0 else 1;
    FractionPositive(dco, ref);
    SmallRatio(dco, ref);
    var integer: uint32 := dco / (ref * 1000);
    var fraction: uint32 := (dco / (ref / 1000) - integer * 1_000_000) * 0x8000 / 1_000_000;
    params := Params(centralCode, pdiv, kdiv, p1, mode, integer, fraction);
  }

  lemma SmallRatio(dco: nat, ref: nat)
    requires ref >= 1000 && dco < 9_696_000_000
    ensures DcoInteger(dco, ref) < 0x1_0000_0000 && 0 <= DcoFraction(dco, ref) < 0x1_0000_0000
  {
    FractionPositive(dco, ref);
    Quotient(dco, ref / 1000);
    SmallFraction(dco / (ref / 1000) - DcoInteger(dco, ref) * 1_000_000);
    SmallInteger(dco, ref * 1000, DcoInteger(dco, ref));
  }

  lemma SmallInteger(dco: nat, r: nat, n: nat)
    requires r >= 1_000_000 && n == dco / r
    ensures n * 1_000_000 <= dco
  {
    DivMod(dco, r);
    Below(n, 1_000_000, r);
  }

  lemma Quotient(a: nat, b: nat)
    requires b > 0
    ensures 0 <= a / b <= a
  {
    DivMod(a, b);
    Below(a / b, 1, b);
  }

  lemma SmallFraction(f: nat)
    requires f < 9_696_000_000
    ensures 0 <= f * 0x8000 / 1_000_000 < 0x1_0000_0000
  {}

  ghost predicate AnyFits(list: seq<uint32>, afe: nat) {
    exists j, i :: Fits(list, afe, j, i)
  }

  /** skl_ddi_calculate_wrpll: it succeeds exactly when a listed divider puts the
      DCO into a window, prefers any even one to all odd ones, and of those the
      least deviation; the counters multiply to that divider, unless it is five,
      for which pdiv is left unassigned; and the ratio is accurate exactly for a
      reference of whole MHz. */
  method Calculate(clock: int, ref: nat) returns (ok: bool, params: Option<Params>, ghost ctx: Context)
    requires 0 <= clock < 0x8000_0000 && ref >= 1000
    ensures ok <==> AnyFits(EVEN, clock * 5) || AnyFits(ODD, clock * 5)
    ensures ok <==> params.Some?
    ensures ok ==> ctx.p != 0 && Best(if AnyFits(EVEN, clock * 5) then EVEN else ODD, clock * 5, ctx)
    ensures ok ==>
      && var r := params.value;
         && CentralValue(r.central) == ctx.central && r.kdiv.Some?
         && ctx.central in {8_400_000_000, 9_000_000_000, 9_600_000_000}
         && (r.pdiv.None? <==> ctx.p == 5) && (r.pdiv.None? <==> 323_200_000 <= clock < 387_840_000)
         && (r.pdiv.Some? ==> PdivValue(r.pdiv.value) * r.qdivRatio * KdivValue(r.kdiv.value) == ctx.p)
         && (r.qdivRatio != 1 ==> KdivValue(r.kdiv.value) == 2)
         && r.dcoInteger * 0x8000 + r.dcoFraction == Fixed(ctx.dco, ref)
         && (ref < 400_000 ==> (Accurate(ctx.dco, ref) <==> ref % 1000 == 0))
  {
    hide Best, Fixed, Accurate, Divisible, Fits;
    var afe: uint64 := clock * 5;
    Lists();
    var found := Search(EVEN, afe);
    FoundAny(EVEN, afe, found);
    if found.p == 0 {
      found := Search(ODD, afe);
      FoundAny(ODD, afe, found);
    }
    ctx := found;
    if found.p == 0 {
      return false, None, ctx;
    }
    OnlyFive(clock, found);
    var p0, p1, p2 := GetMultipliers(found.p);
    var populated := Populate(found.dco, ref, found.central, p0, p1, p2);
    if ref < 400_000 {
      AccuracyOfRatio(found.dco, ref);
    }
    return true, Some(populated), ctx;
  }

  /** The three windows meet. */
  lemma AllWindows(list: seq<uint32>, afe: nat, i: nat)
    requires i < |list| && list[i] * afe < 0x1_0000_0000_0000_0000
    ensures (exists j :: Fits(list, afe, j, i)) <==> 7_896_000_000 < list[i] * afe < 9_696_000_000
  {
    var dco := list[i] * afe;
    if 7_896_000_000 < dco < 9_696_000_000 {
      var j := if dco < 8_484_000_000 then 0 else if dco < 9_090_000_000 then 1 else 2;
      assert Fits(list, afe, j, i);
    }
  }

  lemma OutOfRange(i: nat, afe: nat)
    requires i < |EVEN| && 1_616_000_000 <= afe < 1_939_200_000
    ensures !(7_896_000_000 < EVEN[i] * afe < 9_696_000_000)
  {
    if i > 0 {
      assert EVEN[i] >= 6;
      Monotone(6, EVEN[i], afe);
    }
  }

  lemma OddInRange(i: nat, afe: nat)
    requires i < |ODD| && 1_616_000_000 <= afe < 1_939_200_000
    ensures 7_896_000_000 < ODD[i] * afe < 9_696_000_000 <==> i == 1
  {
    if i > 1 {
      assert ODD[i] >= 7;
      Monotone(7, ODD[i], afe);
    }
  }

  /** The odd divider five is what a caller gets exactly for these clocks. */
  lemma OnlyFive(clock: nat, ctx: Context)
    requires clock < 0x8000_0000 && ctx.p != 0
    requires Best(if AnyFits(EVEN, clock * 5) then EVEN else ODD, clock * 5, ctx)
    ensures ctx.p == 5 <==> 323_200_000 <= clock < 387_840_000
  {
    hide InWindow, Deviation, Beats;
    var afe := clock * 5;
    var list := if AnyFits(EVEN, afe) then EVEN else ODD;
    var j: nat, i: nat :| Before(j, i, |CENTRAL|, 0) && Chosen(list, afe, ctx, j, i);
    AllWindows(list, afe, i);
    if 323_200_000 <= clock < 387_840_000 {
      forall k: nat, l: nat
        ensures !Fits(EVEN, afe, k, l)
      {
        if l < |EVEN| {
          OutOfRange(l, afe);
          EvenDivisible(l);
          Monotone(EVEN[l], 100, afe);
          AllWindows(EVEN, afe, l);
        }
      }
      OddInRange(i, afe);
    }
    if ctx.p == 5 {
      NoFive(i);
      AllWindows(EVEN, afe, 1);
      assert forall k :: !Fits(EVEN, afe, k, 1);
    }
  }

  lemma NoFive(i: nat)
    ensures i < |EVEN| ==> EVEN[i] != 5
  {}

  lemma Lists()
    ensures Dividers(EVEN) && Dividers(ODD)
  {
    hide Divisible;
    forall i | 0 <= i < |EVEN|
      ensures 0 < EVEN[i] < 100
    {
      EvenDivisible(i);
    }
    forall i | 0 <= i < |ODD|
      ensures 0 < ODD[i] < 100
    {
      OddDivisible(i);
    }
  }

  /** What a search's result says about its list. */
  lemma FoundAny(list: seq<uint32>, afe: nat, ctx: Context)
    requires Best(list, afe, ctx) && (list == EVEN || list == ODD)
    ensures ctx.p != 0 <==> AnyFits(list, afe)
    ensures ctx.p != 0 ==> Divisible(ctx.p) && NearCentral(ctx.dco) && ctx.central in CENTRAL
  {
    hide Deviation, InWindow, Divisible;
    if ctx.p == 0 {
      forall j: nat, i: nat
        ensures !Fits(list, afe, j, i)
      {
        assert Fits(list, afe, j, i) ==> Before(j, i, |CENTRAL|, 0);
      }
    } else {
      var j: nat, i: nat :| Before(j, i, |CENTRAL|, 0) && Chosen(list, afe, ctx, j, i);
      Window(CENTRAL[j], list[i] * afe);
      if list == EVEN {
        EvenDivisible(i);
      } else {
        OddDivisible(i);
      }
    }
  }

  lemma Window(central: uint64, dco: uint64)
    requires central in CENTRAL && InWindow(central, dco)
    ensures NearCentral(dco)
  {}
}
