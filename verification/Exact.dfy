/** When big_mod is exact: a condition on the numbers it is given, met if and only if
    no correction pass meets a zero limb with a borrow pending. */
module Exact {
  import opened Bytes
  import opened BigNum
  import opened Division
  import opened ModPow

  //////////////////////////////////////////////////////////////////////////
  // One pass.
  //////////////////////////////////////////////////////////////////////////

  /** No borrow of the pass meets a zero limb. */
  predicate DropsNone(w: Window, m: Limbs)
    requires |w.low| == |m|
  {
    forall i :: 0 <= i < |m| ==> !Dropped(PassRow(w.low, m, i).carry, w.low[i])
  }

  /** Losses are exactly the borrows that meet a zero limb. */
  lemma {:induction false} LossIff(w: Limbs, m: Limbs, j: nat)
    requires j <= |w| && j <= |m|
    ensures PassLoss(w, m, j) == 0 <==> forall i :: 0 <= i < j ==> !Dropped(PassRow(w, m, i).carry, w[i])
  {
    if j > 0 {
      LossIff(w, m, j - 1);
    }
  }

  /** Below every zero limb among the first j, the number is no smaller than the modulus. */
  predicate Clear(u: Limbs, m: Limbs, j: nat)
    requires j <= |u| && j <= |m|
  {
    forall i :: 0 <= i < j && u[i] == 0 ==> Val(u[..i]) >= Val(m[..i])
  }

  /** A borrow is pending exactly when the limbs so far are less than the modulus. */
  lemma {:induction false} Pending(w: Limbs, m: Limbs, j: nat)
    requires j <= |w| && j <= |m| && PassLoss(w, m, j) == 0
    ensures PassRow(w, m, j).carry == 1 <==> Val(w[..j]) < Val(m[..j])
  {
    hide Val, Power, PassLoss, PassRow, Times;
    var r := PassRow(w, m, j);
    PassRowValue(w, m, j);
    ValBound(r.limbs);
    ValBound(m[..j]);
    TimesSmall(Power(j));
  }

  lemma {:induction false} ClearIff(w: Limbs, m: Limbs, j: nat)
    requires j <= |w| && j <= |m|
    ensures PassLoss(w, m, j) == 0 <==> Clear(w, m, j)
  {
    hide Val, PassRow;
    if j > 0 {
      ClearIff(w, m, j - 1);
      if PassLoss(w, m, j - 1) == 0 {
        Pending(w, m, j - 1);
      }
    }
  }

  /** What decides on a pass before it is made. */
  lemma DropsNoneIff(w: Window, m: Limbs)
    requires |w.low| == |m|
    ensures Loss(w, m) == 0 <==> DropsNone(w, m)
    ensures DropsNone(w, m) <==> Clear(w.low, m, |m|)
  {
    hide Clear, PassLoss, PassRow;
    LossIff(w.low, m, |m|);
    ClearIff(w.low, m, |m|);
  }

  //////////////////////////////////////////////////////////////////////////
  // One digit.
  //////////////////////////////////////////////////////////////////////////

  /** How many passes of the correction loop drop a borrow. */
  function CorrectDrops(w: Window, m: Limbs): nat
    requires |w.low| == |m| && Normal(m)
    decreases w.top, Phase(w, m), Room(w, m)
  {
    if !Over(w, m) then 0
    else
      PassProgress(w, m);
      (if DropsNone(w, m) then 0 else 1) + CorrectDrops(Pass(w, m), m)
  }

  /** Every number from which the modulus is going to be subtracted is clear. */
  predicate ClearDown(u: nat, m: Limbs)
    requires Val(m) > 0
    decreases u
  {
    u < Val(m) || (Clear(Limb(u, |m|), m, |m|) && ClearDown(u - Val(m), m))
  }

  lemma NormalPositive(m: Limbs)
    requires Normal(m)
    ensures Val(m) > 0 && |m| > 0
  {
    hide Val, Power, Times;
    ValTop(m);
    TimesMonotone(1, m[|m| - 1], Power(|m| - 1));
    TimesSmall(Power(|m| - 1));
  }

  /** A window's lower limbs are those of its value. */
  lemma {:induction false} LowLimbs(s: Limbs, t: nat)
    ensures Times(Power(|s|), t) >= 0
    ensures Limb(Val(s) + Times(Power(|s|), t), |s|) == s
  {
    hide Times;
    TimesNat(Power(|s|), t);
    if s != [] {
      LowLimbs(s[1..], t);
      TimesBase(Power(|s| - 1), t);
      var v := Val(s[1..]) + Times(Power(|s| - 1), t);
      assert Val(s) + Times(Power(|s|), t) == s[0] + 0x1_0000_0000 * v;
      assert s == [s[0]] + s[1..];
      hide Val, Power;
      FirstLimb(s[0], v, |s|);
    }
  }

  lemma FirstLimb(x: u32, v: nat, n: nat)
    requires n > 0
    ensures Limb(x + 0x1_0000_0000 * v, n) == [x] + Limb(v, n - 1)
  {
    var u := x + 0x1_0000_0000 * v;
    assert u % 0x1_0000_0000 == x && u / 0x1_0000_0000 == v;
  }

  lemma {:induction false} OverIff(w: Window, m: Limbs)
    requires |w.low| == |m|
    ensures Over(w, m) <==> WindowVal(w) >= Val(m)
  {
    hide Val, Power, Times;
    ValBound(m);
    TimesSmall(Power(|m|));
    TimesNat(Power(|m|), w.top);
    if w.top > 0 {
      TimesMonotone(1, w.top, Power(|m|));
    }
  }

  /** The correction loop loses nothing exactly when none of its passes drops a
      borrow, and exactly when the numbers it passes through are clear. */
  lemma {:induction false} CorrectIff(w: Window, m: Limbs)
    requires |w.low| == |m| && Normal(m) && Val(m) > 0
    ensures Correct(w, m).loss == 0 <==> CorrectDrops(w, m) == 0
    ensures Correct(w, m).loss == 0 <==> ClearDown(WindowVal(w), m)
    decreases w.top, Phase(w, m), Room(w, m)
  {
    hide Val, Power, Times, WindowVal, Over, Pass, Loss, DropsNone, Clear, Phase, Room, Normal;
    OverIff(w, m);
    if Over(w, m) {
      PassProgress(w, m);
      DropsNoneIff(w, m);
      PassValue(w, m);
      CorrectIff(Pass(w, m), m);
      WindowLimbs(w);
    }
  }

  lemma WindowLimbs(w: Window)
    ensures Limb(WindowVal(w), |w.low|) == w.low
  {
    LowLimbs(w.low, w.top);
  }

  function Div(a: nat, n: nat): nat
    requires n > 0
  {
    a / n
  }

  /** What the estimate makes of a number, from its two limbs above the others. */
  function EstimateOf(v: nat, m: Limbs): nat
    requires |m| > 0
  {
    Div(Div(v, Power(|m| - 1)), m[|m| - 1] as nat + 1)
  }

  lemma {:induction false} EstimateOfBounds(v: nat, m: Limbs)
    requires Normal(m) && v < 0x1_0000_0000 * Val(m)
    ensures var k := EstimateOf(v, m);
            k <= 0xffff_ffff && Times(k, Val(m)) <= v < Times(k, Val(m)) + 3 * Val(m)
  {
    hide Val, Power, Times;
    var q := Power(|m| - 1);
    ValTop(m);
    Quotient(v, q);
    EstimateArith(q, m[|m| - 1], Div(v, q), Val(m), v);
  }

  lemma {:induction false} DivUnique(a: nat, q: nat, b: nat, n: nat)
    requires a == Times(q, n) + b && b < n
    ensures Div(a, n) == q
  {
    hide Times;
    Quotient(a, n);
    TimesAdd(n, q, 1);
    TimesAdd(n, a / n, 1);
    TimesSmall(n);
    TimesCancel(a / n, q + 1, n);
    TimesCancel(q, a / n + 1, n);
  }

  lemma {:induction false} EstimateIs(w: Window, m: Limbs)
    requires |w.low| == |m| > 0
    ensures Estimate(w, m) == EstimateOf(WindowVal(w), m)
  {
    hide WindowVal, Val, Power, Times, TopTwo;
    var q := Power(|m| - 1);
    WindowTop(w);
    DivUnique(WindowVal(w), TopTwo(w), WindowVal(w) - Times(TopTwo(w), q), q);
  }

  /** The numbers between the estimated multiple and the remainder are clear. */
  predicate DigitClear(v: nat, m: Limbs)
    requires Normal(m) && v < 0x1_0000_0000 * Val(m)
  {
    EstimateOfBounds(v, m);
    ClearDown(v - Times(EstimateOf(v, m), Val(m)), m)
  }

  /** A digit loses nothing exactly when it is clear. Two corrections are enough then,
      and the remainder is the true one. */
  lemma {:induction false} DigitIff(w: Window, m: Limbs)
    requires |w.low| == |m| && Normal(m) && WindowVal(w) < 0x1_0000_0000 * Val(m)
    ensures var c := Correct(Reduce(w, m), m);
            (c.loss == 0 <==> CorrectDrops(Reduce(w, m), m) == 0) &&
            (c.loss == 0 <==> DigitClear(WindowVal(w), m)) &&
            (c.loss == 0 ==> c.passes <= 2 && Val(c.rem) == WindowVal(w) % Val(m))
  {
    hide Val, Times, WindowVal, Estimate, EstimateOf, Reduce, Correct, Normal, CorrectDrops, ClearDown;
    NormalPositive(m);
    EstimateIs(w, m);
    ReduceValue(w, m);
    CorrectIff(Reduce(w, m), m);
    DigitValue(w, m);
    var k, c := Estimate(w, m), Correct(Reduce(w, m), m);
    TimesSmall(Val(m));
    if c.loss == 0 {
      ModUnique(WindowVal(w), Val(c.rem), k + c.passes, Val(m));
    }
  }

  //////////////////////////////////////////////////////////////////////////
  // big_mod.
  //////////////////////////////////////////////////////////////////////////

  /** How many passes drop a borrow in one digit. */
  function DigitDrops(x: u32, rem: Limbs, m: Limbs): nat
    requires |rem| == |m| && Normal(m) && Val(rem) < Val(m)
  {
    ShiftedValue(x, rem);
    CorrectDrops(Reduce(Shifted(x, rem), m), m)
  }

  /** How many passes of all digits meet a zero limb with a borrow pending. */
  function Drops(low: Limbs, rem: Limbs, m: Limbs): nat
    requires |rem| == |m| && Normal(m) && Val(rem) < Val(m)
    decreases |low|
  {
    if low == [] then 0
    else
      var n := |low| - 1;
      DigitDrops(low[n], rem, m) + Drops(low[..n], Digit(low[n], rem, m).rem, m)
  }

  /** The same of the numbers alone: every digit of the true division is clear. */
  predicate Safe(low: Limbs, r: nat, m: Limbs)
    requires Normal(m) && r < Val(m)
    decreases |low|
  {
    low == [] ||
    (var n := |low| - 1;
     var v := low[n] + 0x1_0000_0000 * r;
     DigitClear(v, m) && Safe(low[..n], v % Val(m), m))
  }

  /** big_mod loses nothing exactly when no pass drops a borrow, which the dividend
      and the modulus decide beforehand. */
  lemma {:induction false} DivideIff(low: Limbs, rem: Limbs, m: Limbs)
    requires |rem| == |m| && Normal(m) && Val(rem) < Val(m)
    ensures Divide(low, rem, m).loss == 0 <==> Drops(low, rem, m) == 0
    ensures Divide(low, rem, m).loss == 0 <==> Safe(low, Val(rem), m)
    decreases |low|
  {
    hide Val, Times, WindowVal, Reduce, Correct, Normal, CorrectDrops, DigitClear, Shifted, Power;
    if low != [] {
      var n := |low| - 1;
      var w := Shifted(low[n], rem);
      ShiftedValue(low[n], rem);
      DigitIff(w, m);
      var c := Digit(low[n], rem, m);
      DivideIff(low[..n], c.rem, m);
      TimesSmall(Power(n));
      TimesNat(Power(n), c.loss);
      if c.loss > 0 {
        TimesMonotone(1, c.loss, Power(n));
      }
    }
  }

  /** big_mod is exact when the dividend is safe. */
  lemma {:induction false} SafeIsExact(input: Limbs, m: Limbs)
    requires |m| <= |input| && Normal(m) && Val(input[|input| - |m|..]) < Val(m)
    requires Safe(input[..|input| - |m|], Val(input[|input| - |m|..]), m)
    ensures var d := |input| - |m|; Val(Divide(input[..d], input[d..], m).rem) == Val(input) % Val(m)
  {
    hide Val, Divide, Safe, Normal;
    var d := |input| - |m|;
    DivideIff(input[..d], input[d..], m);
    ModValue(input, m);
  }

  //////////////////////////////////////////////////////////////////////////
  // One drop is one too many.
  //////////////////////////////////////////////////////////////////////////

  /** A pass loses a multiple of the square of the base, and not too large a one. */
  lemma {:induction false} PassLossIs(w: Limbs, m: Limbs, j: nat) returns (s: nat)
    requires 0 < j <= |w| && j <= |m|
    ensures PassLoss(w, m, j) == Times(Power(2), s) && s < Power(j - 1)
  {
    hide Times, PassRow, Power;
    TimesSmall(Power(2));
    PowerSteps(j);
    if j == 1 {
      FirstKept(w, m);
      s := 0;
    } else {
      s := PassLossIs(w, m, j - 1);
      if Dropped(PassRow(w, m, j - 1).carry, w[j - 1]) {
        PowerSum(2, j - 2);
        TimesAdd(Power(2), s, Power(j - 2));
        s := s + Power(j - 2);
      }
    }
  }

  lemma FirstKept(w: Limbs, m: Limbs)
    requires 1 <= |w| && 1 <= |m|
    ensures PassLoss(w, m, 1) == 0
  {
    assert PassRow(w, m, 0) == Row([], 0);
    assert PassLoss(w, m, 0) == 0;
  }

  lemma PowerSteps(j: nat)
    requires j > 0
    ensures Power(0) == 1 && Power(j) == 0x1_0000_0000 * Power(j - 1)
    ensures j > 1 ==> Power(j - 1) == 0x1_0000_0000 * Power(j - 2)
  {
  }

  /** What one dropping pass loses: a number below the modulus, times a power of the
      base. */
  predicate OneLoss(loss: nat, e: nat, s: nat, m: Limbs) {
    loss == Times(Power(e), s) && 0 < s < Val(m)
  }

  lemma {:induction false} PassLosesOne(w: Window, m: Limbs) returns (s: nat)
    requires |w.low| == |m| && Normal(m) && Loss(w, m) > 0
    ensures OneLoss(Loss(w, m), 2, s, m)
  {
    hide Val, Times, Power, PassLoss;
    s := PassLossIs(w.low, m, |m|);
    TimesSmall(Power(2));
    ValTop(m);
    TimesMonotone(1, m[|m| - 1], Power(|m| - 1));
    TimesSmall(Power(|m| - 1));
  }

  lemma {:induction false} CorrectLosesOne(w: Window, m: Limbs) returns (s: nat)
    requires |w.low| == |m| && Normal(m) && CorrectDrops(w, m) == 1
    ensures OneLoss(Correct(w, m).loss, 2, s, m)
    decreases w.top, Phase(w, m), Room(w, m)
  {
    hide Val, Power, Times, WindowVal, Over, Pass, Loss, DropsNone, Clear, Phase, Room, Normal, OneLoss;
    NormalPositive(m);
    PassProgress(w, m);
    DropsNoneIff(w, m);
    if DropsNone(w, m) {
      s := CorrectLosesOne(Pass(w, m), m);
    } else {
      CorrectIff(Pass(w, m), m);
      s := PassLosesOne(w, m);
    }
  }

  lemma {:induction false} DivideLosesOne(low: Limbs, rem: Limbs, m: Limbs) returns (e: nat, s: nat)
    requires |rem| == |m| && Normal(m) && Val(rem) < Val(m) && Drops(low, rem, m) == 1
    ensures OneLoss(Divide(low, rem, m).loss, e, s, m)
    decreases |low|
  {
    hide Val, Times, WindowVal, Reduce, Correct, Normal, CorrectDrops, DigitClear, Shifted, Power;
    var n := |low| - 1;
    var w := Shifted(low[n], rem);
    ShiftedValue(low[n], rem);
    DigitIff(w, m);
    var c := Digit(low[n], rem, m);
    TimesSmall(Power(n));
    if c.loss == 0 {
      e, s := DivideLosesOne(low[..n], c.rem, m);
    } else {
      DivideIff(low[..n], c.rem, m);
      s := CorrectLosesOne(Reduce(w, m), m);
      e := n + 2;
      PowerSum(n, 2);
      TimesAssociates(Power(n), Power(2), s);
    }
  }

  lemma {:induction false} HalfMultiple(y: nat, n: nat)
    requires n % 2 == 1 && (2 * y) % n == 0
    ensures y % n == 0
  {
    hide Times;
    DivMod(2 * y, n);
    HalfIs(y, 2 * y / n, n / 2, n);
    ModUnique(y, 0, 2 * y / n / 2, n);
  }

  lemma {:induction false} HalfIs(y: nat, q: nat, h: nat, n: nat)
    requires n == 2 * h + 1 && 2 * y == Times(q, n)
    ensures y == Times(q / 2, n)
  {
    hide Times;
    TimesAdd(q, h, h + 1);
    TimesAdd(q, h, 1);
    TimesSmall(q);
    assert q % 2 == 0;
    TimesAdd(n, q / 2, q / 2);
  }

  lemma {:induction false} LimbMultiple(k: nat, y: nat, n: nat)
    requires n % 2 == 1 && (Pow2(k) * y) % n == 0
    ensures y % n == 0
  {
    if k > 0 {
      assert Pow2(k) * y == 2 * (Pow2(k - 1) * y);
      HalfMultiple(Pow2(k - 1) * y, n);
      LimbMultiple(k - 1, y, n);
    }
  }

  /** An odd modulus has no factor in common with a power of the base. */
  lemma {:induction false} OddMultiple(e: nat, s: nat, n: nat)
    requires n % 2 == 1 && Times(Power(e), s) >= 0 && Times(Power(e), s) % n == 0
    ensures s % n == 0
  {
    hide Times;
    TimesSmall(s);
    if e > 0 {
      TimesBase(Power(e - 1), s);
      TimesNat(Power(e - 1), s);
      Pow2Of32();
      LimbMultiple(32, Times(Power(e - 1), s), n);
      OddMultiple(e - 1, s, n);
    }
  }

  lemma Pow2Of32()
    ensures Pow2(32) == 0x1_0000_0000
  {
    assert Pow2(8) == 0x100;
    assert Pow2(16) == 0x1_0000;
    assert Pow2(24) == 0x100_0000;
  }

  /** With one dropping pass the result is wrong, whatever was divided. */
  lemma {:induction false} OneDropIsWrong(input: Limbs, m: Limbs)
    requires |m| <= |input| && Normal(m) && Val(m) % 2 == 1 && Val(input[|input| - |m|..]) < Val(m)
    requires Drops(input[..|input| - |m|], input[|input| - |m|..], m) == 1
    ensures var d := |input| - |m|; Val(Divide(input[..d], input[d..], m).rem) != Val(input) % Val(m)
  {
    hide Val, Divide, Drops, Normal, Times, Power, OneLoss;
    var d := |input| - |m|;
    var e, s := DivideLosesOne(input[..d], input[d..], m);
    ModExactIff(input, m);
    LossIsNoMultiple(Divide(input[..d], input[d..], m).loss, e, s, m);
  }

  lemma LossIsNoMultiple(loss: nat, e: nat, s: nat, m: Limbs)
    requires OneLoss(loss, e, s, m) && Val(m) % 2 == 1
    ensures loss % Val(m) != 0
  {
    hide Val, Times, Power;
    if loss % Val(m) == 0 {
      OddMultiple(e, s, Val(m));
    }
  }

  //////////////////////////////////////////////////////////////////////////
  // Products and the cube.
  //////////////////////////////////////////////////////////////////////////

  /** The product of two factors is safe to reduce. */
  predicate SafeProduct(a: nat, b: nat, m: Limbs)
    requires Normal(m) && a < Val(m) && b < Val(m)
  {
    ProductFits(a, b, m);
    var p := Limb(Times(a, b), 2 * |m|);
    Safe(p[..|m|], Val(p[|m|..]), m)
  }

  /** How many passes drop a borrow when a product is reduced. */
  function ProductDrops(a: nat, b: nat, m: Limbs): nat
    requires Normal(m) && a < Val(m) && b < Val(m)
  {
    ProductFits(a, b, m);
    var p := Limb(Times(a, b), 2 * |m|);
    Drops(p[..|m|], p[|m|..], m)
  }

  lemma {:induction false} MulModSafe(a: nat, b: nat, m: Limbs)
    requires Normal(m) && a < Val(m) && b < Val(m)
    ensures MulMod(a, b, m).loss == 0 <==> SafeProduct(a, b, m)
    ensures MulMod(a, b, m).loss == 0 <==> ProductDrops(a, b, m) == 0
    ensures Times(a, b) >= 0
    ensures SafeProduct(a, b, m) ==> MulMod(a, b, m).value == Times(a, b) % Val(m)
  {
    hide Times, Val, Limb, Divide, Normal, Safe, Drops;
    ProductFits(a, b, m);
    var p := Limb(Times(a, b), 2 * |m|);
    DivideIff(p[..|m|], p[|m|..], m);
    MulModValue(a, b, m);
  }

  /** With one dropping pass the loss is not a multiple of an odd modulus. */
  lemma {:induction false} MulModLosesOne(a: nat, b: nat, m: Limbs)
    requires Normal(m) && a < Val(m) && b < Val(m) && Val(m) % 2 == 1 && ProductDrops(a, b, m) == 1
    ensures MulMod(a, b, m).loss % Val(m) != 0
    ensures Times(a, b) >= 0 && MulMod(a, b, m).value != Times(a, b) % Val(m)
  {
    hide Times, Val, Limb, Divide, Normal, Drops, OneLoss;
    ProductFits(a, b, m);
    var p := Limb(Times(a, b), 2 * |m|);
    var e, s := DivideLosesOne(p[..|m|], p[|m|..], m);
    LossIsNoMultiple(MulMod(a, b, m).loss, e, s, m);
    MulModClean(a, b, m);
  }

  /** Both reductions that cubing makes are safe. */
  predicate SafeCube(x: nat, m: Limbs)
    requires Normal(m) && x < Val(m)
  {
    TimesNat(x, x);
    SafeProduct(x, x, m) && SafeProduct(x, Times(x, x) % Val(m), m)
  }

  /** How many passes drop a borrow in the two reductions. */
  function CubeDrops(x: nat, m: Limbs): nat
    requires Normal(m) && x < Val(m)
  {
    ProductDrops(x, x, m) + ProductDrops(x, MulMod(x, x, m).value, m)
  }

  /** Cubing loses nothing exactly when no pass drops a borrow, which the number and
      the modulus decide beforehand. */
  lemma {:induction false} CubeLossIff(x: nat, m: Limbs)
    requires Normal(m) && 0 < x < Val(m)
    ensures CubeLoss(x, m) == 0 <==> CubeDrops(x, m) == 0
    ensures CubeLoss(x, m) == 0 <==> SafeCube(x, m)
  {
    hide Times, Val, MulMod, Normal, SafeProduct, ProductDrops;
    var square := MulMod(x, x, m);
    MulModSafe(x, x, m);
    MulModSafe(x, square.value, m);
    TimesNat(x, square.loss);
    TimesSmall(x);
    if square.loss > 0 {
      TimesMonotone(1, square.loss, x);
    }
  }

  /** A factor with an inverse does not make a multiple out of what is none. */
  lemma {:induction false} InverseCancels(x: nat, y: nat, s: nat, n: nat)
    requires n > 1 && Times(x, y) >= 0 && Times(x, y) % n == 1
    requires Times(x, s) >= 0 && Times(x, s) % n == 0
    ensures s % n == 0
  {
    hide Times;
    TimesAssociates(s, x, y);
    TimesAssociates(x, s, y);
    TimesCommutes(s, x);
    TimesCommutes(s, Times(x, y));
    TimesCommutes(y, Times(x, s));
    TimesNat(s, 1);
    TimesSmall(s);
    TimesSmall(y);
    ModTimes(s, Times(x, y), n);
    ModTimes(y, Times(x, s), n);
  }

  /** If exactly one pass drops a borrow the result is not the cube, for a number that
      has an inverse. */
  lemma {:induction false} OneDropNoCube(x: nat, y: nat, m: Limbs)
    requires Normal(m) && 0 < x < Val(m) && 1 < Val(m) && Val(m) % 2 == 1
    requires Times(x, y) >= 0 && Times(x, y) % Val(m) == 1 && CubeDrops(x, m) == 1
    ensures ExpLoop(1, x, m, 2) != Cube(x) % Val(m)
  {
    hide Times, Val, MulMod, Normal, ProductDrops, ExpLoop, Cube;
    CubeIff(x, m);
    var square := MulMod(x, x, m);
    MulModSafe(x, x, m);
    MulModSafe(x, square.value, m);
    TimesSmall(x);
    if ProductDrops(x, x, m) == 1 {
      MulModLosesOne(x, x, m);
      TimesNat(x, square.loss);
      if Times(x, square.loss) % Val(m) == 0 {
        InverseCancels(x, y, square.loss, Val(m));
      }
    } else {
      MulModLosesOne(x, square.value, m);
    }
  }
}
