/** Numbers that big_mod reduces wrongly because a correction pass drops a borrow: one
    for every modulus of four limbs or more, the one of enc_type_1.c included. */
module DroppedBorrow {
  import opened Bytes
  import opened BigNum
  import opened Division
  import opened ModPow
  import opened Exact
  import opened EncType1

  /** The moduli in question: the lowest limb can be counted down, the third one up. */
  predicate Affected(m: Limbs) {
    Normal(m) && |m| >= 4 && m[0] > 0 && m[2] < 0xffff_ffff
  }

  /** The modulus and a little more: a zero limb with a borrow to come from below it. */
  function Dividend(m: Limbs): (w: Limbs)
    requires Affected(m)
    ensures |w| == |m|
  {
    [m[0] - 1, 0, m[2] + 1] + m[3..]
  }

  /** What is more than the modulus. */
  function Excess(m: Limbs): nat
    requires Affected(m)
  {
    0xffff_ffff + 0x1_0000_0000 * (0xffff_ffff - m[1] as nat)
  }

  /** What the pass leaves of it. */
  function Left(m: Limbs): (s: Limbs)
    requires Affected(m)
    ensures |s| == |m|
  {
    [0xffff_ffff, 0xffff_ffff - m[1], 1] + Zeros(|m| - 3)
  }

  //////////////////////////////////////////////////////////////////////////
  // The pass.
  //////////////////////////////////////////////////////////////////////////

  lemma FirstSteps(a: u32, b: u32, c: u32)
    requires a > 0 && c < 0xffff_ffff
    ensures Correct1(0, a - 1, a) == Step(0xffff_ffff, 1)
    ensures Correct1(1, 0, b) == Step(0xffff_ffff - b, 0)
    ensures Correct1(0, c + 1, c) == Step(1, 0)
  {
  }

  /** The borrow that the lowest limb leaves is dropped at the next one. */
  lemma {:induction false} FirstThree(m: Limbs)
    requires Affected(m)
    ensures PassRow(Dividend(m), m, 3) == Row([0xffff_ffff, 0xffff_ffff - m[1], 1], 0)
    ensures PassLoss(Dividend(m), m, 3) == Power(2)
  {
    hide Correct1, Power;
    var w := Dividend(m);
    FirstSteps(m[0], m[1], m[2]);
    assert PassRow(w, m, 0) == Row([], 0);
    assert PassRow(w, m, 1) == Row([0xffff_ffff], 1);
    assert PassRow(w, m, 2) == Row([0xffff_ffff, 0xffff_ffff - m[1]], 0);
    FirstKept(w, m);
    assert PassLoss(w, m, 2) == Power(2);
  }

  /** The other limbs cancel. */
  lemma {:induction false} Others(m: Limbs, j: nat)
    requires Affected(m) && 3 <= j <= |m|
    ensures PassRow(Dividend(m), m, j) == Row(Left(m)[..j], 0)
    ensures PassLoss(Dividend(m), m, j) == Power(2)
  {
    var w, s := Dividend(m), Left(m);
    if j == 3 {
      FirstThree(m);
    } else {
      Others(m, j - 1);
      assert w[j - 1] == m[j - 1] && s[..j] == s[..j - 1] + [0];
      assert Correct1(0, m[j - 1], m[j - 1]) == Step(0, 0);
      hide PassRow, Correct1, Power, Dividend, Left;
      PassStep(w, m, j);
    }
  }

  lemma PassStep(w: Limbs, m: Limbs, j: nat)
    requires 0 < j <= |w| && j <= |m|
    ensures var p := PassRow(w, m, j - 1);
            var s := Correct1(p.carry, w[j - 1], m[j - 1]);
            PassRow(w, m, j) == Row(p.limbs + [s.limb], s.carry) &&
            (p.carry == 0 ==> PassLoss(w, m, j) == PassLoss(w, m, j - 1))
  {
  }

  /** The pass is wrong by the square of the base. */
  lemma FirstPass(m: Limbs)
    requires Affected(m)
    ensures var w := Window(Dividend(m), 0);
            Pass(w, m) == Window(Left(m), 0) && Loss(w, m) == Power(2)
  {
    hide PassRow, PassLoss, Dividend, Left;
    Others(m, |m|);
    assert Left(m)[..|m|] == Left(m);
  }

  //////////////////////////////////////////////////////////////////////////
  // The values.
  //////////////////////////////////////////////////////////////////////////

  lemma SquareOfBase()
    ensures Power(2) == 0x1_0000_0000_0000_0000 && Power(3) == 0x1_0000_0000_0000_0000_0000_0000
  {
    assert Power(1) == 0x1_0000_0000;
  }

  lemma LeftValue(m: Limbs)
    requires Affected(m)
    ensures Val(Left(m)) == Excess(m) + Power(2) < Power(3)
  {
    hide Val, Power;
    var s, z := Left(m), Zeros(|m| - 3);
    assert s[1..] == [0xffff_ffff - m[1], 1] + z && s[1..][1..] == [1] + z && s[1..][1..][1..] == z;
    ValFirst(s);
    ValFirst(s[1..]);
    ValFirst(s[1..][1..]);
    ValZeros(|m| - 3);
    SquareOfBase();
  }

  /** The dividend is the modulus and an excess below it. */
  lemma DividendValue(m: Limbs)
    requires Affected(m)
    ensures Val(Dividend(m)) == Val(m) + Excess(m)
    ensures Val(Left(m)) == Excess(m) + Power(2) < Val(m)
  {
    hide Val, Power, PassRow, PassLoss, Times, Dividend, Left;
    var w := Dividend(m);
    LeftValue(m);
    Others(m, |m|);
    assert Left(m)[..|m|] == Left(m) && w[..|m|] == w && m[..|m|] == m;
    PassRowValue(w, m, |m|);
    TimesSmall(Power(|m|));
    ValTop(m);
    TimesMonotone(1, m[|m| - 1], Power(|m| - 1));
    TimesSmall(Power(|m| - 1));
    PowerGrows(3, |m| - 1);
  }

  lemma {:induction false} PowerGrows(a: nat, b: nat)
    requires a <= b
    ensures Power(a) <= Power(b)
  {
    if a < b {
      PowerGrows(a, b - 1);
    }
  }

  //////////////////////////////////////////////////////////////////////////
  // The digit and the division.
  //////////////////////////////////////////////////////////////////////////

  lemma {:induction false} Corrected(m: Limbs)
    requires Affected(m)
    ensures Correct(Window(Dividend(m), 0), m) == Correction(Left(m), Power(2), 1)
    ensures CorrectDrops(Window(Dividend(m), 0), m) == 1
  {
    hide Val, Power, Pass, Loss, Dividend, Left, Phase, Room, Normal, DropsNone, Clear, Excess;
    var w, s := Window(Dividend(m), 0), Window(Left(m), 0);
    FirstPass(m);
    DividendValue(m);
    PassProgress(w, m);
    DropsNoneIff(w, m);
    assert Correct(s, m) == Correction(Left(m), 0, 0);
  }

  lemma EstimateIsZero(m: Limbs)
    requires Affected(m)
    ensures Estimate(Window(Dividend(m), 0), m) == 0
  {
    assert Dividend(m)[|m| - 1] == m[|m| - 1];
  }

  /** The estimate is zero and leaves the window as it is. */
  lemma {:induction false} NothingEstimated(m: Limbs)
    requires Affected(m)
    ensures var w := Window(Dividend(m), 0);
            WindowVal(w) == Val(Dividend(m)) < 0x1_0000_0000 * Val(m) && Reduce(w, m) == w
  {
    hide Val, Power, Dividend, Estimate, Times, MulSubRow, Reduce, Excess;
    var w := Window(Dividend(m), 0);
    EstimateIsZero(m);
    DividendValue(m);
    TimesSmall(Power(|m|));
    ReduceValue(w, m);
    TimesSmall(Val(m));
    var r := Reduce(w, m);
    WindowLimbs(w);
    WindowLimbs(r);
    if r.top > 0 {
      TimesMonotone(1, r.top, Power(|m|));
    }
  }

  /** The lowest limb is the last to be divided. */
  lemma {:induction false} DivideLast(x: u32, hi: Limbs, rem: Limbs, m: Limbs)
    requires |rem| == |m| && Normal(m) && Val(rem) < Val(m)
    ensures var r := Divide(hi, rem, m);
            var c := Digit(x, r.rem, m);
            Divide([x] + hi, rem, m) == Remainder(c.rem, c.loss + 0x1_0000_0000 * r.loss)
    ensures Drops([x] + hi, rem, m) == Drops(hi, rem, m) + DigitDrops(x, Divide(hi, rem, m).rem, m)
    decreases |hi|
  {
    hide Val, Times, Digit, Normal, DigitDrops;
    var low := [x] + hi;
    if hi == [] {
      var c := Digit(x, rem, m);
      assert low == [x] && low[..0] == [];
      TimesSmall(c.loss);
      assert Divide([], c.rem, m) == Remainder(c.rem, 0) && Drops([], c.rem, m) == 0;
    } else {
      var n := |hi| - 1;
      var c := Digit(hi[n], rem, m);
      assert low[..n + 1] == [x] + hi[..n] && low[n + 1] == hi[n];
      DivideLast(x, hi[..n], c.rem, m);
      TimesBase(Power(n), c.loss);
    }
  }

  /** Of the dividend all limbs but the lowest come through unchanged. */
  lemma {:induction false} UpperLimbs(m: Limbs)
    requires Affected(m)
    ensures Val(Zeros(|m|)) < Val(m)
    ensures Divide(Dividend(m)[1..], Zeros(|m|), m) == Remainder(Dividend(m)[1..] + [0], 0)
  {
    hide Val, Divide, Power, Times;
    var hi, z := Dividend(m)[1..], Zeros(|m|);
    ValZeros(|m|);
    DividendValue(m);
    ValFirst(Dividend(m));
    ValConcat(hi, z);
    ValAppend(hi, 0);
    TimesSmall(Power(|hi|));
    hide Dividend;
    DivideSmall(hi, z, m);
    ValInjective(Divide(hi, z, m).rem, hi + [0]);
  }

  /** big_mod returns the excess and the square of the base. */
  lemma {:induction false} WrongRemainder(m: Limbs)
    requires Affected(m)
    ensures Val(Zeros(|m|)) < Val(m) && Val(Dividend(m)) % Val(m) == Excess(m)
    ensures Divide(Dividend(m), Zeros(|m|), m) == Remainder(Left(m), Power(2))
    ensures Val(Left(m)) == Excess(m) + Power(2) && Drops(Dividend(m), Zeros(|m|), m) == 1
  {
    hide Val, Divide, Drops, Power, Correct, CorrectDrops, Reduce, Left, Excess, WindowVal;
    var w := Dividend(m);
    var hi := w[1..];
    UpperLimbs(m);
    DivideIff(hi, Zeros(|m|), m);
    DivideLast(w[0], hi, Zeros(|m|), m);
    assert [w[0]] + hi == w;
    assert Shifted(w[0], hi + [0]) == Window(w, 0);
    hide Dividend;
    NothingEstimated(m);
    Corrected(m);
    DividendValue(m);
    TimesSmall(Val(m));
    ModUnique(Val(w), Excess(m), 1, Val(m));
  }

  //////////////////////////////////////////////////////////////////////////
  // A product.
  //////////////////////////////////////////////////////////////////////////

  /** A factor that makes the dividend when it is doubled. */
  function Factor(m: Limbs): nat
    requires Affected(m)
  {
    Val(Dividend(m)) / 2
  }

  lemma FactorIsHalf(m: Limbs)
    requires Affected(m) && m[0] % 2 == 1
    ensures Times(Factor(m), 2) == 2 * Factor(m) == Val(Dividend(m))
  {
    hide Val, Times;
    ValFirst(Dividend(m));
    TimesAdd(Factor(m), 1, 1);
    TimesSmall(Factor(m));
  }

  lemma {:induction false} FactorFits(m: Limbs)
    requires Affected(m) && m[0] % 2 == 1
    ensures Factor(m) < Val(m) && 2 < Val(m) && Times(Factor(m), 2) == Val(Dividend(m))
    ensures Limb(Val(Dividend(m)), 2 * |m|) == Dividend(m) + Zeros(|m|)
  {
    hide Val, Power, Times, Left, Limb, Dividend, Excess, Factor;
    FactorIsHalf(m);
    DividendValue(m);
    SquareOfBase();
    var w, z := Dividend(m), Zeros(|m|);
    ValConcat(w, z);
    ValZeros(|m|);
    TimesSmall(Power(|m|));
    ValBound(w + z);
    ValLimb(Val(w), 2 * |m|);
    ValInjective(Limb(Val(w), 2 * |m|), w + z);
  }

  /** For every odd modulus affected, doubling one number goes wrong by 2^64. */
  lemma {:induction false} WrongProduct(m: Limbs)
    requires Affected(m) && m[0] % 2 == 1
    ensures var a := Factor(m);
            a < Val(m) && 2 < Val(m) &&
            MulMod(a, 2, m) == Product(2 * a % Val(m) + 0x1_0000_0000_0000_0000, Power(2)) &&
            ProductDrops(a, 2, m) == 1
  {
    hide Val, Power, Times, Left, Limb, Divide, Drops, Dividend, Factor, Excess;
    var a, w, z := Factor(m), Dividend(m), Zeros(|m|);
    FactorFits(m);
    WrongRemainder(m);
    SquareOfBase();
    FactorIsHalf(m);
    assert (w + z)[..|m|] == w && (w + z)[|m|..] == z;
  }

  //////////////////////////////////////////////////////////////////////////
  // The modulus of enc_type_1.c.
  //////////////////////////////////////////////////////////////////////////

  lemma ModulusIsAffected()
    ensures Affected(Modulus()) && Modulus()[0] % 2 == 1
  {
    hide Modulus;
    ModulusIsModulus();
    LowestLimbs();
  }

  /** A number that big_mulmod doubles wrongly under the fixed modulus. */
  function WrongFactor(): nat {
    ModulusIsAffected();
    Factor(Modulus())
  }

  /** It may be given to big_mulmod, and its double is off by 2^64. */
  lemma WrongUnderModulus()
    ensures var m, a := Modulus(), WrongFactor();
            IsModulus(m) && Len(m) == |m| && a < Val(m) && 2 < Val(m) &&
            MulMod(a, 2, m) == Product(2 * a % Val(m) + 0x1_0000_0000_0000_0000, Power(2)) &&
            ProductDrops(a, 2, m) == 1
  {
    hide Val, Modulus, Factor, MulMod, Power, ProductDrops;
    ModulusIsModulus();
    ModulusIsAffected();
    WrongProduct(Modulus());
  }

  /** What becomes of it in memory. */
  method DoubleWrongly(num1: array<u32>, num2: array<u32>, mod: array<u32>)
    requires num1.Length == num2.Length == SIZE && num1 != mod && num2 != mod && num1 != num2
    requires mod[..] == Modulus() && Val(num1[..]) == WrongFactor() && num2[..] == [2] + Zeros(SIZE - 1)
    modifies num1
    ensures Val(num1[..]) == 2 * WrongFactor() % Val(Modulus()) + 0x1_0000_0000_0000_0000
  {
    hide Val, Modulus, WrongFactor, MulMod, Power;
    WrongUnderModulus();
    ValSet(2, SIZE);
    assert num1[..SIZE] == num1[..] && num2[..SIZE] == num2[..] == ([2] + Zeros(SIZE - 1))[..SIZE];
    assert mod[..][..SIZE] == mod[..];
    BigMulMod(num1, num2, mod);
    assert num1[..SIZE] == num1[..];
  }
}
