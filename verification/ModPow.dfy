/** Modular products and powers as enc_type_1.c forms them, on values. */
module ModPow {
  import opened Bytes
  import opened BigNum
  import opened Division

  /** A product reduced by big_mod, and what the reduction lost. */
  datatype Product = Product(value: nat, loss: nat)

  /** The product of two numbers below the modulus leaves big_mod a first window
      below the modulus. */
  lemma {:induction false} ProductFits(a: nat, b: nat, m: Limbs)
    requires a < Val(m) && b < Val(m)
    ensures Times(a, b) >= 0
    ensures var p := Limb(Times(a, b), 2 * |m|);
            Val(p) == Times(a, b) && Val(p[|m|..]) < Val(m)
  {
    hide Times, Val, Limb, Power;
    ValBound(m);
    TimesNat(a, b);
    TimesMonotone(a, Val(m), b);
    TimesMonotone(b, Power(|m|) - 1, Val(m));
    TimesAdd(Val(m), Power(|m|), -1);
    TimesSmall(Val(m));
    TimesMinus(Val(m));
    PowerSum(|m|, |m|);
    TimesMonotone(Val(m), Power(|m|), Power(|m|));
    TimesCommutes(Val(m), Power(|m|));
    ValLimb(Times(a, b), 2 * |m|);
    var p := Limb(Times(a, b), 2 * |m|);
    assert p == p[..|m|] + p[|m|..];
    ValConcat(p[..|m|], p[|m|..]);
    TimesCommutes(Power(|m|), Val(p[|m|..]));
    TimesCommutes(Power(|m|), Val(m));
    TimesCancel(Val(p[|m|..]), Val(m), Power(|m|));
  }

  lemma TimesCommutes(a: int, b: int)
    ensures Times(a, b) == Times(b, a)
  {
  }

  lemma TimesMinus(a: int)
    ensures Times(a, -1) == -a == Times(-1, a)
  {
  }

  lemma {:induction false} PowerSum(a: nat, b: nat)
    ensures Power(a + b) == Times(Power(a), Power(b))
  {
    hide Times;
    TimesSmall(Power(b));
    if a > 0 {
      PowerSum(a - 1, b);
      TimesBase(Power(a - 1), Power(b));
    }
  }

  /** big_mulmod. */
  function MulMod(a: nat, b: nat, m: Limbs): (r: Product)
    requires Normal(m) && a < Val(m) && b < Val(m)
    ensures r.value < Val(m)
  {
    ProductFits(a, b, m);
    var p := Limb(Times(a, b), 2 * |m|);
    var r := Divide(p[..|m|], p[|m|..], m);
    Product(Val(r.rem), r.loss)
  }

  lemma {:induction false} MulModValue(a: nat, b: nat, m: Limbs)
    requires Normal(m) && a < Val(m) && b < Val(m)
    ensures Times(a, b) >= 0
    ensures MulMod(a, b, m).value == (Times(a, b) + MulMod(a, b, m).loss) % Val(m)
  {
    hide Times, Val, Limb, Divide, Normal;
    ProductFits(a, b, m);
    ModValue(Limb(Times(a, b), 2 * |m|), m);
  }

  /** Multiplying by one neither changes a number nor loses anything. */
  lemma MulModOne(x: nat, m: Limbs)
    requires Normal(m) && x < Val(m) && 1 < Val(m)
    ensures MulMod(1, x, m) == Product(x, 0)
  {
    hide Times, Val, Limb, Divide;
    TimesSmall(x);
    ProductFits(1, x, m);
    var p := Limb(x, 2 * |m|);
    assert p == p[..|m|] + p[|m|..];
    DivideSmall(p[..|m|], p[|m|..], m);
  }

  //////////////////////////////////////////////////////////////////////////
  // Residues.
  //////////////////////////////////////////////////////////////////////////

  lemma {:induction false} ModAdd(a: nat, d: nat, n: nat)
    requires n > 0
    ensures (a % n + d) % n == (a + d) % n
  {
    hide Times;
    var s := a % n + d;
    DivMod(a, n);
    DivMod(s, n);
    Carried(a, a / n, a % n, d, s / n, s % n, n);
  }

  /** Two divisions joined: the rest of the first goes into the second. */
  lemma {:induction false} Carried(a: nat, q: nat, r: nat, d: nat, p: nat, t: nat, n: nat)
    requires t < n && a == Times(q, n) + r && r + d == Times(p, n) + t
    ensures (a + d) % n == t
  {
    hide Times;
    TimesAdd(n, q, p);
    ModUnique(a + d, t, q + p, n);
  }

  lemma {:induction false} ModTimes(a: nat, b: nat, n: nat)
    requires n > 0
    ensures Times(a, b) >= 0 && Times(a, b % n) >= 0
    ensures Times(a, b % n) % n == Times(a, b) % n
  {
    hide Times;
    DivMod(b, n);
    TimesAdd(a, Times(b / n, n), b % n);
    TimesAssociates(a, b / n, n);
    TimesNat(a, b);
    TimesNat(a, b % n);
    TimesNat(a, b / n);
    DivMod(Times(a, b % n), n);
    var q := Times(a, b % n) / n;
    TimesAdd(n, Times(a, b / n), q);
    ModUnique(Times(a, b), Times(a, b % n) % n, Times(a, b / n) + q, n);
  }

  lemma {:induction false} ModBoth(a: nat, b: nat, n: nat)
    requires n > 0
    ensures Times(a, b) >= 0 && Times(a % n, b % n) >= 0
    ensures Times(a % n, b % n) % n == Times(a, b) % n
  {
    hide Times;
    ModTimes(a % n, b, n);
    TimesCommutes(a % n, b);
    ModTimes(b, a, n);
    TimesCommutes(b, a);
  }

  //////////////////////////////////////////////////////////////////////////
  // Powers.
  //////////////////////////////////////////////////////////////////////////

  function Pow(x: nat, k: nat): nat {
    if k == 0 then 1
    else
      TimesNat(x, Pow(x, k - 1));
      Times(x, Pow(x, k - 1))
  }

  lemma {:induction false} PowSum(x: nat, a: nat, b: nat)
    ensures Pow(x, a + b) == Times(Pow(x, a), Pow(x, b))
  {
    hide Times;
    if a == 0 {
      TimesSmall(Pow(x, b));
    } else {
      PowSum(x, a - 1, b);
      TimesAssociates(x, Pow(x, a - 1), Pow(x, b));
    }
  }

  /** The loop of big_expmod: every step multiplies, whatever the bit is. */
  function ExpLoop(l: nat, n: nat, m: Limbs, steps: nat): (r: nat)
    requires Normal(m) && l < Val(m) && n < Val(m)
    ensures r < Val(m)
    decreases steps
  {
    if steps == 0 then l
    else ExpLoop(MulMod(l, n, m).value, MulMod(n, n, m).value, m, steps - 1)
  }

  /** No reduction that the result depends on loses anything but multiples of the
      modulus. The last squaring is not one of them. */
  predicate Clean(l: nat, n: nat, m: Limbs, steps: nat)
    requires Normal(m) && l < Val(m) && n < Val(m)
    decreases steps
  {
    steps == 0 ||
    (MulMod(l, n, m).loss % Val(m) == 0 &&
     (steps == 1 ||
      (MulMod(n, n, m).loss % Val(m) == 0 &&
       Clean(MulMod(l, n, m).value, MulMod(n, n, m).value, m, steps - 1))))
  }

  lemma {:induction false} MulModClean(a: nat, b: nat, m: Limbs)
    requires Normal(m) && a < Val(m) && b < Val(m)
    ensures Times(a, b) >= 0
    ensures MulMod(a, b, m).value == Times(a, b) % Val(m) <==> MulMod(a, b, m).loss % Val(m) == 0
  {
    hide Times, Val, MulMod, Normal;
    MulModValue(a, b, m);
    ModShift(Times(a, b), MulMod(a, b, m).loss, Val(m));
  }

  function PowMod(x: nat, e: nat, m: Limbs): nat
    requires Val(m) > 0
  {
    Pow(x, e) % Val(m)
  }

  lemma {:induction false} MulModPow(x: nat, a: nat, b: nat, l: nat, n: nat, m: Limbs)
    requires Normal(m) && l < Val(m) && n < Val(m)
    requires l == PowMod(x, a, m) && n == PowMod(x, b, m) && MulMod(l, n, m).loss % Val(m) == 0
    ensures MulMod(l, n, m).value == PowMod(x, a + b, m)
  {
    hide Times, Val, MulMod, Normal, Pow;
    MulModClean(l, n, m);
    ModBoth(Pow(x, a), Pow(x, b), Val(m));
    PowSum(x, a, b);
  }

  /** A clean run with j bits behind it: l is x^(2^j - 1) and n is x^(2^j), and so
      it ends with x^(2^(j + steps) - 1). */
  lemma {:induction false} ExpLoopValue(x: nat, j: nat, l: nat, n: nat, m: Limbs, steps: nat)
    requires Normal(m) && l < Val(m) && n < Val(m)
    requires l == PowMod(x, Pow2(j) - 1, m) && n == PowMod(x, Pow2(j), m)
    requires Clean(l, n, m, steps)
    ensures ExpLoop(l, n, m, steps) == PowMod(x, Pow2(j + steps) - 1, m)
    decreases steps
  {
    hide Times, Val, MulMod, Normal, Pow, PowMod;
    if steps > 0 {
      var a, b := Pow2(j) - 1, Pow2(j);
      MulModPow(x, a, b, l, n, m);
      assert Pow2(j + 1) == b + b;
      if steps > 1 {
        MulModPow(x, b, b, n, n, m);
        ExpLoopValue(x, j + 1, MulMod(l, n, m).value, MulMod(n, n, m).value, m, steps - 1);
        assert j + 1 + (steps - 1) == j + steps;
      } else {
        assert a + b == Pow2(j + 1) - 1;
        assert ExpLoop(MulMod(l, n, m).value, MulMod(n, n, m).value, m, 0) == MulMod(l, n, m).value;
      }
    }
  }

  /** The exponent big_expmod uses is all ones: it raises to the exponent it was
      given exactly when that is all ones too. */
  lemma AllOnesOrNot(x: nat, e: nat, bits: nat)
    requires x >= 2
    ensures Pow(x, Pow2(bits) - 1) == Pow(x, e) <==> e == Pow2(bits) - 1
  {
    var a := Pow2(bits) - 1;
    if e < a {
      PowGrows(x, e, a);
    } else if a < e {
      PowGrows(x, a, e);
    }
  }

  lemma {:induction false} PowGrows(x: nat, a: nat, b: nat)
    requires x >= 2 && a < b
    ensures 0 < Pow(x, a) < Pow(x, b)
  {
    hide Times;
    if a == 0 {
      PowPositive(x, b - 1);
      TimesMonotone(2, x, Pow(x, b - 1));
      TimesAdd(Pow(x, b - 1), 1, 1);
      TimesSmall(Pow(x, b - 1));
    } else {
      PowGrows(x, a - 1, b - 1);
      var p, q := Pow(x, a - 1), Pow(x, b - 1);
      TimesMonotone(p + 1, q, x);
      TimesAdd(x, p, 1);
      TimesSmall(x);
      PowPositive(x, a);
    }
  }

  lemma {:induction false} PowPositive(x: nat, k: nat)
    requires x > 0
    ensures Pow(x, k) > 0
  {
    hide Times;
    if k > 0 {
      PowPositive(x, k - 1);
      TimesMonotone(1, x, Pow(x, k - 1));
      TimesSmall(Pow(x, k - 1));
    }
  }

  //////////////////////////////////////////////////////////////////////////
  // The cube.
  //////////////////////////////////////////////////////////////////////////

  function Cube(x: nat): nat { x * x * x }

  /** What cubing a number loses: in the square, which is multiplied once more,
      and in the product of the number and its square. */
  function CubeLoss(x: nat, m: Limbs): nat
    requires Normal(m) && x < Val(m)
  {
    var square := MulMod(x, x, m);
    TimesNat(x, square.loss);
    Times(x, square.loss) + MulMod(x, square.value, m).loss
  }

  /** A product by a reduced sum, reduced once more. */
  lemma {:induction false} ReducedTwice(x: nat, s: nat, d2: nat, d3: nat, n: nat, v: nat, r: nat)
    requires n > 0 && v == (s + d2) % n && Times(x, v) >= 0 && r == (Times(x, v) + d3) % n
    ensures Times(x, s) >= 0 && Times(x, d2) >= 0
    ensures r == (Times(x, s) + (Times(x, d2) + d3)) % n
  {
    hide Times;
    TimesNat(x, s);
    TimesNat(x, d2);
    ModTimes(x, s + d2, n);
    TimesAdd(x, s, d2);
    ModAdd(Times(x, v), d3, n);
    ModAdd(Times(x, s + d2), d3, n);
  }

  /** big_expmod with the exponent 3 computes the cube, but for what it loses. */
  lemma {:induction false} CubeValue(x: nat, m: Limbs)
    requires Normal(m) && x < Val(m) && 1 < Val(m)
    ensures ExpLoop(1, x, m, 2) == (Cube(x) + CubeLoss(x, m)) % Val(m)
  {
    hide Val, MulMod, Normal, Times, ExpLoop, Cube;
    MulModOne(x, m);
    var square := MulMod(x, x, m);
    ExpTwice(x, m);
    MulModValue(x, x, m);
    MulModValue(x, square.value, m);
    var cube := MulMod(x, square.value, m);
    ReducedTwice(x, Times(x, x), square.loss, cube.loss, Val(m), square.value, cube.value);
    CubeTimes(x);
  }

  lemma CubeTimes(x: nat)
    ensures Times(x, Times(x, x)) == Cube(x)
  {
  }

  lemma {:induction false} ExpTwice(x: nat, m: Limbs)
    requires Normal(m) && x < Val(m) && 1 < Val(m) && MulMod(1, x, m).value == x
    ensures ExpLoop(1, x, m, 2) == MulMod(x, MulMod(x, x, m).value, m).value
  {
    hide MulMod, Val, Normal;
    var n := MulMod(x, x, m).value;
    assert ExpLoop(MulMod(x, n, m).value, MulMod(n, n, m).value, m, 0) == MulMod(x, n, m).value;
    assert ExpLoop(x, n, m, 1) == MulMod(x, n, m).value;
  }

  /** The result is the cube exactly when the loss is a multiple of the modulus. */
  lemma {:induction false} CubeIff(x: nat, m: Limbs)
    requires Normal(m) && x < Val(m) && 1 < Val(m)
    ensures ExpLoop(1, x, m, 2) == Cube(x) % Val(m) <==> CubeLoss(x, m) % Val(m) == 0
  {
    hide Val, MulMod, Normal, Cube, CubeLoss, ExpLoop;
    CubeValue(x, m);
    ModShift(Cube(x), CubeLoss(x, m), Val(m));
  }
}
