/** The limb-by-limb steps of enc_type_1.c as functions, and what they do to the
    values. The loops of EncType1 compute exactly these functions. */
module Division {
  import opened Bytes
  import opened BigNum

  /** One limb of a result and the carry or borrow that leaves it. */
  datatype Step = Step(limb: u32, carry: u32)

  datatype Row = Row(limbs: Limbs, carry: u32)

  //////////////////////////////////////////////////////////////////////////
  // big_mul: adding a multiple.
  //////////////////////////////////////////////////////////////////////////

  lemma MulFits(a: u32, b: u32)
    ensures 0 <= Times(a, b) <= 0xffff_ffff * 0xffff_ffff
  {
    hide Times;
    TimesNat(a, b);
    TimesSmall(b);
    TimesMonotone(a, 0xffff_ffff, b);
  }

  /** The body of big_mul's inner loop; the sum fits in 64 bits. */
  function MulAdd(k: u32, w: u32, x: u32, m: u32): (s: Step)
    ensures s.limb + 0x1_0000_0000 * s.carry == k + w + Times(x, m)
  {
    MulFits(x, m);
    var t := k + (w + Times(x, m));
    Step(t % 0x1_0000_0000, t / 0x1_0000_0000)
  }

  /** The first j limbs of w + x * m, and the carry out of them. */
  function MulRow(w: Limbs, x: u32, m: Limbs, j: nat): (r: Row)
    requires j <= |w| && j <= |m|
    ensures |r.limbs| == j
  {
    if j == 0 then Row([], 0)
    else
      var p := MulRow(w, x, m, j - 1);
      var s := MulAdd(p.carry, w[j - 1], x, m[j - 1]);
      Row(p.limbs + [s.limb], s.carry)
  }

  /** A step at weight q of an equation between sums. */
  lemma Weigh(q: nat, a: int, b: int, c: int, d: int, e: int)
    requires a + 0x1_0000_0000 * b == c + d + e
    ensures Times(q, a) + Times(0x1_0000_0000 * q, b) == Times(q, c) + Times(q, d) + Times(q, e)
  {
    hide Times;
    TimesAdd(q, a, 0x1_0000_0000 * b);
    TimesBase(q, b);
    TimesAdd(q, c + d, e);
    TimesAdd(q, c, d);
  }

  /** A multiple of a number with one more limb. */
  lemma TimesLimb(x: int, v: int, q: nat, m: int)
    ensures Times(x, v + Times(q, m)) == Times(x, v) + Times(q, Times(x, m))
  {
    hide Times;
    TimesAdd(x, v, Times(q, m));
    TimesAssociates(x, q, m);
  }

  lemma {:induction false} MulRowValue(w: Limbs, x: u32, m: Limbs, j: nat)
    requires j <= |w| && j <= |m|
    ensures var r := MulRow(w, x, m, j);
            Val(r.limbs) + Times(Power(j), r.carry) == Val(w[..j]) + Times(x, Val(m[..j]))
  {
    if j > 0 {
      hide Times, MulAdd;
      MulRowValue(w, x, m, j - 1);
      var p := MulRow(w, x, m, j - 1);
      var s := MulAdd(p.carry, w[j - 1], x, m[j - 1]);
      ValPrefix(w, j);
      ValPrefix(m, j);
      ValAppend(p.limbs, s.limb);
      Weigh(Power(j - 1), s.limb, s.carry, p.carry, w[j - 1], Times(x, m[j - 1]));
      TimesLimb(x, Val(m[..j - 1]), Power(j - 1), m[j - 1]);
    }
  }

  //////////////////////////////////////////////////////////////////////////
  // big_mod: subtracting a multiple, then the modulus itself.
  //////////////////////////////////////////////////////////////////////////

  function Sub32(a: u32, b: u32): u32 {
    (a - b) % 0x1_0000_0000
  }

  lemma Sub32Value(a: u32, b: u32)
    ensures Sub32(a, b) == if b <= a then a - b else a - b + 0x1_0000_0000
  {
  }

  /** The body of big_mod's first inner loop. */
  function MulSub(l: u32, w: u32, k: u32, m: u32): (s: Step)
    ensures s.limb + Times(k, m) + l == w + 0x1_0000_0000 * s.carry
  {
    MulFits(k, m);
    var x := Times(k, m) + l;
    var low := x % 0x1_0000_0000;
    Step(Sub32(w, low), x / 0x1_0000_0000 + if w < low then 1 else 0)
  }

  function MulSubRow(w: Limbs, k: u32, m: Limbs, j: nat): (r: Row)
    requires j <= |w| && j <= |m|
    ensures |r.limbs| == j
  {
    if j == 0 then Row([], 0)
    else
      var p := MulSubRow(w, k, m, j - 1);
      var s := MulSub(p.carry, w[j - 1], k, m[j - 1]);
      Row(p.limbs + [s.limb], s.carry)
  }

  lemma {:induction false} MulSubRowValue(w: Limbs, k: u32, m: Limbs, j: nat)
    requires j <= |w| && j <= |m|
    ensures var r := MulSubRow(w, k, m, j);
            Val(r.limbs) + Times(k, Val(m[..j])) == Val(w[..j]) + Times(Power(j), r.carry)
  {
    if j > 0 {
      hide Times, MulSub;
      MulSubRowValue(w, k, m, j - 1);
      var p := MulSubRow(w, k, m, j - 1);
      var s := MulSub(p.carry, w[j - 1], k, m[j - 1]);
      ValPrefix(w, j);
      ValPrefix(m, j);
      ValAppend(p.limbs, s.limb);
      Weigh(Power(j - 1), w[j - 1], s.carry, s.limb, Times(k, m[j - 1]), p.carry);
      TimesLimb(k, Val(m[..j - 1]), Power(j - 1), m[j - 1]);
    }
  }

  /** The body of the correction loop's inner loop. The borrow is subtracted first,
      and whether that wrapped is forgotten. */
  function Correct1(l: u32, w: u32, m: u32): (s: Step)
    ensures s.carry <= 1
  {
    var a := Sub32(w, l);
    Step(Sub32(a, m), if a < m then 1 else 0)
  }

  /** A borrow is dropped when it meets a zero limb. */
  predicate Dropped(l: u32, w: u32) {
    l == 1 && w == 0
  }

  lemma Correct1Value(l: u32, w: u32, m: u32)
    requires l <= 1
    ensures var s := Correct1(l, w, m);
            s.limb + m + l == w + 0x1_0000_0000 * (s.carry + if Dropped(l, w) then 1 else 0)
  {
  }

  /** One correction pass over the first j limbs. */
  function PassRow(w: Limbs, m: Limbs, j: nat): (r: Row)
    requires j <= |w| && j <= |m|
    ensures |r.limbs| == j && r.carry <= 1
  {
    if j == 0 then Row([], 0)
    else
      var p := PassRow(w, m, j - 1);
      var s := Correct1(p.carry, w[j - 1], m[j - 1]);
      Row(p.limbs + [s.limb], s.carry)
  }

  /** What the pass loses: a power of the base for every borrow it drops. */
  function PassLoss(w: Limbs, m: Limbs, j: nat): nat
    requires j <= |w| && j <= |m|
  {
    if j == 0 then 0
    else PassLoss(w, m, j - 1) + if Dropped(PassRow(w, m, j - 1).carry, w[j - 1]) then Power(j) else 0
  }

  lemma {:induction false} PassRowValue(w: Limbs, m: Limbs, j: nat)
    requires j <= |w| && j <= |m|
    ensures var r := PassRow(w, m, j);
            Val(r.limbs) + Val(m[..j]) == Val(w[..j]) + Times(Power(j), r.carry) + PassLoss(w, m, j)
  {
    if j == 0 {
      TimesSmall(Power(0));
    } else {
      hide Times, Val, PassRow, PassLoss;
      PassRowValue(w, m, j - 1);
      PassRowStep(w, m, j);
    }
  }

  lemma {:induction false} PassRowStep(w: Limbs, m: Limbs, j: nat)
    requires 0 < j <= |w| && j <= |m|
    requires var p := PassRow(w, m, j - 1);
             Val(p.limbs) + Val(m[..j - 1]) ==
             Val(w[..j - 1]) + Times(Power(j - 1), p.carry) + PassLoss(w, m, j - 1)
    ensures var r := PassRow(w, m, j);
            Val(r.limbs) + Val(m[..j]) == Val(w[..j]) + Times(Power(j), r.carry) + PassLoss(w, m, j)
  {
    hide Times, Correct1, Val;
    TimesSmall(Power(j));
    var p := PassRow(w, m, j - 1);
    var s := Correct1(p.carry, w[j - 1], m[j - 1]);
    ValPrefix(w, j);
    ValPrefix(m, j);
    ValAppend(p.limbs, s.limb);
    Correct1Value(p.carry, w[j - 1], m[j - 1]);
    var d := if Dropped(p.carry, w[j - 1]) then 1 else 0;
    Weigh(Power(j - 1), w[j - 1], s.carry + d, s.limb, m[j - 1], p.carry);
    TimesAdd(Power(j), s.carry, d);
  }

  //////////////////////////////////////////////////////////////////////////
  // One digit of big_mod: a window of one limb more than the modulus.
  //////////////////////////////////////////////////////////////////////////

  datatype Window = Window(low: Limbs, top: u32)

  function WindowVal(w: Window): nat {
    TimesNat(Power(|w.low|), w.top);
    Val(w.low) + Times(Power(|w.low|), w.top)
  }

  function Pass(w: Window, m: Limbs): (r: Window)
    requires |w.low| == |m|
    ensures |r.low| == |m|
  {
    var r := PassRow(w.low, m, |m|);
    Window(r.limbs, Sub32(w.top, r.carry))
  }

  function Loss(w: Window, m: Limbs): nat
    requires |w.low| == |m|
  {
    PassLoss(w.low, m, |m|)
  }

  /** The test of the correction loop. */
  predicate Over(w: Window, m: Limbs) {
    w.top != 0 || Val(w.low) >= Val(m)
  }

  /** Whatever is dropped, the top limb never wraps below zero. */
  lemma {:induction false} TopSuffices(w: Window, m: Limbs)
    requires |w.low| == |m| && Over(w, m)
    ensures PassRow(w.low, m, |m|).carry <= w.top
  {
    var r := PassRow(w.low, m, |m|);
    if r.carry == 1 && w.top == 0 {
      PassRowValue(w.low, m, |m|);
      assert w.low[..|m|] == w.low && m[..|m|] == m;
      ValBound(r.limbs);
      TimesSmall(Power(|m|));
      assert false;
    }
  }

  /** A pass subtracts the modulus and adds what it loses. */
  lemma {:induction false} PassValue(w: Window, m: Limbs)
    requires |w.low| == |m| && Over(w, m)
    ensures WindowVal(Pass(w, m)) + Val(m) == WindowVal(w) + Loss(w, m)
  {
    hide Times, Sub32, PassRow, PassLoss;
    TopSuffices(w, m);
    PassRowValue(w.low, m, |m|);
    assert w.low[..|m|] == w.low && m[..|m|] == m;
    var c := PassRow(w.low, m, |m|).carry;
    Sub32Value(w.top, c);
    TimesAdd(Power(|m|), w.top - c, c);
  }

  /** The top bit of the modulus is set. */
  predicate Normal(m: Limbs) {
    |m| > 0 && 0x8000_0000 <= m[|m| - 1]
  }

  /** How many passes can go by before the top limb has to fall, for a limb a
      below it and the top limb t of the modulus. */
  function LimbPhase(a: u32, t: u32): nat {
    if a >= t then 2 else if a == 0 then 1 else 0
  }

  function Phase(w: Window, m: Limbs): nat
    requires |w.low| == |m| > 0
  {
    LimbPhase(w.low[|m| - 1], m[|m| - 1])
  }

  lemma LimbPhaseFalls(l: u32, a: u32, t: u32)
    requires l <= 1 && 0x8000_0000 <= t && Correct1(l, a, t).carry == 0
    ensures LimbPhase(Correct1(l, a, t).limb, t) < LimbPhase(a, t) ||
            (l == 1 && LimbPhase(Correct1(l, a, t).limb, t) == LimbPhase(a, t))
  {
    Sub32Value(a, l);
    Sub32Value(Sub32(a, l), t);
  }

  /** How far the limbs below the top one can still rise. */
  function Room(w: Window, m: Limbs): nat
    requires |w.low| == |m| > 0
  {
    ValBound(w.low[..|m| - 1]);
    Power(|m| - 1) - Val(w.low[..|m| - 1])
  }

  /** A row that leaves a borrow leaves a larger number. */
  lemma RowRises(w: Limbs, m: Limbs, n: nat)
    requires n <= |w| && n <= |m| && PassRow(w, m, n).carry == 1
    ensures Val(PassRow(w, m, n).limbs) > Val(w[..n])
  {
    PassRowValue(w, m, n);
    ValBound(m[..n]);
    TimesSmall(Power(n));
  }

  /** The correction loop ends even when it drops borrows: a pass lowers the top
      limb or, that left alone, the phase of the limb below it or, that left alone
      too, the room above the other limbs. */
  lemma {:induction false} PassProgress(w: Window, m: Limbs)
    requires |w.low| == |m| && Normal(m) && Over(w, m)
    ensures var r := Pass(w, m);
            r.top < w.top ||
            (r.top == w.top &&
             (Phase(r, m) < Phase(w, m) || (Phase(r, m) == Phase(w, m) && Room(r, m) < Room(w, m))))
  {
    TopSuffices(w, m);
    var n := |m| - 1;
    var p := PassRow(w.low, m, n);
    var s := Correct1(p.carry, w.low[n], m[n]);
    assert PassRow(w.low, m, n + 1) == Row(p.limbs + [s.limb], s.carry);
    Sub32Value(w.top, s.carry);
    hide Correct1, Sub32, LimbPhase, PassRow, Val;
    if s.carry == 0 {
      LimbPhaseFalls(p.carry, w.low[n], m[n]);
      if p.carry == 1 {
        RowRises(w.low, m, n);
        assert Pass(w, m).low[..n] == p.limbs;
      }
    }
  }

  /** With a zero limb on top of the modulus the limb above the window never falls: the
      loop does not end unless that is zero too. */
  lemma NeverEnds(w: Window, m: Limbs)
    requires |w.low| == |m| > 0 && m[|m| - 1] == 0 && w.top != 0
    ensures Over(w, m) && Pass(w, m).top == w.top
  {
    var n := |m| - 1;
    var p := PassRow(w.low, m, n);
    assert Correct1(p.carry, w.low[n], 0).carry == 0;
    assert PassRow(w.low, m, n + 1).carry == 0;
  }

  datatype Correction = Correction(rem: Limbs, loss: nat, passes: nat)

  /** The correction loop. */
  function Correct(w: Window, m: Limbs): (c: Correction)
    requires |w.low| == |m| && Normal(m)
    ensures |c.rem| == |m|
    decreases w.top, Phase(w, m), Room(w, m)
  {
    if !Over(w, m) then Correction(w.low, 0, 0)
    else
      PassProgress(w, m);
      var c := Correct(Pass(w, m), m);
      Correction(c.rem, c.loss + Loss(w, m), c.passes + 1)
  }

  lemma {:induction false} CorrectValue(w: Window, m: Limbs)
    requires |w.low| == |m| && Normal(m)
    ensures var c := Correct(w, m);
            WindowVal(w) + c.loss == Val(c.rem) + Times(c.passes, Val(m)) && Val(c.rem) < Val(m)
    decreases w.top, Phase(w, m), Room(w, m)
  {
    hide Times, Loss, Pass, Phase, Room, Normal;
    TimesSmall(Val(m));
    if Over(w, m) {
      PassProgress(w, m);
      PassValue(w, m);
      CorrectValue(Pass(w, m), m);
      TimesAdd(Val(m), Correct(Pass(w, m), m).passes, 1);
    } else {
      TimesSmall(Power(|m|));
    }
  }

  //////////////////////////////////////////////////////////////////////////
  // The estimated digit.
  //////////////////////////////////////////////////////////////////////////

  /** The two top limbs of a window as a number. */
  function TopTwo(w: Window): nat
    requires |w.low| > 0
  {
    0x1_0000_0000 * w.top + w.low[|w.low| - 1]
  }

  /** The digit estimated from the two top limbs and the top limb of the modulus. */
  function Estimate(w: Window, m: Limbs): nat
    requires |w.low| == |m| > 0
  {
    TopTwo(w) / (m[|m| - 1] as nat + 1)
  }

  /** The two top limbs decide the window as one limb decides a number. */
  lemma WindowTop(w: Window)
    requires |w.low| > 0
    ensures var q := Power(|w.low| - 1);
            Times(TopTwo(w), q) <= WindowVal(w) < Times(TopTwo(w), q) + q
  {
    var q, a := Power(|w.low| - 1), w.low[|w.low| - 1];
    ValTop(w.low);
    assert Power(|w.low|) == 0x1_0000_0000 * q;
    assert Times(q, w.top) == Times(w.top, q);
    hide Times, Val, Power;
    TimesBase(q, w.top);
    TimesBase(w.top, q);
    TimesAdd(q, 0x1_0000_0000 * w.top, a);
  }

  lemma {:induction false} EstimateFits(q: nat, t: nat, u: nat, n: nat, v: nat, k: nat)
    requires Times(u, q) <= v < 0x1_0000_0000 * n && n < Times(t + 1, q) && Times(k, t + 1) <= u
    ensures k <= 0xffff_ffff
  {
    hide Times;
    TimesBase(t + 1, q);
    TimesCancel(u, 0x1_0000_0000 * (t + 1), q);
    TimesBase(1, t + 1);
    TimesSmall(t + 1);
    TimesCancel(k, 0x1_0000_0000, t + 1);
  }

  lemma EstimateBelow(k: nat, t: nat, q: nat, u: nat, n: nat, v: nat)
    requires Times(k, t + 1) <= u && Times(u, q) <= v && n < Times(t + 1, q)
    ensures Times(k, n) <= v
  {
    hide Times;
    TimesMonotone(n, Times(t + 1, q), k);
    TimesAssociates(k, t + 1, q);
    TimesMonotone(Times(k, t + 1), u, q);
  }

  lemma {:induction false} EstimateAbove(k: nat, t: nat, q: nat, u: nat, n: nat, v: nat)
    requires u < Times(k, t + 1) + t + 1 && v < Times(u, q) + q && Times(t, q) <= n
    requires k <= 0xffff_ffff && 0x8000_0000 <= t
    ensures v < Times(k, n) + 3 * n
  {
    hide Times;
    TimesAdd(k, t, 1);
    TimesSmall(k);
    TimesSmall(q);
    assert u + 1 <= Times(k, t) + 3 * t;
    TimesAdd(q, u, 1);
    TimesMonotone(u + 1, Times(k, t) + 3 * t, q);
    TimesAdd(q, Times(k, t), 3 * t);
    TimesSmall(t);
    TimesAssociates(k, t, q);
    TimesAssociates(3, t, q);
    TimesSmall(Times(t, q));
    TimesMonotone(Times(t, q), n, k);
  }

  lemma {:induction false} EstimateArith(q: nat, t: nat, u: nat, n: nat, v: nat)
    requires 0x8000_0000 <= t && Times(u, q) <= v < Times(u, q) + q
    requires Times(t, q) <= n < Times(t, q) + q && v < 0x1_0000_0000 * n
    ensures var k := u / (t + 1); k <= 0xffff_ffff && Times(k, n) <= v < Times(k, n) + 3 * n
  {
    hide Times;
    var k := u / (t + 1);
    Quotient(u, t + 1);
    TimesAdd(q, t, 1);
    TimesSmall(q);
    EstimateFits(q, t, u, n, v, k);
    EstimateBelow(k, t, q, u, n, v);
    EstimateAbove(k, t, q, u, n, v);
  }

  /** The estimate never exceeds the digit, and falls short of it by two at most. */
  lemma EstimateBounds(w: Window, m: Limbs)
    requires |w.low| == |m| && Normal(m) && WindowVal(w) < 0x1_0000_0000 * Val(m)
    ensures var k := Estimate(w, m);
            k <= 0xffff_ffff && Times(k, Val(m)) <= WindowVal(w) < Times(k, Val(m)) + 3 * Val(m)
  {
    hide WindowVal, Val, Power, Times, TopTwo;
    WindowTop(w);
    ValTop(m);
    EstimateArith(Power(|m| - 1), m[|m| - 1], TopTwo(w), Val(m), WindowVal(w));
  }

  /** The window less the estimated multiple of the modulus. */
  function Reduce(w: Window, m: Limbs): (r: Window)
    requires |w.low| == |m| && Normal(m) && WindowVal(w) < 0x1_0000_0000 * Val(m)
    ensures |r.low| == |m|
  {
    EstimateBounds(w, m);
    var r := MulSubRow(w.low, Estimate(w, m), m, |m|);
    Window(r.limbs, Sub32(w.top, r.carry))
  }

  lemma {:induction false} NoWrap(p: nat, top: nat, c: nat, l: nat, v: nat, n: nat)
    requires l + n == v + Times(p, c) && n <= v + Times(p, top) && l < p
    ensures c <= top
  {
    if c > top {
      hide Times;
      TimesMonotone(top + 1, c, p);
      TimesAdd(p, top, 1);
      TimesSmall(p);
    }
  }

  lemma {:induction false} ReduceValue(w: Window, m: Limbs)
    requires |w.low| == |m| && Normal(m) && WindowVal(w) < 0x1_0000_0000 * Val(m)
    ensures WindowVal(Reduce(w, m)) + Times(Estimate(w, m), Val(m)) == WindowVal(w)
  {
    hide Times, MulSubRow, Val, Power, Sub32, Estimate;
    EstimateBounds(w, m);
    var k := Estimate(w, m);
    TimesNat(k, Val(m));
    var r := MulSubRow(w.low, k, m, |m|);
    MulSubRowValue(w.low, k, m, |m|);
    assert w.low[..|m|] == w.low && m[..|m|] == m;
    ValBound(r.limbs);
    NoWrap(Power(|m|), w.top, r.carry, Val(r.limbs), Val(w.low), Times(k, Val(m)));
    Sub32Value(w.top, r.carry);
    TimesAdd(Power(|m|), w.top - r.carry, r.carry);
  }

  /** A digit is divided out exactly when no correction drops a borrow, and then two
      corrections are enough. */
  lemma {:induction false} DigitValue(w: Window, m: Limbs)
    requires |w.low| == |m| && Normal(m) && WindowVal(w) < 0x1_0000_0000 * Val(m)
    ensures var k, c := Estimate(w, m), Correct(Reduce(w, m), m);
            WindowVal(w) + c.loss == Val(c.rem) + Times(k + c.passes, Val(m)) &&
            Val(c.rem) < Val(m) &&
            (c.loss == 0 ==> c.passes <= 2)
  {
    hide Times, Estimate, Correct, Reduce, WindowVal, Normal, Val;
    EstimateBounds(w, m);
    ReduceValue(w, m);
    CorrectValue(Reduce(w, m), m);
    var k, c := Estimate(w, m), Correct(Reduce(w, m), m);
    TimesAdd(Val(m), k, c.passes);
    if c.loss == 0 {
      TimesSmall(Val(m));
      TimesCancel(c.passes, 3, Val(m));
    }
  }

  //////////////////////////////////////////////////////////////////////////
  // big_mod: digit by digit from the top.
  //////////////////////////////////////////////////////////////////////////

  datatype Remainder = Remainder(rem: Limbs, loss: nat)

  /** A remainder with the next digit below it. */
  function Shifted(x: u32, rem: Limbs): (w: Window)
    requires |rem| > 0
    ensures |w.low| == |rem|
  {
    Window([x] + rem[..|rem| - 1], rem[|rem| - 1])
  }

  lemma ShiftedLimbs(x: u32, rem: Limbs)
    requires |rem| > 0
    ensures var w := Shifted(x, rem); w.low + [w.top] == [x] + rem
  {
  }

  lemma {:induction false} ShiftedValue(x: u32, rem: Limbs)
    requires |rem| > 0
    ensures WindowVal(Shifted(x, rem)) == x + 0x1_0000_0000 * Val(rem)
  {
    hide Times, Val, Power, Shifted;
    var w := Shifted(x, rem);
    ValAppend(w.low, w.top);
    ShiftedLimbs(x, rem);
    ValConcat([x], rem);
    ValOne(x);
    TimesBase(1, Val(rem));
    TimesSmall(Val(rem));
  }

  function Digit(x: u32, rem: Limbs, m: Limbs): (c: Correction)
    requires |rem| == |m| && Normal(m) && Val(rem) < Val(m)
    ensures |c.rem| == |m| && Val(c.rem) < Val(m)
  {
    ShiftedValue(x, rem);
    DigitValue(Shifted(x, rem), m);
    Correct(Reduce(Shifted(x, rem), m), m)
  }

  /** What big_mod leaves of the limbs `low` below a remainder, and all that its
      correction passes lose, each loss at the weight of its window. */
  function Divide(low: Limbs, rem: Limbs, m: Limbs): (r: Remainder)
    requires |rem| == |m| && Normal(m) && Val(rem) < Val(m)
    ensures |r.rem| == |m| && Val(r.rem) < Val(m)
    decreases |low|
  {
    if low == [] then Remainder(rem, 0)
    else
      var n := |low| - 1;
      var c := Digit(low[n], rem, m);
      var r := Divide(low[..n], c.rem, m);
      TimesNat(Power(n), c.loss);
      Remainder(r.rem, r.loss + Times(Power(n), c.loss))
  }

  lemma DivideStep(p: nat, lowV: nat, x: nat, remV: nat, rem1: nat, loss1: nat, k: nat, n: nat,
                   out: nat, loss: nat, q: nat)
    requires x + 0x1_0000_0000 * remV + loss1 == rem1 + Times(k, n)
    requires lowV + Times(p, rem1) + loss == out + Times(q, n)
    ensures (lowV + Times(p, x)) + Times(0x1_0000_0000 * p, remV) + (loss + Times(p, loss1)) ==
            out + Times(q + Times(p, k), n)
  {
    hide Times;
    TimesAdd(p, x + 0x1_0000_0000 * remV, loss1);
    TimesAdd(p, x, 0x1_0000_0000 * remV);
    TimesBase(p, remV);
    TimesAdd(p, rem1, Times(k, n));
    TimesAssociates(p, k, n);
    TimesAdd(n, q, Times(p, k));
  }

  /** What was divided, and what was lost, is a multiple of the modulus off the
      remainder. */
  lemma {:induction false} DivideValue(low: Limbs, rem: Limbs, m: Limbs) returns (q: nat)
    requires |rem| == |m| && Normal(m) && Val(rem) < Val(m)
    ensures var r := Divide(low, rem, m);
            Val(low + rem) + r.loss == Val(r.rem) + Times(q, Val(m))
    decreases |low|
  {
    hide Times, Val, Estimate, Correct, Reduce, WindowVal, Shifted, Normal;
    ValConcat(low, rem);
    if low == [] {
      q := 0;
      TimesSmall(Val(m));
      assert low + rem == rem;
    } else {
      var n := |low| - 1;
      ShiftedValue(low[n], rem);
      DigitValue(Shifted(low[n], rem), m);
      var k, c := Estimate(Shifted(low[n], rem), m), Digit(low[n], rem, m);
      var q1 := DivideValue(low[..n], c.rem, m);
      ValConcat(low[..n], c.rem);
      ValPrefix(low, n + 1);
      assert low[..n + 1] == low;
      var r := Divide(low[..n], c.rem, m);
      DivideStep(Power(n), Val(low[..n]), low[n], Val(rem), Val(c.rem), c.loss, k + c.passes,
                 Val(m), Val(r.rem), r.loss, q1);
      TimesNat(Power(n), k + c.passes);
      q := q1 + Times(Power(n), k + c.passes);
    }
  }

  /** big_mod(in) is in plus what the corrections lose, modulo m. */
  lemma {:induction false} ModValue(input: Limbs, m: Limbs)
    requires |m| <= |input| && Normal(m) && Val(input[|input| - |m|..]) < Val(m)
    ensures var d := |input| - |m|;
            var r := Divide(input[..d], input[d..], m);
            Val(r.rem) == (Val(input) + r.loss) % Val(m)
  {
    hide Times, Val, Divide, Normal;
    var d := |input| - |m|;
    assert input == input[..d] + input[d..];
    var q := DivideValue(input[..d], input[d..], m);
    var r := Divide(input[..d], input[d..], m);
    ModUnique(Val(input) + r.loss, Val(r.rem), q, Val(m));
  }

  lemma {:induction false} ModShift(a: nat, d: nat, n: nat)
    requires n > 0
    ensures (a + d) % n == a % n <==> d % n == 0
  {
    hide Times;
    var qa, qd := a / n, d / n;
    DivMod(a, n);
    DivMod(d, n);
    TimesAdd(n, qa, qd);
    if a % n + d % n < n {
      ModUnique(a + d, a % n + d % n, qa + qd, n);
    } else {
      TimesAdd(n, qa + qd, 1);
      TimesSmall(n);
      ModUnique(a + d, a % n + d % n - n, qa + qd + 1, n);
    }
  }

  lemma DivMod(a: nat, n: nat)
    requires n > 0
    ensures a == Times(a / n, n) + a % n
  {
  }

  /** big_mod is the remainder exactly when what it loses is a multiple of the
      modulus, in particular when it loses nothing. */
  lemma {:induction false} ModExactIff(input: Limbs, m: Limbs)
    requires |m| <= |input| && Normal(m) && Val(input[|input| - |m|..]) < Val(m)
    ensures var d := |input| - |m|;
            var r := Divide(input[..d], input[d..], m);
            Val(r.rem) == Val(input) % Val(m) <==> r.loss % Val(m) == 0
  {
    hide Times, Val, Divide, Normal;
    ModValue(input, m);
    var d := |input| - |m|;
    ModShift(Val(input), Divide(input[..d], input[d..], m).loss, Val(m));
  }

  /** Numbers below the modulus come through unchanged and lose nothing. */
  lemma {:induction false} DivideSmall(low: Limbs, rem: Limbs, m: Limbs)
    requires |rem| == |m| && Normal(m) && Val(low + rem) < Val(m) && Val(rem) < Val(m)
    ensures var r := Divide(low, rem, m); Val(r.rem) == Val(low + rem) && r.loss == 0
    decreases |low|
  {
    hide Times, Val, Estimate, Reduce, Shifted, Normal, Correct, WindowVal, Power;
    if low == [] {
      assert low + rem == rem;
    } else {
      var n := |low| - 1;
      var w := Shifted(low[n], rem);
      ShiftedValue(low[n], rem);
      ValConcat(low[..n], [low[n]] + rem);
      assert low[..n] + ([low[n]] + rem) == low + rem;
      ValConcat([low[n]], rem);
      ValOne(low[n]);
      TimesBase(1, Val(rem));
      TimesSmall(Val(rem));
      assert WindowVal(w) == Val([low[n]] + rem);
      TimesSmall(WindowVal(w));
      TimesMonotone(1, Power(n), WindowVal(w));
      DigitSmall(w, m);
      var c := Digit(low[n], rem, m);
      ValConcat(low[..n], c.rem);
      DivideSmall(low[..n], c.rem, m);
      TimesSmall(Power(n));
    }
  }

  /** A window below the modulus needs no digit and no correction. */
  lemma {:induction false} DigitSmall(w: Window, m: Limbs)
    requires |w.low| == |m| && Normal(m) && WindowVal(w) < Val(m)
    ensures var c := Correct(Reduce(w, m), m); Val(c.rem) == WindowVal(w) && c.loss == 0
  {
    hide Times, Val, Estimate, Reduce;
    EstimateBounds(w, m);
    ReduceValue(w, m);
    var k, r := Estimate(w, m), Reduce(w, m);
    TimesSmall(Val(m));
    TimesCancel(k, 1, Val(m));
    assert k == 0;
    ValBound(m);
    if r.top > 0 {
      TimesMonotone(1, r.top, Power(|m|));
      TimesSmall(Power(|m|));
      assert false;
    }
    TimesSmall(Power(|m|));
  }
}
