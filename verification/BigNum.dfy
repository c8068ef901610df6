/** Numbers held in 32-bit limbs, low-order limb first, and their values. */
module BigNum {
  import opened Bytes

  type Limbs = seq<u32>

  //////////////////////////////////////////////////////////////////////////
  // Products of unknowns, kept out of sight of the linear reasoning.
  //////////////////////////////////////////////////////////////////////////

  function Times(a: int, b: int): int { a * b }

  lemma TimesAdd(p: int, a: int, b: int)
    ensures Times(p, a + b) == Times(p, a) + Times(p, b)
    ensures Times(a + b, p) == Times(a, p) + Times(b, p)
  {
  }

  lemma TimesAssociates(a: int, b: int, c: int)
    ensures Times(Times(a, b), c) == Times(a, Times(b, c)) == Times(b, Times(a, c))
  {
  }

  lemma TimesBase(a: int, b: int)
    ensures Times(0x1_0000_0000 * a, b) == 0x1_0000_0000 * Times(a, b) == Times(a, 0x1_0000_0000 * b)
  {
  }

  lemma TimesSmall(a: int)
    ensures Times(0, a) == 0 == Times(a, 0) && Times(1, a) == a == Times(a, 1) && Times(3, a) == 3 * a
    ensures Times(0xffff_ffff, a) == 0xffff_ffff * a
  {
  }

  lemma TimesNat(a: nat, b: nat)
    ensures Times(a, b) >= 0
  {
  }

  lemma TimesMonotone(a: int, b: int, x: nat)
    requires a <= b
    ensures Times(a, x) <= Times(b, x) && Times(x, a) <= Times(x, b)
  {
    TimesAdd(x, a, b - a);
  }

  lemma TimesCancel(a: int, b: int, p: nat)
    requires Times(a, p) < Times(b, p)
    ensures a < b
  {
    if a >= b {
      TimesMonotone(b, a, p);
    }
  }

  lemma Quotient(u: nat, d: nat)
    requires d > 0
    ensures Times(u / d, d) <= u < Times(u / d, d) + d
  {
    assert u == u / d * d + u % d;
  }

  lemma {:induction false} ModUnique(a: nat, b: nat, q: nat, n: nat)
    requires a == b + Times(q, n) && b < n
    ensures a % n == b
  {
    assert a == a / n * n + a % n;
    if a / n > q {
      TimesMonotone(q + 1, a / n, n);
      TimesAdd(n, q, 1);
    } else if a / n < q {
      TimesMonotone(a / n + 1, q, n);
      TimesAdd(n, a / n, 1);
    }
  }

  //////////////////////////////////////////////////////////////////////////
  // The value of a limb sequence.
  //////////////////////////////////////////////////////////////////////////

  function Power(k: nat): (p: nat)
    ensures p > 0
  {
    if k == 0 then 1 else 0x1_0000_0000 * Power(k - 1)
  }

  function Val(s: Limbs): nat {
    if s == [] then 0 else s[0] + 0x1_0000_0000 * Val(s[1..])
  }

  lemma {:induction false} ValConcat(a: Limbs, b: Limbs)
    ensures Val(a + b) == Val(a) + Times(Power(|a|), Val(b))
  {
    if a == [] {
      assert a + b == b;
    } else {
      hide Times;
      ValConcat(a[1..], b);
      assert (a + b)[1..] == a[1..] + b;
      TimesBase(Power(|a| - 1), Val(b));
    }
  }

  lemma ValFirst(s: Limbs)
    requires s != []
    ensures Val(s) == s[0] + 0x1_0000_0000 * Val(s[1..])
  {
  }

  lemma ValOne(x: u32)
    ensures Val([x]) == x && Power(1) == 0x1_0000_0000
  {
    assert [x][1..] == [];
    assert Power(1) == 0x1_0000_0000 * Power(0);
  }

  lemma {:induction false} ValAppend(s: Limbs, x: u32)
    ensures Val(s + [x]) == Val(s) + Times(Power(|s|), x)
  {
    hide Times;
    ValConcat(s, [x]);
    ValOne(x);
  }

  lemma ValPrefix(s: Limbs, j: nat)
    requires 0 < j <= |s|
    ensures Val(s[..j]) == Val(s[..j - 1]) + Times(Power(j - 1), s[j - 1])
  {
    assert s[..j] == s[..j - 1] + [s[j - 1]];
    ValAppend(s[..j - 1], s[j - 1]);
  }

  lemma {:induction false} ValBound(s: Limbs)
    ensures Val(s) < Power(|s|)
  {
    if s != [] {
      ValBound(s[1..]);
    }
  }

  lemma {:induction false} ValInjective(a: Limbs, b: Limbs)
    requires |a| == |b| && Val(a) == Val(b)
    ensures a == b
  {
    if a != [] {
      ValInjective(a[1..], b[1..]);
      assert a == [a[0]] + a[1..] && b == [b[0]] + b[1..];
    }
  }

  /** The topmost limb decides the magnitude. */
  lemma ValTop(s: Limbs)
    requires |s| > 0
    ensures var p, t := Power(|s| - 1), s[|s| - 1]; Times(t, p) <= Val(s) < Times(t, p) + p
  {
    var n := |s| - 1;
    assert s == s[..n] + [s[n]];
    ValAppend(s[..n], s[n]);
    ValBound(s[..n]);
    assert Times(Power(n), s[n]) == Times(s[n], Power(n));
  }

  function Zeros(n: nat): (z: Limbs)
    ensures |z| == n
  {
    seq(n, _ => 0)
  }

  lemma {:induction false} ValZeros(n: nat)
    ensures Val(Zeros(n)) == 0
  {
    if n > 0 {
      ValZeros(n - 1);
      assert Zeros(n)[1..] == Zeros(n - 1);
    }
  }

  /** The n low-order limbs of v. */
  function Limb(v: nat, n: nat): (s: Limbs)
    ensures |s| == n
  {
    if n == 0 then [] else [v % 0x1_0000_0000] + Limb(v / 0x1_0000_0000, n - 1)
  }

  lemma {:induction false} ValLimb(v: nat, n: nat)
    requires v < Power(n)
    ensures Val(Limb(v, n)) == v
  {
    if n > 0 {
      ValLimb(v / 0x1_0000_0000, n - 1);
      assert Limb(v, n)[1..] == Limb(v / 0x1_0000_0000, n - 1);
    }
  }
}
