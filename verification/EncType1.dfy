/** enc_type_1.c: 2048-bit arithmetic in place, over arrays of 32-bit limbs. */
module EncType1 {
  import opened Bytes
  import opened BigNum
  import opened Division
  import opened ModPow
  import opened Exact

  //////////////////////////////////////////////////////////////////////////
  // big_mul.
  //////////////////////////////////////////////////////////////////////////

  lemma Whole(a: array<u32>, i: nat, cnt: nat)
    requires i + cnt < a.Length
    ensures a[..] == a[..i] + a[i..i + cnt] + [a[i + cnt]] + a[i + cnt + 1..]
  {
  }

  /** The inner loop of big_mul and the carry stored after it. */
  method AddMultiple(cnt: nat, out: array<u32>, i: nat, x: u32, in2: array<u32>)
    requires i + cnt < out.Length && cnt <= in2.Length && out != in2
    modifies out
    ensures var r := MulRow(old(out[i..i + cnt]), x, in2[..cnt], cnt);
            out[..] == old(out[..i]) + r.limbs + [r.carry] + old(out[i + cnt + 1..])
  {
    hide MulAdd;
    ghost var w, m := out[i..i + cnt], in2[..cnt];
    var k: u32 := 0;
    for j := 0 to cnt
      invariant out[..i] == old(out[..i]) && out[i + j..] == old(out[i + j..])
      invariant out[i..i + j] == MulRow(w, x, m, j).limbs && k == MulRow(w, x, m, j).carry
    {
      assert w[j] == out[i + j] && m[j] == in2[j];
      var s := MulAdd(k, out[i + j], x, in2[j]);
      out[i + j] := s.limb;
      k := s.carry;
      assert out[i..i + j + 1] == out[i..i + j] + [s.limb];
    }
    out[i + cnt] := k;
    Whole(out, i, cnt);
  }

  /** One more row: the product with one more limb of the first factor. */
  lemma {:induction false} AddMultipleValue(before: Limbs, w: Limbs, x: u32, m: Limbs, a: Limbs)
    requires |w| == |m| && |a| == |before|
    requires Val(before + w) == Times(Val(a), Val(m))
    ensures var r := MulRow(w, x, m, |m|);
            Val(before + r.limbs + [r.carry]) == Times(Val(a + [x]), Val(m))
  {
    hide Times, Val, Power, MulRow;
    var r := MulRow(w, x, m, |m|);
    var p := Power(|before|);
    RowAbove(before, w, x, m);
    ValConcat(before, w);
    TimesAdd(p, Val(w), Times(x, Val(m)));
    TimesAssociates(p, x, Val(m));
    ValAppend(a, x);
    TimesAdd(Val(m), Val(a), Times(p, x));
  }

  lemma {:induction false} ValRow(before: Limbs, limbs: Limbs, carry: u32)
    ensures Val(before + limbs + [carry]) ==
            Val(before) + Times(Power(|before|), Val(limbs) + Times(Power(|limbs|), carry))
  {
    hide Times, Val, Power;
    var p, q := Power(|before|), Power(|limbs|);
    ValAppend(before + limbs, carry);
    ValConcat(before, limbs);
    PowerSum(|before|, |limbs|);
    TimesAssociates(p, q, carry);
    TimesAdd(p, Val(limbs), Times(q, carry));
  }

  lemma {:induction false} RowAbove(before: Limbs, w: Limbs, x: u32, m: Limbs)
    requires |w| == |m|
    ensures var r := MulRow(w, x, m, |m|);
            Val(before + r.limbs + [r.carry]) ==
            Val(before) + Times(Power(|before|), Val(w) + Times(x, Val(m)))
  {
    hide Times, Val, Power, MulRow;
    var r := MulRow(w, x, m, |m|);
    MulRowValue(w, x, m, |m|);
    assert w[..|m|] == w && m[..|m|] == m;
    ValRow(before, r.limbs, r.carry);
  }

  method BigMul(cnt: nat, out: array<u32>, in1: array<u32>, in2: array<u32>)
    requires 2 * cnt <= out.Length && cnt <= in1.Length && cnt <= in2.Length
    requires out != in1 && out != in2
    modifies out
    ensures Val(out[..2 * cnt]) == Times(Val(in1[..cnt]), Val(in2[..cnt]))
    ensures out[2 * cnt..] == old(out[2 * cnt..])
  {
    hide Times, Val, MulRow;
    for i := 0 to 2 * cnt
      invariant out[..i] == Zeros(i) && out[2 * cnt..] == old(out[2 * cnt..])
    {
      out[i] := 0;
      assert out[..i + 1] == out[..i] + [0];
    }
    ghost var m := in2[..cnt];
    StartProduct(cnt, m);
    assert out[..0 + cnt] == Zeros(cnt);
    for i := 0 to cnt
      invariant Val(out[..i + cnt]) == Times(Val(in1[..i]), Val(m))
      invariant out[2 * cnt..] == old(out[2 * cnt..])
    {
      ghost var before, w := out[..i], out[i..i + cnt];
      assert out[..i + cnt] == before + w;
      AddMultipleValue(before, w, in1[i], m, in1[..i]);
      AddMultiple(cnt, out, i, in1[i], in2);
      ghost var r := MulRow(w, in1[i], m, cnt);
      assert out[..i + 1 + cnt] == before + r.limbs + [r.carry];
      assert in1[..i + 1] == in1[..i] + [in1[i]];
    }
  }

  lemma StartProduct(cnt: nat, m: Limbs)
    ensures Val(Zeros(cnt)) == Times(Val([]), Val(m))
  {
    ValZeros(cnt);
    TimesSmall(Val(m));
  }

  //////////////////////////////////////////////////////////////////////////
  // big_isless.
  //////////////////////////////////////////////////////////////////////////

  /** A number cut around its limb c. */
  lemma {:induction false} ValAround(a: Limbs, c: nat)
    requires c < |a|
    ensures Val(a) == Val(a[..c]) + Times(Power(c), a[c] + 0x1_0000_0000 * Val(a[c + 1..]))
  {
    hide Val, Power, Times;
    SplitAt(a, c);
    ValConcat(a[..c], a[c..]);
    ValFirst(a[c..]);
  }

  lemma SplitAt(a: Limbs, c: nat)
    requires c < |a|
    ensures a == a[..c] + a[c..] && a[c..][1..] == a[c + 1..]
  {
  }

  lemma LessAt(a: Limbs, b: Limbs, c: nat)
    requires c < |a| == |b| && a[c] < b[c] && a[c + 1..] == b[c + 1..]
    ensures Val(a) < Val(b)
  {
    hide Val, Power, Times;
    ValAround(a, c);
    ValAround(b, c);
    ValBound(a[..c]);
    var p, rest := Power(c), 0x1_0000_0000 * Val(a[c + 1..]);
    TimesMonotone(a[c] + rest + 1, b[c] + rest, p);
    TimesAdd(p, a[c] + rest, 1);
    TimesSmall(p);
  }

  method BigIsLess(cnt: nat, num1: array<u32>, off: nat, num2: array<u32>) returns (less: bool)
    requires off + cnt <= num1.Length && cnt <= num2.Length
    ensures less == (Val(num1[off..off + cnt]) < Val(num2[..cnt]))
  {
    hide Val;
    ghost var a, b := num1[off..off + cnt], num2[..cnt];
    var c := cnt;
    while c > 0
      invariant c <= cnt && a[c..] == b[c..]
    {
      c := c - 1;
      assert a[c] == num1[off + c] && b[c] == num2[c];
      if num1[off + c] < num2[c] {
        LessAt(a, b, c);
        return true;
      } else if num1[off + c] > num2[c] {
        LessAt(b, a, c);
        return false;
      }
      assert a[c..] == [a[c]] + a[c + 1..] && b[c..] == [b[c]] + b[c + 1..];
    }
    assert a == b;
    return false;
  }

  //////////////////////////////////////////////////////////////////////////
  // big_mod.
  //////////////////////////////////////////////////////////////////////////

  /** The first inner loop of big_mod: subtract k times the modulus. */
  method SubMultiple(cnt: nat, in1: array<u32>, i: nat, k: u32, in2: array<u32>)
    requires i + cnt < in1.Length && cnt <= in2.Length && in1 != in2
    modifies in1
    ensures var r := MulSubRow(old(in1[i..i + cnt]), k, in2[..cnt], cnt);
            in1[..] == old(in1[..i]) + r.limbs + [Sub32(old(in1[i + cnt]), r.carry)] + old(in1[i + cnt + 1..])
  {
    hide MulSub, Sub32;
    ghost var w, m := in1[i..i + cnt], in2[..cnt];
    var l: u32 := 0;
    for j := 0 to cnt
      invariant in1[..i] == old(in1[..i]) && in1[i + j..] == old(in1[i + j..])
      invariant in1[i..i + j] == MulSubRow(w, k, m, j).limbs && l == MulSubRow(w, k, m, j).carry
    {
      assert w[j] == in1[i + j] && m[j] == in2[j];
      var s := MulSub(l, in1[i + j], k, in2[j]);
      in1[i + j] := s.limb;
      l := s.carry;
      assert in1[i..i + j + 1] == in1[i..i + j] + [s.limb];
    }
    in1[i + cnt] := Sub32(in1[i + cnt], l);
    Whole(in1, i, cnt);
  }

  /** One round of the correction loop. */
  method SubModulus(cnt: nat, in1: array<u32>, i: nat, in2: array<u32>)
    requires i + cnt < in1.Length && cnt <= in2.Length && in1 != in2
    modifies in1
    ensures var r := PassRow(old(in1[i..i + cnt]), in2[..cnt], cnt);
            in1[..] == old(in1[..i]) + r.limbs + [Sub32(old(in1[i + cnt]), r.carry)] + old(in1[i + cnt + 1..])
  {
    hide Correct1, Sub32;
    ghost var w, m := in1[i..i + cnt], in2[..cnt];
    var l: u32 := 0;
    for j := 0 to cnt
      invariant in1[..i] == old(in1[..i]) && in1[i + j..] == old(in1[i + j..])
      invariant in1[i..i + j] == PassRow(w, m, j).limbs && l == PassRow(w, m, j).carry
    {
      assert w[j] == in1[i + j] && m[j] == in2[j];
      var s := Correct1(l, in1[i + j], in2[j]);
      in1[i + j] := s.limb;
      l := s.carry;
      assert in1[i..i + j + 1] == in1[i..i + j] + [s.limb];
    }
    in1[i + cnt] := Sub32(in1[i + cnt], l);
    Whole(in1, i, cnt);
  }

  /** The limbs i to i + cnt of an array as a window. */
  ghost function WindowAt(a: array<u32>, i: nat, cnt: nat): (w: Window)
    requires i + cnt < a.Length
    reads a
    ensures |w.low| == cnt
  {
    Window(a[i..i + cnt], a[i + cnt])
  }

  method CorrectWindow(cnt: nat, in1: array<u32>, i: nat, in2: array<u32>)
    requires 0 < cnt <= in2.Length && i + cnt < in1.Length && in1 != in2 && Normal(in2[..cnt])
    modifies in1
    ensures in1[..i] == old(in1[..i]) && in1[i + cnt + 1..] == old(in1[i + cnt + 1..])
    ensures in1[i..i + cnt] == Correct(old(WindowAt(in1, i, cnt)), in2[..cnt]).rem
    ensures in1[i + cnt] == 0
  {
    hide Normal, PassRow, Sub32, Phase, Room, Val;
    ghost var m := in2[..cnt];
    ghost var start := WindowAt(in1, i, cnt);
    var more := OverTest(cnt, in1, i, in2);
    while more
      invariant more == Over(WindowAt(in1, i, cnt), m)
      invariant Correct(WindowAt(in1, i, cnt), m).rem == Correct(start, m).rem
      invariant in1[..i] == old(in1[..i]) && in1[i + cnt + 1..] == old(in1[i + cnt + 1..])
      decreases WindowAt(in1, i, cnt).top, Phase(WindowAt(in1, i, cnt), m), Room(WindowAt(in1, i, cnt), m)
    {
      ghost var w := WindowAt(in1, i, cnt);
      PassProgress(w, m);
      SubModulus(cnt, in1, i, in2);
      assert WindowAt(in1, i, cnt) == Pass(w, m);
      more := OverTest(cnt, in1, i, in2);
    }
  }

  /** The condition of the correction loop. */
  method OverTest(cnt: nat, in1: array<u32>, i: nat, in2: array<u32>) returns (b: bool)
    requires cnt <= in2.Length && i + cnt < in1.Length
    ensures b == Over(WindowAt(in1, i, cnt), in2[..cnt])
  {
    hide Val;
    var less := BigIsLess(cnt, in1, i, in2);
    b := in1[i + cnt] != 0 || !less;
  }

  /** The estimate, as the 64-bit division computes it, fits in k. */
  method ModDigit(cnt: nat, in1: array<u32>, i: nat, in2: array<u32>)
    requires 0 < cnt <= in2.Length && i + cnt < in1.Length && in1 != in2
    requires Normal(in2[..cnt]) && Val(in1[i + 1..i + 1 + cnt]) < Val(in2[..cnt])
    modifies in1
    ensures in1[..i] == old(in1[..i]) && in1[i + cnt + 1..] == old(in1[i + cnt + 1..])
    ensures in1[i..i + cnt] == Digit(old(in1[i]), old(in1[i + 1..i + 1 + cnt]), in2[..cnt]).rem
  {
    hide Normal, Val, MulSubRow, Sub32, Correct, Times, WindowVal;
    ghost var m, rem := in2[..cnt], in1[i + 1..i + 1 + cnt];
    ghost var w := Shifted(in1[i], rem);
    assert w == WindowAt(in1, i, cnt);
    ShiftedValue(in1[i], rem);
    EstimateBounds(w, m);
    var k := (0x1_0000_0000 * in1[i + cnt] + in1[i + cnt - 1]) / (in2[cnt - 1] as nat + 1) % 0x1_0000_0000;
    assert k == Estimate(w, m);
    SubMultiple(cnt, in1, i, k, in2);
    assert WindowAt(in1, i, cnt) == Reduce(w, m);
    CorrectWindow(cnt, in1, i, in2);
  }

  method BigMod(cnt: nat, out: array<u32>, in1: array<u32>, in2: array<u32>)
    requires 0 < cnt <= in2.Length && 2 * cnt <= in1.Length && cnt <= out.Length
    requires in1 != in2 && out != in1 && out != in2
    requires Normal(in2[..cnt]) && Val(in1[cnt..2 * cnt]) < Val(in2[..cnt])
    modifies in1, out
    ensures out[..cnt] == Divide(old(in1[..cnt]), old(in1[cnt..2 * cnt]), in2[..cnt]).rem
    ensures out[cnt..] == old(out[cnt..])
  {
    hide Normal, Val, Digit;
    ghost var m := in2[..cnt];
    ghost var r := Divide(in1[..cnt], in1[cnt..2 * cnt], m);
    var i := cnt;
    while i > 0
      invariant i <= cnt && Val(in1[i..i + cnt]) < Val(m)
      invariant Divide(in1[..i], in1[i..i + cnt], m).rem == r.rem
      invariant out[cnt..] == old(out[cnt..])
    {
      i := i - 1;
      ghost var low := in1[..i + 1];
      assert low[..i] == in1[..i] && low[i] == in1[i];
      ModDigit(cnt, in1, i, in2);
      assert low[..i] == in1[..i];
    }
    assert in1[..0] == [];
    for j := 0 to cnt
      invariant out[..j] == in1[..j] && out[cnt..] == old(out[cnt..])
      invariant in1[..cnt] == r.rem
    {
      out[j] := in1[j];
      assert out[..j + 1] == out[..j] + [in1[j]] && in1[..j + 1] == in1[..j] + [in1[j]];
    }
  }

  //////////////////////////////////////////////////////////////////////////
  // big_mulmod and big_expmod.
  //////////////////////////////////////////////////////////////////////////

  const SIZE: nat := 64

  /** The limbs in use: a modulus without a top limb is half as long. */
  function Len(mod: Limbs): (n: nat)
    requires |mod| == SIZE
    ensures 0 < n <= SIZE
  {
    if mod[63] != 0 then 64 else 32
  }

  predicate IsModulus(mod: Limbs) {
    |mod| == SIZE && Normal(mod[..Len(mod)]) && 1 < Val(mod[..Len(mod)])
  }

  lemma {:induction false} LimbsAreProduct(p: Limbs, a: nat, b: nat, m: Limbs)
    requires a < Val(m) && b < Val(m) && |p| == 2 * |m| && Val(p) == Times(a, b)
    ensures p == Limb(Times(a, b), 2 * |m|)
  {
    hide Val, Times, Limb;
    ProductFits(a, b, m);
    ValInjective(p, Limb(Times(a, b), 2 * |m|));
  }

  /** big_mulmod; the factors may be the same array. */
  method BigMulMod(num1: array<u32>, num2: array<u32>, mod: array<u32>)
    requires num1.Length == num2.Length == mod.Length == SIZE && num1 != mod && num2 != mod
    requires IsModulus(mod[..])
    requires var m := mod[..Len(mod[..])]; Val(num1[..|m|]) < Val(m) && Val(num2[..|m|]) < Val(m)
    modifies num1
    ensures var m := mod[..Len(mod[..])];
            Val(num1[..|m|]) == MulMod(old(Val(num1[..Len(mod[..])])), old(Val(num2[..Len(mod[..])])), m).value
    ensures num1[Len(mod[..])..] == old(num1[Len(mod[..])..])
  {
    hide Val, Times, Normal, Divide, Limb;
    var lnum := new u32[2 * SIZE];
    var len := if mod[63] != 0 then 64 else 32;
    ghost var m, a, b := mod[..len], Val(num1[..len]), Val(num2[..len]);
    assert mod[..][..len] == m;
    BigMul(len, lnum, num1, num2);
    LimbsAreProduct(lnum[..2 * len], a, b, m);
    ProductFits(a, b, m);
    assert lnum[..2 * len][..len] == lnum[..len] && lnum[..2 * len][len..] == lnum[len..2 * len];
    BigMod(len, num1, lnum, mod);
  }

  function Bit(s: Limbs, i: nat): nat
    requires i < 32 * |s|
  {
    s[i / 32] / Pow2(i % 32) % 2
  }

  /** How many bits there are up to the topmost set one. */
  ghost predicate IsBitLength(s: Limbs, n: nat) {
    n <= 32 * |s| && (n > 0 ==> Bit(s, n - 1) != 0) &&
    forall i :: n <= i < 32 * |s| ==> Bit(s, i) == 0
  }

  /** big_set. */
  method BigSet(num: array<u32>, val: u32)
    requires num.Length == SIZE
    modifies num
    ensures num[..] == [val] + Zeros(SIZE - 1)
  {
    for i := 0 to SIZE
      invariant num[..i] == Zeros(i)
    {
      num[i] := 0;
      assert num[..i + 1] == num[..i] + [0];
    }
    assert num[..SIZE] == num[..];
    num[0] := val;
    assert num[..][1..] == Zeros(SIZE)[1..] == Zeros(SIZE - 1);
  }

  lemma ValSet(val: u32, len: nat)
    requires 0 < len <= SIZE
    ensures Val(([val] + Zeros(SIZE - 1))[..len]) == val
  {
    hide Val, Power, Times;
    assert ([val] + Zeros(SIZE - 1))[..len] == [val] + Zeros(len - 1);
    ValConcat([val], Zeros(len - 1));
    ValOne(val);
    ValZeros(len - 1);
    TimesSmall(Power(1));
  }

  method BitLength(exp: array<u32>) returns (i: nat)
    requires exp.Length == SIZE
    ensures IsBitLength(exp[..], i)
  {
    hide Bit;
    i := 2048;
    while i > 0
      invariant i <= 2048 && forall j :: i <= j < 2048 ==> Bit(exp[..], j) == 0
    {
      if Bit(exp[..], i - 1) != 0 {
        return;
      }
      i := i - 1;
    }
  }

  /** big_expmod. */
  method BigExpMod(num: array<u32>, exp: array<u32>, mod: array<u32>) returns (ghost bits: nat)
    requires num.Length == exp.Length == mod.Length == SIZE && num != mod && num != exp
    requires IsModulus(mod[..])
    requires var m := mod[..Len(mod[..])]; Val(num[..|m|]) < Val(m)
    modifies num
    ensures IsBitLength(exp[..], bits)
    ensures var m := mod[..Len(mod[..])];
            Val(num[..|m|]) == ExpLoop(1, old(Val(num[..Len(mod[..])])), m, bits)
  {
    hide Val, Normal, MulMod, IsBitLength;
    ghost var m := mod[..Len(mod[..])];
    ghost var x := Val(num[..|m|]);
    assert mod[..][..|m|] == m;
    var lnum := new u32[SIZE];
    var i := BitLength(exp);
    bits := i;
    BigSet(lnum, 1);
    ValSet(1, |m|);
    assert lnum[..|m|] == lnum[..][..|m|];
    for j := 0 to i
      invariant Val(lnum[..|m|]) < Val(m) && Val(num[..|m|]) < Val(m)
      invariant ExpLoop(Val(lnum[..|m|]), Val(num[..|m|]), m, i - j) == ExpLoop(1, x, m, i)
    {
      BigMulMod(lnum, num, mod);
      BigMulMod(num, num, mod);
    }
    ghost var result := lnum[..];
    assert Val(result[..|m|]) == ExpLoop(1, x, m, i);
    for j := 0 to SIZE
      invariant num[..j] == lnum[..j] && lnum[..] == result
    {
      num[j] := lnum[j];
      assert num[..j + 1] == num[..j] + [lnum[j]] && lnum[..j + 1] == lnum[..j] + [lnum[j]];
    }
    assert num[..|m|] == num[..SIZE][..|m|] == lnum[..SIZE][..|m|] == lnum[..|m|];
  }

  //////////////////////////////////////////////////////////////////////////
  // Bytes.
  //////////////////////////////////////////////////////////////////////////

  type u8 = x: nat | x < 256

  function ByteVal(b: seq<u8>): nat {
    if b == [] then 0 else b[0] + 256 * ByteVal(b[1..])
  }

  /** A byte shifted to its place in a limb. */
  function Place(b: u8, j: nat): nat {
    if j == 0 then b else if j == 1 then 0x100 * b as nat
    else if j == 2 then 0x1_0000 * b as nat else 0x100_0000 * b as nat
  }

  /** The limb that four bytes make up, low-order byte first. */
  function LimbOf(b: seq<u8>): u32
    requires |b| == 4
  {
    Place(b[0], 0) + Place(b[1], 1) + Place(b[2], 2) + Place(b[3], 3)
  }

  function ByteOf(x: u32, j: nat): u8 {
    if j == 0 then x % 256 else if j == 1 then x / 0x100 % 256
    else if j == 2 then x / 0x1_0000 % 256 else x / 0x100_0000 % 256
  }

  lemma BytesOfLimb(x: u32)
    ensures LimbOf([ByteOf(x, 0), ByteOf(x, 1), ByteOf(x, 2), ByteOf(x, 3)]) == x
  {
    var q1, q2, q3 := x / 0x100, x / 0x1_0000, x / 0x100_0000;
    assert x == 0x100 * q1 + x % 256;
    assert q1 == 0x100 * q2 + q1 % 256;
    assert q2 == 0x100 * q3 + q2 % 256;
  }

  /** A limb sequence and a byte sequence that spell the same number. */
  ghost predicate Spells(b: seq<u8>, s: Limbs) {
    |b| == 4 * |s| && forall i :: 0 <= i < |s| ==> s[i] == LimbOf(b[4 * i..4 * i + 4])
  }

  lemma {:induction false} SpellsValue(b: seq<u8>, s: Limbs)
    requires Spells(b, s)
    ensures ByteVal(b) == Val(s)
  {
    if s != [] {
      forall i | 0 <= i < |s| - 1
        ensures s[1..][i] == LimbOf(b[4..][4 * i..4 * i + 4])
      {
        assert b[4..][4 * i..4 * i + 4] == b[4 * (i + 1)..4 * (i + 1) + 4];
      }
      SpellsValue(b[4..], s[1..]);
      ByteValFour(b);
      assert b[4 * 0..4 * 0 + 4] == b[..4];
    }
  }

  lemma ByteValFour(b: seq<u8>)
    requires |b| >= 4
    ensures ByteVal(b) == LimbOf(b[..4]) + 0x1_0000_0000 * ByteVal(b[4..])
  {
    assert b[..4] == [b[0], b[1], b[2], b[3]];
    assert b[1..][1..] == b[2..] && b[2..][1..] == b[3..] && b[3..][1..] == b[4..];
    assert ByteVal(b[3..]) == b[3] + 256 * ByteVal(b[4..]);
    assert ByteVal(b[2..]) == b[2] + 256 * ByteVal(b[3..]);
    assert ByteVal(b[1..]) == b[1] + 256 * ByteVal(b[2..]);
  }

  /** big_letoh. */
  method BigLeToH(dst: array<u32>, src: seq<u8>)
    requires dst.Length == SIZE && |src| == 4 * SIZE
    modifies dst
    ensures Spells(src, dst[..])
  {
    for i := 0 to SIZE
      invariant forall q :: 0 <= q < i ==> dst[q] == LimbOf(src[4 * q..4 * q + 4])
    {
      dst[i] := Gather(src[4 * i..4 * i + 4]);
    }
  }

  method Gather(b: seq<u8>) returns (tmp: u32)
    requires |b| == 4
    ensures tmp == LimbOf(b)
  {
    var t: nat := 0;
    for j := 0 to 4
      invariant t == (if j > 0 then Place(b[0], 0) else 0) + (if j > 1 then Place(b[1], 1) else 0)
                     + (if j > 2 then Place(b[2], 2) else 0) + (if j > 3 then Place(b[3], 3) else 0)
    {
      t := t + Place(b[j], j);
    }
    tmp := t;
  }

  /** big_htole. */
  method BigHToLe(dst: array<u8>, src: array<u32>, cnt: nat)
    requires src.Length == SIZE && cnt == dst.Length == 4 * SIZE
    modifies dst
    ensures Spells(dst[..], src[..])
  {
    for i := 0 to cnt
      invariant forall q :: 0 <= q < i ==> dst[q] == ByteOf(src[q / 4], q % 4)
    {
      dst[i] := ByteOf(src[i / 4], i % 4);
    }
    forall i | 0 <= i < SIZE
      ensures src[..][i] == LimbOf(dst[..][4 * i..4 * i + 4])
    {
      FourBytes(dst[..], src[i], i);
    }
  }

  lemma FourBytes(d: seq<u8>, x: u32, i: nat)
    requires 4 * i + 4 <= |d|
    requires forall j :: 0 <= j < 4 ==> d[4 * i + j] == ByteOf(x, j)
    ensures LimbOf(d[4 * i..4 * i + 4]) == x
  {
    BytesOfLimb(x);
    assert d[4 * i + 0] == ByteOf(x, 0) && d[4 * i + 1] == ByteOf(x, 1);
    assert d[4 * i + 2] == ByteOf(x, 2) && d[4 * i + 3] == ByteOf(x, 3);
  }

  //////////////////////////////////////////////////////////////////////////
  // enc_type_1.
  //////////////////////////////////////////////////////////////////////////

  function ModulusPart0(): (m: Limbs)
    ensures |m| == 16
  {
    [
      0xeb96841d, 0x31c4a05e, 0x193bbd8f, 0xbf77b6d6, 0x96d7f927, 0xe569c5fc, 0x5efa55ff, 0xba1519a1,
      0x1b32a36f, 0xe84b25f8, 0x8d5b5eb2, 0xc11f00e3, 0x19d2974d, 0xe7ee26ad, 0xbc8c0457, 0x91fd3a9e
    ]
  }

  function ModulusPart1(): (m: Limbs)
    ensures |m| == 16
  {
    [
      0x6e37192e, 0xe475aa9e, 0x72f554fc, 0x695b3ca2, 0xf97bb445, 0x69f29f9a, 0xb15e2216, 0x390a5a36,
      0x2c0054b3, 0x363dc15e, 0xd238b5b8, 0xe957a9b5, 0x0032a3df, 0x8781ab21, 0x0a7703d8, 0x5250e6fe
    ]
  }

  function ModulusPart2(): (m: Limbs)
    ensures |m| == 16
  {
    [
      0xb42d2df0, 0x10a931f8, 0x1e4970e5, 0xc3741ca7, 0x8606342a, 0xd61a7055, 0x18e4dd48, 0x0829ee6d,
      0x8443fd05, 0xe9db6341, 0xde3c6725, 0xa4037cdb, 0x96e537a7, 0xed64060a, 0xda2d7944, 0x51be98b0
    ]
  }

  function ModulusPart3(): (m: Limbs)
    ensures |m| == 16 && m[15] == 0xd453ec0a
  {
    [
      0x315d5780, 0xb6a31787, 0x4d23ffc1, 0xdbd26bb0, 0xde7aa2fe, 0x71a157ac, 0x19288512, 0x0d7a0050,
      0x522f69d1, 0xdd331dd5, 0x96e62735, 0xc6f2dc0e, 0xae08473d, 0x0a532f6a, 0x34eb20ca, 0xd453ec0a
    ]
  }

  function Modulus(): (m: Limbs)
    ensures |m| == SIZE && m[63] == 0xd453ec0a
  {
    ModulusPart0() + ModulusPart1() + ModulusPart2() + ModulusPart3()
  }

  lemma ModulusIsModulus()
    ensures IsModulus(Modulus()) && Len(Modulus()) == SIZE && Modulus()[..SIZE] == Modulus()
  {
    hide Modulus, Val, Power, Times;
    var m := Modulus();
    assert m[..SIZE] == m;
    ValTop(m);
    TimesMonotone(2, m[63], Power(63));
    TimesAdd(Power(63), 1, 1);
    TimesSmall(Power(63));
  }

  /** With 1 as its topmost byte a number stays below the modulus. */
  lemma InputBelowModulus(b: seq<u8>, s: Limbs)
    requires |b| == 4 * SIZE && b[255] == 1 && Spells(b, s)
    ensures Val(s) < Val(Modulus())
  {
    hide Modulus, Val, Power, Times;
    var m := Modulus();
    assert s[63] == LimbOf(b[252..256]);
    ValTop(s);
    ValTop(m);
    TimesMonotone(s[63] + 1, m[63], Power(63));
    TimesAdd(Power(63), s[63], 1);
    TimesSmall(Power(63));
  }

  lemma ThreeHasTwoBits(s: Limbs, n: nat)
    requires s == [3] + Zeros(SIZE - 1) && IsBitLength(s, n)
    ensures n == 2
  {
    assert Pow2(0) == 1 && Pow2(1) == 2;
    assert Bit(s, 1) == 1;
    if n > 2 {
      BitOfThree(s, n - 1);
    }
  }

  lemma BitOfThree(s: Limbs, i: nat)
    requires s == [3] + Zeros(SIZE - 1) && 2 <= i < 32 * SIZE
    ensures Bit(s, i) == 0
  {
    if i < 32 {
      assert Pow2(2) == 4;
      Pow2Grows(2, i);
    }
  }

  lemma {:induction false} Pow2Grows(a: nat, b: nat)
    requires a <= b
    ensures Pow2(a) <= Pow2(b)
  {
    if a < b {
      Pow2Grows(a, b - 1);
    }
  }

  /** What cubing loses under the fixed modulus. */
  function Lost(x: nat): nat
    requires x < Val(Modulus())
  {
    ModulusIsModulus();
    CubeLoss(x, Modulus())
  }

  /** What a caller can tell beforehand: with this key no reduction drops a borrow. */
  predicate IsSafe(x: nat)
    requires x < Val(Modulus())
  {
    ModulusIsModulus();
    SafeCube(x, Modulus())
  }

  /** enc_type_1: the number in_key spells below a top byte of 1 is cubed modulo the
      fixed modulus, but for what the reductions lose. They lose nothing if and only if
      the number is safe. */
  method EncType1(out_key: array<u8>, in_key: seq<u8>, modulus: array<u32>)
    requires out_key.Length == 256 && |in_key| >= 255 && modulus[..] == Modulus()
    modifies out_key
    ensures var x, n := ByteVal(in_key[..255] + [1]), Val(Modulus());
            x < n && ByteVal(out_key[..]) == (Cube(x) + Lost(x)) % n &&
            (ByteVal(out_key[..]) == Cube(x) % n <==> Lost(x) % n == 0) &&
            (Lost(x) == 0 <==> IsSafe(x)) &&
            (IsSafe(x) ==> ByteVal(out_key[..]) == Cube(x) % n)
  {
    hide Modulus, Val, Cube, CubeLoss, ExpLoop, Spells, IsBitLength, Normal, ByteVal, SafeCube;
    ModulusIsModulus();
    var exp, num1 := new u32[SIZE], new u32[SIZE];
    BigSet(exp, 3);
    var num2 := in_key[..255] + [1];
    BigLeToH(num1, num2);
    SpellsValue(num2, num1[..]);
    InputBelowModulus(num2, num1[..]);
    ghost var x := ByteVal(num2);
    assert num1[..SIZE] == num1[..] && modulus[..SIZE] == modulus[..];
    ghost var bits := BigExpMod(num1, exp, modulus);
    ThreeHasTwoBits(exp[..], bits);
    TopByteIsOne(in_key[..255]);
    CubeCases(x, Modulus());
    BigHToLe(out_key, num1, 256);
    SpellsValue(out_key[..], num1[..]);
    assert num1[..SIZE] == num1[..];
  }

  lemma CubeCases(x: nat, m: Limbs)
    requires Normal(m) && 0 < x < Val(m) && 1 < Val(m)
    ensures ExpLoop(1, x, m, 2) == (Cube(x) + CubeLoss(x, m)) % Val(m)
    ensures ExpLoop(1, x, m, 2) == Cube(x) % Val(m) <==> CubeLoss(x, m) % Val(m) == 0
    ensures CubeLoss(x, m) == 0 <==> SafeCube(x, m)
  {
    hide Val, Cube, CubeLoss, ExpLoop, Normal, SafeCube;
    CubeValue(x, m);
    CubeIff(x, m);
    CubeLossIff(x, m);
  }

  lemma {:induction false} TopByteIsOne(b: seq<u8>)
    ensures ByteVal(b + [1]) > 0
  {
    if b != [] {
      TopByteIsOne(b[1..]);
      assert (b + [1])[1..] == b[1..] + [1];
    }
  }

  lemma {:induction false} ModulusIsOdd()
    ensures Val(Modulus()) % 2 == 1
  {
    hide Val, Modulus;
    ValFirst(Modulus());
    LowestLimbs();
  }

  lemma LowestLimbs()
    ensures Modulus()[0] == 0xeb96841d && Modulus()[2] == 0x193bbd8f
  {
    assert Modulus()[0] == ModulusPart0()[0] && Modulus()[2] == ModulusPart0()[2];
  }

  /** How many borrows are dropped for a key. */
  function KeyDrops(x: nat): nat
    requires x < Val(Modulus())
  {
    ModulusIsModulus();
    CubeDrops(x, Modulus())
  }

  /** No borrow is dropped exactly for the safe numbers. With exactly one the result is
      not the cube, for a number that has an inverse. */
  lemma KeyDropsDecide(x: nat)
    requires 0 < x < Val(Modulus())
    ensures KeyDrops(x) == 0 <==> IsSafe(x)
    ensures KeyDrops(x) == 1 && HasInverse(x) ==>
              (Cube(x) + Lost(x)) % Val(Modulus()) != Cube(x) % Val(Modulus())
  {
    hide Val, Modulus, Cube, CubeLoss, CubeDrops, ExpLoop, Normal, SafeCube, Times;
    ModulusIsModulus();
    ModulusIsOdd();
    CubeValue(x, Modulus());
    CubeLossIff(x, Modulus());
    if KeyDrops(x) == 1 && HasInverse(x) {
      var y: nat :| Times(x, y) >= 0 && Times(x, y) % Val(Modulus()) == 1;
      OneDropNoCube(x, y, Modulus());
    }
  }

  ghost predicate HasInverse(x: nat) {
    Val(Modulus()) > 0 && exists y: nat :: Times(x, y) >= 0 && Times(x, y) % Val(Modulus()) == 1
  }

  //////////////////////////////////////////////////////////////////////////
  // The modulus as a number.
  //////////////////////////////////////////////////////////////////////////

  /** A number written in digits of 128 bits, the highest first. */
  function Written(digits: seq<nat>): nat {
    if digits == [] then 0
    else 0x1_0000_0000_0000_0000_0000_0000_0000_0000 * Written(digits[..|digits| - 1]) + digits[|digits| - 1]
  }

  /** Four limbs as a digit. */
  function Quad(s: Limbs, i: nat): nat
    requires 4 * i + 4 <= |s|
  {
    s[4 * i] as nat + 0x1_0000_0000 * s[4 * i + 1] as nat + 0x1_0000_0000_0000_0000 * s[4 * i + 2] as nat +
    0x1_0000_0000_0000_0000_0000_0000 * s[4 * i + 3] as nat
  }

  /** All of them, the highest first. */
  function Quads(s: Limbs): seq<nat> {
    if |s| < 4 then [] else Quads(s[4..]) + [Quad(s, 0)]
  }

  lemma {:induction false} WrittenIs(s: Limbs)
    requires |s| % 4 == 0
    ensures Val(s) == Written(Quads(s))
  {
    if s != [] {
      WrittenIs(s[4..]);
      FourLimbs(s);
      hide Quad, Val;
      var d := Quads(s);
      assert d[..|d| - 1] == Quads(s[4..]);
    }
  }

  lemma FourLimbs(s: Limbs)
    requires |s| >= 4
    ensures Val(s) == Quad(s, 0) + 0x1_0000_0000_0000_0000_0000_0000_0000_0000 * Val(s[4..])
  {
    hide Val;
    ValFirst(s);
    ValFirst(s[1..]);
    ValFirst(s[1..][1..]);
    ValFirst(s[1..][1..][1..]);
    assert s[1..][1..][1..][1..] == s[4..];
  }

  lemma {:induction false} QuadsOfSum(a: Limbs, b: Limbs)
    requires |a| % 4 == 0
    ensures Quads(a + b) == Quads(b) + Quads(a)
  {
    if a == [] {
      assert a + b == b;
    } else {
      QuadsOfSum(a[4..], b);
      assert (a + b)[4..] == a[4..] + b;
      assert Quad(a + b, 0) == Quad(a, 0);
      hide Quad;
    }
  }

  lemma FourQuads(s: Limbs)
    requires |s| == 16
    ensures Quads(s) == [Quad(s, 3), Quad(s, 2), Quad(s, 1), Quad(s, 0)]
  {
    var t := s[4..];
    var u := t[4..];
    var v := u[4..];
    assert Quads(s) == Quads(t) + [Quad(s, 0)] && Quads(t) == Quads(u) + [Quad(t, 0)];
    assert Quads(u) == Quads(v) + [Quad(u, 0)] && Quads(v) == Quads(v[4..]) + [Quad(v, 0)];
    assert Quads(v[4..]) == [];
  }

  lemma QuadsOfPart0()
    ensures Quads(ModulusPart0()) ==
            [0x91fd3a9e_bc8c0457_e7ee26ad_19d2974d, 0xc11f00e3_8d5b5eb2_e84b25f8_1b32a36f,
             0xba1519a1_5efa55ff_e569c5fc_96d7f927, 0xbf77b6d6_193bbd8f_31c4a05e_eb96841d]
  {
    var s := ModulusPart0();
    FourQuads(s);
    assert Quad(s, 3) == 0x91fd3a9e_bc8c0457_e7ee26ad_19d2974d;
    assert Quad(s, 2) == 0xc11f00e3_8d5b5eb2_e84b25f8_1b32a36f;
    assert Quad(s, 1) == 0xba1519a1_5efa55ff_e569c5fc_96d7f927;
    assert Quad(s, 0) == 0xbf77b6d6_193bbd8f_31c4a05e_eb96841d;
  }

  lemma QuadsOfPart1()
    ensures Quads(ModulusPart1()) ==
            [0x5250e6fe_0a7703d8_8781ab21_0032a3df, 0xe957a9b5_d238b5b8_363dc15e_2c0054b3,
             0x390a5a36_b15e2216_69f29f9a_f97bb445, 0x695b3ca2_72f554fc_e475aa9e_6e37192e]
  {
    var s := ModulusPart1();
    FourQuads(s);
    assert Quad(s, 3) == 0x5250e6fe_0a7703d8_8781ab21_0032a3df;
    assert Quad(s, 2) == 0xe957a9b5_d238b5b8_363dc15e_2c0054b3;
    assert Quad(s, 1) == 0x390a5a36_b15e2216_69f29f9a_f97bb445;
    assert Quad(s, 0) == 0x695b3ca2_72f554fc_e475aa9e_6e37192e;
  }

  lemma QuadsOfPart2()
    ensures Quads(ModulusPart2()) ==
            [0x51be98b0_da2d7944_ed64060a_96e537a7, 0xa4037cdb_de3c6725_e9db6341_8443fd05,
             0x0829ee6d_18e4dd48_d61a7055_8606342a, 0xc3741ca7_1e4970e5_10a931f8_b42d2df0]
  {
    var s := ModulusPart2();
    FourQuads(s);
    assert Quad(s, 3) == 0x51be98b0_da2d7944_ed64060a_96e537a7;
    assert Quad(s, 2) == 0xa4037cdb_de3c6725_e9db6341_8443fd05;
    assert Quad(s, 1) == 0x0829ee6d_18e4dd48_d61a7055_8606342a;
    assert Quad(s, 0) == 0xc3741ca7_1e4970e5_10a931f8_b42d2df0;
  }

  lemma QuadsOfPart3()
    ensures Quads(ModulusPart3()) ==
            [0xd453ec0a_34eb20ca_0a532f6a_ae08473d, 0xc6f2dc0e_96e62735_dd331dd5_522f69d1,
             0x0d7a0050_19288512_71a157ac_de7aa2fe, 0xdbd26bb0_4d23ffc1_b6a31787_315d5780]
  {
    var s := ModulusPart3();
    FourQuads(s);
    assert Quad(s, 3) == 0xd453ec0a_34eb20ca_0a532f6a_ae08473d;
    assert Quad(s, 2) == 0xc6f2dc0e_96e62735_dd331dd5_522f69d1;
    assert Quad(s, 1) == 0x0d7a0050_19288512_71a157ac_de7aa2fe;
    assert Quad(s, 0) == 0xdbd26bb0_4d23ffc1_b6a31787_315d5780;
  }

  /** The fixed modulus as one number. */
  lemma ModulusIsWritten()
    ensures Val(Modulus()) ==
            Written(
              [0xd453ec0a_34eb20ca_0a532f6a_ae08473d, 0xc6f2dc0e_96e62735_dd331dd5_522f69d1,
               0x0d7a0050_19288512_71a157ac_de7aa2fe, 0xdbd26bb0_4d23ffc1_b6a31787_315d5780] +
              [0x51be98b0_da2d7944_ed64060a_96e537a7, 0xa4037cdb_de3c6725_e9db6341_8443fd05,
               0x0829ee6d_18e4dd48_d61a7055_8606342a, 0xc3741ca7_1e4970e5_10a931f8_b42d2df0] +
              [0x5250e6fe_0a7703d8_8781ab21_0032a3df, 0xe957a9b5_d238b5b8_363dc15e_2c0054b3,
               0x390a5a36_b15e2216_69f29f9a_f97bb445, 0x695b3ca2_72f554fc_e475aa9e_6e37192e] +
              [0x91fd3a9e_bc8c0457_e7ee26ad_19d2974d, 0xc11f00e3_8d5b5eb2_e84b25f8_1b32a36f,
               0xba1519a1_5efa55ff_e569c5fc_96d7f927, 0xbf77b6d6_193bbd8f_31c4a05e_eb96841d])
  {
    var a, b, c, d := ModulusPart0(), ModulusPart1(), ModulusPart2(), ModulusPart3();
    QuadsOfPart0();
    QuadsOfPart1();
    QuadsOfPart2();
    QuadsOfPart3();
    hide ModulusPart0, ModulusPart1, ModulusPart2, ModulusPart3, Val, Written, Quads;
    QuadsOfSum(a + b + c, d);
    QuadsOfSum(a + b, c);
    QuadsOfSum(a, b);
    WrittenIs(Modulus());
    InOrder(Quads(d), Quads(c), Quads(b), Quads(a));
  }

  lemma InOrder(d: seq<nat>, c: seq<nat>, b: seq<nat>, a: seq<nat>)
    ensures d + (c + (b + a)) == d + c + b + a
  {
  }
}
