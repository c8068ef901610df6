/** The MD5 tree of a file, as tools/kzhash.pl defines it level by level, and the
    stack of perfect subtrees that fst_hash.c keeps instead. */
module TreeHash {
  import opened Bytes
  import opened Md5

  type Hash = d: seq<byte> | |d| == HASH_LEN witness seq(HASH_LEN, _ => 0)

  const KZSEG_SIZE: nat := 32768

  //////////////////////////////////////////////////////////////////////////
  // The tree, level by level.
  //////////////////////////////////////////////////////////////////////////

  function Segments(n: nat): nat {
    (n + KZSEG_SIZE - 1) / KZSEG_SIZE
  }

  /** The hashes of the segments of a file, the last one possibly short. */
  function Leaves(input: seq<byte>): (h: seq<Hash>)
    ensures |h| == Segments(|input|)
  {
    seq(Segments(|input|), i requires 0 <= i < Segments(|input|) =>
      DigestOf(input[KZSEG_SIZE * i..Min(KZSEG_SIZE * (i + 1), |input|)]))
  }

  function Join(a: seq<byte>, b: seq<byte>): seq<byte> { a + b }

  /** The i-th pair of a level, or what there is of it. */
  function Pair(h: seq<Hash>, i: nat): seq<byte>
    requires 2 * i <= |h|
  {
    Concat(h[2 * i..Min(2 * i + 2, |h|)])
  }

  /** The level above h: one hash a pair, and one when h is empty. */
  function Level(h: seq<Hash>): (k: seq<Hash>)
    ensures |k| == if |h| <= 2 then 1 else (|h| + 1) / 2
  {
    seq(if |h| <= 2 then 1 else (|h| + 1) / 2, i requires 0 <= i && 2 * i <= |h| => DigestOf(Pair(h, i)))
  }

  /** Levels until only one hash is left. */
  function Root(h: seq<Hash>): Hash
    decreases |h|
  {
    var k := Level(h);
    if |k| == 1 then k[0] else Root(k)
  }

  function TreeRoot(input: seq<byte>): Hash {
    Root(Leaves(input))
  }

  /** tools/kzhash.pl reads and hashes the file in 32 KiB blocks... */
  method HashBlocks(input: seq<byte>) returns (h: seq<Hash>)
    ensures h == Leaves(input)
  {
    hide DigestOf;
    h := [];
    var off := 0;
    while off < |input|
      invariant off == Min(KZSEG_SIZE * |h|, |input|)
      invariant |h| <= Segments(|input|) && h == Leaves(input)[..|h|]
    {
      var end := Min(off + KZSEG_SIZE, |input|);
      h := h + [DigestOf(input[off..end])];
      off := end;
    }
  }

  /** ...hashes one level in pairs, at least once... */
  method PairUp(h: seq<Hash>) returns (k: seq<Hash>)
    ensures k == Level(h)
  {
    hide DigestOf;
    k := [];
    var a := 0;
    var more := true;
    while more
      invariant a == 2 * |k| && |k| <= |Level(h)| && k == Level(h)[..|k|]
      invariant more == (|k| < |Level(h)|)
      decreases |Level(h)| - |k|
    {
      assert Pair(h, |k|) == Concat(h[a..Min(a + 2, |h|)]);
      k := k + [DigestOf(Concat(h[a..Min(a + 2, |h|)]))];
      a := a + 2;
      more := a < |h|;
    }
  }

  /** ...and repeats until one hash is left. */
  method Kzhash(input: seq<byte>) returns (out: Hash)
    ensures out == TreeRoot(input)
  {
    hide DigestOf;
    var h := HashBlocks(input);
    var again := true;
    while again
      invariant if again then Root(h) == TreeRoot(input) else |h| == 1 && h[0] == TreeRoot(input)
      decreases again, |h|
    {
      h := PairUp(h);
      again := |h| > 1;
    }
    out := h[0];
  }

  //////////////////////////////////////////////////////////////////////////
  // The stack of subtree roots.
  //////////////////////////////////////////////////////////////////////////

  /** The roots of the perfect subtrees that the binary digits of b cut the
      first b hashes of a level into, the largest subtree first. */
  function Spine(h: seq<Hash>, b: nat): (s: seq<Hash>)
    requires b <= |h|
    decreases b
  {
    if b == 0 then [] else Spine(Level(h), b / 2) + if b % 2 == 1 then [h[b - 1]] else []
  }

  /** The stack depends on the hashes it covers only. */
  lemma {:induction false} SpineAgrees(h: seq<Hash>, g: seq<Hash>, b: nat)
    requires b <= |h| && b <= |g| && h[..b] == g[..b]
    ensures Spine(h, b) == Spine(g, b)
    decreases b
  {
    hide DigestOf;
    if b > 0 {
      forall i | 0 <= i < b / 2
        ensures Level(h)[i] == Level(g)[i]
      {
        assert h[2 * i..2 * i + 2] == h[..b][2 * i..2 * i + 2] == g[2 * i..2 * i + 2];
      }
      assert Level(h)[..b / 2] == Level(g)[..b / 2];
      SpineAgrees(Level(h), Level(g), b / 2);
      assert h[b - 1] == h[..b][b - 1] == g[b - 1];
    }
  }

  /** Collapsing: with an even count the two topmost hashes are a pair of this
      level, and their hash is the topmost of the level above. */
  lemma {:induction false} SpineCollapse(h: seq<Hash>, b: nat)
    requires 0 < b <= |h| && b % 2 == 0
    ensures Spine(h, b - 1) == Spine(Level(h), b / 2 - 1) + [h[b - 2]]
    ensures Level(h)[b / 2 - 1] == DigestOf(Join(h[b - 2], h[b - 1]))
    ensures Spine(h, b) == Spine(Level(h), b / 2)
  {
    hide DigestOf;
    PairOfTwo(h, b / 2 - 1);
    assert (b - 1) / 2 == b / 2 - 1 && (b - 1) % 2 == 1;
    assert Spine(Level(h), b / 2) + [] == Spine(Level(h), b / 2);
  }

  lemma PairOfTwo(h: seq<Hash>, i: nat)
    requires 2 * i + 2 <= |h|
    ensures Pair(h, i) == Join(h[2 * i], h[2 * i + 1])
  {
    assert h[2 * i..2 * i + 2] == [h[2 * i], h[2 * i + 1]];
    assert Concat([h[2 * i + 1]]) == h[2 * i + 1] + Concat([]);
  }

  lemma PairOfOne(h: seq<Hash>, i: nat)
    requires 2 * i + 1 == |h|
    ensures Pair(h, i) == h[2 * i]
  {
    assert h[2 * i..|h|] == [h[2 * i]];
    assert Concat([h[2 * i]]) == h[2 * i] + Concat([]) == h[2 * i];
  }

  /** With an odd count the stack below the topmost hash is that of b - 1. */
  lemma {:induction false} SpineOdd(h: seq<Hash>, b: nat)
    requires b <= |h| && b % 2 == 1
    ensures Spine(h, b) == Spine(h, b - 1) + [h[b - 1]]
  {
    hide DigestOf;
    assert (b - 1) / 2 == b / 2;
    if b > 1 {
      assert Spine(h, b - 1) == Spine(Level(h), b / 2) + [];
    }
  }

  /** Folding: the last hash of a level of b + 1 pairs with the stack below it
      when b is odd and is rehashed alone when b is even. */
  lemma {:induction false} SpineFold(h: seq<Hash>, b: nat)
    requires |h| == b + 1 && b > 0
    ensures |Level(h)| == b / 2 + 1
    ensures if b % 2 == 1 then
              Spine(h, b) == Spine(Level(h), b / 2) + [h[b - 1]] &&
              Level(h)[b / 2] == DigestOf(Join(h[b - 1], h[b]))
            else
              Spine(h, b) == Spine(Level(h), b / 2) && Level(h)[b / 2] == DigestOf(h[b])
  {
    hide DigestOf;
    if b % 2 == 1 {
      PairOfTwo(h, b / 2);
    } else {
      PairOfOne(h, b / 2);
      assert Spine(Level(h), b / 2) + [] == Spine(Level(h), b / 2);
    }
  }

  /** What the levels above h come to, h itself included. */
  function Top(h: seq<Hash>): Hash {
    if |h| == 1 then h[0] else Root(h)
  }

  lemma TopLevel(h: seq<Hash>)
    requires |h| != 1
    ensures Top(h) == Top(Level(h)) == Root(h)
  {
  }

  //////////////////////////////////////////////////////////////////////////
  // The stack never outgrows its 32 places.
  //////////////////////////////////////////////////////////////////////////

  function PopCount(n: nat): nat {
    if n == 0 then 0 else n % 2 + PopCount(n / 2)
  }

  lemma {:induction false} SpineLength(h: seq<Hash>, b: nat)
    requires b <= |h|
    ensures |Spine(h, b)| == PopCount(b)
    decreases b
  {
    if b > 0 {
      SpineLength(Level(h), b / 2);
    }
  }

  lemma {:induction false} PopCountBound(n: nat, k: nat)
    requires n < Pow2(k)
    ensures PopCount(n) <= k
    ensures n + 1 < Pow2(k) ==> PopCount(n) < k
    decreases k
  {
    if k > 0 && n > 0 {
      PopCountBound(n / 2, k - 1);
    }
  }

  /** After n blocks there is still a place free, for every n the 32 places allow. */
  lemma StackFits(n: nat)
    requires n < 0xffff_ffff
    ensures PopCount(n) <= 31
  {
    assert Pow2(8) == 256;
    Pow2Sum(8, 8);
    Pow2Sum(16, 16);
    PopCountBound(n, 32);
  }

  lemma {:induction false} Pow2Sum(a: nat, b: nat)
    ensures Pow2(a + b) == Pow2(a) * Pow2(b)
  {
    if a > 0 {
      Pow2Sum(a - 1, b);
    }
  }
}
