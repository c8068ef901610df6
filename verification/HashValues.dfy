/** What the kzhash is in terms of numbers alone: where its samples lie, how its tree
    begins, and what it is for files without samples. */
module HashValues {
  import opened Bytes
  import opened Md5
  import opened Crc
  import opened TreeHash
  import opened FstHash
  import opened Rfc1321Suite

  /** The segments of 307200 bytes at 1 MiB, 2 MiB, 4 MiB, and so on. */
  function SegmentsAt(input: seq<byte>, count: nat): seq<seq<byte>>
    requires forall k :: 0 <= k < count ==> 1048576 * Pow2(k) + 307200 <= |input|
  {
    seq(count, k requires 0 <= k < count => input[1048576 * Pow2(k)..1048576 * Pow2(k) + 307200])
  }

  lemma {:induction false} SamplesAre(input: seq<byte>, from: nat, count: nat, limit: nat)
    requires from <= count && limit <= |input|
    requires forall k :: 0 <= k < count ==> 1048576 * Pow2(k) + 307200 <= limit
    requires 1048576 * Pow2(count) + 307200 > limit
    ensures Samples(input, 1048576 * Pow2(from), limit) == Concat(SegmentsAt(input, count)[from..])
    decreases count - from
  {
    hide Pow2, Concat;
    var s := SegmentsAt(input, count);
    if from < count {
      SamplesAre(input, from + 1, count, limit);
      Doubled(from);
      assert s[from] == input[1048576 * Pow2(from)..1048576 * Pow2(from) + 307200];
      hide SegmentsAt;
      ConcatFrom(s, from);
    } else {
      NothingLeft(s);
    }
  }

  lemma Doubled(k: nat)
    ensures 2 * (1048576 * Pow2(k)) == 1048576 * Pow2(k + 1)
  {
  }

  lemma ConcatFrom(s: seq<seq<byte>>, i: nat)
    requires i < |s|
    ensures Concat(s[i..]) == s[i] + Concat(s[i + 1..])
  {
    assert s[i..][1..] == s[i + 1..];
  }

  lemma NothingLeft(s: seq<seq<byte>>)
    ensures Concat(s[|s|..]) == []
  {
  }

  /** The small hash of a file of more than 307200 bytes: of the segments at 1 MiB times
      a power of two that end no later than 307200 bytes before the end, and of the last
      307200 bytes, or as many as there are behind the first 307200. */
  lemma SmallHashIs(input: seq<byte>, count: nat)
    requires |input| > 307200
    requires forall k :: 0 <= k < count ==> 1048576 * Pow2(k) + 614400 <= |input|
    requires 1048576 * Pow2(count) + 614400 > |input|
    ensures var n := |input|;
            var tail := input[if n < 614400 then 307200 else n - 307200..];
            SmallHash(input) ==
            Crc32(0xffff_ffff, Concat(SegmentsAt(input, count)) + tail) ^ ((n % 0x1_0000_0000) as bv32)
  {
    hide Crc32, Samples, Concat;
    assert Pow2(0) == 1;
    SamplesAre(input, 0, count, |input| - 307200);
    assert SegmentsAt(input, count)[0..] == SegmentsAt(input, count);
  }

  /** The digest part is that of the first 307200 bytes, then comes the small hash, low
      byte first, and the tree part comes last. */
  lemma KzHashParts(input: seq<byte>)
    ensures KzHash(input)[..16] == DigestOf(if |input| < 307200 then input else input[..307200])
    ensures KzHash(input)[16..20] == WordBytes(SmallHash(input))
    ensures KzHash(input)[20..] == TreeRoot(input)
  {
    hide DigestOf, TreeRoot, WordBytes, SmallHash;
    if |input| < 307200 {
      assert input[..|input|] == input;
    }
  }

  /** A file without a tail has the complement of its length as its small hash. */
  lemma ShortSmallHash(input: seq<byte>)
    requires |input| <= 307200
    ensures KzHash(input)[16..20] == WordBytes(0xffff_ffff ^ (|input| as bv32))
  {
    hide KzHash, WordBytes, SmallHash, LowWord;
    KzHashParts(input);
    NothingCovered(input);
    SameLowWord(|input|);
  }

  lemma NothingCovered(input: seq<byte>)
    requires |input| <= 307200
    ensures SmallHash(input) == Xor32(0xffff_ffff, LowWord(|input|))
  {
    hide LowWord, Xor32;
    CrcOfNothing();
  }

  lemma SameLowWord(n: nat)
    requires n < 0x1_0000_0000
    ensures LowWord(n) == n as bv32
  {
    assert n % 0x1_0000_0000 == n;
  }

  /** The tree part of a file of at most 32768 bytes, and of one of at most 65536. */
  lemma SmallTrees(input: seq<byte>)
    ensures 0 < |input| <= 32768 ==> TreeRoot(input) == DigestOf(DigestOf(input))
    ensures 32768 < |input| <= 65536 ==>
              TreeRoot(input) == DigestOf(DigestOf(input[..32768]) + DigestOf(input[32768..]))
  {
    hide DigestOf;
    var h := Leaves(input);
    if 0 < |input| <= 32768 {
      assert h == [DigestOf(input)] by {
        assert input[0..|input|] == input;
      }
      OneLeaf(h);
    } else if 32768 < |input| <= 65536 {
      assert h == [DigestOf(input[..32768]), DigestOf(input[32768..])] by {
        assert input[0..32768] == input[..32768] && input[32768..|input|] == input[32768..];
      }
      PairOfTwo(h, 0);
      assert Level(h) == [DigestOf(Join(h[0], h[1]))];
    }
  }

  /** The kzhash of the empty file, all 36 bytes of it. */
  lemma EmptyFile()
    ensures KzHash([]) ==
            [0xd4, 0x1d, 0x8c, 0xd9, 0x8f, 0x00, 0xb2, 0x04, 0xe9, 0x80, 0x09, 0x98, 0xec, 0xf8, 0x42, 0x7e] +
            [0xff, 0xff, 0xff, 0xff] +
            [0xd4, 0x1d, 0x8c, 0xd9, 0x8f, 0x00, 0xb2, 0x04, 0xe9, 0x80, 0x09, 0x98, 0xec, 0xf8, 0x42, 0x7e]
  {
    hide DigestOf;
    EmptyDigest();
    EmptyTree();
    var none: seq<byte> := [];
    assert Leaves(none) == [];
    KzHashParts(none);
    ShortSmallHash(none);
    FullWord();
    var h := KzHash(none);
    assert h == h[..16] + h[16..20] + h[20..];
  }

  lemma FullWord()
    ensures WordBytes(0xffff_ffff ^ ((0 as nat) as bv32)) == [0xff, 0xff, 0xff, 0xff]
  {
    assert (0 as nat) as bv32 == 0;
  }
}
