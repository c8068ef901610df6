/** The streaming FastTrack hash of fst_hash.c: one pass over chunks of any size keeps
    an MD5 of the head, a ring of the last bytes, a sparse CRC and a stack of tree
    hashes, and ends with the 36 bytes the whole file defines. */
module FstHash {
  import opened Bytes
  import opened Md5
  import opened Crc
  import opened TreeHash

  const FTSEG_SIZE: nat := 307200
  const FIRST_SAMPLE: nat := 0x10_0000
  const KZHASH_LEN: nat := 36

  /** The longest file the 32 places of the node stack are enough for. */
  const MAX_LEN: nat := KZSEG_SIZE * 0xffff_ffff

  //////////////////////////////////////////////////////////////////////////
  // The hash of a whole file.
  //////////////////////////////////////////////////////////////////////////

  /** The segments at s, 2s, 4s, ... that end no later than `limit`. */
  function Samples(input: seq<byte>, s: nat, limit: nat): seq<byte>
    requires 0 < s && limit <= |input|
    decreases limit - s
  {
    if s + FTSEG_SIZE > limit then []
    else input[s..s + FTSEG_SIZE] + Samples(input, 2 * s, limit)
  }

  /** What of a file the small hash covers: nothing up to one segment; beyond it
      the samples that stay clear of the last segment, and the tail, which is the
      last segment less what of it lies in the first. */
  function Covered(input: seq<byte>): seq<byte> {
    var n := |input|;
    if n <= FTSEG_SIZE then []
    else Samples(input, FIRST_SAMPLE, n - FTSEG_SIZE) + input[n - Min(n - FTSEG_SIZE, FTSEG_SIZE)..]
  }

  const CRC_INIT: bv32 := 0xffff_ffff

  function LowWord(n: nat): bv32 {
    (n % 0x1_0000_0000) as bv32
  }

  function SmallHash(input: seq<byte>): bv32 {
    Xor32(Crc32(CRC_INIT, Covered(input)), LowWord(|input|))
  }

  /** The 36 bytes of the kzhash. */
  function KzHash(input: seq<byte>): (h: seq<byte>)
    ensures |h| == KZHASH_LEN
  {
    DigestOf(input[..Min(FTSEG_SIZE, |input|)]) + WordBytes(SmallHash(input)) + TreeRoot(input)
  }

  //////////////////////////////////////////////////////////////////////////
  // The sample positions.
  //////////////////////////////////////////////////////////////////////////

  ghost predicate IsSample(s: nat) {
    s == FIRST_SAMPLE || (s % 2 == 0 && s / 2 >= FIRST_SAMPLE && IsSample(s / 2))
  }

  /** The sample before s, if there is one, ends by n. */
  ghost predicate Clear(s: nat, n: nat) {
    IsSample(s) && (s == FIRST_SAMPLE || s / 2 + FTSEG_SIZE <= n)
  }

  /** The samples before s. */
  ghost function Prior(m: seq<byte>, s: nat): seq<byte>
    requires Clear(s, |m|)
  {
    if s == FIRST_SAMPLE then [] else Prior(m, s / 2) + m[s / 2..s / 2 + FTSEG_SIZE]
  }

  ghost function PriorCrc(m: seq<byte>, s: nat): bv32
    requires Clear(s, |m|)
  {
    Crc32(CRC_INIT, Prior(m, s))
  }

  lemma {:induction false} PriorPrefix(m: seq<byte>, rest: seq<byte>, s: nat)
    requires Clear(s, |m|)
    ensures Clear(s, |m + rest|) && Prior(m + rest, s) == Prior(m, s)
  {
    if s != FIRST_SAMPLE {
      PriorPrefix(m, rest, s / 2);
      assert (m + rest)[s / 2..s / 2 + FTSEG_SIZE] == m[s / 2..s / 2 + FTSEG_SIZE];
    }
  }

  lemma DoubleIsSample(s: nat, n: nat)
    requires IsSample(s) && s + FTSEG_SIZE <= n
    ensures Clear(2 * s, n) && 2 * s / 2 == s >= FIRST_SAMPLE
  {
  }

  lemma {:induction false} SamplesSplit(m: seq<byte>, s: nat, limit: nat)
    requires limit <= |m| && Clear(s, limit)
    ensures Clear(s, |m|)
    ensures Samples(m, FIRST_SAMPLE, limit) == Prior(m, s) + Samples(m, s, limit)
  {
    if s != FIRST_SAMPLE {
      var h := s / 2;
      SamplesSplit(m, h, limit);
      assert Samples(m, h, limit) == m[h..h + FTSEG_SIZE] + Samples(m, s, limit);
      assert Prior(m, h) + (m[h..h + FTSEG_SIZE] + Samples(m, s, limit)) ==
             Prior(m, h) + m[h..h + FTSEG_SIZE] + Samples(m, s, limit);
    }
  }

  /** The samples that end by `limit` are those before the first one that does not. */
  lemma SamplesArePrior(m: seq<byte>, s: nat, limit: nat)
    requires limit <= |m| && Clear(s, limit) && s + FTSEG_SIZE > limit
    ensures Clear(s, |m|) && Samples(m, FIRST_SAMPLE, limit) == Prior(m, s)
  {
    SamplesSplit(m, s, limit);
    assert Prior(m, s) + [] == Prior(m, s);
  }

  //////////////////////////////////////////////////////////////////////////
  // The ring window.
  //////////////////////////////////////////////////////////////////////////

  /** The ring w read from position s on. */
  function Unrolled(w: seq<byte>, s: nat): (u: seq<byte>)
    requires s <= |w|
    ensures |u| == |w|
  {
    w[s..] + w[..s]
  }

  function FromEnd(s: seq<byte>, d: nat): byte
    requires 0 < d <= |s|
  {
    s[|s| - d]
  }

  /** The last bytes of the ring and of the file agree, as far as both go. */
  ghost predicate Windowed(ring: seq<byte>, m: seq<byte>) {
    forall d :: 0 < d <= |ring| && d <= |m| ==> FromEnd(ring, d) == FromEnd(m, d)
  }

  lemma WindowSlides(ring: seq<byte>, m: seq<byte>, data: seq<byte>)
    requires Windowed(ring, m) && |data| <= |ring|
    ensures Windowed((ring + data)[|data|..], m + data)
  {
    var next, all := (ring + data)[|data|..], m + data;
    forall d | 0 < d <= |next| && d <= |all|
      ensures FromEnd(next, d) == FromEnd(all, d)
    {
      if d > |data| {
        assert FromEnd(ring, d - |data|) == FromEnd(m, d - |data|);
      }
    }
  }

  lemma WindowReplaced(m: seq<byte>, data: seq<byte>, n: nat)
    requires n <= |data|
    ensures Windowed(data[|data| - n..], m + data)
  {
  }

  lemma WindowFull(ring: seq<byte>, m: seq<byte>)
    requires Windowed(ring, m) && |ring| <= |m|
    ensures ring == m[|m| - |ring|..]
  {
    forall i | 0 <= i < |ring|
      ensures ring[i] == m[|m| - |ring|..][i]
    {
      assert FromEnd(ring, |ring| - i) == FromEnd(m, |ring| - i);
    }
  }

  function Wrap(p: nat): (w: nat)
    requires p < 2 * FTSEG_SIZE
    ensures w == if p < FTSEG_SIZE then p else p - FTSEG_SIZE
  {
    p % FTSEG_SIZE
  }

  lemma UnrolledAtZero(w: seq<byte>)
    ensures Unrolled(w, 0) == w
  {
  }

  lemma RingWriteInside(w: seq<byte>, s: nat, data: seq<byte>, w': seq<byte>)
    requires s + |data| < |w|
    requires w' == w[..s] + data + w[s + |data|..]
    ensures Unrolled(w', s + |data|) == (Unrolled(w, s) + data)[|data|..]
  {
    var s' := s + |data|;
    assert w'[s'..] == w[s'..] && w'[..s'] == w[..s] + data;
  }

  lemma RingWriteAround(w: seq<byte>, s: nat, data: seq<byte>, w': seq<byte>)
    requires s < |w| && |data| < |w| <= s + |data|
    requires var s' := s + |data| - |w|; w' == data[|w| - s..] + w[s'..s] + data[..|w| - s]
    ensures |w'| == |w| && Unrolled(w', s + |data| - |w|) == (Unrolled(w, s) + data)[|data|..]
  {
    var s' := s + |data| - |w|;
    assert w'[s'..] == w[s'..s] + data[..|w| - s] && w'[..s'] == data[|w| - s..];
    assert data[..|w| - s] + data[|w| - s..] == data;
    assert (Unrolled(w, s) + data)[|data|..] == w[s'..s] + data;
  }

  /** Writing to the ring at s, around its end when the data does not fit, slides
      the window: w1 and w2 are the ring after the first and the second memcpy. */
  lemma RingWrite(w: seq<byte>, s: nat, data: seq<byte>, w1: seq<byte>, w2: seq<byte>, s': nat)
    requires s < |w| && |data| < |w|
    requires var len := Min(|w| - s, |data|);
             w1 == w[..s] + data[..len] + w[s + len..] &&
             w2 == w1[..0] + data[len..] + w1[0 + |data[len..]|..]
    requires s' == if s + |data| < |w| then s + |data| else s + |data| - |w|
    ensures |w2| == |w| && Unrolled(w2, s') == (Unrolled(w, s) + data)[|data|..]
  {
    hide Unrolled;
    var len := Min(|w| - s, |data|);
    CopyToStart(w1, data[len..], w2);
    if s + |data| < |w| {
      assert data[..len] == data && data[len..] == [];
      RingWriteInside(w, s, data, w2);
    } else {
      RingAfterFirst(w, s, data[..len], w1, s');
      SumAssociates(data[len..], w[s'..s], data[..len]);
      RingWriteAround(w, s, data, w2);
    }
  }

  lemma CopyToStart(w: seq<byte>, src: seq<byte>, w': seq<byte>)
    requires |src| <= |w| && w' == w[..0] + src + w[0 + |src|..]
    ensures w' == src + w[|src|..]
  {
  }

  lemma RingAfterFirst(w: seq<byte>, s: nat, head: seq<byte>, w1: seq<byte>, s': nat)
    requires s' <= s <= |w| && |head| == |w| - s && w1 == w[..s] + head + w[s + |head|..]
    ensures w1[s'..] == w[s'..s] + head
  {
  }

  /** The last n bytes of the unrolled ring are one stretch of it or two. */
  lemma RingTail(w: seq<byte>, s: nat, n: nat, s': nat)
    requires s < |w| && n <= |w|
    requires s' == if s < n then s + |w| - n else s - n
    ensures s' <= |w| && n - Min(|w| - s', n) <= |w|
    ensures w[s'..s' + Min(|w| - s', n)] + w[..n - Min(|w| - s', n)] == Unrolled(w, s)[|w| - n..]
  {
    if s < n {
      assert Unrolled(w, s)[|w| - n..] == w[s'..] + w[..s];
    } else {
      assert Unrolled(w, s)[|w| - n..] == w[s'..s' + n] + w[..0];
    }
  }

  lemma RingIsTail(w: seq<byte>, s: nat, m: seq<byte>, n: nat, s': nat)
    requires s < |w| && n <= |w| <= |m| && Windowed(Unrolled(w, s), m)
    requires s' == if s < n then s + |w| - n else s - n
    ensures s' <= |w| && n - Min(|w| - s', n) <= |w|
    ensures w[s'..s' + Min(|w| - s', n)] + w[..n - Min(|w| - s', n)] == m[|m| - n..]
  {
    hide Unrolled, Windowed;
    WindowFull(Unrolled(w, s), m);
    TailSlice(m, |m| - |w|, |w| - n, |w|);
    RingTail(w, s, n, s');
  }

  //////////////////////////////////////////////////////////////////////////
  // The tree stack against the segments hashed so far.
  //////////////////////////////////////////////////////////////////////////

  /** The hashes of the first b whole segments. */
  ghost function Hashed(m: seq<byte>, b: nat): (h: seq<Hash>)
    requires KZSEG_SIZE * b <= |m|
    ensures |h| == b
  {
    seq(b, i requires 0 <= i < b => DigestOf(m[KZSEG_SIZE * i..KZSEG_SIZE * i + KZSEG_SIZE]))
  }

  lemma {:induction false} HashedPrefix(m: seq<byte>, rest: seq<byte>, b: nat)
    requires KZSEG_SIZE * b <= |m|
    ensures Hashed(m + rest, b) == Hashed(m, b)
  {
    hide DigestOf;
    forall i | 0 <= i < b
      ensures Hashed(m + rest, b)[i] == Hashed(m, b)[i]
    {
      var lo := KZSEG_SIZE * i;
      assert (m + rest)[lo..lo + KZSEG_SIZE] == m[lo..lo + KZSEG_SIZE];
    }
  }

  lemma {:induction false} HashedNext(m: seq<byte>, b: nat)
    requires KZSEG_SIZE * b + KZSEG_SIZE <= |m|
    ensures Hashed(m, b + 1) == Hashed(m, b) + [DigestOf(m[KZSEG_SIZE * b..KZSEG_SIZE * b + KZSEG_SIZE])]
  {
    hide DigestOf;
  }

  /** The leaves are the whole segments and what is left over. */
  lemma {:induction false} LeavesAreHashed(m: seq<byte>, b: nat)
    requires KZSEG_SIZE * b <= |m| < KZSEG_SIZE * b + KZSEG_SIZE
    ensures Leaves(m) == Hashed(m, b) + if |m| == KZSEG_SIZE * b then [] else [DigestOf(m[KZSEG_SIZE * b..])]
  {
    hide DigestOf;
    var rest := if |m| == KZSEG_SIZE * b then [] else [DigestOf(m[KZSEG_SIZE * b..])];
    assert Segments(|m|) == b + |rest|;
    if |rest| == 1 {
      assert m[KZSEG_SIZE * b..|m|] == m[KZSEG_SIZE * b..];
    }
  }

  lemma SegmentOffset(p: nat, b: nat)
    requires KZSEG_SIZE * b <= p < KZSEG_SIZE * b + KZSEG_SIZE
    ensures p % KZSEG_SIZE == p - KZSEG_SIZE * b
  {
  }

  /** A stack of n hashes takes 16 n bytes. */
  lemma {:induction false} ConcatLength(s: seq<Hash>)
    ensures |Concat(s)| == HASH_LEN * |s|
  {
    if s != [] {
      ConcatLength(s[1..]);
    }
  }

  lemma CrcOfNothing()
    ensures Crc32(CRC_INIT, []) == CRC_INIT
  {
  }

  lemma EmptyStack(h: seq<Hash>)
    ensures Spine(h, 0) == [] && Concat(Spine(h, 0)) == []
  {
  }

  lemma EmptyTree()
    ensures Root([]) == DigestOf([])
  {
    hide DigestOf;
    assert Pair([], 0) == [];
  }

  lemma {:induction false} OneLeaf(h: seq<Hash>)
    requires |h| == 1
    ensures Root(h) == DigestOf(h[0])
    ensures Spine(h, 1) == [h[0]] && Concat(Spine(h, 1)) == h[0]
  {
    hide DigestOf;
    PairOfOne(h, 0);
    assert Concat([h[0]]) == h[0] + Concat([]) == h[0];
  }

  //////////////////////////////////////////////////////////////////////////
  // The context.
  //////////////////////////////////////////////////////////////////////////

  class HashContext {
    const md5300: Md5.Context
    var smallhash: bv32
    var prevSmallhash: bv32
    var pos: nat
    var samplePos: nat
    var wndStart: nat
    const wnd: array<byte>
    const md5tree: Md5.Context
    const nodes: array<byte>
    var index: nat
    var blocks: nat

    /** Everything hashed so far. */
    ghost var input: seq<byte>

    ghost predicate Separate() {
      wnd.Length == FTSEG_SIZE && nodes.Length == HASH_LEN * 32 && wnd != nodes &&
      md5300 != md5tree && md5300.inp != md5tree.inp &&
      md5300.inp != wnd && md5300.inp != nodes && md5tree.inp != wnd && md5tree.inp != nodes &&
      md5300.Sized() && md5tree.Sized()
    }

    ghost predicate HeadIs(m: seq<byte>)
      reads md5300, md5300.inp
    {
      md5300.Valid() && md5300.msg == m[..Min(FTSEG_SIZE, |m|)]
    }

    ghost predicate WindowIs(m: seq<byte>)
      reads this`wndStart, wnd
    {
      wnd.Length == FTSEG_SIZE && wndStart < FTSEG_SIZE &&
      Windowed(Unrolled(wnd[..], wndStart), m)
    }

    /** The CRC of the samples before samplePos and of what has been read of the
        one there, and the CRC to rewind to. */
    ghost predicate SmallIs(m: seq<byte>, p: nat)
      reads this`smallhash, this`prevSmallhash, this`samplePos
    {
      p <= |m| && Clear(samplePos, |m|) &&
      (if samplePos < p then
         smallhash == Crc32(CRC_INIT, Prior(m, samplePos) + m[samplePos..p]) &&
         prevSmallhash == PriorCrc(m, samplePos)
       else
         smallhash == PriorCrc(m, samplePos) &&
         prevSmallhash == if samplePos == FIRST_SAMPLE then CRC_INIT else PriorCrc(m, samplePos / 2))
    }

    ghost predicate Unfinished(p: nat)
      reads this`samplePos
    {
      samplePos < p ==> p < samplePos + FTSEG_SIZE
    }

    /** The node stack holds the subtree roots of the b hashes h. */
    ghost predicate StackIs(h: seq<Hash>, b: nat)
      requires b <= |h|
      reads this`index, nodes
    {
      index <= nodes.Length && nodes[..index] == Concat(Spine(h, b))
    }

    ghost predicate TreeIs(m: seq<byte>, p: nat)
      reads this`index, this`blocks, nodes, md5tree, md5tree.inp
    {
      KZSEG_SIZE * blocks <= p <= |m| && p < KZSEG_SIZE * blocks + KZSEG_SIZE &&
      StackIs(Hashed(m, blocks), blocks) &&
      md5tree.Valid() && md5tree.msg == m[KZSEG_SIZE * blocks..p]
    }

    ghost predicate Valid()
      reads this, md5300, md5300.inp, wnd, md5tree, md5tree.inp, nodes
    {
      Separate() && pos == |input| <= MAX_LEN &&
      HeadIs(input) && WindowIs(input) &&
      SmallIs(input, |input|) && Unfinished(|input|) && TreeIs(input, |input|)
    }

    /** fst_hash_init. */
    constructor ()
      ensures Valid() && input == []
      ensures fresh(md5300) && fresh(md5300.inp) && fresh(md5tree) && fresh(md5tree.inp)
      ensures fresh(wnd) && fresh(nodes)
    {
      md5300 := new Md5.Context();
      md5tree := new Md5.Context();
      smallhash := CRC_INIT;
      prevSmallhash := CRC_INIT;
      pos := 0;
      samplePos := FIRST_SAMPLE;
      wndStart := 0;
      wnd := new byte[FTSEG_SIZE];
      nodes := new byte[HASH_LEN * 32];
      index := 0;
      blocks := 0;
      input := [];
    }

    //////////////////////////////////////////////////////////////////////////
    // fst_hash_update, section by section.
    //////////////////////////////////////////////////////////////////////////

    method UpdateHead(data: seq<byte>)
      requires HeadIs(input) && pos == |input|
      modifies md5300, md5300.inp
      ensures HeadIs(input + data)
    {
      hide DigestOf, Context.Valid;
      if pos < FTSEG_SIZE {
        var len := Min(FTSEG_SIZE - pos, |data|);
        md5300.Update(data[..len]);
        assert input + data[..len] == (input + data)[..Min(FTSEG_SIZE, |input + data|)];
      } else {
        assert (input + data)[..FTSEG_SIZE] == input[..FTSEG_SIZE];
      }
    }

    method UpdateWindow(data: seq<byte>)
      requires WindowIs(input)
      modifies this`wndStart, wnd
      ensures WindowIs(input + data)
    {
      hide Windowed, Unrolled;
      if |data| >= FTSEG_SIZE {
        MemCpy(wnd, 0, data[|data| - FTSEG_SIZE..]);
        wndStart := 0;
        WindowReplaced(input, data, FTSEG_SIZE);
        UnrolledAtZero(wnd[..]);
        assert wnd[..] == data[|data| - FTSEG_SIZE..];
      } else {
        WindowSlides(Unrolled(wnd[..], wndStart), input, data);
        WriteRing(data);
      }
    }

    method WriteRing(data: seq<byte>)
      requires wnd.Length == FTSEG_SIZE && wndStart < FTSEG_SIZE && |data| < FTSEG_SIZE
      modifies this`wndStart, wnd
      ensures wndStart < FTSEG_SIZE
      ensures Unrolled(wnd[..], wndStart) == (old(Unrolled(wnd[..], wndStart)) + data)[|data|..]
    {
      hide Unrolled, Wrap;
      ghost var w, s := wnd[..], wndStart;
      var len := Min(FTSEG_SIZE - wndStart, |data|);
      MemCpy(wnd, wndStart, data[..len]);
      ghost var w1 := wnd[..];
      MemCpy(wnd, 0, data[len..]);
      wndStart := Wrap(wndStart + |data|);
      RingWrite(w, s, data, w1, wnd[..], wndStart);
    }

    /** One turn of the sampling loop up to its test: hash what the chunk holds of
        the sample at samplePos. */
    method ReadSample(data: seq<byte>, ghost all: seq<byte>)
      requires pos + |data| == |all| && data == all[pos..]
      requires SmallIs(all, pos) && Unfinished(pos) && samplePos < |all|
      modifies this`smallhash, this`prevSmallhash
      ensures var end := Min(samplePos + FTSEG_SIZE, |all|);
              smallhash == Crc32(CRC_INIT, Prior(all, samplePos) + all[samplePos..end]) &&
              prevSmallhash == PriorCrc(all, samplePos)
    {
      hide Crc32;
      ghost var prior := Prior(all, samplePos);
      if samplePos >= pos {
        prevSmallhash := smallhash;
        var off := samplePos - pos;
        var len := Min(FTSEG_SIZE, |data| - off);
        Crc32Append(CRC_INIT, prior, data[off..off + len]);
        smallhash := Small(smallhash, data[off..off + len]);
        TailSlice(all, pos, off, off + len);
      } else {
        var len := Min(FTSEG_SIZE - (pos - samplePos), |data|);
        Crc32Append(CRC_INIT, prior + all[samplePos..pos], data[..len]);
        smallhash := Small(smallhash, data[..len]);
        TailSlice(all, pos, 0, len);
        SliceJoins(all, samplePos, pos, pos + len);
        SumAssociates(prior, all[samplePos..pos], data[..len]);
      }
    }

    method UpdateSmall(data: seq<byte>, ghost all: seq<byte>)
      requires pos + |data| == |all| && data == all[pos..]
      requires SmallIs(all, pos) && Unfinished(pos)
      modifies this`smallhash, this`prevSmallhash, this`samplePos
      ensures SmallIs(all, |all|) && Unfinished(|all|)
    {
      hide Crc32;
      while samplePos < pos + |data|
        invariant SmallIs(all, pos) && Unfinished(pos)
        decreases |all| - samplePos
      {
        ReadSample(data, all);
        if samplePos + FTSEG_SIZE > pos + |data| {
          assert all[samplePos..|all|] == all[samplePos..];
          return;
        }
        DoubleIsSample(samplePos, |all|);
        samplePos := 2 * samplePos;
      }
    }

    //////////////////////////////////////////////////////////////////////////
    // The node stack.
    //////////////////////////////////////////////////////////////////////////

    /** Hash the topmost bytes of the stack in place: MD5Init, MD5Update and
        MD5Final over nodes[lo..index]. */
    method HashNodes(lo: nat)
      requires Separate() && lo + HASH_LEN <= index <= nodes.Length
      modifies this`index, nodes, md5tree, md5tree.inp
      ensures index == lo + HASH_LEN
      ensures nodes[..index] == old(nodes[..lo]) + DigestOf(old(nodes[lo..index]))
    {
      hide DigestOf, Context.Valid;
      md5tree.Init();
      md5tree.Update(nodes[lo..index]);
      assert md5tree.msg == old(nodes[lo..index]);
      md5tree.Final(nodes, lo);
      index := lo + HASH_LEN;
    }

    /** Finish a segment: push its hash, then collapse the pairs it completes. */
    method PushSegment(ghost h: seq<Hash>)
      requires Separate() && blocks < 0xffff_ffff
      requires |h| == blocks + 1 && StackIs(h, blocks)
      requires md5tree.Valid() && h[blocks] == DigestOf(md5tree.msg)
      modifies this`index, this`blocks, nodes, md5tree, md5tree.inp
      ensures blocks == |h| && StackIs(h, blocks)
    {
      hide DigestOf, Context.Valid;
      SpineLength(h, blocks);
      ConcatLength(Spine(h, blocks));
      StackFits(blocks);
      md5tree.Final(nodes, index);
      index := index + HASH_LEN;
      blocks := blocks + 1;
      Collapse(h);
    }

    /** The loop over the trailing zero digits of the block count. */
    method Collapse(ghost h: seq<Hash>)
      requires Separate() && blocks == |h| > 0 && HASH_LEN <= index <= nodes.Length
      requires nodes[..index] == Concat(Spine(h, |h| - 1)) + h[|h| - 1]
      modifies this`index, nodes, md5tree, md5tree.inp
      ensures StackIs(h, |h|)
    {
      hide DigestOf, Spine, Level, Concat;
      var b := blocks;
      ghost var g := h;
      while b % 2 == 0
        invariant 0 < b <= |g| && Spine(g, b) == Spine(h, |h|)
        invariant HASH_LEN <= index <= nodes.Length
        invariant nodes[..index] == Concat(Spine(g, b - 1)) + g[b - 1]
        decreases b
      {
        CollapseOne(g, b);
        g := Level(g);
        b := b / 2;
      }
      SpineOdd(g, b);
      ConcatAppend(Spine(g, b - 1), g[b - 1]);
    }

    method CollapseOne(ghost g: seq<Hash>, b: nat)
      requires Separate() && b % 2 == 0 && 0 < b <= |g|
      requires HASH_LEN <= index <= nodes.Length
      requires nodes[..index] == Concat(Spine(g, b - 1)) + g[b - 1]
      modifies this`index, nodes, md5tree, md5tree.inp
      ensures HASH_LEN <= index <= nodes.Length && Spine(g, b) == Spine(Level(g), b / 2)
      ensures nodes[..index] == Concat(Spine(Level(g), b / 2 - 1)) + Level(g)[b / 2 - 1]
    {
      hide DigestOf, Spine, Level, Concat;
      SpineCollapse(g, b);
      ghost var below := Concat(Spine(Level(g), b / 2 - 1));
      ConcatAppend(Spine(Level(g), b / 2 - 1), g[b - 2]);
      assert nodes[..index] == below + Join(g[b - 2], g[b - 1]);
      HashNodes(index - 2 * HASH_LEN);
    }

    /** How much of n bytes still belongs to the segment begun. */
    method FirstPart(n: nat) returns (len: nat)
      requires KZSEG_SIZE * blocks <= pos < KZSEG_SIZE * blocks + KZSEG_SIZE
      ensures len == Min(KZSEG_SIZE * blocks + KZSEG_SIZE - pos, n)
    {
      SegmentOffset(pos, blocks);
      len := Min(KZSEG_SIZE - pos % KZSEG_SIZE, n);
    }

    /** The segments the chunk completes, and the start of the next one. */
    method UpdateTree(data: seq<byte>, ghost all: seq<byte>)
      requires Separate() && pos + |data| == |all| <= MAX_LEN && data == all[pos..]
      requires TreeIs(all, pos)
      modifies this`index, this`blocks, nodes, md5tree, md5tree.inp
      ensures TreeIs(all, |all|)
    {
      hide StackIs, Hashed, Context.Valid;
      var off := 0;
      var len := FirstPart(|data|);
      while len > 0
        invariant off + len <= |data| && pos + |data| == |all| && TreeIs(all, pos + off)
        invariant len == Min(KZSEG_SIZE * blocks + KZSEG_SIZE - (pos + off), |data| - off)
        decreases |data| - off
      {
        TailSlice(all, pos, off, off + len);
        UpdateSegment(data[off..off + len], all, pos + off);
        off := off + len;
        len := Min(KZSEG_SIZE, |data| - off);
      }
    }

    method UpdateSegment(part: seq<byte>, ghost all: seq<byte>, at: nat)
      requires Separate() && 0 < |part| && at + |part| <= |all| <= MAX_LEN
      requires part == all[at..at + |part|]
      requires TreeIs(all, at)
      requires |part| == Min(KZSEG_SIZE * blocks + KZSEG_SIZE - at, |all| - at)
      modifies this`index, this`blocks, nodes, md5tree, md5tree.inp
      ensures TreeIs(all, at + |part|)
      ensures at + |part| < |all| ==> at + |part| == KZSEG_SIZE * blocks
    {
      hide DigestOf, Context.Valid, Spine;
      SliceJoins(all, KZSEG_SIZE * blocks, at, at + |part|);
      md5tree.Update(part);
      if (at + |part|) % KZSEG_SIZE == 0 {
        assert at + |part| == KZSEG_SIZE * blocks + KZSEG_SIZE;
        HashedNext(all, blocks);
        SpineAgrees(Hashed(all, blocks), Hashed(all, blocks + 1), blocks);
        PushSegment(Hashed(all, blocks + 1));
        md5tree.Init();
      }
    }

    lemma SmallExtends(rest: seq<byte>)
      requires SmallIs(input, |input|)
      ensures SmallIs(input + rest, |input|)
    {
      hide Crc32;
      PriorPrefix(input, rest, samplePos);
      if samplePos < |input| {
        assert (input + rest)[samplePos..|input|] == input[samplePos..|input|];
      } else if samplePos != FIRST_SAMPLE {
        PriorPrefix(input, rest, samplePos / 2);
      }
    }

    lemma {:induction false} TreeExtends(rest: seq<byte>)
      requires TreeIs(input, |input|)
      ensures TreeIs(input + rest, |input|)
    {
      hide Context.Valid, Spine, DigestOf;
      HashedPrefix(input, rest, blocks);
      assert (input + rest)[KZSEG_SIZE * blocks..|input|] == input[KZSEG_SIZE * blocks..];
    }

    /** fst_hash_update. */
    method Update(data: seq<byte>)
      requires Valid() && |input| + |data| <= MAX_LEN
      modifies this, md5300, md5300.inp, wnd, md5tree, md5tree.inp, nodes
      ensures Valid() && input == old(input) + data
    {
      hide HeadIs, WindowIs, SmallIs, Unfinished, TreeIs;
      ghost var all := input + data;
      SmallExtends(data);
      TreeExtends(data);
      UpdateHead(data);
      UpdateWindow(data);
      UpdateSmall(data, all);
      UpdateTree(data, all);
      pos := pos + |data|;
      input := all;
    }

    //////////////////////////////////////////////////////////////////////////
    // fst_hash_finish.
    //////////////////////////////////////////////////////////////////////////

    /** Step back to the last sample begun, and drop it if it does not stay clear
        of the last segment. */
    method Rewind()
      requires SmallIs(input, |input|) && Unfinished(|input|) && pos == |input| > FTSEG_SIZE
      modifies this`smallhash, this`samplePos
      ensures smallhash == Crc32(CRC_INIT, Samples(input, FIRST_SAMPLE, |input| - FTSEG_SIZE))
    {
      hide Crc32;
      CrcOfNothing();
      ghost var limit := |input| - FTSEG_SIZE;
      ghost var s := samplePos;
      if samplePos >= pos {
        samplePos := samplePos / 2;
      }
      if samplePos + FTSEG_SIZE > pos - FTSEG_SIZE {
        smallhash := prevSmallhash;
        if s != FIRST_SAMPLE && s >= pos {
          SamplesArePrior(input, s / 2, limit);
        } else {
          SamplesArePrior(input, s, limit);
        }
      } else {
        SamplesArePrior(input, s, limit);
      }
    }

    /** Hash the tail of the file out of the ring. */
    method HashTail()
      requires WindowIs(input) && pos == |input| > FTSEG_SIZE
      modifies this`smallhash, this`wndStart
      ensures smallhash == Crc32(old(smallhash), input[|input| - Min(|input| - FTSEG_SIZE, FTSEG_SIZE)..])
    {
      hide Crc32, Unrolled, Windowed, Wrap;
      var len := Min(pos - FTSEG_SIZE, FTSEG_SIZE);
      ghost var start := wndStart;
      wndStart := Wrap(wndStart + (FTSEG_SIZE - len));
      RingIsTail(wnd[..], start, input, len, wndStart);
      var first := Min(FTSEG_SIZE - wndStart, len);
      Crc32Append(smallhash, wnd[wndStart..wndStart + first], wnd[..len - first]);
      smallhash := Small(smallhash, wnd[wndStart..wndStart + first]);
      smallhash := Small(smallhash, wnd[..len - first]);
    }

    method FinishSmall()
      requires SmallIs(input, |input|) && Unfinished(|input|) && WindowIs(input) && pos == |input|
      modifies this`smallhash, this`samplePos, this`wndStart
      ensures smallhash == SmallHash(input)
    {
      hide Crc32, Xor32, LowWord, WindowIs;
      if pos > FTSEG_SIZE {
        Rewind();
        HashTail();
        Crc32Append(CRC_INIT, Samples(input, FIRST_SAMPLE, |input| - FTSEG_SIZE),
                    input[|input| - Min(|input| - FTSEG_SIZE, FTSEG_SIZE)..]);
      } else {
        BelowFirstSample();
      }
      smallhash := Xor32(smallhash, LowWord(pos));
    }

    lemma BelowFirstSample()
      requires SmallIs(input, |input|) && |input| <= FTSEG_SIZE
      ensures smallhash == Crc32(CRC_INIT, [])
    {
    }

    /** Fold the stack: skip the levels the last hash has no partner to wait for,
        then climb, pairing the last hash or rehashing it alone. */
    method FoldTree(ghost h: seq<Hash>)
      requires Separate() && blocks == |h| >= 2 && StackIs(h, |h|)
      modifies this`index, this`blocks, nodes, md5tree, md5tree.inp
      ensures nodes[..HASH_LEN] == Root(h) && index == HASH_LEN
    {
      hide DigestOf, Spine, Concat, Level;
      ghost var g := h;
      while blocks % 2 == 0
        invariant |g| == blocks > 0 && StackIs(g, blocks) && Top(g) == Root(h)
        decreases blocks
      {
        SpineCollapse(g, blocks);
        TopLevel(g);
        g := Level(g);
        blocks := blocks / 2;
      }
      SpineOdd(g, blocks);
      ConcatAppend(Spine(g, blocks - 1), g[blocks - 1]);
      blocks := blocks - 1;
      while blocks != 0
        invariant |g| == blocks + 1 && Top(g) == Root(h) && index <= nodes.Length
        invariant nodes[..index] == Concat(Spine(g, blocks)) + g[blocks]
        decreases blocks
      {
        FoldOne(g);
        TopLevel(g);
        g := Level(g);
        blocks := blocks / 2;
      }
      EmptyStack(g);
      assert nodes[..index] == g[0];
    }

    method FoldOne(ghost g: seq<Hash>)
      requires Separate() && |g| == blocks + 1 && blocks != 0 && index <= nodes.Length
      requires nodes[..index] == Concat(Spine(g, blocks)) + g[blocks]
      modifies this`index, nodes, md5tree, md5tree.inp
      ensures |Level(g)| == blocks / 2 + 1 && index <= nodes.Length
      ensures nodes[..index] == Concat(Spine(Level(g), blocks / 2)) + Level(g)[blocks / 2]
    {
      hide DigestOf, Spine, Concat, Level;
      SpineFold(g, blocks);
      ghost var below := Concat(Spine(Level(g), blocks / 2));
      if blocks % 2 == 1 {
        ConcatAppend(Spine(Level(g), blocks / 2), g[blocks - 1]);
        assert nodes[..index] == below + Join(g[blocks - 1], g[blocks]);
        HashNodes(index - 2 * HASH_LEN);
      } else {
        HashNodes(index - HASH_LEN);
      }
    }

    /** A short last segment is a leaf as well. */
    method FinishSegment(ghost h: seq<Hash>)
      requires Separate() && TreeIs(input, |input|) && pos == |input| <= MAX_LEN && h == Leaves(input)
      modifies this`index, this`blocks, nodes, md5tree, md5tree.inp
      ensures blocks == |h| && StackIs(h, blocks)
    {
      hide DigestOf, Spine, Context.Valid;
      SegmentOffset(pos, blocks);
      LeavesAreHashed(input, blocks);
      SpineAgrees(Hashed(input, blocks), h, blocks);
      if pos % KZSEG_SIZE != 0 {
        PushSegment(h);
      }
    }

    method FinishTree()
      requires Separate() && TreeIs(input, |input|) && pos == |input| <= MAX_LEN
      modifies this`index, this`blocks, nodes, md5tree, md5tree.inp
      ensures nodes[..HASH_LEN] == TreeRoot(input) && (input != [] ==> index == HASH_LEN)
    {
      hide DigestOf, Spine, Concat, TreeIs, Context.Valid;
      ghost var h := Leaves(input);
      FinishSegment(h);
      if pos == 0 {
        EmptyTree();
        EmptyStack(h);
        md5tree.Init();
        md5tree.Final(nodes, index);
      } else if blocks == 1 {
        OneLeaf(h);
        HashNodes(index - HASH_LEN);
      } else {
        FoldTree(h);
      }
    }

    /** fst_hash_finish; the context is freed with it. */
    method Finish(data: array<byte>)
      requires Valid() && data.Length == KZHASH_LEN
      requires data !in {md5300.inp, wnd, md5tree.inp, nodes}
      modifies this, md5300, md5300.inp, md5tree, md5tree.inp, nodes, data
      ensures data[..] == KzHash(old(input))
    {
      hide DigestOf, SmallIs, WindowIs, TreeIs, SmallHash, TreeRoot, WordBytes, Context.Valid;
      md5300.Final(data, 0);
      FinishSmall();
      MemCpy(data, HASH_LEN, WordBytes(smallhash));
      FinishTree();
      MemCpy(data, 20, nodes[..HASH_LEN]);
    }
  }

  /** However a file is cut into chunks, the hash is that of the whole file. */
  method HashChunks(chunks: seq<seq<byte>>) returns (h: seq<byte>)
    requires |Concat(chunks)| <= MAX_LEN
    ensures h == KzHash(Concat(chunks))
  {
    hide KzHash, HashContext.Valid;
    var ctx := new HashContext();
    var data := new byte[KZHASH_LEN];
    for i := 0 to |chunks|
      invariant fresh(ctx) && fresh(ctx.md5300) && fresh(ctx.md5300.inp) && fresh(ctx.md5tree)
      invariant fresh(ctx.md5tree.inp) && fresh(ctx.wnd) && fresh(ctx.nodes)
      invariant data !in {ctx.md5300.inp, ctx.wnd, ctx.md5tree.inp, ctx.nodes}
      invariant ctx.Valid() && ctx.input == Concat(chunks[..i])
    {
      ConcatPrefix(chunks, i);
      ctx.Update(chunks[i]);
    }
    assert chunks[..|chunks|] == chunks;
    ctx.Finish(data);
    h := data[..];
  }

  const HASH_BLOCK_SIZE: nat := 4096

  /** fst_hash_file, on a file of the given contents. */
  method HashFile(file: seq<byte>) returns (h: seq<byte>)
    requires |file| <= MAX_LEN
    ensures h == KzHash(file)
  {
    hide KzHash, HashContext.Valid;
    var ctx := new HashContext();
    var data := new byte[KZHASH_LEN];
    var at := 0;
    while at < |file|
      invariant fresh(ctx) && fresh(ctx.md5300) && fresh(ctx.md5300.inp) && fresh(ctx.md5tree)
      invariant fresh(ctx.md5tree.inp) && fresh(ctx.wnd) && fresh(ctx.nodes)
      invariant data !in {ctx.md5300.inp, ctx.wnd, ctx.md5tree.inp, ctx.nodes}
      invariant at <= |file| && ctx.Valid() && ctx.input == file[..at]
    {
      var len := Min(HASH_BLOCK_SIZE, |file| - at);
      SliceJoins(file, 0, at, at + len);
      ctx.Update(file[at..at + len]);
      at := at + len;
    }
    assert file[..|file|] == file;
    ctx.Finish(data);
    h := data[..];
  }
}
