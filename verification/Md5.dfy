/** The MD5 digest of md5.c, proved against sections 3.1 to 3.5 of RFC 1321. */
module Md5 {
  import opened Bytes

  const HASH_LEN: nat := 16

  datatype State = State(a: bv32, b: bv32, c: bv32, d: bv32)

  const INIT := State(0x67452301, 0xefcdab89, 0x98badcfe, 0x10325476)

  //////////////////////////////////////////////////////////////////////////
  // The compression function: 64 steps, one row of the four tables each.
  //////////////////////////////////////////////////////////////////////////

  /** One MD5STEP line: the data word it adds, its constant and its rotation. */
  datatype StepRow = StepRow(word: nat, k: bv32, s: bv6)

  function Round1(i: nat): StepRow
    requires i < 16
  {
    [
      StepRow(0, 0xd76aa478, 7), StepRow(1, 0xe8c7b756, 12), StepRow(2, 0x242070db, 17), StepRow(3, 0xc1bdceee, 22),
      StepRow(4, 0xf57c0faf, 7), StepRow(5, 0x4787c62a, 12), StepRow(6, 0xa8304613, 17), StepRow(7, 0xfd469501, 22),
      StepRow(8, 0x698098d8, 7), StepRow(9, 0x8b44f7af, 12), StepRow(10, 0xffff5bb1, 17), StepRow(11, 0x895cd7be, 22),
      StepRow(12, 0x6b901122, 7), StepRow(13, 0xfd987193, 12), StepRow(14, 0xa679438e, 17), StepRow(15, 0x49b40821, 22)
    ][i]
  }

  function Round2(i: nat): StepRow
    requires i < 16
  {
    [
      StepRow(1, 0xf61e2562, 5), StepRow(6, 0xc040b340, 9), StepRow(11, 0x265e5a51, 14), StepRow(0, 0xe9b6c7aa, 20),
      StepRow(5, 0xd62f105d, 5), StepRow(10, 0x02441453, 9), StepRow(15, 0xd8a1e681, 14), StepRow(4, 0xe7d3fbc8, 20),
      StepRow(9, 0x21e1cde6, 5), StepRow(14, 0xc33707d6, 9), StepRow(3, 0xf4d50d87, 14), StepRow(8, 0x455a14ed, 20),
      StepRow(13, 0xa9e3e905, 5), StepRow(2, 0xfcefa3f8, 9), StepRow(7, 0x676f02d9, 14), StepRow(12, 0x8d2a4c8a, 20)
    ][i]
  }

  function Round3(i: nat): StepRow
    requires i < 16
  {
    [
      StepRow(5, 0xfffa3942, 4), StepRow(8, 0x8771f681, 11), StepRow(11, 0x6d9d6122, 16), StepRow(14, 0xfde5380c, 23),
      StepRow(1, 0xa4beea44, 4), StepRow(4, 0x4bdecfa9, 11), StepRow(7, 0xf6bb4b60, 16), StepRow(10, 0xbebfbc70, 23),
      StepRow(13, 0x289b7ec6, 4), StepRow(0, 0xeaa127fa, 11), StepRow(3, 0xd4ef3085, 16), StepRow(6, 0x04881d05, 23),
      StepRow(9, 0xd9d4d039, 4), StepRow(12, 0xe6db99e5, 11), StepRow(15, 0x1fa27cf8, 16), StepRow(2, 0xc4ac5665, 23)
    ][i]
  }

  function Round4(i: nat): StepRow
    requires i < 16
  {
    [
      StepRow(0, 0xf4292244, 6), StepRow(7, 0x432aff97, 10), StepRow(14, 0xab9423a7, 15), StepRow(5, 0xfc93a039, 21),
      StepRow(12, 0x655b59c3, 6), StepRow(3, 0x8f0ccc92, 10), StepRow(10, 0xffeff47d, 15), StepRow(1, 0x85845dd1, 21),
      StepRow(8, 0x6fa87e4f, 6), StepRow(15, 0xfe2ce6e0, 10), StepRow(6, 0xa3014314, 15), StepRow(13, 0x4e0811a1, 21),
      StepRow(4, 0xf7537e82, 6), StepRow(11, 0xbd3af235, 10), StepRow(2, 0x2ad7d2bb, 15), StepRow(9, 0xeb86d391, 21)
    ][i]
  }

  function F1(x: bv32, y: bv32, z: bv32): bv32 { z ^ (x & (y ^ z)) }

  function F2(x: bv32, y: bv32, z: bv32): bv32 { F1(z, x, y) }

  function F3(x: bv32, y: bv32, z: bv32): bv32 { x ^ y ^ z }

  function F4(x: bv32, y: bv32, z: bv32): bv32 { y ^ (x | !z) }

  /** The macros are F, G, H and I as section 3.4 of RFC 1321 writes them. */
  lemma MacrosAreRfcFunctions(x: bv32, y: bv32, z: bv32)
    ensures F1(x, y, z) == (x & y) | (!x & z)
    ensures F2(x, y, z) == (x & z) | (y & !z)
    ensures F3(x, y, z) == x ^ y ^ z
    ensures F4(x, y, z) == y ^ (x | !z)
  {
  }

  function Row(n: nat): StepRow
    requires n < 64
  {
    if n < 16 then Round1(n)
    else if n < 32 then Round2(n - 16)
    else if n < 48 then Round3(n - 32)
    else Round4(n - 48)
  }

  /** A round's four rotations in turn. */
  function Rotation(n: nat, s0: bv6, s1: bv6, s2: bv6, s3: bv6): bv6 {
    if n % 4 == 0 then s0 else if n % 4 == 1 then s1 else if n % 4 == 2 then s2 else s3
  }

  lemma Round1Words(n: nat)
    requires n < 16
    ensures Round1(n).word == n && 0 < Round1(n).s < 32
    ensures Round1(n).s == Rotation(n, 7, 12, 17, 22)
  {
  }

  lemma Round2Words(n: nat)
    requires 16 <= n < 32
    ensures Round2(n - 16).word == (5 * n + 1) % 16 && 0 < Round2(n - 16).s < 32
    ensures Round2(n - 16).s == Rotation(n, 5, 9, 14, 20)
  {
  }

  lemma Round3Words(n: nat)
    requires 32 <= n < 48
    ensures Round3(n - 32).word == (3 * n + 5) % 16 && 0 < Round3(n - 32).s < 32
    ensures Round3(n - 32).s == Rotation(n, 4, 11, 16, 23)
  {
  }

  lemma Round4Words(n: nat)
    requires 48 <= n < 64
    ensures Round4(n - 48).word == (7 * n) % 16 && 0 < Round4(n - 48).s < 32
    ensures Round4(n - 48).s == Rotation(n, 6, 10, 15, 21)
  {
  }

  /** The data words are taken in the order of section 3.4 of RFC 1321, and rotated as
      it says. */
  lemma {:induction false} RowWords(n: nat)
    requires n < 64
    ensures Row(n).word == if n < 16 then n
                           else if n < 32 then (5 * n + 1) % 16
                           else if n < 48 then (3 * n + 5) % 16
                           else (7 * n) % 16
    ensures Row(n).s == if n < 16 then Rotation(n, 7, 12, 17, 22)
                        else if n < 32 then Rotation(n, 5, 9, 14, 20)
                        else if n < 48 then Rotation(n, 4, 11, 16, 23)
                        else Rotation(n, 6, 10, 15, 21)
    ensures 0 < Row(n).s < 32
  {
    if n < 16 {
      Round1Words(n);
    } else if n < 32 {
      Round2Words(n);
    } else if n < 48 {
      Round3Words(n);
    } else {
      Round4Words(n);
    }
  }

  function Mix(n: nat, x: bv32, y: bv32, z: bv32): bv32 {
    if n < 16 then F1(x, y, z)
    else if n < 32 then F2(x, y, z)
    else if n < 48 then F3(x, y, z)
    else F4(x, y, z)
  }

  function RotateLeft(w: bv32, s: bv6): bv32
    requires 0 < s < 32
  {
    (w << s) | (w >> (32 - s))
  }

  /** One MD5STEP line with the data word x. Instead of renaming the registers on every
      line the state is rotated, so that `a` is always the register the next step
      overwrites. */
  function Step(n: nat, p: State, x: bv32): State
    requires n < 64
  {
    RowWords(n);
    var row := Row(n);
    State(p.d, RotateLeft(p.a + (Mix(n, p.b, p.c, p.d) + (x + row.k)), row.s) + p.b, p.b, p.c)
  }

  /** The state after the first n steps. */
  function Steps(n: nat, st: State, words: seq<bv32>): State
    requires n <= 64 && |words| == 16
  {
    if n == 0 then st
    else
      RowWords(n - 1);
      Step(n - 1, Steps(n - 1, st, words), words[Row(n - 1).word])
  }

  /** MD5Transform. */
  function Transform(st: State, words: seq<bv32>): State
    requires |words| == 16
  {
    var r := Steps(4 * |words|, st, words);
    State(st.a + r.a, st.b + r.b, st.c + r.c, st.d + r.d)
  }

  //////////////////////////////////////////////////////////////////////////
  // The digest of a whole message (sections 3.1 to 3.5 of RFC 1321).
  //////////////////////////////////////////////////////////////////////////

  function Word(b0: byte, b1: byte, b2: byte, b3: byte): bv32 {
    (((b3 as bv32 << 8) | b2 as bv32) << 16) | (b1 as bv32 << 8) | b0 as bv32
  }

  /** The whole words of a byte string, each low-order byte first. */
  function Words(b: seq<byte>): (w: seq<bv32>)
    ensures |w| == |b| / 4
  {
    seq(|b| / 4, i requires 0 <= i < |b| / 4 => Word(b[4 * i], b[4 * i + 1], b[4 * i + 2], b[4 * i + 3]))
  }

  function WordBytes(w: bv32): (b: seq<byte>)
    ensures |b| == 4
  {
    [(w & 0xff) as byte, ((w >> 8) & 0xff) as byte, ((w >> 16) & 0xff) as byte, (w >> 24) as byte]
  }

  lemma WordOfBytes(w: bv32)
    ensures var b := WordBytes(w); Word(b[0], b[1], b[2], b[3]) == w
  {
  }

  function Compress(st: State, block: seq<byte>): State
    requires |block| == 64
  {
    Transform(st, Words(block))
  }

  /** The state after the first k blocks of m. */
  function Chain(m: seq<byte>, k: nat): State
    requires 64 * k <= |m|
  {
    if k == 0 then INIT else Compress(Chain(m, k - 1), m[64 * k - 64..64 * k])
  }

  function BitsLow(n: nat): u32 { 8 * n % 0x1_0000_0000 }

  function BitsHigh(n: nat): u32 { 8 * n / 0x1_0000_0000 % 0x1_0000_0000 }

  /** The number of blocks of a padded message of n bytes. */
  function Blocks(n: nat): nat {
    n / 64 + if n % 64 < 56 then 1 else 2
  }

  /** The message, a 1 bit, zeros to 56 bytes modulo 64, and the number of
      message bits as two words, low word first. */
  function Pad(msg: seq<byte>): (p: seq<byte>)
    ensures |p| == 64 * Blocks(|msg|) && msg < p
  {
    msg + [0x80] + Zeros(64 * Blocks(|msg|) - |msg| - 9) + Length(|msg|)
  }

  function Zeros(n: nat): (z: seq<byte>)
    ensures |z| == n
  {
    seq(n, _ => 0)
  }

  function LengthBytes(low: u32, high: u32): (b: seq<byte>)
    ensures |b| == 8
  {
    WordBytes(low as bv32) + WordBytes(high as bv32)
  }

  function Length(n: nat): (b: seq<byte>)
    ensures |b| == 8
  {
    LengthBytes(BitsLow(n), BitsHigh(n))
  }

  lemma LengthIs(n: nat)
    ensures Length(n) == LengthBytes(BitsLow(n), BitsHigh(n))
  {
  }

  /** What follows the whole blocks of a message in its padded form: one block,
      or two when the length does not fit in the first. */
  lemma {:induction false} LastBlocks(msg: seq<byte>, k: nat)
    requires 64 * k <= |msg| < 64 * k + 64
    ensures var p, head := Pad(msg), msg[64 * k..] + [0x80];
            if |head| <= 56 then
              |p| == 64 * k + 64 && p[64 * k..] == head + Zeros(56 - |head|) + Length(|msg|)
            else
              |p| == 64 * k + 128 && p[64 * k..64 * k + 64] == head + Zeros(64 - |head|) &&
              p[64 * k + 64..] == Zeros(56) + Length(|msg|)
  {
    hide Length;
    assert |msg| / 64 == k && |msg| % 64 == |msg| - 64 * k;
  }

  function Digest(st: State): (d: seq<byte>)
    ensures |d| == HASH_LEN
  {
    WordBytes(st.a) + WordBytes(st.b) + WordBytes(st.c) + WordBytes(st.d)
  }

  function DigestOf(msg: seq<byte>): (d: seq<byte>)
    ensures |d| == HASH_LEN
  {
    Digest(Chain(Pad(msg), Blocks(|msg|)))
  }

  lemma {:induction false} ChainPrefix(m: seq<byte>, rest: seq<byte>, k: nat)
    requires 64 * k <= |m|
    ensures Chain(m + rest, k) == Chain(m, k)
  {
    hide Compress;
    if k > 0 {
      ChainPrefix(m, rest, k - 1);
      assert (m + rest)[64 * k - 64..64 * k] == m[64 * k - 64..64 * k];
    }
  }

  //////////////////////////////////////////////////////////////////////////
  // The streaming context.
  //////////////////////////////////////////////////////////////////////////

  class Context {
    var buf: State
    var bits0: u32
    var bits1: u32
    const inp: array<byte>

    /** Everything the context was updated with since it was initialised. */
    ghost var msg: seq<byte>

    /** How many whole blocks of it are compressed. */
    ghost var blocks: nat

    ghost predicate Sized() { inp.Length == 64 }

    ghost predicate Counts(n: nat)
      reads this`bits0, this`bits1
    {
      bits0 == BitsLow(n) && bits1 == BitsHigh(n)
    }

    /** The whole blocks of m are compressed, the rest waits in `inp`. */
    ghost predicate Absorbed(m: seq<byte>, k: nat)
      reads this`buf, inp
    {
      Sized() && 64 * k <= |m| < 64 * k + 64 &&
      buf == Chain(m, k) && inp[..|m| - 64 * k] == m[64 * k..]
    }

    ghost predicate Valid()
      reads this, inp
    {
      Counts(|msg|) && Absorbed(msg, blocks)
    }

    constructor ()
      ensures Valid() && msg == [] && fresh(inp)
    {
      inp := new byte[64];
      buf := INIT;
      bits0, bits1 := 0, 0;
      msg, blocks := [], 0;
    }

    /** MD5Init on a context already allocated. */
    method Init()
      requires Sized()
      modifies this
      ensures Valid() && msg == []
    {
      buf := INIT;
      bits0, bits1 := 0, 0;
      msg, blocks := [], 0;
    }

    /** MD5Update: the bit count first, then the bytes. */
    method Update(data: seq<byte>)
      requires Valid() && |data| < 0x1_0000_0000
      modifies this, inp
      ensures Valid() && msg == old(msg) + data
    {
      hide Compress, BitsHigh, BitsLow;
      Buffered(|msg|, blocks);
      var t := bits0 / 8 % 64;
      Count(|data|, |msg|);
      blocks := Absorb(data, t, msg, blocks);
      msg := msg + data;
    }

    /** The rest of MD5Update: a leading partial block, whole blocks, and what
        is left. */
    method Absorb(data: seq<byte>, t: nat, ghost m: seq<byte>, ghost done: nat) returns (ghost k: nat)
      requires Absorbed(m, done) && t == |m| - 64 * done
      modifies this`buf, inp
      ensures Absorbed(m + data, k)
    {
      hide Compress;
      ghost var all := m + data;
      ChainPrefix(m, data, done);
      if t == 0 {
        k := AbsorbRest(data, all, done);
      } else if |data| < 64 - t {
        SumSlice(m, data, 64 * done, |data|);
        MemCpy(inp, t, data);
        assert inp[..t + |data|] == inp[..t] + data;
        k := done;
      } else {
        var p := 64 - t;
        SumSlice(m, data, 64 * done, p);
        TakeBlock(t, data[..p], all, done);
        k := AbsorbRest(data[p..], all, done + 1);
      }
    }

    method AbsorbRest(data: seq<byte>, ghost all: seq<byte>, ghost done: nat) returns (ghost k: nat)
      requires Sized() && |data| <= |all| && data == all[|all| - |data|..]
      requires 64 * done == |all| - |data| && buf == Chain(all, done)
      modifies this`buf, inp
      ensures Absorbed(all, k)
    {
      hide Compress;
      var p := 0;
      k := done;
      while |data| - p >= 64
        invariant p <= |data| && 64 * k + |data| - p == |all|
        invariant buf == Chain(all, k)
      {
        assert data[p..p + 64] == all[64 * k..64 * k + 64];
        TakeBlock(0, data[p..p + 64], all, k);
        p := p + 64;
        k := k + 1;
      }
      MemCpy(inp, 0, data[p..]);
      assert inp[..|data| - p] == data[p..] == all[64 * k..];
    }

    /** Complete the buffered block and compress it. */
    method TakeBlock(t: nat, rest: seq<byte>, ghost all: seq<byte>, ghost k: nat)
      requires Sized() && t + |rest| == 64 && 64 * k + 64 <= |all|
      requires buf == Chain(all, k) && inp[..t] + rest == all[64 * k..64 * k + 64]
      modifies this`buf, inp
      ensures buf == Chain(all, k + 1)
    {
      hide Compress;
      MemCpy(inp, t, rest);
      assert inp[..] == all[64 * k..64 * k + 64];
      buf := Compress(buf, inp[..]);
    }

    /** The bit count of a message of n bytes becomes that of n + len. */
    method Count(len: u32, ghost n: nat)
      requires Counts(n)
      modifies this`bits0, this`bits1
      ensures Counts(n + len)
    {
      CountBits(n, len);
      var t := bits0;
      bits0 := (t + len * 8 % 0x1_0000_0000) % 0x1_0000_0000;
      if bits0 < t {
        bits1 := (bits1 + 1) % 0x1_0000_0000;
      }
      bits1 := (bits1 + len / 0x2000_0000) % 0x1_0000_0000;
    }

    /** The first half of MD5Final: pad the buffered tail in one block or two,
        up to where the length goes. */
    method PadTail(count: nat, ghost all: seq<byte>) returns (ghost k: nat)
      requires Valid() && count == |msg| - 64 * blocks && all == Pad(msg)
      modifies this`buf, inp
      ensures |all| == 64 * k + 64 && buf == Chain(all, k)
      ensures inp[..56] + Length(|msg|) == all[64 * k..64 * k + 64]
    {
      hide Compress, BitsHigh, BitsLow, Pad, Length, Zeros;
      k := blocks;
      LastBlocks(msg, k);
      assert msg + all[|msg|..] == all;
      ChainPrefix(msg, all[|msg|..], k);
      inp[count] := 0x80;
      assert inp[..count + 1] == msg[64 * k..] + [0x80];
      var left := 63 - count;
      if left < 8 {
        TakeBlock(count + 1, Zeros(left), all, k);
        k := k + 1;
        MemCpy(inp, 0, Zeros(56));
        assert inp[..56] == Zeros(56);
      } else {
        MemCpy(inp, count + 1, Zeros(left - 8));
        assert inp[..56] == inp[..count + 1] + Zeros(left - 8);
      }
      assert all[64 * k..64 * k + 64] == all[64 * k..];
    }

    /** MD5Final: pad, append the bit count, compress and write the digest.
        The closing memset clears only the first eight bytes of the context. */
    method Final(digest: array<byte>, off: nat)
      requires Valid() && digest != inp && off + HASH_LEN <= digest.Length
      modifies this, inp, digest
      ensures Sized()
      ensures digest[..] == old(digest[..off]) + DigestOf(old(msg)) + old(digest[off + HASH_LEN..])
    {
      hide Compress, Digest, BitsHigh, BitsLow, Pad, Length;
      Buffered(|msg|, blocks);
      var length := LengthBytes(bits0, bits1);
      LengthIs(|msg|);
      ghost var all := Pad(msg);
      ghost var k := PadTail(bits0 / 8 % 64, all);
      TakeBlock(56, length, all, k);
      MemCpy(digest, off, Digest(buf));
      buf := State(0, 0, buf.c, buf.d);
    }
  }

  /** However a message is cut into pieces, the digest is that of the whole. */
  method DigestChunks(chunks: seq<seq<byte>>) returns (d: seq<byte>)
    requires forall c :: c in chunks ==> |c| < 0x1_0000_0000
    ensures d == DigestOf(Concat(chunks))
  {
    hide DigestOf, Context.Valid;
    var ctx := new Context();
    for i := 0 to |chunks|
      invariant fresh(ctx) && fresh(ctx.inp) && ctx.Valid() && ctx.msg == Concat(chunks[..i])
    {
      ConcatPrefix(chunks, i);
      ctx.Update(chunks[i]);
    }
    assert chunks[..|chunks|] == chunks;
    var digest := new byte[HASH_LEN];
    ctx.Final(digest, 0);
    d := digest[..];
  }

  /** Adding x to a number adds its low word, with carry, and its high word. */
  lemma WordSum(n: nat, x: nat)
    ensures var low := (n % 0x1_0000_0000 + x % 0x1_0000_0000) % 0x1_0000_0000;
            var carry := if low < n % 0x1_0000_0000 then 1 else 0;
            (n + x) % 0x1_0000_0000 == low &&
            (n + x) / 0x1_0000_0000 == n / 0x1_0000_0000 + carry + x / 0x1_0000_0000
  {
  }

  lemma ModSum(a: nat, carry: nat, c: nat)
    ensures (a + carry + c) % 0x1_0000_0000 ==
            ((a % 0x1_0000_0000 + carry) % 0x1_0000_0000 + c) % 0x1_0000_0000
  {
  }

  /** The two-word counter carries exactly as the 64-bit bit length does. */
  lemma {:induction false} CountBits(n: nat, len: nat)
    requires len < 0x1_0000_0000
    ensures var low := (BitsLow(n) + len * 8 % 0x1_0000_0000) % 0x1_0000_0000;
            var carry := if low < BitsLow(n) then 1 else 0;
            BitsLow(n + len) == low &&
            BitsHigh(n + len) == ((BitsHigh(n) + carry) % 0x1_0000_0000 + len / 0x2000_0000) % 0x1_0000_0000
  {
    WordSum(8 * n, 8 * len);
    var carry := if BitsLow(n + len) < BitsLow(n) then 1 else 0;
    ModSum(8 * n / 0x1_0000_0000, carry, len / 0x2000_0000);
  }

  lemma Buffered(n: nat, k: nat)
    requires 64 * k <= n < 64 * k + 64
    ensures BitsLow(n) / 8 % 64 == n - 64 * k
  {
    var q, r := n / 0x2000_0000, n % 0x2000_0000;
    assert 8 * n == 0x1_0000_0000 * q + 8 * r;
    assert BitsLow(n) == 8 * r;
    assert n == 64 * (0x80_0000 * q) + r;
  }
}
