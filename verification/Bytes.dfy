/** Byte strings, and the C memory primitives the modules share. */
module Bytes {
  type byte = bv8

  /** A C `unsigned int` seen as a number. */
  type u32 = x: nat | x < 0x1_0000_0000

  datatype Option<T> = None | Some(value: T)

  lemma NextByte(b: byte)
    requires b != 255
    ensures (b + 1) as nat == b as nat + 1
  {
  }

  lemma NatOfByte(b: byte)
    ensures (b as nat) as byte == b
  {
  }

  lemma {:induction false} ByteOfNat(n: nat)
    requires n < 256
    ensures (n as byte) as nat == n
  {
    if n > 0 {
      ByteOfNat(n - 1);
      var b := (n - 1) as byte;
      NextByte(b);
      NatOfByte(b + 1);
    }
  }

  function Min(a: nat, b: nat): nat {
    if a < b then a else b
  }

  function Pow2(k: nat): (p: nat)
    ensures p > 0
  {
    if k == 0 then 1 else 2 * Pow2(k - 1)
  }

  function Concat<T>(parts: seq<seq<T>>): seq<T> {
    if parts == [] then [] else parts[0] + Concat(parts[1..])
  }

  lemma SumAssociates<T>(a: seq<T>, b: seq<T>, c: seq<T>)
    ensures (a + b) + c == a + (b + c)
  {
  }

  lemma {:induction false} ConcatAppend<T>(parts: seq<seq<T>>, last: seq<T>)
    ensures Concat(parts + [last]) == Concat(parts) + last
  {
    if parts == [] {
      assert Concat([last]) == last + Concat([]);
    } else {
      ConcatAppend(parts[1..], last);
      assert (parts + [last])[1..] == parts[1..] + [last];
    }
  }

  lemma {:induction false} ConcatSplit<T>(a: seq<seq<T>>, b: seq<seq<T>>)
    ensures Concat(a + b) == Concat(a) + Concat(b)
  {
    if a == [] {
      assert a + b == b;
    } else {
      ConcatSplit(a[1..], b);
      assert (a + b)[1..] == a[1..] + b;
      SumAssociates(a[0], Concat(a[1..]), Concat(b));
    }
  }

  lemma ConcatPrefix<T>(parts: seq<seq<T>>, i: nat)
    requires i < |parts|
    ensures Concat(parts[..i + 1]) == Concat(parts[..i]) + parts[i]
    ensures |Concat(parts[..i + 1])| <= |Concat(parts)|
  {
    assert parts[..i + 1] == parts[..i] + [parts[i]];
    ConcatAppend(parts[..i], parts[i]);
    assert parts == parts[..i + 1] + parts[i + 1..];
    ConcatSplit(parts[..i + 1], parts[i + 1..]);
  }

  lemma SliceJoins<T>(s: seq<T>, lo: nat, mid: nat, hi: nat)
    requires lo <= mid <= hi <= |s|
    ensures s[lo..mid] + s[mid..hi] == s[lo..hi]
  {
  }

  lemma TailSlice<T>(s: seq<T>, at: nat, lo: nat, hi: nat)
    requires lo <= hi && at + hi <= |s|
    ensures s[at..][lo..hi] == s[at + lo..at + hi]
  {
  }

  lemma SumSlice<T>(a: seq<T>, b: seq<T>, lo: nat, p: nat)
    requires lo <= |a| && p <= |b|
    ensures (a + b)[lo..|a| + p] == a[lo..] + b[..p]
  {
  }

  lemma SumTail<T>(a: seq<T>, b: seq<T>, p: nat)
    requires p <= |b|
    ensures (a + b)[|a| + p..] == b[p..]
  {
  }

  /** memcpy(dst + off, src, |src|). */
  method MemCpy(dst: array<byte>, off: nat, src: seq<byte>)
    requires off + |src| <= dst.Length
    modifies dst
    ensures dst[..] == old(dst[..off]) + src + old(dst[off + |src|..])
  {
    for i := 0 to |src|
      invariant dst[..off] == old(dst[..off])
      invariant dst[off..off + i] == src[..i]
      invariant dst[off + |src|..] == old(dst[off + |src|..])
    {
      dst[off + i] := src[i];
      assert dst[off..off + i + 1] == dst[off..off + i] + [src[i]];
    }
    assert src[..|src|] == src;
  }
}
