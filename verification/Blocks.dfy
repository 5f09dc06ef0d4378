/** 16-byte blocks and byte-wise exclusive or. */
module Blocks {
  type Block = b: seq<bv8> | |b| == 16 witness [0, 0, 0, 0, 0, 0, 0, 0, 0, 0, 0, 0, 0, 0, 0, 0]

  const ZERO_BLOCK: Block := [0, 0, 0, 0, 0, 0, 0, 0, 0, 0, 0, 0, 0, 0, 0, 0]

  // The bytes from a position up to another one. By recursion rather than a slice, so that single bytes come up in a
  // proof only where PartEach is called.
  function Part(s: seq<bv8>, from: nat, to: nat): (r: seq<bv8>)
    requires from <= to <= |s|
    ensures |r| == to - from
    decreases |s| - from
  {
    if from == to then [] else [s[from]] + Part(s, from + 1, to)
  }

  lemma {:induction false} PartEach(s: seq<bv8>, from: nat, to: nat)
    requires from <= to <= |s|
    ensures forall i :: 0 <= i < to - from ==> Part(s, from, to)[i] == s[from + i]
    decreases |s| - from
  {
    if from < to {
      PartEach(s, from + 1, to);
    }
  }

  /** The first n bytes. */
  function Front(s: seq<bv8>, n: nat): (r: seq<bv8>)
    requires n <= |s|
    ensures |r| == n
  {
    Part(s, 0, n)
  }

  /** What follows the first n bytes. */
  function Behind(s: seq<bv8>, n: nat): (r: seq<bv8>)
    requires n <= |s|
    ensures |r| == |s| - n
  {
    Part(s, n, |s|)
  }

  lemma FrontEach(s: seq<bv8>, n: nat)
    requires n <= |s|
    ensures forall i :: 0 <= i < n ==> Front(s, n)[i] == s[i]
  {
    PartEach(s, 0, n);
  }

  lemma BehindEach(s: seq<bv8>, n: nat)
    requires n <= |s|
    ensures forall i :: 0 <= i < |s| - n ==> Behind(s, n)[i] == s[n + i]
  {
    PartEach(s, n, |s|);
  }

  lemma Parted(s: seq<bv8>, n: nat)
    requires n <= |s|
    ensures Front(s, n) + Behind(s, n) == s
    ensures n == |s| ==> Front(s, n) == s
  {
    FrontEach(s, n);
    BehindEach(s, n);
  }

  lemma Joined(a: seq<bv8>, b: seq<bv8>)
    ensures Front(a + b, |a|) == a && Behind(a + b, |a|) == b
  {
    FrontEach(a + b, |a|);
    BehindEach(a + b, |a|);
  }

  lemma JoinedLong(a: seq<bv8>, b: seq<bv8>, n: nat)
    requires n <= |a|
    ensures Front(a + b, n) == Front(a, n) && Behind(a + b, n) == Behind(a, n) + b
  {
    FrontEach(a + b, n);
    FrontEach(a, n);
    BehindEach(a + b, n);
    BehindEach(a, n);
  }

  lemma PartFront(s: seq<bv8>, from: nat, mid: nat, to: nat)
    requires from <= mid <= to <= |s|
    ensures Front(Part(s, from, to), mid - from) == Part(s, from, mid)
    ensures Behind(Part(s, from, to), mid - from) == Part(s, mid, to)
  {
    PartEach(s, from, to);
    PartEach(s, from, mid);
    PartEach(s, mid, to);
    FrontEach(Part(s, from, to), mid - from);
    BehindEach(Part(s, from, to), mid - from);
  }

  lemma PartSame(s: seq<bv8>, t: seq<bv8>, from: nat, to: nat)
    requires from <= to <= |s| == |t| && forall k :: from <= k < to ==> s[k] == t[k]
    ensures Part(s, from, to) == Part(t, from, to)
  {
    PartEach(s, from, to);
    PartEach(t, from, to);
  }

  lemma PartUnchanged(s: seq<bv8>, t: seq<bv8>, from: nat)
    requires from <= |s| == |t| && Part(s, from, |s|) == Part(t, from, |t|)
    ensures forall k :: from <= k < |s| ==> s[k] == t[k]
  {
    PartEach(s, from, |s|);
    PartEach(t, from, |t|);
    forall k | from <= k < |s|
      ensures s[k] == t[k]
    {
      assert Part(s, from, |s|)[k - from] == Part(t, from, |t|)[k - from];
    }
  }

  lemma PrefixIsPart(s: seq<bv8>, n: nat)
    requires n <= |s|
    ensures s[..n] == Part(s, 0, n)
  {
    PartEach(s, 0, n);
  }

  lemma PartWritten(before: seq<bv8>, after: seq<bv8>, at: nat, r: seq<bv8>)
    requires at + |r| <= |before| == |after|
    requires forall k :: 0 <= k < at ==> after[k] == before[k]
    requires forall k :: 0 <= k < |r| ==> after[at + k] == r[k]
    ensures Part(after, 0, at + |r|) == Part(before, 0, at) + r
  {
    PartEach(after, 0, at + |r|);
    PartEach(before, 0, at);
    var p, q := Part(after, 0, at + |r|), Part(before, 0, at) + r;
    forall k | 0 <= k < |p|
      ensures p[k] == q[k]
    {
      assert k >= at ==> after[at + (k - at)] == r[k - at];
    }
  }

  lemma FrontMore(a: seq<bv8>, b: seq<bv8>, n: nat)
    requires n <= |b|
    ensures Front(a + b, |a| + n) == a + Front(b, n)
  {
    FrontEach(a + b, |a| + n);
    FrontEach(b, n);
  }

  lemma BehindMore(a: seq<bv8>, b: seq<bv8>, n: nat)
    requires n <= |b|
    ensures Behind(a + b, |a| + n) == Behind(b, n)
  {
    BehindEach(a + b, |a| + n);
    BehindEach(b, n);
  }

  // The first n bytes of the sum.
  function XorFirst(a: seq<bv8>, key: seq<bv8>, n: nat): (r: seq<bv8>)
    requires n <= |a| <= |key|
    ensures |r| == n
  {
    if n == 0 then [] else XorFirst(a, key, n - 1) + [a[n - 1] ^ key[n - 1]]
  }

  /** The first |a| bytes of key, added to a. */
  function Xor(a: seq<bv8>, key: seq<bv8>): (r: seq<bv8>)
    requires |a| <= |key|
    ensures |r| == |a|
  {
    XorFirst(a, key, |a|)
  }

  lemma {:induction false} XorFirstEach(a: seq<bv8>, key: seq<bv8>, n: nat)
    requires n <= |a| <= |key|
    ensures forall i :: 0 <= i < n ==> XorFirst(a, key, n)[i] == a[i] ^ key[i]
  {
    if n > 0 {
      XorFirstEach(a, key, n - 1);
    }
  }

  lemma XorEach(a: seq<bv8>, key: seq<bv8>)
    requires |a| <= |key|
    ensures forall i :: 0 <= i < |a| ==> Xor(a, key)[i] == a[i] ^ key[i]
  {
    XorFirstEach(a, key, |a|);
  }

  lemma XorTwice(a: seq<bv8>, key: seq<bv8>)
    requires |a| <= |key|
    ensures Xor(Xor(a, key), key) == a
  {
    XorEach(a, key);
    XorEach(Xor(a, key), key);
    forall i | 0 <= i < |a|
      ensures Xor(Xor(a, key), key)[i] == a[i]
    {
      XorByte(a[i], key[i]);
    }
  }

  lemma XorByte(x: bv8, y: bv8)
    ensures x ^ y ^ y == x
  {
  }

  // A block cipher under a fixed key, and its inverse.
  ghost predicate Inverse(e: Block -> Block, d: Block -> Block) {
    forall b: Block :: d(e(b)) == b && e(d(b)) == b
  }

  // A number below 256 survives the conversion to a byte: counting up reaches the byte of that value.
  lemma ByteCast(x: nat)
    requires x < 256
    ensures (x as bv8) as nat == x
  {
    var b := ByteOf(x);
    CastBack(b);
  }

  lemma {:induction false} ByteOf(x: nat) returns (b: bv8)
    requires x < 256
    ensures b as nat == x
  {
    if x == 0 {
      b := 0;
    } else {
      b := ByteOf(x - 1);
      NextByte(b);
      b := b + 1;
    }
  }

  lemma NextByte(b: bv8)
    requires b as nat < 255
    ensures (b + 1) as nat == b as nat + 1
  {
  }

  lemma CastBack(b: bv8)
    ensures (b as nat) as bv8 == b
  {
  }
}
