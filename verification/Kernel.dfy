/** Kernel memory as the dumper sees it, and the key read from a known offset. */
module Kernel {
  import opened Options
  import opened WindowEntropy

  // Readable bytes by address; kernel_copyout fails as soon as one byte is missing.
  type Memory = map<int, byte>

  predicate Readable(mem: Memory, addr: int, len: nat) {
    forall i :: addr <= i < addr + len ==> i in mem
  }

  function CopyOut(mem: Memory, addr: int, len: nat): (r: Option<seq<byte>>)
    ensures r.Some? <==> Readable(mem, addr, len)
    ensures r.Some? ==> |r.value| == len && forall i :: 0 <= i < len ==> r.value[i] == mem[addr + i]
  {
    if Readable(mem, addr, len)
    then Some(seq(len, i requires 0 <= i < len && Readable(mem, addr, len) => mem[addr + i]))
    else None
  }

  function Reverse(s: seq<byte>): (r: seq<byte>)
    ensures |r| == |s| && forall i :: 0 <= i < |s| ==> r[i] == s[|s| - 1 - i]
  {
    seq(|s|, i requires 0 <= i < |s| => s[|s| - 1 - i])
  }

  /** Each 16-byte block reversed on its own, the last one possibly shorter. */
  function ReverseBlocks(s: seq<byte>): (r: seq<byte>)
    ensures |r| == |s|
  {
    if |s| <= 16 then Reverse(s) else Reverse(s[..16]) + ReverseBlocks(s[16..])
  }

  lemma {:induction false} ReverseMultiset(s: seq<byte>)
    ensures multiset(Reverse(s)) == multiset(s)
  {
    if s != [] {
      ReverseMultiset(s[1..]);
      assert Reverse(s) == Reverse(s[1..]) + [s[0]];
      assert s == [s[0]] + s[1..];
    }
  }

  /** Reversing twice gives the input back, for every length. */
  lemma {:induction false} ReverseBlocksInvolution(s: seq<byte>)
    ensures ReverseBlocks(ReverseBlocks(s)) == s
  {
    if |s| > 16 {
      var r := ReverseBlocks(s);
      ReverseBlocksInvolution(s[16..]);
      assert r[..16] == Reverse(s[..16]) && r[16..] == ReverseBlocks(s[16..]);
      assert Reverse(r[..16]) == s[..16];
    }
  }

  // The mirror position of i within its own 16-byte block.
  function Mirror(n: nat, i: nat): nat
    requires i < n
  {
    var start := i - i % 16;
    start + (if start + 16 <= n then 16 else n - start) - 1 - i % 16
  }

  lemma MirrorShift(n: nat, i: nat)
    requires 16 <= i < n
    ensures Mirror(n, i) == 16 + Mirror(n - 16, i - 16) && Mirror(n - 16, i - 16) < n - 16
  {
    assert (i - 16) % 16 == i % 16;
  }

  lemma MirrorFirst(n: nat, i: nat)
    requires i < n && i < 16
    ensures Mirror(n, i) == (if n >= 16 then 16 else n) - 1 - i
  {
    assert i % 16 == i;
  }

  lemma {:induction false} ReverseBlocksMirror(s: seq<byte>, i: nat)
    requires i < |s|
    ensures Mirror(|s|, i) < |s| && ReverseBlocks(s)[i] == s[Mirror(|s|, i)]
    decreases |s|
  {
    if i < 16 {
      MirrorFirst(|s|, i);
    } else {
      MirrorShift(|s|, i);
      ReverseBlocksMirror(s[16..], i - 16);
    }
  }

  /** Byte i comes from the mirror position in its own 16-byte block, the last block being as long as it is. */
  lemma ReverseBlocksAt(s: seq<byte>, i: nat)
    requires i < |s|
    ensures var start := i - i % 16;
      var end := if start + 16 <= |s| then start + 16 else |s|;
      ReverseBlocks(s)[i] == s[start + (end - 1 - i)]
  {
    ReverseBlocksMirror(s, i);
  }

  lemma {:induction false} ReverseBlocksMultiset(s: seq<byte>)
    ensures multiset(ReverseBlocks(s)) == multiset(s)
  {
    if |s| <= 16 {
      ReverseMultiset(s);
    } else {
      ReverseMultiset(s[..16]);
      ReverseBlocksMultiset(s[16..]);
      assert s == s[..16] + s[16..];
    }
  }

  lemma AllEqualMultiset(s: seq<byte>, t: seq<byte>)
    requires multiset(s) == multiset(t) && AllEqual(s)
    ensures AllEqual(t)
  {
    if t != [] {
      assert t[0] in multiset(s);
      forall i | 0 <= i < |t|
        ensures t[i] == t[0]
      {
        assert t[i] in multiset(s);
      }
    }
  }

  /** Reversal keeps the entropy and keeps whether all bytes are equal. */
  lemma ReverseBlocksKeeps(s: seq<byte>)
    ensures AllEqual(ReverseBlocks(s)) <==> AllEqual(s)
    ensures Entropy(ReverseBlocks(s)) == Entropy(s)
  {
    ReverseBlocksMultiset(s);
    EntropyPermutation(s, ReverseBlocks(s));
    if AllEqual(s) {
      AllEqualMultiset(s, ReverseBlocks(s));
    }
    if AllEqual(ReverseBlocks(s)) {
      AllEqualMultiset(ReverseBlocks(s), s);
    }
  }

  lemma {:induction false} ReverseBlocksAppend(s: seq<byte>, t: seq<byte>)
    requires |s| % 16 == 0 && |t| <= 16
    ensures ReverseBlocks(s + t) == ReverseBlocks(s) + Reverse(t)
  {
    if s == [] {
      assert s + t == t;
    } else if |s| == 16 {
      assert (s + t)[..16] == s && (s + t)[16..] == t;
    } else {
      ReverseBlocksAppend(s[16..], t);
      assert (s + t)[..16] == s[..16] && (s + t)[16..] == s[16..] + t;
    }
  }

  // The inner loop: one block.
  method ReverseBlockInto(src: array<byte>, dst: array<byte>, block: nat, blockLen: nat)
    requires src != dst && block + blockLen <= src.Length && block + blockLen <= dst.Length
    modifies dst
    ensures dst[..block + blockLen] == old(dst[..block]) + Reverse(src[block..block + blockLen])
    ensures forall k :: block + blockLen <= k < dst.Length ==> dst[k] == old(dst[k])
  {
    ghost var t := src[block..block + blockLen];
    for i := 0 to blockLen
      invariant forall k :: 0 <= k < dst.Length ==>
        dst[k] == if block <= k < block + i then Reverse(t)[k - block] else old(dst[k])
    {
      dst[block + i] := src[block + blockLen - 1 - i];
    }
  }

  method ReverseSixteenByteBlocks(src: array<byte>, dst: array<byte>, len: nat)
    requires src != dst && len <= src.Length && len <= dst.Length
    modifies dst
    ensures dst[..len] == ReverseBlocks(src[..len])
    ensures forall k :: len <= k < dst.Length ==> dst[k] == old(dst[k])
  {
    var block := 0;
    ghost var done := 0;
    while block < len
      invariant done == if block <= len then block else len
      invariant 0 <= block && (block < len ==> block % 16 == 0)
      invariant dst[..done] == ReverseBlocks(src[..done])
      invariant forall k :: done <= k < dst.Length ==> dst[k] == old(dst[k])
    {
      var blockLen := len - block;
      if blockLen > 16 {
        blockLen := 16;
      }
      ReverseBlockInto(src, dst, block, blockLen);
      ReverseBlocksAppend(src[..block], src[block..block + blockLen]);
      assert src[..block + blockLen] == src[..block] + src[block..block + blockLen];
      done := block + blockLen;
      block := block + 16;
    }
  }

  /** Reads the key at a known offset. The guard that would return -5 never fires. */
  method ReadKernelKey(mem: Memory, base: int, known: Option<int>, key: array<byte>, keyMax: nat)
    returns (code: int)
    requires keyMax <= key.Length
    modifies key
    ensures code in {-1, -2, -3, -4, KEY_SIZE}
    ensures code == -1 <==> keyMax < KEY_SIZE
    ensures code == -2 <==> keyMax >= KEY_SIZE && (base == 0 || known == None)
    ensures code == -3 ==> known.Some? && !Readable(mem, base + known.value, KEY_SIZE)
    ensures code == -4 ==>
      known.Some? && Readable(mem, base + known.value, KEY_SIZE) &&
      AllEqual(CopyOut(mem, base + known.value, KEY_SIZE).value)
    ensures code == KEY_SIZE ==>
      known.Some? && Readable(mem, base + known.value, KEY_SIZE) && keyMax >= KEY_SIZE &&
      var raw := CopyOut(mem, base + known.value, KEY_SIZE).value;
      !AllEqual(raw) && ReverseBlocks(key[..KEY_SIZE]) == raw && Entropy(key[..KEY_SIZE]) == Entropy(raw)
    ensures code != KEY_SIZE ==> key[..] == old(key[..])
    ensures forall k :: KEY_SIZE <= k < key.Length ==> key[k] == old(key[k])
  {
    if keyMax < KEY_SIZE {
      return -1;
    }
    if base == 0 {
      return -2;
    }
    if known.None? {
      return -2;
    }
    var copied := CopyOut(mem, base + known.value, KEY_SIZE);
    if copied.None? {
      return -3;
    }
    var rawKey := new byte[KEY_SIZE](i requires 0 <= i < KEY_SIZE => copied.value[i]);
    assert rawKey[..] == copied.value;
    var equal := AllBytesEqual(rawKey[..]);
    if equal {
      return -4;
    }
    ReverseSixteenByteBlocks(rawKey, key, KEY_SIZE);
    assert rawKey[..KEY_SIZE] == rawKey[..];
    ReverseBlocksKeeps(rawKey[..]);
    ReverseBlocksInvolution(rawKey[..]);
    equal := AllBytesEqual(key[..KEY_SIZE]);
    code := if equal then -5 else KEY_SIZE;
  }
}
