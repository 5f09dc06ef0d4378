/** The stream transform whose keystream block is the encrypted byte offset. */
module OffsetStream {
  import opened Blocks
  import opened Cbc

  const TWO64 := 0x1_0000_0000_0000_0000
  type u64 = x: int | 0 <= x < TWO64

  function LittleEndian(x: nat, n: nat): (r: seq<bv8>)
    ensures |r| == n
  {
    if n == 0 then [] else [(x % 256) as bv8] + LittleEndian(x / 256, n - 1)
  }

  /** The cipher input for an offset: the offset in 8 little-endian bytes, then 8 zero bytes. */
  function CounterBlock(offset: u64): Block {
    LittleEndian(offset, 8) + [0, 0, 0, 0, 0, 0, 0, 0]
  }

  /** Eight bytes of which byte i counts 256^i, and eight zero bytes. */
  predicate IsCounterBlock(b: Block, offset: u64) {
    && (b[0] as int) + 0x100 * (b[1] as int) + 0x1_0000 * (b[2] as int) + 0x100_0000 * (b[3] as int)
       + 0x1_0000_0000 * (b[4] as int) + 0x100_0000_0000 * (b[5] as int) + 0x1_0000_0000_0000 * (b[6] as int)
       + 0x100_0000_0000_0000 * (b[7] as int) == offset
    && b[8] == b[9] == b[10] == b[11] == b[12] == b[13] == b[14] == b[15] == 0
  }

  function LeValue(s: seq<bv8>): nat {
    if s == [] then 0 else (s[0] as nat) + 256 * LeValue(s[1..])
  }

  lemma {:induction false} LittleEndianValue(x: nat, n: nat, bound: nat)
    requires bound == Pow256(n) && x < bound
    ensures LeValue(LittleEndian(x, n)) == x
  {
    if n > 0 {
      LittleEndianValue(x / 256, n - 1, Pow256(n - 1));
      ByteCast(x % 256);
    }
  }

  function Pow256(n: nat): nat {
    if n == 0 then 1 else 256 * Pow256(n - 1)
  }

  lemma EightBytes(s: seq<bv8>)
    requires |s| == 8
    ensures LeValue(s) == (s[0] as int) + 0x100 * (s[1] as int) + 0x1_0000 * (s[2] as int) + 0x100_0000 * (s[3] as int)
      + 0x1_0000_0000 * (s[4] as int) + 0x100_0000_0000 * (s[5] as int) + 0x1_0000_0000_0000 * (s[6] as int)
      + 0x100_0000_0000_0000 * (s[7] as int)
  {
    FourBytes(s);
    FourBytes(s[4..]);
    assert s[4..][4..] == [];
  }

  lemma FourBytes(s: seq<bv8>)
    requires |s| >= 4
    ensures LeValue(s) == (s[0] as int) + 0x100 * (s[1] as int) + 0x1_0000 * (s[2] as int) + 0x100_0000 * (s[3] as int)
      + 0x1_0000_0000 * LeValue(s[4..])
  {
    assert s[1..][1..] == s[2..] && s[2..][1..] == s[3..] && s[3..][1..] == s[4..];
  }

  lemma LowBytes(low: seq<bv8>, high: seq<bv8>, b: Block, offset: u64)
    requires |low| == |high| == 8 && LeValue(low) == offset && b == low + high
    requires forall i :: 0 <= i < 8 ==> high[i] == 0
    ensures IsCounterBlock(b, offset)
  {
    EightBytes(low);
    assert b[0] == low[0] && b[1] == low[1] && b[2] == low[2] && b[3] == low[3];
    assert b[4] == low[4] && b[5] == low[5] && b[6] == low[6] && b[7] == low[7];
    assert b[8] == high[0] && b[9] == high[1] && b[10] == high[2] && b[11] == high[3];
    assert b[12] == high[4] && b[13] == high[5] && b[14] == high[6] && b[15] == high[7];
  }

  /** The counter block of an offset is little-endian. */
  lemma CounterBlockBytes(offset: u64)
    ensures IsCounterBlock(CounterBlock(offset), offset)
  {
    LittleEndianValue(offset, 8, Pow256(8));
    LowBytes(LittleEndian(offset, 8), [0, 0, 0, 0, 0, 0, 0, 0], CounterBlock(offset), offset);
  }

  /** Different offsets have different counter blocks. */
  lemma CounterBlocksDiffer(a: u64, b: u64)
    requires a != b
    ensures CounterBlock(a) != CounterBlock(b)
  {
    CounterBlockBytes(a);
    CounterBlockBytes(b);
  }

  // Offsets wrap around at 64 bits.
  function Wrap(offset: nat): u64 {
    if offset < TWO64 then offset else Wrap(offset - TWO64)
  }

  lemma {:induction false} WrapIsModulo(offset: nat)
    ensures Wrap(offset) == offset % 0x1_0000_0000_0000_0000
  {
    if offset >= TWO64 {
      WrapIsModulo(offset - TWO64);
    }
  }

  lemma {:induction false} WrapStep(offset: nat, n: nat)
    ensures Wrap(Wrap(offset) + n) == Wrap(offset + n)
  {
    if offset >= TWO64 {
      WrapStep(offset - TWO64, n);
    }
  }

  /** Each 16-byte group of data added to the cipher's block for its offset; offsets wrap around. */
  function Oex(cipher: u64 -> Block, offset: u64, data: seq<bv8>): (r: seq<bv8>)
    ensures |r| == |data|
    decreases |data|
  {
    if data == [] then []
    else
      var n := GroupSize(|data|);
      Xor(Front(data, n), cipher(offset)) + Oex(cipher, Wrap(offset + n), Behind(data, n))
  }

  function GroupSize(left: nat): nat {
    if left > 16 then 16 else left
  }

  function OexAt(cipher: u64 -> Block, offset: u64, data: seq<bv8>, i: nat): bv8
    requires i < |data|
  {
    data[i] ^ cipher(Wrap(offset + Whole(i)))[i % 16]
  }

  lemma GroupOf(pos: nat, i: nat)
    requires pos % 16 == 0 && pos <= i < pos + 16
    ensures Whole(i) == pos && i % 16 == i - pos
  {
  }

  lemma HeadByte(cipher: u64 -> Block, offset: u64, data: seq<bv8>, i: nat)
    requires i < |data| && i < 16
    ensures Oex(cipher, offset, data)[i] == OexAt(cipher, offset, data, i)
  {
    var n := GroupSize(|data|);
    XorEach(Front(data, n), cipher(offset));
    FrontEach(data, n);
    GroupOf(0, i);
  }

  lemma LaterByte(cipher: u64 -> Block, offset: u64, data: seq<bv8>, i: nat)
    requires 16 <= i < |data|
    ensures Oex(cipher, offset, data)[i] == Oex(cipher, Wrap(offset + 16), Behind(data, 16))[i - 16]
  {
    var head, tail := Xor(Front(data, 16), cipher(offset)), Oex(cipher, Wrap(offset + 16), Behind(data, 16));
    assert Oex(cipher, offset, data) == head + tail;
  }

  lemma LaterAt(cipher: u64 -> Block, offset: u64, data: seq<bv8>, more: seq<bv8>, next: u64, i: nat)
    requires 16 <= i < |data| && more == Behind(data, 16) && next == Wrap(offset + 16)
    ensures OexAt(cipher, offset, data, i) == OexAt(cipher, next, more, i - 16)
  {
    BehindEach(data, 16);
    var w := Whole(i - 16);
    GroupOf(16 + w, i);
    WrapStep(offset + 16, w);
    assert Wrap(next + w) == Wrap(offset + Whole(i));
  }

  /** Byte i is added to byte i mod 16 of the encrypted offset of its 16-byte group. */
  lemma {:induction false} OexByte(cipher: u64 -> Block, offset: u64, data: seq<bv8>, i: nat)
    requires i < |data|
    ensures Oex(cipher, offset, data)[i] == OexAt(cipher, offset, data, i)
    decreases |data|
  {
    if i < 16 {
      HeadByte(cipher, offset, data, i);
    } else {
      LaterByte(cipher, offset, data, i);
      LaterAt(cipher, offset, data, Behind(data, 16), Wrap(offset + 16), i);
      OexByte(cipher, Wrap(offset + 16), Behind(data, 16), i - 16);
    }
  }

  /** At a fixed offset the transform is its own inverse. */
  lemma OexInvolution(cipher: u64 -> Block, offset: u64, data: seq<bv8>)
    ensures Oex(cipher, offset, Oex(cipher, offset, data)) == data
  {
    var once := Oex(cipher, offset, data);
    forall i | 0 <= i < |data|
      ensures Oex(cipher, offset, once)[i] == data[i]
    {
      OexByte(cipher, offset, data, i);
      OexByte(cipher, offset, once, i);
      XorByte(data[i], cipher(Wrap(offset + Whole(i)))[i % 16]);
    }
  }

  lemma ChunkByte(cipher: u64 -> Block, offset: u64, a: seq<bv8>, b: seq<bv8>, i: nat)
    requires |a| % 16 == 0 && |a| <= i < |a| + |b|
    ensures OexAt(cipher, offset, a + b, i) == OexAt(cipher, Wrap(offset + |a|), b, i - |a|)
  {
    GroupOf(|a| + Whole(i - |a|), i);
    WrapStep(offset + |a|, Whole(i - |a|));
  }

  /** Cutting at a multiple of 16 and passing the advanced 64-bit offset on changes nothing. */
  lemma OexChunks(cipher: u64 -> Block, offset: u64, a: seq<bv8>, b: seq<bv8>)
    requires |a| % 16 == 0
    ensures Oex(cipher, offset, a + b) == Oex(cipher, offset, a) + Oex(cipher, Wrap(offset + |a|), b)
  {
    var front, back := Oex(cipher, offset, a), Oex(cipher, Wrap(offset + |a|), b);
    forall i | 0 <= i < |a| + |b|
      ensures (front + back)[i] == Oex(cipher, offset, a + b)[i]
    {
      OexByte(cipher, offset, a + b, i);
      if i < |a| {
        OexByte(cipher, offset, a, i);
      } else {
        ChunkByte(cipher, offset, a, b, i);
        OexByte(cipher, Wrap(offset + |a|), b, i - |a|);
      }
    }
  }

  // ---------- the code ----------

  /** The cipher's block for an offset: the encrypted counter block. */
  function Keystream(e: Block -> Block): u64 -> Block {
    (offset: u64) => e(CounterBlock(offset))
  }

  /** Byte i comes out as y when it goes in as x: the sum with byte i mod 16 of the encrypted block that holds the
      offset of its group, a multiple of 16 further on and wrapped at 2^64. */
  ghost predicate ResultByte(e: Block -> Block, offset: u64, i: nat, x: bv8, y: bv8) {
    exists b: Block :: IsCounterBlock(b, (offset + 16 * (i / 16)) % 0x1_0000_0000_0000_0000) && y == x ^ e(b)[i % 16]
  }

  lemma GroupOffset(offset: u64, i: nat)
    ensures Wrap(offset + Whole(i)) == (offset + 16 * (i / 16)) % 0x1_0000_0000_0000_0000
  {
    GroupOf(16 * (i / 16), i);
    WrapIsModulo(offset + Whole(i));
  }

  lemma ResultOf(e: Block -> Block, offset: u64, i: nat, x: bv8, at: u64)
    requires at == (offset + 16 * (i / 16)) % 0x1_0000_0000_0000_0000
    ensures ResultByte(e, offset, i, x, x ^ Keystream(e)(at)[i % 16])
  {
    CounterBlockBytes(at);
    var b := CounterBlock(at);
    assert Keystream(e)(at) == e(b);
  }

  lemma OexResult(e: Block -> Block, offset: u64, data: seq<bv8>, i: nat)
    requires i < |data|
    ensures ResultByte(e, offset, i, data[i], Oex(Keystream(e), offset, data)[i])
  {
    var cipher, at := Keystream(e), Wrap(offset + Whole(i));
    OexByte(cipher, offset, data, i);
    GroupOffset(offset, i);
    ResultOf(e, offset, i, data[i], at);
  }

  method AesDecryptOex(e: Block -> Block, keyOk: bool, offset: u64, input: array<bv8>, output: array<bv8>,
                       dataSize: nat)
    returns (ok: bool)
    requires dataSize <= input.Length && dataSize <= output.Length
    modifies output
    ensures ok <==> dataSize != 0 && keyOk
    ensures ok ==> output[..dataSize] == Oex(Keystream(e), offset, old(input[..dataSize]))
    ensures ok ==> forall i :: 0 <= i < dataSize ==> ResultByte(e, offset, i, old(input[i]), output[i])
    ensures forall i :: dataSize <= i < output.Length ==> output[i] == old(output[i])
    ensures !ok ==> output[..] == old(output[..])
  {
    if dataSize == 0 {
      return false;
    }
    if !keyOk {
      return false;
    }
    ghost var data := input[..dataSize];
    OexLoop(Keystream(e), offset, input, output, dataSize);
    forall i | 0 <= i < dataSize
      ensures ResultByte(e, offset, i, old(input[i]), output[i])
    {
      OexResult(e, offset, data, i);
      assert data[i] == old(input[i]) && output[..dataSize][i] == output[i];
    }
    ok := true;
  }

  // The loop, for any way to make a keystream block from an offset.
  method OexLoop(cipher: u64 -> Block, offset: u64, input: array<bv8>, output: array<bv8>, dataSize: nat)
    requires dataSize <= input.Length && dataSize <= output.Length
    modifies output
    ensures output[..dataSize] == Oex(cipher, offset, old(input[..dataSize]))
    ensures forall i :: dataSize <= i < output.Length ==> output[i] == old(output[i])
  {
    PrefixIsPart(input[..], dataSize);
    ghost var all := Oex(cipher, offset, Part(input[..], 0, dataSize));
    var cur, pos, left := offset, 0, dataSize;
    assert [] + all == all;
    while left != 0
      invariant pos + left == dataSize && pos >= 0 && left >= 0
      invariant Part(output[..], 0, pos) + Oex(cipher, cur, Part(input[..], pos, dataSize)) == all
      invariant forall i :: pos <= i < output.Length ==> output[i] == old(output[i])
      decreases left
    {
      var tmp: Block := cipher(cur);
      var curSize := if left > 16 then 16 else left;
      OneGroup(cipher, cur, tmp, input, output, pos, curSize, dataSize, all);
      cur := Wrap(cur + curSize);
      pos := pos + curSize;
      left := left - curSize;
    }
    assert output[..dataSize] + [] == output[..dataSize];
    PrefixIsPart(output[..], dataSize);
  }

  // One group of the loop.
  method OneGroup(ghost cipher: u64 -> Block, ghost cur: u64, tmp: Block, input: array<bv8>, output: array<bv8>,
                  pos: nat, n: nat, ghost end: nat, ghost all: seq<bv8>)
    requires pos < end <= input.Length && end <= output.Length && n == GroupSize(end - pos)
    requires tmp == cipher(cur)
    requires Part(output[..], 0, pos) + Oex(cipher, cur, Part(input[..], pos, end)) == all
    modifies output
    ensures Part(output[..], 0, pos + n) + Oex(cipher, Wrap(cur + n), Part(input[..], pos + n, end)) == all
    ensures forall i :: pos + n <= i < output.Length ==> output[i] == old(output[i])
  {
    ghost var before, written := input[..], output[..];
    ghost var group := Part(before, pos, pos + n);
    PartEach(before, pos, pos + n);
    XorEach(group, tmp);
    XorTail(input, output, pos, n, tmp);
    PartWritten(written, output[..], pos, Xor(group, tmp));
    PartSame(before, input[..], pos + n, end);
    NextGroup(cipher, cur, Part(written, 0, pos), before, pos, n, end, all);
  }

  lemma NextGroup(cipher: u64 -> Block, offset: u64, done: seq<bv8>, s: seq<bv8>, pos: nat, n: nat, end: nat,
                  all: seq<bv8>)
    requires pos < end <= |s| && n == GroupSize(end - pos)
    requires done + Oex(cipher, offset, Part(s, pos, end)) == all
    ensures done + Xor(Part(s, pos, pos + n), cipher(offset)) +
      Oex(cipher, Wrap(offset + n), Part(s, pos + n, end)) == all
  {
    PartFront(s, pos, pos + n, end);
    Assoc(done, Xor(Part(s, pos, pos + n), cipher(offset)), Oex(cipher, Wrap(offset + n), Part(s, pos + n, end)));
  }
}
