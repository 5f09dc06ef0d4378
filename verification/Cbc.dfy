/** CBC with the residual block added to the encrypted chaining value. */
module Cbc {
  import opened Blocks

  function CbcEncrypt(e: Block -> Block, iv: Block, data: seq<bv8>): (r: (seq<bv8>, Block))
    requires |data| % 16 == 0
    ensures |r.0| == |data|
    decreases |data|
  {
    if data == [] then ([], iv)
    else
      var c := e(Xor(Front(data, 16), iv));
      var rest := CbcEncrypt(e, c, Behind(data, 16));
      (c + rest.0, rest.1)
  }

  function CbcDecrypt(d: Block -> Block, iv: Block, data: seq<bv8>): (r: (seq<bv8>, Block))
    requires |data| % 16 == 0
    ensures |r.0| == |data|
    decreases |data|
  {
    if data == [] then ([], iv)
    else
      var rest := CbcDecrypt(d, Front(data, 16), Behind(data, 16));
      (Xor(d(Front(data, 16)), iv) + rest.0, rest.1)
  }

  function Whole(n: nat): (w: nat)
    ensures w <= n < w + 16 && w % 16 == 0
  {
    n - n % 16
  }

  /** Output and carried-out chaining value. A residual block leaves the encrypted chaining value behind. */
  function CtsEncrypt(e: Block -> Block, iv: Block, data: seq<bv8>): (r: (seq<bv8>, Block))
    ensures |r.0| == |data|
  {
    var w := Whole(|data|);
    var (body, chain) := CbcEncrypt(e, iv, Front(data, w));
    if w == |data| then (body, chain) else (body + Xor(Behind(data, w), e(chain)), e(chain))
  }

  function CtsDecrypt(e: Block -> Block, d: Block -> Block, iv: Block, data: seq<bv8>): (r: (seq<bv8>, Block))
    ensures |r.0| == |data|
  {
    var w := Whole(|data|);
    var (body, chain) := CbcDecrypt(d, iv, Front(data, w));
    if w == |data| then (body, chain) else (body + Xor(Behind(data, w), e(chain)), e(chain))
  }

  // ---------- meaning ----------

  function BlockAt(s: seq<bv8>, j: nat): (b: Block)
    requires 16 * j + 16 <= |s|
    ensures forall i :: 0 <= i < 16 ==> b[i] == s[16 * j + i]
  {
    seq(16, i requires 0 <= i < 16 && 16 * j + 16 <= |s| => s[16 * j + i])
  }

  // Block j of c is the encrypted sum of block j of data and the block of c before it.
  predicate Chained(e: Block -> Block, iv: Block, data: seq<bv8>, c: seq<bv8>, j: nat)
    requires 16 * j + 16 <= |data| == |c|
  {
    BlockAt(c, j) == e(Xor(BlockAt(data, j), if j == 0 then iv else BlockAt(c, j - 1)))
  }

  /** C_j = E(P_j + C_{j-1}) with C_{-1} the IV. */
  lemma {:induction false} CbcEncryptBlocks(e: Block -> Block, iv: Block, data: seq<bv8>, j: nat)
    requires |data| % 16 == 0 && 16 * j < |data|
    ensures Chained(e, iv, data, CbcEncrypt(e, iv, data).0, j)
    decreases j
  {
    var c, first, more, rest := FirstCipherBlock(e, iv, data);
    if j > 0 {
      CbcEncryptBlocks(e, first, more, j - 1);
      ChainedBehind(e, iv, data, c, first, more, rest, j);
    }
  }

  lemma FirstCipherBlock(e: Block -> Block, iv: Block, data: seq<bv8>)
    returns (c: seq<bv8>, first: Block, more: seq<bv8>, rest: seq<bv8>)
    requires |data| % 16 == 0 && data != []
    ensures more == Behind(data, 16) && rest == CbcEncrypt(e, first, more).0
    ensures c == CbcEncrypt(e, iv, data).0 && rest == Behind(c, 16)
    ensures first == BlockAt(c, 0) && Chained(e, iv, data, c, 0)
  {
    first, more := e(Xor(Front(data, 16), iv)), Behind(data, 16);
    c, rest := CbcEncrypt(e, iv, data).0, CbcEncrypt(e, first, more).0;
    var block: seq<bv8> := first;
    Joined(block, rest);
    FirstBlock(data);
    FirstBlock(c);
  }

  lemma FirstBlock(s: seq<bv8>)
    requires |s| >= 16
    ensures BlockAt(s, 0) == Front(s, 16)
  {
    FrontEach(s, 16);
  }

  lemma LaterBlock(s: seq<bv8>, j: nat)
    requires 0 < j && 16 * j + 16 <= |s|
    ensures BlockAt(s, j) == BlockAt(Behind(s, 16), j - 1)
  {
    BehindEach(s, 16);
  }

  lemma ChainedBehind(e: Block -> Block, iv: Block, data: seq<bv8>, c: seq<bv8>, first: Block, more: seq<bv8>,
                      rest: seq<bv8>, j: nat)
    requires |data| == |c| && 0 < j && 16 * j + 16 <= |data|
    requires more == Behind(data, 16) && rest == Behind(c, 16)
    requires first == BlockAt(c, 0) && Chained(e, first, more, rest, j - 1)
    ensures Chained(e, iv, data, c, j)
  {
    LaterBlock(data, j);
    LaterBlock(c, j);
    if j > 1 {
      LaterBlock(c, j - 1);
    }
  }

  /** The carried-out IV is the last ciphertext block. */
  lemma {:induction false} CbcEncryptCarries(e: Block -> Block, iv: Block, data: seq<bv8>)
    requires |data| % 16 == 0 && data != []
    ensures CbcEncrypt(e, iv, data).1 == Behind(CbcEncrypt(e, iv, data).0, |data| - 16)
    decreases |data|
  {
    var first: seq<bv8> := e(Xor(Front(data, 16), iv));
    var rest := CbcEncrypt(e, first, Behind(data, 16)).0;
    if |data| > 16 {
      CbcEncryptCarries(e, first, Behind(data, 16));
      BehindMore(first, rest, |rest| - 16);
    } else {
      Joined([], first);
      assert [] + first == first == first + rest;
    }
  }

  lemma BlockOfFront(s: seq<bv8>, more: seq<bv8>, j: nat)
    requires 16 * j + 16 <= |s|
    ensures BlockAt(s + more, j) == BlockAt(s, j)
  {
  }

  lemma LastBlock(s: seq<bv8>, j: nat)
    requires |s| == 16 * j + 16
    ensures Behind(s, 16 * j) == BlockAt(s, j)
  {
    BehindEach(s, 16 * j);
  }

  // The chaining value that the full blocks leave behind.
  lemma ChainValue(e: Block -> Block, iv: Block, data: seq<bv8>)
    requires |data| % 16 == 0
    ensures var r := CbcEncrypt(e, iv, data);
      r.1 == if data == [] then iv else BlockAt(r.0, |data| / 16 - 1)
  {
    if data != [] {
      CbcEncryptCarries(e, iv, data);
      LastBlock(CbcEncrypt(e, iv, data).0, |data| / 16 - 1);
    }
  }

  // The parts of a call: full blocks and what they give, the residual bytes and what they give.
  lemma CtsSplit(e: Block -> Block, iv: Block, data: seq<bv8>)
    returns (front: seq<bv8>, tail: seq<bv8>, body: seq<bv8>, residual: seq<bv8>, last: Block)
    ensures |front| == |body| == |data| / 16 * 16 && |tail| == |residual| == |data| % 16
    ensures data == front + tail && body == CbcEncrypt(e, iv, front).0
    ensures CtsEncrypt(e, iv, data) == (body + residual, if tail == [] then last else e(last))
    ensures last == if body == [] then iv else BlockAt(body, |body| / 16 - 1)
    ensures tail != [] ==> residual == Xor(tail, e(last))
  {
    var w := |data| / 16 * 16;
    front, tail := Front(data, w), Behind(data, w);
    Parted(data, w);
    ChainValue(e, iv, front);
    var r := CbcEncrypt(e, iv, front);
    body, last := r.0, r.1;
    residual := if tail == [] then [] else Xor(tail, e(last));
    CtsEncryptParts(e, iv, data, w, body, last);
    assert body + [] == body;
  }

  lemma ChainedOnwards(e: Block -> Block, iv: Block, front: seq<bv8>, tail: seq<bv8>, body: seq<bv8>,
                       residual: seq<bv8>, data: seq<bv8>, c: seq<bv8>, j: nat)
    requires |front| % 16 == 0 && 16 * j + 16 <= |front| && |tail| == |residual|
    requires body == CbcEncrypt(e, iv, front).0 && data == front + tail && c == body + residual
    ensures Chained(e, iv, data, c, j)
  {
    CbcEncryptBlocks(e, iv, front, j);
    BlockOfFront(front, tail, j);
    BlockOfFront(body, residual, j);
    if j > 0 {
      BlockOfFront(body, residual, j - 1);
    }
  }

  // Of that, what the full blocks need.
  lemma FullBlocks(e: Block -> Block, iv: Block, data: seq<bv8>)
    returns (front: seq<bv8>, tail: seq<bv8>, residual: seq<bv8>)
    ensures |front| == |data| / 16 * 16 && |front| % 16 == 0 && |tail| == |residual| && data == front + tail
    ensures CtsEncrypt(e, iv, data).0 == CbcEncrypt(e, iv, front).0 + residual
  {
    var body, last;
    front, tail, body, residual, last := CtsSplit(e, iv, data);
  }

  /** With or without a residual block, each full block is chained as in CBC. */
  lemma CtsBlocks(e: Block -> Block, iv: Block, data: seq<bv8>, j: nat)
    requires 16 * j + 16 <= |data|
    ensures Chained(e, iv, data, CtsEncrypt(e, iv, data).0, j)
  {
    var front, tail, residual := FullBlocks(e, iv, data);
    ChainedOnwards(e, iv, front, tail, CbcEncrypt(e, iv, front).0, residual, data, CtsEncrypt(e, iv, data).0, j);
  }

  // The last ciphertext block, or the IV when there is none.
  function LastOf(iv: Block, c: seq<bv8>): Block {
    if |c| < 16 then iv else BlockAt(c, |c| / 16 - 1)
  }

  /** The residual bytes are added to the encrypted last ciphertext block, and the value used last is carried out. */
  lemma CtsResidual(e: Block -> Block, iv: Block, data: seq<bv8>)
    ensures var (c, out) := CtsEncrypt(e, iv, data);
      var last := LastOf(iv, c);
      && (forall i :: 0 <= i < |data| % 16 ==>
            c[|data| / 16 * 16 + i] == data[|data| / 16 * 16 + i] ^ e(last)[i])
      && out == if |data| % 16 == 0 then last else e(last)
  {
    var front, tail, body, residual, last := CtsSplit(e, iv, data);
    LastOfBody(iv, body, residual);
    if tail != [] {
      XorEach(tail, e(last));
    }
  }

  lemma LastOfBody(iv: Block, body: seq<bv8>, residual: seq<bv8>)
    requires |body| % 16 == 0 && |residual| < 16
    ensures LastOf(iv, body + residual) == if body == [] then iv else BlockAt(body, |body| / 16 - 1)
  {
    if body != [] {
      BlockOfFront(body, residual, |body| / 16 - 1);
    }
  }

  // ---------- round trips ----------

  lemma {:induction false} CbcDecryptsEncrypted(e: Block -> Block, d: Block -> Block, iv: Block, data: seq<bv8>)
    requires Inverse(e, d) && |data| % 16 == 0
    ensures CbcDecrypt(d, iv, CbcEncrypt(e, iv, data).0) == (data, CbcEncrypt(e, iv, data).1)
    decreases |data|
  {
    if data != [] {
      var c: seq<bv8> := e(Xor(Front(data, 16), iv));
      var rest := CbcEncrypt(e, c, Behind(data, 16)).0;
      CbcDecryptsEncrypted(e, d, c, Behind(data, 16));
      XorTwice(Front(data, 16), iv);
      Joined(c, rest);
      Parted(data, 16);
    }
  }

  lemma {:induction false} CbcEncryptsDecrypted(e: Block -> Block, d: Block -> Block, iv: Block, data: seq<bv8>)
    requires Inverse(e, d) && |data| % 16 == 0
    ensures CbcEncrypt(e, iv, CbcDecrypt(d, iv, data).0) == (data, CbcDecrypt(d, iv, data).1)
    decreases |data|
  {
    if data != [] {
      var p := Xor(d(Front(data, 16)), iv);
      var rest := CbcDecrypt(d, Front(data, 16), Behind(data, 16)).0;
      CbcEncryptsDecrypted(e, d, Front(data, 16), Behind(data, 16));
      XorTwice(d(Front(data, 16)), iv);
      Joined(p, rest);
      Parted(data, 16);
    }
  }

  /** Both directions undo each other for every length and leave the same carried-out IV. */
  lemma CtsRoundTrip(e: Block -> Block, d: Block -> Block, iv: Block, data: seq<bv8>)
    requires Inverse(e, d)
    ensures CtsDecrypt(e, d, iv, CtsEncrypt(e, iv, data).0) == (data, CtsEncrypt(e, iv, data).1)
    ensures CtsEncrypt(e, iv, CtsDecrypt(e, d, iv, data).0) == (data, CtsDecrypt(e, d, iv, data).1)
  {
    var w := Whole(|data|);
    CbcDecryptsEncrypted(e, d, iv, Front(data, w));
    CbcEncryptsDecrypted(e, d, iv, Front(data, w));
    var (c, chain) := CbcEncrypt(e, iv, Front(data, w));
    TailUndone(data, c, e(chain));
    var (p, back) := CbcDecrypt(d, iv, Front(data, w));
    TailUndone(data, p, e(back));
    Parted(data, w);
    if w == |data| {
      assert Front(data, w) == data && Front(c, w) == c && Front(p, w) == p;
    }
  }

  lemma TailUndone(data: seq<bv8>, body: seq<bv8>, key: Block)
    requires |body| == Whole(|data|)
    ensures var w := Whole(|data|);
      var r := body + Xor(Behind(data, w), key);
      Front(r, w) == body && Xor(Behind(r, w), key) == Behind(data, w) && (w == |data| ==> r == body)
  {
    var rest := Behind(data, Whole(|data|));
    XorTwice(rest, key);
    Joined(body, Xor(rest, key));
    assert body + [] == body;
  }

  // ---------- chunking ----------

  lemma Assoc(a: seq<bv8>, b: seq<bv8>, c: seq<bv8>)
    ensures a + b + c == a + (b + c)
  {
  }

  lemma {:induction false} CbcEncryptChunks(e: Block -> Block, iv: Block, a: seq<bv8>, b: seq<bv8>)
    requires |a| % 16 == 0 && |b| % 16 == 0
    ensures var (x, mid) := CbcEncrypt(e, iv, a);
      CbcEncrypt(e, iv, a + b) == (x + CbcEncrypt(e, mid, b).0, CbcEncrypt(e, mid, b).1)
    decreases |a|
  {
    if a == [] {
      assert a + b == b;
      assert [] + CbcEncrypt(e, iv, b).0 == CbcEncrypt(e, iv, b).0;
    } else {
      JoinedLong(a, b, 16);
      var c := e(Xor(Front(a, 16), iv));
      CbcEncryptChunks(e, c, Behind(a, 16), b);
      var (x, mid) := CbcEncrypt(e, c, Behind(a, 16));
      Assoc(c, x, CbcEncrypt(e, mid, b).0);
    }
  }

  lemma {:induction false} CbcDecryptChunks(d: Block -> Block, iv: Block, a: seq<bv8>, b: seq<bv8>)
    requires |a| % 16 == 0 && |b| % 16 == 0
    ensures var (x, mid) := CbcDecrypt(d, iv, a);
      CbcDecrypt(d, iv, a + b) == (x + CbcDecrypt(d, mid, b).0, CbcDecrypt(d, mid, b).1)
    decreases |a|
  {
    if a == [] {
      assert a + b == b;
      assert [] + CbcDecrypt(d, iv, b).0 == CbcDecrypt(d, iv, b).0;
    } else {
      JoinedLong(a, b, 16);
      CbcDecryptChunks(d, Front(a, 16), Behind(a, 16), b);
      var (x, mid) := CbcDecrypt(d, Front(a, 16), Behind(a, 16));
      Assoc(Xor(d(Front(a, 16)), iv), x, CbcDecrypt(d, mid, b).0);
    }
  }

  lemma SplitWhole(a: seq<bv8>, b: seq<bv8>)
    requires |a| % 16 == 0
    ensures var w := Whole(|b|);
      && Whole(|a + b|) == |a| + w && Whole(|a|) == |a| && Front(a, |a|) == a
      && Front(a + b, |a| + w) == a + Front(b, w) && Behind(a + b, |a| + w) == Behind(b, w)
  {
    Parted(a, |a|);
    FrontMore(a, b, Whole(|b|));
    BehindMore(a, b, Whole(|b|));
  }

  /** Cutting at a multiple of 16 and carrying the IV gives the same output and the same final IV. */
  lemma CtsEncryptChunks(e: Block -> Block, iv: Block, a: seq<bv8>, b: seq<bv8>)
    requires |a| % 16 == 0
    ensures var (x, mid) := CtsEncrypt(e, iv, a);
      CtsEncrypt(e, iv, a + b) == (x + CtsEncrypt(e, mid, b).0, CtsEncrypt(e, mid, b).1)
  {
    SplitWhole(a, b);
    var w := Whole(|b|);
    CbcEncryptChunks(e, iv, a, Front(b, w));
    var (x, mid) := CbcEncrypt(e, iv, a);
    var (y, out) := CbcEncrypt(e, mid, Front(b, w));
    Assoc(x, y, Xor(Behind(b, w), e(out)));
  }

  lemma CtsDecryptChunks(e: Block -> Block, d: Block -> Block, iv: Block, a: seq<bv8>, b: seq<bv8>)
    requires |a| % 16 == 0
    ensures var (x, mid) := CtsDecrypt(e, d, iv, a);
      CtsDecrypt(e, d, iv, a + b) == (x + CtsDecrypt(e, d, mid, b).0, CtsDecrypt(e, d, mid, b).1)
  {
    SplitWhole(a, b);
    var w := Whole(|b|);
    CbcDecryptChunks(d, iv, a, Front(b, w));
    var (x, mid) := CbcDecrypt(d, iv, a);
    var (y, out) := CbcDecrypt(d, mid, Front(b, w));
    Assoc(x, y, Xor(Behind(b, w), e(out)));
  }

  // ---------- the code ----------

  ghost function StartIv(iv: array?<bv8>): (b: Block)
    requires iv != null ==> iv.Length == 16
    reads iv
    ensures iv == null ==> forall i :: 0 <= i < 16 ==> b[i] == 0
  {
    if iv == null then ZERO_BLOCK else iv[..]
  }

  // The shared last step: the residual bytes are added to tmp, in place or not.
  method XorTail(input: array<bv8>, output: array<bv8>, at: nat, left: nat, tmp: Block)
    requires left <= 16 && at + left <= input.Length && at + left <= output.Length
    modifies output
    ensures forall k :: 0 <= k < output.Length ==>
      output[k] == if at <= k < at + left then old(input[k]) ^ tmp[k - at] else old(output[k])
    ensures forall k :: at + left <= k < input.Length ==> input[k] == old(input[k])
  {
    for i := 0 to left
      invariant forall k :: 0 <= k < output.Length ==>
        output[k] == if at <= k < at + i then old(input[k]) ^ tmp[k - at] else old(output[k])
      invariant forall k :: at + i <= k < input.Length ==> input[k] == old(input[k])
    {
      output[at + i] := input[at + i] ^ tmp[i];
    }
  }

  lemma JoinedTail(r: seq<bv8>, body: seq<bv8>, data: seq<bv8>, key: Block)
    requires |r| == |data| && |body| <= |data| <= |body| + 16
    requires forall k :: 0 <= k < |body| ==> r[k] == body[k]
    requires forall k :: |body| <= k < |r| ==> r[k] == data[k] ^ key[k - |body|]
    ensures r == body + Xor(Behind(data, |body|), key)
  {
    var rest := Behind(data, |body|);
    var sum := Xor(rest, key);
    XorEach(rest, key);
    BehindEach(data, |body|);
    forall k | 0 <= k < |r|
      ensures r[k] == (body + sum)[k]
    {
      assert k >= |body| ==> rest[k - |body|] == data[k];
    }
  }

  method StoreIv(iv: array?<bv8>, tmp: Block)
    requires iv != null ==> iv.Length == 16
    modifies iv
    ensures iv != null ==> iv[..] == tmp
  {
    if iv != null {
      forall k | 0 <= k < 16 {
        iv[k] := tmp[k];
      }
    }
  }

  // What the library call leaves in the output.
  method WriteFront(r: seq<bv8>, input: array<bv8>, output: array<bv8>)
    requires |r| <= output.Length && |r| <= input.Length
    modifies output
    ensures output[..|r|] == r
    ensures forall k :: |r| <= k < output.Length ==> output[k] == old(output[k])
    ensures forall k :: |r| <= k < input.Length ==> input[k] == old(input[k])
  {
    forall k | 0 <= k < |r| {
      output[k] := r[k];
    }
  }

  lemma FrontOf(part: seq<bv8>, data: seq<bv8>, n: nat)
    requires n <= |data| && part == data[..n]
    ensures part == Front(data, n)
  {
    FrontEach(data, n);
  }

  lemma CtsEncryptParts(e: Block -> Block, iv: Block, data: seq<bv8>, w: nat, body: seq<bv8>, chain: Block)
    requires w == |data| / 16 * 16
    requires if w == 0 then body == [] && chain == iv else CbcEncrypt(e, iv, Front(data, w)) == (body, chain)
    ensures CtsEncrypt(e, iv, data) ==
      if w == |data| then (body, chain) else (body + Xor(Behind(data, w), e(chain)), e(chain))
  {
    assert w == Whole(|data|);
  }

  lemma CtsDecryptParts(e: Block -> Block, d: Block -> Block, iv: Block, data: seq<bv8>, w: nat, body: seq<bv8>,
                        chain: Block)
    requires w == |data| / 16 * 16
    requires if w == 0 then body == [] && chain == iv else CbcDecrypt(d, iv, Front(data, w)) == (body, chain)
    ensures CtsDecrypt(e, d, iv, data) ==
      if w == |data| then (body, chain) else (body + Xor(Behind(data, w), e(chain)), e(chain))
  {
    assert w == Whole(|data|);
  }

  // The residual block, when there is one.
  method FinishTail(e: Block -> Block, input: array<bv8>, output: array<bv8>, trunc: nat, left: nat, chain: Block,
                    ghost data: seq<bv8>, ghost body: seq<bv8>)
    returns (tmp: Block)
    requires left < 16 && |body| == trunc && |data| == trunc + left <= input.Length && |data| <= output.Length
    requires output[..trunc] == body && forall k :: trunc <= k < |data| ==> input[k] == data[k]
    modifies output
    ensures tmp == if left == 0 then chain else e(chain)
    ensures output[..|data|] == if left == 0 then body else body + Xor(Behind(data, trunc), tmp)
    ensures forall k :: |data| <= k < output.Length ==> output[k] == old(output[k])
  {
    tmp := chain;
    if left != 0 {
      tmp := e(tmp);
      assert forall k :: 0 <= k < trunc ==> output[k] == body[k];
      XorTail(input, output, trunc, left, tmp);
      JoinedTail(output[..|data|], body, data, tmp);
    }
  }

  // Both directions end alike: the full blocks are written, then the residual block, then the IV.
  method Finish(e: Block -> Block, iv: array?<bv8>, input: array<bv8>, output: array<bv8>, dataSize: nat,
                body: seq<bv8>, chain: Block)
    requires iv != null ==> iv.Length == 16 && iv != output
    requires |body| <= dataSize < |body| + 16 && dataSize <= input.Length && dataSize <= output.Length
    modifies output, iv
    ensures var data, whole := old(input[..dataSize]), |body| == dataSize;
      && output[..dataSize] == (if whole then body else body + Xor(Behind(data, |body|), e(chain)))
      && (iv != null ==> iv[..] == if whole then chain else e(chain))
    ensures forall k :: dataSize <= k < output.Length ==> output[k] == old(output[k])
  {
    ghost var data := input[..dataSize];
    WriteFront(body, input, output);
    var tmp := FinishTail(e, input, output, |body|, dataSize - |body|, chain, data, body);
    StoreIv(iv, tmp);
  }

  /** Fails without touching anything on empty data or a bad key; in place operation is allowed. */
  method AesEncryptCbcCts(e: Block -> Block, keyOk: bool, iv: array?<bv8>, input: array<bv8>, output: array<bv8>,
                          dataSize: nat)
    returns (ok: bool)
    requires iv != null ==> iv.Length == 16 && iv != output
    requires dataSize <= input.Length && dataSize <= output.Length
    modifies output, iv
    ensures ok <==> dataSize != 0 && keyOk
    ensures var r := CtsEncrypt(e, old(StartIv(iv)), old(input[..dataSize]));
      ok ==> output[..dataSize] == r.0 && (iv != null ==> iv[..] == r.1)
    ensures forall k :: dataSize <= k < output.Length ==> output[k] == old(output[k])
    ensures !ok ==> output[..] == old(output[..]) && (iv != null ==> iv[..] == old(iv[..]))
  {
    if dataSize == 0 || !keyOk {
      return false;
    }
    var start: Block := if iv != null then iv[..] else ZERO_BLOCK;
    var body, tmp, trunc := [], start, 0;
    if dataSize >= 16 {
      trunc := (dataSize - 16) / 16 * 16 + 16;
      var r := CbcEncrypt(e, start, input[..trunc]);
      FrontOf(input[..trunc], input[..dataSize], trunc);
      body, tmp := r.0, r.1;
    }
    CtsEncryptParts(e, start, input[..dataSize], trunc, body, tmp);
    Finish(e, iv, input, output, dataSize, body, tmp);
    ok := true;
  }

  method AesDecryptCbcCts(e: Block -> Block, d: Block -> Block, keyOk: bool, iv: array?<bv8>, input: array<bv8>,
                          output: array<bv8>, dataSize: nat)
    returns (ok: bool)
    requires iv != null ==> iv.Length == 16 && iv != output
    requires dataSize <= input.Length && dataSize <= output.Length
    modifies output, iv
    ensures ok <==> dataSize != 0 && keyOk
    ensures var r := CtsDecrypt(e, d, old(StartIv(iv)), old(input[..dataSize]));
      ok ==> output[..dataSize] == r.0 && (iv != null ==> iv[..] == r.1)
    ensures forall k :: dataSize <= k < output.Length ==> output[k] == old(output[k])
    ensures !ok ==> output[..] == old(output[..]) && (iv != null ==> iv[..] == old(iv[..]))
  {
    if dataSize == 0 || !keyOk {
      return false;
    }
    var start: Block := if iv != null then iv[..] else ZERO_BLOCK;
    var body, tmp, trunc := [], start, 0;
    if dataSize >= 16 {
      trunc := (dataSize - 16) / 16 * 16 + 16;
      var r := CbcDecrypt(d, start, input[..trunc]);
      FrontOf(input[..trunc], input[..dataSize], trunc);
      body, tmp := r.0, r.1;
    }
    CtsDecryptParts(e, d, start, input[..dataSize], trunc, body, tmp);
    Finish(e, iv, input, output, dataSize, body, tmp);
    ok := true;
  }
}
