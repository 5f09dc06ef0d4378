/** Branch-free removal of PKCS #1 v1.5 padding from a block that the RSA operation has produced. */
module Pkcs1 {

  datatype BlockType = Crypt | Sign
  datatype Status = Ok | BadInputData | RsaFailed | InvalidPadding | OutputTooLarge

  function TypeByte(bt: BlockType): bv8 {
    if bt == Crypt then 2 else 1
  }

  predicate PadByte(bt: BlockType, x: bv8) {
    if bt == Crypt then x != 0 else x == 0xFF
  }

  // ---------- what a padded block is ----------

  ghost predicate IsPadded(bt: BlockType, block: seq<bv8>, ps: seq<bv8>, m: seq<bv8>) {
    && block == [0, TypeByte(bt)] + ps + [0] + m
    && |ps| >= 8
    && forall i :: 0 <= i < |ps| ==> PadByte(bt, ps[i])
  }

  /** A block determines its padding and its message. */
  lemma PaddingUnique(bt: BlockType, block: seq<bv8>, ps: seq<bv8>, m: seq<bv8>, ps': seq<bv8>, m': seq<bv8>)
    requires IsPadded(bt, block, ps, m) && IsPadded(bt, block, ps', m')
    ensures ps == ps' && m == m'
  {
    PadLengthOf(bt, block, ps, m);
    PadLengthOf(bt, block, ps', m');
    assert ps == block[2..2 + |ps|] && ps' == block[2..2 + |ps|];
    assert m == block[3 + |ps|..] && m' == block[3 + |ps|..];
  }

  // ---------- what the loop counts ----------

  /** Number of padding bytes before the first byte that is not one. */
  function PadLength(bt: BlockType, s: seq<bv8>): (n: nat)
    ensures n <= |s|
    ensures forall i :: 0 <= i < n ==> PadByte(bt, s[i])
    ensures n < |s| ==> !PadByte(bt, s[n])
  {
    if s == [] || !PadByte(bt, s[0]) then 0 else 1 + PadLength(bt, s[1..])
  }

  lemma {:induction false} PadLengthUnique(bt: BlockType, s: seq<bv8>, n: nat)
    requires n <= |s| && (forall i :: 0 <= i < n ==> PadByte(bt, s[i])) && (n < |s| ==> !PadByte(bt, s[n]))
    ensures PadLength(bt, s) == n
  {
    if n > 0 {
      PadLengthUnique(bt, s[1..], n - 1);
    }
  }

  // The padded part the loop looks at: all but the two leading bytes and the last byte.
  lemma PadLengthOf(bt: BlockType, block: seq<bv8>, ps: seq<bv8>, m: seq<bv8>)
    requires IsPadded(bt, block, ps, m)
    ensures |block| >= 11 && PadLength(bt, block[2..|block| - 1]) == |ps|
  {
    var s := block[2..|block| - 1];
    assert forall i :: 0 <= i < |ps| ==> s[i] == ps[i];
    assert m != [] ==> s[|ps|] == 0;
    PadLengthUnique(bt, s, |ps|);
  }

  /** The message of a padded block, if it is one. */
  function Unpad(bt: BlockType, block: seq<bv8>): (r: (bool, seq<bv8>))
    requires |block| >= 16
  {
    var n := PadLength(bt, block[2..|block| - 1]);
    if block[0] == 0 && block[1] == TypeByte(bt) && block[2 + n] == 0 && n >= 8
    then (true, block[3 + n..]) else (false, [])
  }

  /** A block is accepted exactly when it is 00, block type, at least 8 padding bytes, 00, message; then the message
      is that one. */
  lemma UnpadExact(bt: BlockType, block: seq<bv8>)
    requires |block| >= 16
    ensures Unpad(bt, block).0 <==> exists ps, m :: IsPadded(bt, block, ps, m)
    ensures forall ps, m :: IsPadded(bt, block, ps, m) ==> Unpad(bt, block) == (true, m)
  {
    var n := PadLength(bt, block[2..|block| - 1]);
    var ps0, m0 := block[2..2 + n], block[3 + n..];
    if Unpad(bt, block).0 {
      assert block == [0, TypeByte(bt)] + ps0 + [0] + m0;
      assert forall i :: 0 <= i < n ==> ps0[i] == block[2..|block| - 1][i];
      assert IsPadded(bt, block, ps0, m0);
    }
    forall ps, m | IsPadded(bt, block, ps, m)
      ensures Unpad(bt, block) == (true, m)
    {
      PadLengthOf(bt, block, ps, m);
      assert block[3 + |ps|..] == m;
    }
  }

  /** Unpadding any padded message, even an empty one, gives the message back. */
  lemma UnpadPadded(bt: BlockType, ps: seq<bv8>, m: seq<bv8>)
    requires |ps| >= 8 && |ps| + |m| >= 13 && forall i :: 0 <= i < |ps| ==> PadByte(bt, ps[i])
    ensures Unpad(bt, [0, TypeByte(bt)] + ps + [0] + m) == (true, m)
  {
    var block := [0, TypeByte(bt)] + ps + [0] + m;
    assert IsPadded(bt, block, ps, m);
    UnpadExact(bt, block);
  }

  /** Encryption padding, byte by byte: 00 02, at least eight bytes that are not zero, 00, the message. */
  lemma CryptBytes(ps: seq<bv8>, m: seq<bv8>)
    requires |ps| >= 8 && |ps| + |m| >= 13 && forall i :: 0 <= i < |ps| ==> ps[i] != 0
    ensures Unpad(Crypt, [0, 2] + ps + [0] + m) == (true, m)
  {
    UnpadPadded(Crypt, ps, m);
  }

  /** Signature padding, byte by byte: 00 01, at least eight bytes FF, 00, the message. */
  lemma SignBytes(ps: seq<bv8>, m: seq<bv8>)
    requires |ps| >= 8 && |ps| + |m| >= 13 && forall i :: 0 <= i < |ps| ==> ps[i] == 0xFF
    ensures Unpad(Sign, [0, 1] + ps + [0] + m) == (true, m)
  {
    UnpadPadded(Sign, ps, m);
  }

  /** Any other block is rejected: an accepted one has exactly these bytes. */
  lemma AcceptedBytes(bt: BlockType, block: seq<bv8>) returns (ps: seq<bv8>)
    requires |block| >= 16 && Unpad(bt, block).0
    ensures |ps| >= 8 && block == [0, if bt == Crypt then 2 else 1] + ps + [0] + Unpad(bt, block).1
    ensures forall i :: 0 <= i < |ps| ==> if bt == Crypt then ps[i] != 0 else ps[i] == 0xFF
  {
    UnpadExact(bt, block);
    var m;
    ps, m :| IsPadded(bt, block, ps, m);
  }

  /** The first two bytes decide against a block on their own. */
  lemma WrongTypeRejected(bt: BlockType, block: seq<bv8>)
    requires |block| >= 16
    requires block[0] != 0 || block[1] != if bt == Crypt then 2 else 1
    ensures Unpad(bt, block) == (false, [])
  {
  }

  // ---------- the code ----------

  // 1 for zero and 0 for everything else, without a branch.
  function IsZero(x: bv8): bv8 {
    ((x | (0 - x)) >> 7) ^ 1
  }

  lemma IsZeroMeaning(x: bv8)
    ensures IsZero(x) == if x == 0 then 1 else 0
  {
  }

  // The accumulator is zero exactly when every check passed.
  lemma AccumulatedBad(first: bv8, second: bv8, want: bv8, separator: bv8, short: bv8)
    ensures 0 | first | (second ^ want) | separator | short == 0 <==>
      first == 0 && second == want && separator == 0 && short == 0
  {
  }

  // The counting loop for a block of type Crypt.
  method CountCryptPadding(p: array<bv8>, from: nat, to: nat) returns (padCount: nat)
    requires from <= to <= p.Length
    ensures padCount == PadLength(Crypt, p[from..to])
  {
    var padDone: bv8 := 0;
    padCount := 0;
    for i := from to to
      invariant padDone == 0 || padDone == 1
      invariant padDone == 0 ==> padCount == i - from
      invariant padDone == 1 ==> padCount < i - from && p[from + padCount] == 0
      invariant forall k :: from <= k < from + padCount ==> p[k] != 0
    {
      IsZeroMeaning(p[i]);
      padDone := padDone | IsZero(p[i]);
      IsZeroMeaning(padDone);
      padCount := padCount + if IsZero(padDone) == 1 then 1 else 0;
    }
    PadLengthUnique(Crypt, p[from..to], padCount);
  }

  method CountSignPadding(p: array<bv8>, from: nat, to: nat) returns (padCount: nat)
    requires from <= to <= p.Length
    ensures padCount == PadLength(Sign, p[from..to])
  {
    var padDone: bv8 := 0;
    padCount := 0;
    for i := from to to
      invariant padDone == 0 || padDone == 1
      invariant padDone == 0 ==> padCount == i - from
      invariant padDone == 1 ==> padCount < i - from && p[from + padCount] != 0xFF
      invariant forall k :: from <= k < from + padCount ==> p[k] == 0xFF
    {
      padDone := padDone | if p[i] != 0xFF then 1 else 0;
      padCount := padCount + if padDone == 0 then 1 else 0;
    }
    PadLengthUnique(Sign, p[from..to], padCount);
  }

  // Everything up to the test of bad; p is where the message would start.
  method Examine(bt: BlockType, buf: array<bv8>) returns (bad: bv8, p: nat)
    requires buf.Length >= 16
    ensures bad == 0 <==> Unpad(bt, buf[..]).0
    ensures p <= buf.Length && (bad == 0 ==> buf[p..] == Unpad(bt, buf[..]).1)
  {
    ghost var block := buf[..];
    var ilen := buf.Length;
    bad := 0;
    bad := bad | buf[0];
    var padCount;
    if bt == Crypt {
      bad := bad | (buf[1] ^ 2);
      padCount := CountCryptPadding(buf, 2, ilen - 1);
    } else {
      bad := bad | (buf[1] ^ 1);
      padCount := CountSignPadding(buf, 2, ilen - 1);
    }
    assert buf[2..ilen - 1] == block[2..|block| - 1];
    p := 2 + padCount;
    bad := bad | buf[p];
    p := p + 1;
    bad := bad | if padCount < 8 then 1 else 0;
    AccumulatedBad(block[0], block[1], TypeByte(bt), block[2 + padCount], if padCount < 8 then 1 else 0);
  }

  /** The whole function around the RSA operation: rsaOk is its outcome, buf the block it leaves; capacity is the size
      of the code's own buffer. A private key must be set up for this padding. */
  method Decrypt(bt: BlockType, isPrivate: bool, isV15: bool, rsaOk: bool, buf: array<bv8>, capacity: nat,
                 output: array<bv8>, outputMaxLen: nat)
    returns (status: Status, olen: nat)
    requires outputMaxLen <= output.Length && buf != output
    modifies output
    ensures var badInput := (isPrivate && !isV15) || buf.Length < 16 || buf.Length > capacity;
      && (status == BadInputData <==> badInput)
      && (status == RsaFailed <==> !badInput && !rsaOk)
      && (status == InvalidPadding <==> !badInput && rsaOk && !Unpad(bt, old(buf[..])).0)
      && (status == OutputTooLarge <==>
            !badInput && rsaOk && Unpad(bt, old(buf[..])).0 && |Unpad(bt, old(buf[..])).1| > outputMaxLen)
    ensures status == Ok ==>
      && olen <= output.Length
      && output[..olen] == Unpad(bt, old(buf[..])).1
      && output[olen..] == old(output[olen..])
    ensures status != Ok ==> output[..] == old(output[..])
  {
    olen := 0;
    if isPrivate && !isV15 {
      return BadInputData, olen;
    }
    var ilen := buf.Length;
    if ilen < 16 || ilen > capacity {
      return BadInputData, olen;
    }
    if !rsaOk {
      return RsaFailed, olen;
    }
    var bad, p := Examine(bt, buf);
    if bad != 0 {
      return InvalidPadding, olen;
    }
    if ilen - p > outputMaxLen {
      return OutputTooLarge, olen;
    }
    olen := ilen - p;
    ghost var m := buf[p..];
    forall k | 0 <= k < olen {
      output[k] := buf[p + k];
    }
    assert output[..olen] == m;
    status := Ok;
  }
}
