/** The candidate bitmap and what is measured in it: clusters and runs. */
module Bitmap {

  const CLUSTER_RADIUS := 8

  function Mask(k: nat): bv8
    requires k < 8
  {
    (1 as bv8) << k
  }

  /** Slot k of a byte is bit k, counted from the lowest. */
  lemma MaskValue(k: nat)
    requires k < 8
    ensures Mask(k) == [1, 2, 4, 8, 16, 32, 64, 128][k]
  {
  }

  predicate Bit(x: bv8, k: nat)
    requires k < 8
  {
    x & Mask(k) != 0
  }

  /** Setting one bit of a byte changes that bit only. */
  lemma SetBit(x: bv8, k: nat, j: nat)
    requires k < 8 && j < 8
    ensures Bit(x | Mask(k), j) <==> j == k || Bit(x, j)
  {
    assert Mask(k) == [1, 2, 4, 8, 16, 32, 64, 128][k];
    assert Mask(j) == [1, 2, 4, 8, 16, 32, 64, 128][j];
  }

  // ---------- clusters ----------

  ghost function MarkedWithin(marks: seq<bool>, first: int, last: int): set<int> {
    set i | 0 <= i < |marks| && first <= i <= last && marks[i]
  }

  /** Number of marked slots at distance at most 8. */
  ghost function ClusterCount(marks: seq<bool>, slot: nat): nat {
    |MarkedWithin(marks, slot - CLUSTER_RADIUS, slot + CLUSTER_RADIUS)|
  }

  ghost function Interval(first: int, last: int): (r: set<int>)
    requires first <= last + 1
    ensures forall i :: i in r <==> first <= i <= last
    ensures |r| == last + 1 - first
    decreases last + 1 - first
  {
    if first > last then {} else Interval(first, last - 1) + {last}
  }

  lemma MarkedStep(marks: seq<bool>, first: nat, i: nat)
    requires first <= i < |marks|
    ensures |MarkedWithin(marks, first, i)| == |MarkedWithin(marks, first, i - 1)| + if marks[i] then 1 else 0
  {
    if marks[i] {
      assert MarkedWithin(marks, first, i) == MarkedWithin(marks, first, i - 1) + {i};
    } else {
      assert MarkedWithin(marks, first, i) == MarkedWithin(marks, first, i - 1);
    }
  }

  lemma SubsetSize<T>(a: set<T>, b: set<T>)
    requires a <= b
    ensures |a| <= |b|
  {
    assert b == a + (b - a);
  }

  // ---------- runs ----------

  function RunStart(marks: seq<bool>, slot: nat): (r: nat)
    requires slot < |marks|
    ensures r <= slot
  {
    if slot > 0 && marks[slot - 1] then RunStart(marks, slot - 1) else slot
  }

  function RunEnd(marks: seq<bool>, slot: nat): (r: nat)
    requires slot < |marks|
    ensures slot <= r < |marks|
    decreases |marks| - slot
  {
    if slot + 1 < |marks| && marks[slot + 1] then RunEnd(marks, slot + 1) else slot
  }

  function RunLength(marks: seq<bool>, slot: nat): (r: nat)
    requires slot < |marks|
    ensures 1 <= r <= |marks|
  {
    RunEnd(marks, slot) - RunStart(marks, slot) + 1
  }

  lemma {:induction false} RunStartMaximal(marks: seq<bool>, slot: nat)
    requires slot < |marks|
    ensures forall i :: RunStart(marks, slot) <= i < slot ==> marks[i]
    ensures RunStart(marks, slot) > 0 ==> !marks[RunStart(marks, slot) - 1]
  {
    if slot > 0 && marks[slot - 1] {
      RunStartMaximal(marks, slot - 1);
    }
  }

  lemma {:induction false} RunEndMaximal(marks: seq<bool>, slot: nat)
    requires slot < |marks|
    ensures forall i :: slot < i <= RunEnd(marks, slot) ==> marks[i]
    ensures RunEnd(marks, slot) + 1 < |marks| ==> !marks[RunEnd(marks, slot) + 1]
    decreases |marks| - slot
  {
    if slot + 1 < |marks| && marks[slot + 1] {
      RunEndMaximal(marks, slot + 1);
    }
  }

  ghost predicate MaximalRun(marks: seq<bool>, lo: int, hi: int) {
    && 0 <= lo <= hi < |marks|
    && (forall i :: lo <= i <= hi ==> marks[i])
    && (lo > 0 ==> !marks[lo - 1])
    && (hi + 1 < |marks| ==> !marks[hi + 1])
  }

  /** Around a marked slot there is one maximal run, and RunLength is its length. */
  lemma RunLengthIsMaximalRun(marks: seq<bool>, slot: nat, lo: int, hi: int)
    requires slot < |marks| && marks[slot] && lo <= slot <= hi && MaximalRun(marks, lo, hi)
    ensures MaximalRun(marks, RunStart(marks, slot), RunEnd(marks, slot))
    ensures RunLength(marks, slot) == hi - lo + 1
  {
    RunStartMaximal(marks, slot);
    RunEndMaximal(marks, slot);
  }

  lemma ClusterAtMost(marks: seq<bool>, slot: nat)
    ensures ClusterCount(marks, slot) <= 2 * CLUSTER_RADIUS + 1
  {
    SubsetSize(MarkedWithin(marks, slot - CLUSTER_RADIUS, slot + CLUSTER_RADIUS),
      Interval(slot - CLUSTER_RADIUS, slot + CLUSTER_RADIUS));
  }

  /** A cluster has at most 17 slots and sees at least the run up to 9 of them. */
  lemma ClusterSeesRun(marks: seq<bool>, slot: nat)
    requires slot < |marks| && marks[slot]
    ensures 1 <= ClusterCount(marks, slot) <= 2 * CLUSTER_RADIUS + 1
    ensures ClusterCount(marks, slot) >= if RunLength(marks, slot) < 9 then RunLength(marks, slot) else 9
  {
    var lo, hi := RunStart(marks, slot), RunEnd(marks, slot);
    RunStartMaximal(marks, slot);
    RunEndMaximal(marks, slot);
    var a := if lo < slot - CLUSTER_RADIUS then slot - CLUSTER_RADIUS else lo;
    var b := if hi > slot + CLUSTER_RADIUS then slot + CLUSTER_RADIUS else hi;
    var seen := MarkedWithin(marks, slot - CLUSTER_RADIUS, slot + CLUSTER_RADIUS);
    forall i | i in Interval(a, b)
      ensures i in seen
    {
      assert i == slot || marks[i];
    }
    SubsetSize(Interval(a, b), seen);
    ClusterAtMost(marks, slot);
  }

  // ---------- the bitmap ----------

  /** Bit s of the bytes is the mark of slot s, for the first n slots. */
  ghost predicate Represents(bytes: seq<bv8>, marks: seq<bool>, n: nat)
    requires n <= |marks| && n <= 8 * |bytes|
  {
    n == 0 || (Represents(bytes, marks, n - 1) && marks[n - 1] == Bit(bytes[(n - 1) / 8], (n - 1) % 8))
  }

  lemma {:induction false} RepresentsEach(bytes: seq<bv8>, marks: seq<bool>, n: nat)
    requires n <= |marks| && n <= 8 * |bytes|
    ensures Represents(bytes, marks, n) <==> forall s :: 0 <= s < n ==> marks[s] == Bit(bytes[s / 8], s % 8)
  {
    if n > 0 {
      RepresentsEach(bytes, marks, n - 1);
    }
  }

  lemma {:induction false} RepresentsNone(bytes: seq<bv8>, marks: seq<bool>, n: nat)
    requires n <= |marks| && n <= 8 * |bytes|
    requires (forall i :: 0 <= i < |bytes| ==> bytes[i] == 0) && forall s :: 0 <= s < |marks| ==> !marks[s]
    ensures Represents(bytes, marks, n)
  {
    if n > 0 {
      RepresentsNone(bytes, marks, n - 1);
    }
  }

  lemma SetInBytes(bytes: seq<bv8>, more: seq<bv8>, slot: nat, s: nat)
    requires slot < 8 * |bytes| && s < 8 * |bytes|
    requires more == bytes[slot / 8 := bytes[slot / 8] | Mask(slot % 8)]
    ensures Bit(more[s / 8], s % 8) <==> s == slot || Bit(bytes[s / 8], s % 8)
  {
    if s / 8 == slot / 8 {
      SetBit(bytes[slot / 8], slot % 8, s % 8);
    }
  }

  lemma RepresentsSet(bytes: seq<bv8>, marks: seq<bool>, slot: nat)
    requires |marks| <= 8 * |bytes| && slot < |marks| && Represents(bytes, marks, |marks|)
    ensures Represents(bytes[slot / 8 := bytes[slot / 8] | Mask(slot % 8)], marks[slot := true], |marks|)
  {
    var more := bytes[slot / 8 := bytes[slot / 8] | Mask(slot % 8)];
    RepresentsEach(bytes, marks, |marks|);
    forall s | 0 <= s < |marks|
      ensures marks[slot := true][s] == Bit(more[s / 8], s % 8)
    {
      SetInBytes(bytes, more, slot, s);
    }
    RepresentsEach(more, marks[slot := true], |marks|);
  }

  class CandidateBitmap {
    const slots: nat
    const bits: array<bv8>
    ghost var marks: seq<bool>  // the set the bitmap stands for

    ghost predicate Valid()
      reads this, bits
    {
      && slots > 0 && bits.Length == (slots + 7) / 8 && |marks| == slots
      && Represents(bits[..], marks, slots)
    }

    constructor (slots: nat)
      requires slots > 0
      ensures Valid() && this.slots == slots && fresh(bits)
      ensures marks == seq(slots, _ => false)
    {
      this.slots := slots;
      bits := new bv8[(slots + 7) / 8](_ => 0);
      marks := seq(slots, _ => false);
      new;
      RepresentsNone(bits[..], marks, slots);
    }

    method ClearAll()
      requires Valid()
      modifies this, bits
      ensures Valid() && marks == seq(slots, _ => false)
    {
      forall i | 0 <= i < bits.Length {
        bits[i] := 0;
      }
      marks := seq(slots, _ => false);
      RepresentsNone(bits[..], marks, slots);
    }

    method SetSlot(slot: nat)
      requires Valid()
      modifies this, bits
      ensures Valid() && marks == if slot < slots then old(marks)[slot := true] else old(marks)
    {
      if slot < slots {
        RepresentsSet(bits[..], marks, slot);
        ghost var bytes := bits[..];
        bits[slot / 8] := bits[slot / 8] | Mask(slot % 8);
        marks := marks[slot := true];
        assert bits[..] == bytes[slot / 8 := bytes[slot / 8] | Mask(slot % 8)];
      }
    }

    method GetSlot(slot: nat) returns (marked: bool)
      requires Valid()
      ensures marked <==> slot < slots && marks[slot]
    {
      if slot >= slots {
        return false;
      }
      RepresentsEach(bits[..], marks, slots);
      return bits[slot / 8] & Mask(slot % 8) != 0;
    }

    method CountCluster(slot: nat) returns (count: nat)
      requires Valid() && slot < slots
      ensures count == ClusterCount(marks, slot)
    {
      var first := if slot > CLUSTER_RADIUS then slot - CLUSTER_RADIUS else 0;
      var last := if slot + CLUSTER_RADIUS < slots - 1 then slot + CLUSTER_RADIUS else slots - 1;
      count := 0;
      var i := first;
      while i <= last
        invariant first <= i <= last + 1
        invariant count == |MarkedWithin(marks, first, i - 1)|
      {
        var marked := GetSlot(i);
        MarkedStep(marks, first, i);
        if marked {
          count := count + 1;
        }
        i := i + 1;
      }
      assert MarkedWithin(marks, first, last) == MarkedWithin(marks, slot - CLUSTER_RADIUS, slot + CLUSTER_RADIUS);
    }

    method CountRunLength(slot: nat) returns (count: nat)
      requires Valid() && slot < slots
      ensures count == RunLength(marks, slot)
    {
      count := 1;
      var i := slot;
      while i > 0
        invariant 0 <= i <= slot && count == slot - i + 1
        invariant RunStart(marks, i) == RunStart(marks, slot)
      {
        var marked := GetSlot(i - 1);
        if !marked {
          break;
        }
        count := count + 1;
        i := i - 1;
      }
      ghost var start := i;
      i := slot;
      while i + 1 < slots
        invariant slot <= i < slots && count == i - start + 1
        invariant RunEnd(marks, i) == RunEnd(marks, slot)
        decreases slots - i
      {
        var marked := GetSlot(i + 1);
        if !marked {
          break;
        }
        count := count + 1;
        i := i + 1;
      }
    }
  }
}
