/** The blind scan: candidate bitmap, scores, ranking, discovered offset. */
module Scanner {
  import opened Options
  import opened WindowEntropy
  import opened Kernel
  import opened Score
  import opened Ranking
  import opened Bitmap

  const SCAN_START := 0x260_0000
  const SCAN_STEP := 16
  const WINDOW := 32

  function SlotToOffset(slot: nat): nat {
    SCAN_START + slot * SCAN_STEP
  }

  // ---------- what the scan is meant to compute ----------

  function Window(mem: Memory, base: nat, slot: nat): Option<seq<byte>> {
    CopyOut(mem, base + SlotToOffset(slot), KEY_SIZE)
  }

  /** A slot is a candidate when its window is readable and its entropy reaches the threshold. */
  predicate Gate(mem: Memory, base: nat, slot: nat) {
    Window(mem, base, slot).Some? && Entropy(Window(mem, base, slot).value) >= ENTROPY_THRESHOLD
  }

  ghost function GateMarks(mem: Memory, base: nat, slots: nat): (m: seq<bool>)
    ensures |m| == slots && forall s :: 0 <= s < slots ==> m[s] == Gate(mem, base, s)
  {
    seq(slots, s requires 0 <= s => Gate(mem, base, s))
  }

  function NeighborEntropy(mem: Memory, base: nat, offset: nat): Option<nat> {
    if base == 0 || offset < WINDOW then None
    else
      var before := CopyOut(mem, base + offset - WINDOW, WINDOW);
      var after := CopyOut(mem, base + offset + KEY_SIZE, WINDOW);
      if before.None? || after.None? then None
      else Some((Entropy(before.value) + Entropy(after.value)) / 2)
  }

  function PostEntropy(mem: Memory, base: nat, offset: nat): Option<nat> {
    var after := CopyOut(mem, base + offset + KEY_SIZE, WINDOW);
    if base == 0 || after.None? then None else Some(Entropy(after.value))
  }

  /** The scored candidate at a slot of a bitmap. An unreadable neighbourhood counts as flat entropy. */
  ghost function Scored(mem: Memory, base: nat, marks: seq<bool>, slot: nat): Option<Candidate> {
    if slot < |marks| && marks[slot] && Gate(mem, base, slot) then
      var offset := SlotToOffset(slot);
      var entropy := Entropy(Window(mem, base, slot).value);
      var around := NeighborEntropy(mem, base, offset);
      var neighbor := if around.Some? then around.value else entropy;
      var post := if PostEntropy(mem, base, offset).Some? then PostEntropy(mem, base, offset).value else entropy;
      var cluster, run := ClusterCount(marks, slot), RunLength(marks, slot);
      Some(Candidate(offset, entropy, neighbor, post, cluster, run,
        ComputeScore(entropy, neighbor, post, cluster, run), true))
    else None
  }

  ghost function ScoredSlots(mem: Memory, base: nat, marks: seq<bool>): (r: seq<Option<Candidate>>)
    ensures |r| == |marks| && forall s :: 0 <= s < |marks| ==> r[s] == Scored(mem, base, marks, s)
  {
    seq(|marks|, s requires 0 <= s => Scored(mem, base, marks, s))
  }

  /** The candidates among the first k slots, in scan order. */
  function Stream(scored: seq<Option<Candidate>>, k: nat): seq<Candidate>
    requires k <= |scored|
  {
    if k == 0 then [] else Stream(scored, k - 1) + if scored[k - 1].Some? then [scored[k - 1].value] else []
  }

  /** Every scored candidate of a bitmap, in scan order. */
  ghost function Candidates(mem: Memory, base: nat, marks: seq<bool>): seq<Candidate> {
    Stream(ScoredSlots(mem, base, marks), |marks|)
  }

  ghost predicate AtOwnSlot(scored: seq<Option<Candidate>>) {
    forall s :: 0 <= s < |scored| && scored[s].Some? ==>
      scored[s].value.valid && scored[s].value.offset == SlotToOffset(s)
  }

  /** The stream holds exactly the scored candidates, all valid and at increasing offsets. */
  lemma {:induction false} StreamMembers(scored: seq<Option<Candidate>>, k: nat)
    requires k <= |scored| && AtOwnSlot(scored)
    ensures var cs := Stream(scored, k);
      && AllValid(cs) && DistinctOffsets(cs)
      && (forall c :: c in cs ==> c.offset < SlotToOffset(k))
      && (forall c :: c in cs ==> exists s :: 0 <= s < k && scored[s] == Some(c))
      && (forall s :: 0 <= s < k && scored[s].Some? ==> scored[s].value in cs)
  {
    if k > 0 {
      StreamMembers(scored, k - 1);
    }
  }

  /** On the bitmap the scan builds, every set slot is scored again successfully, and no other. */
  lemma EverySetSlotScored(mem: Memory, base: nat, slots: nat, slot: nat)
    requires slot < slots
    ensures Scored(mem, base, GateMarks(mem, base, slots), slot).Some? <==> GateMarks(mem, base, slots)[slot]
    ensures GateMarks(mem, base, slots)[slot] <==> Gate(mem, base, slot)
  {
  }

  /** The slots are the 16-aligned offsets from 0x2600000 on, in order. */
  lemma SlotsTile(offset: nat, slot: nat, later: nat)
    ensures offset >= 0x260_0000 && offset % 16 == 0 <==> exists s: nat :: SlotToOffset(s) == offset
    ensures slot < later ==> SlotToOffset(slot) < SlotToOffset(later)
  {
    if offset >= 0x260_0000 && offset % 16 == 0 {
      assert SlotToOffset((offset - 0x260_0000) / 16) == offset;
    }
  }

  /** A record in numbers: the key's 32 bytes, the 32 bytes before and the 32 bytes after it. */
  lemma ScoredRecord(mem: Memory, base: nat, marks: seq<bool>, slot: nat)
    requires base != 0 && slot < |marks|
    ensures var at := base + 0x260_0000 + 16 * slot;
      var key, before, after := CopyOut(mem, at, 32), CopyOut(mem, at - 32, 32), CopyOut(mem, at + 32, 32);
      var r := Scored(mem, base, marks, slot);
      && (r.Some? <==> marks[slot] && key.Some? && Entropy(key.value) >= 1152)
      && (r.Some? ==>
            var c := r.value;
            && c.valid && c.offset == at - base && c.entropy == Entropy(key.value)
            && c.post == (if after.Some? then Entropy(after.value) else c.entropy)
            && c.neighbor == (if before.Some? && after.Some?
                              then (Entropy(before.value) + Entropy(after.value)) / 2 else c.entropy)
            && c.cluster == ClusterCount(marks, slot) && c.run == RunLength(marks, slot)
            && c.score == ComputeScore(c.entropy, c.neighbor, c.post, c.cluster, c.run))
  {
    var at := base + 0x260_0000 + 16 * slot;
    assert base + SlotToOffset(slot) == at;
  }

  // ---------- dense islands ----------

  ghost predicate Isolated(marks: seq<bool>, slot: nat) {
    slot < |marks| && marks[slot] && ClusterCount(marks, slot) == 1
  }

  /** A candidate inside a run of 12 or more set slots ranks below every isolated candidate. */
  lemma DenseNeverAboveIsolated(mem: Memory, base: nat, marks: seq<bool>, dense: nat, isolated: nat)
    requires dense < |marks| && marks[dense] && RunLength(marks, dense) >= 12
    requires Isolated(marks, isolated)
    requires Gate(mem, base, dense) && Gate(mem, base, isolated)
    ensures Better(Scored(mem, base, marks, isolated).value, Scored(mem, base, marks, dense).value)
  {
    var d := Scored(mem, base, marks, dense).value;
    var i := Scored(mem, base, marks, isolated).value;
    ClusterSeesRun(marks, dense);
    ClusterSeesRun(marks, isolated);
    EntropyExtremes(Window(mem, base, dense).value);
    EntropyExtremes(Window(mem, base, isolated).value);
    DenseAndIsolatedScores(d.entropy, d.neighbor, d.post, d.cluster, d.run);
    DenseAndIsolatedScores(i.entropy, i.neighbor, i.post, i.cluster, i.run);
  }

  lemma RunReachesTwo(marks: seq<bool>, slot: nat)
    requires slot < |marks| && marks[slot] && RunLength(marks, slot) >= 4
    ensures (slot + 2 < |marks| && marks[slot + 2]) || (slot >= 2 && marks[slot - 2])
  {
    RunStartMaximal(marks, slot);
    RunEndMaximal(marks, slot);
  }

  function WindowEntropyAt(mem: Memory, base: nat, slot: nat): Option<nat> {
    var w := Window(mem, base, slot);
    if w.None? then None else Some(Entropy(w.value))
  }

  // The window after a slot is that of the slot two places on, the one before that of two places back.
  lemma WindowsTwoAway(mem: Memory, base: nat, slot: nat) returns (before: Option<nat>, after: Option<nat>)
    requires base != 0
    ensures after == WindowEntropyAt(mem, base, slot + 2) == PostEntropy(mem, base, SlotToOffset(slot))
    ensures slot >= 2 ==> before == WindowEntropyAt(mem, base, slot - 2)
    ensures NeighborEntropy(mem, base, SlotToOffset(slot)) == Mean(before, after)
  {
    assert SlotToOffset(slot) + KEY_SIZE == SlotToOffset(slot + 2);
    assert slot >= 2 ==> SlotToOffset(slot) - WINDOW == SlotToOffset(slot - 2);
    var w := CopyOut(mem, base + SlotToOffset(slot) - WINDOW, WINDOW);
    before := if w.None? then None else Some(Entropy(w.value));
    after := WindowEntropyAt(mem, base, slot + 2);
  }

  // Inside a run of gated slots one of the windows next to the key reaches the threshold itself.
  lemma BonusesInRun(mem: Memory, base: nat, slots: nat, slot: nat, entropy: nat)
    requires slot < slots && Gate(mem, base, slot) && RunLength(GateMarks(mem, base, slots), slot) >= 4
    requires entropy <= ENTROPY_MAX
    ensures DropBonus(CONTRAST_WEIGHT, entropy, OrFlat(NeighborEntropy(mem, base, SlotToOffset(slot)), entropy)) +
      DropBonus(POST_DROP_WEIGHT, entropy, OrFlat(PostEntropy(mem, base, SlotToOffset(slot)), entropy)) <= 480
  {
    if base != 0 {
      RunReachesTwo(GateMarks(mem, base, slots), slot);
      var before, after := WindowsTwoAway(mem, base, slot);
      BonusesBesideHigh(entropy, before, after);
    }
  }

  /** On the bitmap the scan builds, a run of 11 is enough to rank below every isolated candidate. */
  lemma DenseInScanNeverAboveIsolated(mem: Memory, base: nat, slots: nat, dense: nat, isolated: nat)
    requires dense < slots && Gate(mem, base, dense) && RunLength(GateMarks(mem, base, slots), dense) >= 11
    requires Isolated(GateMarks(mem, base, slots), isolated)
    ensures var marks := GateMarks(mem, base, slots);
      Better(Scored(mem, base, marks, isolated).value, Scored(mem, base, marks, dense).value)
  {
    var marks := GateMarks(mem, base, slots);
    var d := Scored(mem, base, marks, dense).value;
    var i := Scored(mem, base, marks, isolated).value;
    ClusterSeesRun(marks, dense);
    ClusterSeesRun(marks, isolated);
    EntropyExtremes(Window(mem, base, dense).value);
    EntropyExtremes(Window(mem, base, isolated).value);
    BonusesInRun(mem, base, slots, dense, d.entropy);
    LinkedDenseScore(d.entropy, d.neighbor, d.post, d.cluster, d.run);
    DenseAndIsolatedScores(i.entropy, i.neighbor, i.post, i.cluster, i.run);
  }

  // ---------- bookkeeping of the bitmap pass ----------

  datatype SlotClass = Unreadable | Flat | Low | Raw

  ghost function Classify(mem: Memory, base: nat, slot: nat): SlotClass {
    var w := Window(mem, base, slot);
    if w.None? then Unreadable
    else if AllEqual(w.value) then Flat
    else if Entropy(w.value) < ENTROPY_THRESHOLD then Low
    else Raw
  }

  ghost function Classes(mem: Memory, base: nat, slots: nat): (cs: seq<SlotClass>)
    ensures |cs| == slots && forall s :: 0 <= s < slots ==> cs[s] == Classify(mem, base, s)
  {
    seq(slots, s requires 0 <= s => Classify(mem, base, s))
  }

  ghost function SlotsOf(classes: seq<SlotClass>, c: SlotClass, k: nat): set<nat>
    requires k <= |classes|
  {
    set s: nat | s < k && classes[s] == c
  }

  lemma SlotsOfStep(classes: seq<SlotClass>, k: nat, c: SlotClass)
    requires k < |classes|
    ensures |SlotsOf(classes, c, k + 1)| == |SlotsOf(classes, c, k)| + if classes[k] == c then 1 else 0
  {
    var more := if classes[k] == c then {k} else {};
    assert SlotsOf(classes, c, k + 1) == SlotsOf(classes, c, k) + more;
  }

  lemma RawIsGate(mem: Memory, base: nat, slot: nat)
    ensures Classify(mem, base, slot) == Raw <==> Gate(mem, base, slot)
  {
    if Window(mem, base, slot).Some? {
      EntropyExtremes(Window(mem, base, slot).value);
    }
  }

  datatype ScanStats = ScanStats(
    totalSlots: nat, readOk: nat, readFail: nat, rejectedAllEqual: nat, rejectedEntropy: nat, rawCandidates: nat,
    maxEntropy: nat)
  {
    /** The counters are the sizes of the four classes of the first k slots. */
    ghost predicate Counts(classes: seq<SlotClass>, k: nat)
      requires k <= |classes|
    {
      && readFail == |SlotsOf(classes, Unreadable, k)|
      && rejectedAllEqual == |SlotsOf(classes, Flat, k)|
      && rejectedEntropy == |SlotsOf(classes, Low, k)|
      && rawCandidates == |SlotsOf(classes, Raw, k)|
      && rejectedAllEqual + rejectedEntropy + rawCandidates == readOk
      && readOk + readFail == k
    }

    /** maxEntropy is the largest entropy of the first k windows, an unreadable or constant one counting 0. */
    ghost predicate IsMax(entropies: seq<nat>, k: nat)
      requires k <= |entropies|
    {
      && (forall s :: 0 <= s < k ==> entropies[s] <= maxEntropy)
      && (maxEntropy > 0 ==> exists s :: 0 <= s < k && entropies[s] == maxEntropy)
    }

    // One more slot.
    ghost function Tally(c: SlotClass, entropy: nat): ScanStats {
      var m := if entropy > maxEntropy then entropy else maxEntropy;
      match c
      case Unreadable => this.(readFail := readFail + 1)
      case Flat => this.(readOk := readOk + 1, rejectedAllEqual := rejectedAllEqual + 1)
      case Low => this.(readOk := readOk + 1, rejectedEntropy := rejectedEntropy + 1, maxEntropy := m)
      case Raw => this.(readOk := readOk + 1, rawCandidates := rawCandidates + 1, maxEntropy := m)
    }

    lemma TallyCounts(classes: seq<SlotClass>, entropies: seq<nat>, k: nat)
      requires k < |classes| == |entropies| && Counts(classes, k) && IsMax(entropies, k)
      requires classes[k] in {Unreadable, Flat} ==> entropies[k] == 0
      ensures Tally(classes[k], entropies[k]).Counts(classes, k + 1)
      ensures Tally(classes[k], entropies[k]).IsMax(entropies, k + 1)
    {
      forall c {
        SlotsOfStep(classes, k, c);
      }
      if entropies[k] <= maxEntropy && maxEntropy > 0 {
        var s :| 0 <= s < k && entropies[s] == maxEntropy;
      }
    }
  }

  ghost function EntropyAt(mem: Memory, base: nat, slot: nat): nat {
    if Window(mem, base, slot).Some? then Entropy(Window(mem, base, slot).value) else 0
  }

  ghost function Entropies(mem: Memory, base: nat, slots: nat): (es: seq<nat>)
    ensures |es| == slots && forall s :: 0 <= s < slots ==> es[s] == EntropyAt(mem, base, s)
  {
    seq(slots, s requires 0 <= s => EntropyAt(mem, base, s))
  }

  ghost function MarkedPrefix(gates: seq<bool>, k: nat): (m: seq<bool>)
    ensures |m| == |gates| && forall s :: 0 <= s < |m| ==> m[s] == (s < k && gates[s])
  {
    seq(|gates|, s requires 0 <= s < |gates| => s < k && gates[s])
  }

  lemma MarkedPrefixStep(gates: seq<bool>, k: nat)
    requires k < |gates|
    ensures MarkedPrefix(gates, k + 1) == if gates[k] then MarkedPrefix(gates, k)[k := true] else MarkedPrefix(gates, k)
  {
  }

  lemma FlatHasNoEntropy(mem: Memory, base: nat, slot: nat)
    ensures Classify(mem, base, slot) in {Unreadable, Flat} ==> EntropyAt(mem, base, slot) == 0
  {
    if Window(mem, base, slot).Some? {
      EntropyExtremes(Window(mem, base, slot).value);
    }
  }

  ghost function TallyAll(classes: seq<SlotClass>, entropies: seq<nat>, k: nat): ScanStats
    requires k <= |classes| == |entropies|
  {
    if k == 0 then ScanStats(|classes|, 0, 0, 0, 0, 0, 0)
    else TallyAll(classes, entropies, k - 1).Tally(classes[k - 1], entropies[k - 1])
  }

  lemma {:induction false} TallyAllCounts(classes: seq<SlotClass>, entropies: seq<nat>, k: nat)
    requires k <= |classes| == |entropies|
    requires forall s :: 0 <= s < |classes| && classes[s] in {Unreadable, Flat} ==> entropies[s] == 0
    ensures TallyAll(classes, entropies, k).totalSlots == |classes|
    ensures TallyAll(classes, entropies, k).Counts(classes, k)
    ensures TallyAll(classes, entropies, k).IsMax(entropies, k)
  {
    if k > 0 {
      TallyAllCounts(classes, entropies, k - 1);
      TallyAll(classes, entropies, k - 1).TallyCounts(classes, entropies, k - 1);
    }
  }

  /** The statistics of a whole pass. */
  ghost function Survey(mem: Memory, base: nat, slots: nat): (stats: ScanStats)
    ensures stats.totalSlots == slots
    ensures stats.Counts(Classes(mem, base, slots), slots)
    ensures stats.IsMax(Entropies(mem, base, slots), slots)
  {
    var classes, entropies := Classes(mem, base, slots), Entropies(mem, base, slots);
    assert forall s :: 0 <= s < slots && classes[s] in {Unreadable, Flat} ==> entropies[s] == 0 by {
      forall s | 0 <= s < slots
        ensures classes[s] in {Unreadable, Flat} ==> entropies[s] == 0
      {
        FlatHasNoEntropy(mem, base, s);
      }
    }
    TallyAllCounts(classes, entropies, slots);
    TallyAll(classes, entropies, slots)
  }

  predicate IsUnreadable(mem: Memory, base: nat, slot: nat) {
    !Readable(mem, base + SlotToOffset(slot), 32)
  }

  ghost predicate IsConstant(mem: Memory, base: nat, slot: nat) {
    !IsUnreadable(mem, base, slot) && AllEqual(Window(mem, base, slot).value)
  }

  predicate EntropyWithin(mem: Memory, base: nat, slot: nat, low: nat, high: nat) {
    !IsUnreadable(mem, base, slot) && low <= Entropy(Window(mem, base, slot).value) <= high
  }

  lemma ClassMeaning(mem: Memory, base: nat, slot: nat)
    ensures Classify(mem, base, slot) == Unreadable <==> IsUnreadable(mem, base, slot)
    ensures Classify(mem, base, slot) == Flat <==> IsConstant(mem, base, slot)
    ensures Classify(mem, base, slot) == Low <==> EntropyWithin(mem, base, slot, 1, 1151)
    ensures Classify(mem, base, slot) == Raw <==> EntropyWithin(mem, base, slot, 1152, 1280)
  {
    if !IsUnreadable(mem, base, slot) {
      EntropyExtremes(Window(mem, base, slot).value);
    }
  }

  lemma SameClass(mem: Memory, base: nat, slots: nat, c: SlotClass, named: set<nat>)
    requires forall s: nat :: s in named <==> s < slots && Classify(mem, base, s) == c
    ensures |SlotsOf(Classes(mem, base, slots), c, slots)| == |named|
  {
    assert SlotsOf(Classes(mem, base, slots), c, slots) == named;
  }

  /** The counters after a whole pass, by what stands in memory: unreadable windows, constant ones, those with an
      entropy below 1152, and the candidates. */
  lemma SurveyCounts(mem: Memory, base: nat, slots: nat)
    ensures var stats := Survey(mem, base, slots);
      && stats.totalSlots == slots && stats.readOk + stats.readFail == slots
      && stats.readFail == |set s: nat | s < slots && IsUnreadable(mem, base, s)|
      && stats.rejectedAllEqual == |set s: nat | s < slots && IsConstant(mem, base, s)|
      && stats.rejectedEntropy == |set s: nat | s < slots && EntropyWithin(mem, base, s, 1, 1151)|
      && stats.rawCandidates == |set s: nat | s < slots && EntropyWithin(mem, base, s, 1152, 1280)|
  {
    forall s: nat {
      ClassMeaning(mem, base, s);
    }
    SameClass(mem, base, slots, Unreadable, set s: nat | s < slots && IsUnreadable(mem, base, s));
    SameClass(mem, base, slots, Flat, set s: nat | s < slots && IsConstant(mem, base, s));
    SameClass(mem, base, slots, Low, set s: nat | s < slots && EntropyWithin(mem, base, s, 1, 1151));
    SameClass(mem, base, slots, Raw, set s: nat | s < slots && EntropyWithin(mem, base, s, 1152, 1280));
  }

  /** The largest entropy of a readable window, or 0. */
  lemma SurveyMaximum(mem: Memory, base: nat, slots: nat)
    ensures var most := Survey(mem, base, slots).maxEntropy;
      && (forall s: nat :: s < slots && !IsUnreadable(mem, base, s) ==> Entropy(Window(mem, base, s).value) <= most)
      && (most > 0 ==>
            exists s: nat :: s < slots && !IsUnreadable(mem, base, s) && Entropy(Window(mem, base, s).value) == most)
  {
    var most, es := Survey(mem, base, slots).maxEntropy, Entropies(mem, base, slots);
    forall s: nat | s < slots && !IsUnreadable(mem, base, s)
      ensures Entropy(Window(mem, base, s).value) <= most
    {
      assert es[s] <= most;
    }
    if most > 0 {
      var s :| 0 <= s < slots && es[s] == most;
      assert !IsUnreadable(mem, base, s);
    }
  }

  lemma EntropyBounds(mem: Memory, base: nat, offset: nat)
    ensures NeighborEntropy(mem, base, offset).Some? ==> NeighborEntropy(mem, base, offset).value <= ENTROPY_MAX
    ensures PostEntropy(mem, base, offset).Some? ==> PostEntropy(mem, base, offset).value <= ENTROPY_MAX
  {
    var before := CopyOut(mem, base + offset - WINDOW, WINDOW);
    var after := CopyOut(mem, base + offset + KEY_SIZE, WINDOW);
    if before.Some? {
      EntropyExtremes(before.value);
    }
    if after.Some? {
      EntropyExtremes(after.value);
    }
  }

  // The machine arithmetic yields the specified score.
  lemma ScoredByMachine(mem: Memory, base: nat, marks: seq<bool>, slot: nat, entropy: nat, neighbor: nat, post: nat)
    requires slot < |marks| && marks[slot] && Gate(mem, base, slot) && 960 + 80 * |marks| < 0x8000_0000
    requires entropy == Entropy(Window(mem, base, slot).value)
    requires var n := NeighborEntropy(mem, base, SlotToOffset(slot)); neighbor == if n.Some? then n.value else entropy
    requires var p := PostEntropy(mem, base, SlotToOffset(slot)); post == if p.Some? then p.value else entropy
    ensures entropy <= ENTROPY_MAX && neighbor <= ENTROPY_MAX && post <= ENTROPY_MAX
    ensures ClusterCount(marks, slot) <= 17
    ensures Scored(mem, base, marks, slot) == Some(Candidate(SlotToOffset(slot), entropy, neighbor, post,
      ClusterCount(marks, slot), RunLength(marks, slot),
      MachineScore(entropy, neighbor, post, ClusterCount(marks, slot), RunLength(marks, slot)), true))
  {
    EntropyBounds(mem, base, SlotToOffset(slot));
    EntropyExtremes(Window(mem, base, slot).value);
    ClusterSeesRun(marks, slot);
    MachineScoreExact(entropy, neighbor, post, ClusterCount(marks, slot), RunLength(marks, slot), |marks|);
  }

  // ---------- ranking ----------

  /** Candidates that beat c, not counting one at c's own offset. */
  function BetterElsewhere(cs: seq<Candidate>, c: Candidate): nat {
    if cs == [] then 0
    else
      var last := cs[|cs| - 1];
      BetterElsewhere(cs[..|cs| - 1], c) + if Better(last, c) && last.offset != c.offset then 1 else 0
  }

  /** It is the number of positions that hold such a candidate. */
  lemma {:induction false} BetterElsewhereMeaning(cs: seq<Candidate>, c: Candidate)
    ensures BetterElsewhere(cs, c) == |set i | 0 <= i < |cs| && Better(cs[i], c) && cs[i].offset != c.offset|
  {
    var all := set i | 0 <= i < |cs| && Better(cs[i], c) && cs[i].offset != c.offset;
    if cs != [] {
      var n := |cs| - 1;
      BetterElsewhereMeaning(cs[..n], c);
      var before := set i | 0 <= i < |cs[..n]| && Better(cs[..n][i], c) && cs[..n][i].offset != c.offset;
      assert forall i :: 0 <= i < n ==> cs[..n][i] == cs[i];
      if Better(cs[n], c) && cs[n].offset != c.offset {
        assert all == before + {n};
      } else {
        assert all == before;
      }
    } else {
      assert all == {};
    }
  }

  lemma StreamStep(scored: seq<Option<Candidate>>, slot: nat, seen: seq<Candidate>, k: nat, known: Candidate)
    returns (next: seq<Candidate>)
    requires slot < |scored| && seen == Stream(scored, slot)
    ensures next == Stream(scored, slot + 1)
    ensures scored[slot].None? ==> next == seen
    ensures scored[slot].Some? ==>
      var c := scored[slot].value;
      && (c.valid ==> Padded(Rank(next), k) == Insert(Padded(Rank(seen), k), c)[..k])
      && BetterElsewhere(next, known) == BetterElsewhere(seen, known) +
           if Better(c, known) && c.offset != known.offset then 1 else 0
  {
    if scored[slot].None? {
      next := seen;
      assert seen + [] == seen;
    } else {
      next := seen + [scored[slot].value];
      assert next[..|seen|] == seen;
      if scored[slot].value.valid {
        InsertPadded(Rank(seen), k, scored[slot].value);
      }
    }
  }

  ghost predicate Wins(mem: Memory, base: nat, slots: nat, s: nat) {
    var marks := GateMarks(mem, base, slots);
    && s < slots && Gate(mem, base, s)
    && forall t: nat :: t < slots && t != s && Gate(mem, base, t) ==>
         Before(Scored(mem, base, marks, s).value, Scored(mem, base, marks, t).value)
  }

  ghost predicate BeatsAll(scored: seq<Option<Candidate>>, s: nat) {
    && s < |scored| && scored[s].Some?
    && forall t :: 0 <= t < |scored| && t != s && scored[t].Some? ==> Better(scored[s].value, scored[t].value)
  }

  // The head of the ranked stream beats every other scored slot.
  lemma HeadBeats(scored: seq<Option<Candidate>>)
    requires AtOwnSlot(scored)
    ensures var r := Rank(Stream(scored, |scored|));
      if r == [] then forall s :: 0 <= s < |scored| ==> scored[s].None?
      else r[0].valid && exists s: nat :: BeatsAll(scored, s) && scored[s] == Some(r[0])
  {
    var cs := Stream(scored, |scored|);
    var r := Rank(cs);
    StreamMembers(scored, |scored|);
    RankHead(cs, r);
    if r != [] {
      var s: nat :| s < |scored| && scored[s] == Some(r[0]);
      HeadSlot(scored, cs, r[0], s);
    }
  }

  lemma HeadSlot(scored: seq<Option<Candidate>>, cs: seq<Candidate>, head: Candidate, s: nat)
    requires AtOwnSlot(scored) && s < |scored| && scored[s] == Some(head)
    requires forall t :: 0 <= t < |scored| && scored[t].Some? ==> scored[t].value in cs
    requires forall c :: c in cs ==> c == head || Better(head, c)
    ensures BeatsAll(scored, s)
  {
  }

  lemma FirstWins(mem: Memory, base: nat, slots: nat)
    ensures var r := Rank(Candidates(mem, base, GateMarks(mem, base, slots)));
      && (r == [] <==> forall s: nat :: s < slots ==> !Gate(mem, base, s))
      && (r != [] ==> r[0].valid && exists s: nat :: Wins(mem, base, slots, s) && r[0].offset == SlotToOffset(s))
  {
    var marks := GateMarks(mem, base, slots);
    var scored := ScoredSlots(mem, base, marks);
    var r := Rank(Stream(scored, slots));
    forall s: nat | s < slots
      ensures scored[s] == Scored(mem, base, marks, s) && (scored[s].Some? <==> Gate(mem, base, s))
    {
      EverySetSlotScored(mem, base, slots, s);
    }
    HeadBeats(scored);
    if r != [] {
      var s: nat :| BeatsAll(scored, s) && scored[s] == Some(r[0]);
      forall t: nat | t < slots && t != s && Gate(mem, base, t)
        ensures Before(scored[s].value, Scored(mem, base, marks, t).value)
      {
        assert scored[t].Some?;
        BetterIsLexicographic(scored[s].value, scored[t].value);
      }
      assert Wins(mem, base, slots, s);
    } else {
      assert forall s: nat :: s < slots ==> scored[s].None?;
    }
  }

  /** Among gated slots with otherwise equal records the lowest offset is discovered. */
  lemma LowestOffsetWins(mem: Memory, base: nat, slots: nat, s: nat, t: nat)
    requires Wins(mem, base, slots, s) && t < slots && Gate(mem, base, t)
    requires var marks := GateMarks(mem, base, slots);
      Scored(mem, base, marks, s).value.(offset := 0) == Scored(mem, base, marks, t).value.(offset := 0)
    ensures SlotToOffset(s) <= SlotToOffset(t)
  {
    var marks := GateMarks(mem, base, slots);
    var a, b := Scored(mem, base, marks, s).value, Scored(mem, base, marks, t).value;
    if t != s {
      var i :| 0 <= i < 7 && Key(a)[i] < Key(b)[i] && forall j :: 0 <= j < i ==> Key(a)[j] == Key(b)[j];
      SameButOffset(a, b, i);
    }
  }

  lemma SameButOffset(a: Candidate, b: Candidate, i: nat)
    requires a.(offset := 0) == b.(offset := 0) && i < 7 && Key(a)[i] < Key(b)[i]
    ensures a.offset < b.offset
  {
    assert a.score == b.score && a.cluster == b.cluster && a.run == b.run && a.entropy == b.entropy;
    assert a.neighbor == b.neighbor && a.post == b.post;
  }

  /** The known rank of a scored slot is its place in the list, and a rank beyond the list means it is absent. */
  lemma KnownRankIsPosition(mem: Memory, base: nat, marks: seq<bool>, slot: nat, k: nat)
    requires slot < |marks| && Scored(mem, base, marks, slot).Some?
    ensures var cs := Candidates(mem, base, marks);
      var known := Scored(mem, base, marks, slot).value;
      var rank := BetterElsewhere(cs, known) + 1;
      var top := Padded(Rank(cs), k);
      if rank <= k then top[rank - 1] == known else known !in top
  {
    var cs := Candidates(mem, base, marks);
    var known := Scored(mem, base, marks, slot).value;
    StreamMembers(ScoredSlots(mem, base, marks), |marks|);
    BetterElsewhereCounts(cs, known);
    RankMatchesPosition(cs, known, k);
  }

  lemma {:induction false} BetterElsewhereCounts(cs: seq<Candidate>, c: Candidate)
    requires forall x :: x in cs && x.offset == c.offset ==> x == c
    ensures BetterElsewhere(cs, c) == BetterCount(cs, c)
  {
    if cs != [] {
      BetterElsewhereCounts(cs[..|cs| - 1], c);
      BetterIsStrictOrder(c, c, c);
    }
  }

  /** As soon as one isolated candidate exists, discovery does not return a slot inside a run of 11 or more. */
  lemma WinnerIsNotDense(mem: Memory, base: nat, slots: nat, s: nat, isolated: nat)
    requires Wins(mem, base, slots, s) && Isolated(GateMarks(mem, base, slots), isolated)
    ensures RunLength(GateMarks(mem, base, slots), s) < 11
  {
    var marks := GateMarks(mem, base, slots);
    if RunLength(marks, s) >= 11 {
      var a, b := Scored(mem, base, marks, s).value, Scored(mem, base, marks, isolated).value;
      BetterIsStrictOrder(a, b, a);
      BetterIsLexicographic(a, b);
      ClusterSeesRun(marks, s);
      DenseInScanNeverAboveIsolated(mem, base, slots, s, isolated);
    }
  }

  // ---------- the code ----------

  class OffsetScanner {
    const mem: Memory
    const base: nat
    const bitmap: CandidateBitmap

    ghost predicate Valid()
      reads this, bitmap, bitmap.bits
    {
      bitmap.Valid() && 960 + 80 * bitmap.slots < 0x8000_0000
    }

    constructor (mem: Memory, base: nat, slots: nat)
      requires slots > 0 && 960 + 80 * slots < 0x8000_0000
      ensures Valid() && this.mem == mem && this.base == base && bitmap.slots == slots
      ensures fresh(bitmap) && fresh(bitmap.bits)
    {
      this.mem := mem;
      this.base := base;
      this.bitmap := new CandidateBitmap(slots);
    }

    // The body of the bitmap loop up to the decision: one slot is read and counted.
    method ExamineSlot(slot: nat, stats: ScanStats) returns (now: ScanStats, accepted: bool)
      ensures now == stats.Tally(Classify(mem, base, slot), EntropyAt(mem, base, slot))
      ensures accepted <==> Gate(mem, base, slot)
    {
      now := stats;
      var chunk := CopyOut(mem, base + SlotToOffset(slot), KEY_SIZE);
      if chunk.None? {
        now := now.(readFail := now.readFail + 1);
        return now, false;
      }
      now := now.(readOk := now.readOk + 1);
      EntropyExtremes(chunk.value);
      var equal := AllBytesEqual(chunk.value);
      if equal {
        now := now.(rejectedAllEqual := now.rejectedAllEqual + 1);
        return now, false;
      }
      var entropy := EntropyQ8(chunk.value);
      if entropy > now.maxEntropy {
        now := now.(maxEntropy := entropy);
      }
      if entropy < ENTROPY_THRESHOLD {
        now := now.(rejectedEntropy := now.rejectedEntropy + 1);
        return now, false;
      }
      now := now.(rawCandidates := now.rawCandidates + 1);
      return now, true;
    }

    method BuildCandidateBitmap() returns (code: int, stats: ScanStats)
      requires Valid()
      modifies bitmap, bitmap.bits
      ensures Valid()
      ensures code == 0 <==> base != 0
      ensures code == 0 ==> bitmap.marks == GateMarks(mem, base, bitmap.slots)
      ensures code == 0 ==> stats == Survey(mem, base, bitmap.slots)
    {
      stats := ScanStats(0, 0, 0, 0, 0, 0, 0);
      bitmap.ClearAll();
      if base == 0 {
        return -1, stats;
      }
      stats := stats.(totalSlots := bitmap.slots);
      ghost var gates := GateMarks(mem, base, bitmap.slots);
      ghost var classes, entropies := Classes(mem, base, bitmap.slots), Entropies(mem, base, bitmap.slots);
      for slot := 0 to bitmap.slots
        invariant Valid()
        invariant bitmap.marks == MarkedPrefix(gates, slot)
        invariant stats == TallyAll(classes, entropies, slot)
      {
        MarkedPrefixStep(gates, slot);
        var accepted;
        stats, accepted := ExamineSlot(slot, stats);
        if accepted {
          bitmap.SetSlot(slot);
        }
      }
      assert MarkedPrefix(gates, bitmap.slots) == gates;
      code := 0;
    }

    method ComputeNeighborEntropy(offset: nat) returns (neighbor: Option<nat>)
      ensures neighbor == NeighborEntropy(mem, base, offset)
    {
      if base == 0 || offset < WINDOW {
        return None;
      }
      var before := CopyOut(mem, base + offset - WINDOW, WINDOW);
      if before.None? {
        return None;
      }
      var beforeEntropy := EntropyQ8(before.value);
      var after := CopyOut(mem, base + offset + KEY_SIZE, WINDOW);
      if after.None? {
        return None;
      }
      var afterEntropy := EntropyQ8(after.value);
      return Some((beforeEntropy + afterEntropy) / 2);
    }

    method ComputePostEntropy(offset: nat) returns (post: Option<nat>)
      ensures post == PostEntropy(mem, base, offset)
    {
      if base == 0 {
        return None;
      }
      var after := CopyOut(mem, base + offset + KEY_SIZE, WINDOW);
      if after.None? {
        return None;
      }
      var entropy := EntropyQ8(after.value);
      return Some(entropy);
    }

    method ScoreSlot(slot: nat) returns (c: Option<Candidate>)
      requires Valid()
      ensures c == Scored(mem, base, bitmap.marks, slot)
    {
      var marked := bitmap.GetSlot(slot);
      if !marked {
        return None;
      }
      var passed, entropy := ReadAgain(slot);
      if !passed {
        return None;
      }
      c := ScoreReadable(slot, SlotToOffset(slot), entropy);
    }

    // The window of a set slot is read and tested again.
    method ReadAgain(slot: nat) returns (passed: bool, entropy: nat)
      ensures passed <==> Gate(mem, base, slot)
      ensures passed ==> entropy == Entropy(Window(mem, base, slot).value)
    {
      var chunk := CopyOut(mem, base + SlotToOffset(slot), KEY_SIZE);
      if chunk.None? {
        return false, 0;
      }
      passed, entropy := CandidateGate(chunk.value);
    }

    // The score of a slot whose window has passed the gate.
    method ScoreReadable(slot: nat, offset: nat, entropy: nat) returns (c: Option<Candidate>)
      requires Valid() && slot < bitmap.slots && bitmap.marks[slot] && Gate(mem, base, slot)
      requires offset == SlotToOffset(slot) && entropy == Entropy(Window(mem, base, slot).value)
      ensures c == Scored(mem, base, bitmap.marks, slot)
    {
      var neighbor := ComputeNeighborEntropy(offset);
      var neighborEntropy := if neighbor.Some? then neighbor.value else entropy;
      var post := ComputePostEntropy(offset);
      var postEntropy := if post.Some? then post.value else entropy;
      var cluster := bitmap.CountCluster(slot);
      var run := bitmap.CountRunLength(slot);
      ScoredByMachine(mem, base, bitmap.marks, slot, entropy, neighborEntropy, postEntropy);
      return Some(Candidate(offset, entropy, neighborEntropy, postEntropy, cluster, run,
        MachineScore(entropy, neighborEntropy, postEntropy, cluster, run), true));
    }

    /** For any bitmap and any memory, top ends up as the first K of all scored candidates, then invalid entries. */
    method RankCandidates(top: array<Candidate>, known: Option<Candidate>) returns (rank: nat, better: nat)
      requires Valid() && top as object != bitmap.bits
      modifies top
      ensures top[..] == Padded(Rank(Candidates(mem, base, bitmap.marks)), top.Length)
      ensures known.Some? && known.value.valid ==>
        && better == BetterElsewhere(Candidates(mem, base, bitmap.marks), known.value)
        && rank == better + 1
      ensures !(known.Some? && known.value.valid) ==> rank == 0 && better == 0
    {
      forall i | 0 <= i < top.Length {
        top[i] := CLEARED;
      }
      assert Valid();
      better := 0;
      ghost var scoredSlots := ScoredSlots(mem, base, bitmap.marks);
      ghost var target := if known.Some? then known.value else CLEARED;
      ghost var seen: seq<Candidate> := [];
      for slot := 0 to bitmap.slots
        invariant Valid() && |scoredSlots| == bitmap.slots && seen == Stream(scoredSlots, slot)
        invariant top[..] == Padded(Rank(seen), top.Length)
        invariant better == if known.Some? && known.value.valid then BetterElsewhere(seen, target) else 0
      {
        seen := StreamStep(scoredSlots, slot, seen, top.Length, target);
        var marked := bitmap.GetSlot(slot);
        if !marked {
          continue;
        }
        var scored := ScoreSlot(slot);
        if scored.None? {
          continue;
        }
        var cur := scored.value;
        TopInsert(top, cur);
        if known.Some? && known.value.valid {
          if Better(cur, known.value) && cur.offset != known.value.offset {
            better := better + 1;
          }
        }
      }
      rank := if known.Some? && known.value.valid then better + 1 else 0;
    }

    /** 0 when nothing passes the gate, otherwise the offset of the candidate that beats all others. */
    method DiscoverEapOffset(topCandidates: nat) returns (offset: nat)
      requires Valid() && topCandidates > 0
      modifies bitmap, bitmap.bits
      ensures Valid()
      ensures base == 0 ==> offset == 0
      ensures base != 0 ==> (offset == 0 <==> forall s: nat :: s < bitmap.slots ==> !Gate(mem, base, s))
      ensures base != 0 && offset != 0 ==>
        exists s: nat :: Wins(mem, base, bitmap.slots, s) && offset == SlotToOffset(s)
    {
      if base == 0 {
        return 0;
      }
      var code, stats := BuildCandidateBitmap();
      if code != 0 {
        assert false;
      }
      var top := new Candidate[topCandidates](_ => CLEARED);
      var rank, better := RankCandidates(top, None);
      FirstWins(mem, base, bitmap.slots);
      if top[0].valid {
        return top[0].offset;
      }
      return 0;
    }
  }
}
