/** Fixed-point score of a candidate window. */
module Score {
  import opened Options
  import opened WindowEntropy

  const CONTRAST_WEIGHT := 300
  const POST_DROP_WEIGHT := 500

  /** How much the entropy of a neighbouring window looks like a kernel structure; 256 stands for 1.0. */
  function StructureFactor(q8: nat): nat {
    if q8 <= 128 then 0
    else if q8 <= 384 then q8 - 128
    else if q8 <= 1024 then 256
    else if q8 < ENTROPY_MAX then ENTROPY_MAX - q8
    else 0
  }

  function Product(x: nat, y: nat): nat {
    x * y
  }

  // The shape used for both bonuses: a drop from the candidate to the other window.
  function DropBonus(weight: nat, entropy: nat, other: nat): nat {
    if other < entropy
    then Product(Product(entropy - other, weight), StructureFactor(other)) / (ENTROPY_MAX * 256)
    else 0
  }

  function EntropyScore(entropy: nat): nat {
    (if entropy > ENTROPY_THRESHOLD then entropy - ENTROPY_THRESHOLD else 0) * 1000
    / (ENTROPY_MAX - ENTROPY_THRESHOLD)
  }

  function ComputeScore(entropy: nat, neighbor: nat, post: nat, cluster: nat, run: nat): int {
    EntropyScore(entropy)
    + DropBonus(CONTRAST_WEIGHT, entropy, neighbor)
    + DropBonus(POST_DROP_WEIGHT, entropy, post)
    + (if cluster == 1 then 200 else 0)
    - (if cluster > 1 then (cluster - 1) * 60 else 0)
    - (if run > 1 then (run - 1) * 80 else 0)
  }

  /** The factor is a trapezoid: zero outside (128, 1280), full on [384, 1024], and it never jumps. */
  lemma StructureFactorShape(a: nat, b: nat)
    ensures StructureFactor(a) > 0 <==> 128 < a < 1280
    ensures StructureFactor(a) == 256 <==> 384 <= a <= 1024
    ensures StructureFactor(a) <= 256
    ensures a <= b ==> -(b - a) <= StructureFactor(b) - StructureFactor(a) <= b - a
  {
  }

  lemma RisingEdge(x: nat)
    requires x <= 256
    ensures (1152 - x) * x <= 896 * 256
  {
    assert (1152 - x) * x == 1152 * x - x * x;
    assert (256 - x) * (896 - x) == 256 * 896 - 1152 * x + x * x;
    MulMono(0, 256 - x, 896 - x);
  }

  lemma DropArea(entropy: nat, other: nat)
    requires other < entropy <= ENTROPY_MAX
    ensures 0 <= (entropy - other) * StructureFactor(other) <= 896 * 256
  {
    var d, f := ENTROPY_MAX - other, StructureFactor(other);
    MulMono(entropy - other, d, f);
    MulMono(0, entropy - other, f);
    if 128 < other <= 384 {
      RisingEdge(f);
    } else if other > 384 {
      MulMono(f, 256, d);
    }
  }

  lemma Reorder(d: int, w: int, f: int)
    ensures d * w * f == d * f * w
  {
  }

  lemma DivMono(x: int, y: int, d: nat)
    requires x <= y && d > 0
    ensures x / d <= y / d
  {
    if x / d > y / d {
      MulMono(y / d + 1, x / d, d);
      assert false;
    }
  }

  /** Each bonus stays below its ceiling, which is reached at a full factor. */
  lemma DropBonusCeiling(weight: nat, entropy: nat, other: nat)
    requires weight == CONTRAST_WEIGHT || weight == POST_DROP_WEIGHT
    requires entropy <= ENTROPY_MAX
    ensures DropBonus(weight, entropy, other) <= if weight == CONTRAST_WEIGHT then 210 else 350
    ensures DropBonus(weight, ENTROPY_MAX, 384) == if weight == CONTRAST_WEIGHT then 210 else 350
  {
    if other < entropy {
      DropArea(entropy, other);
      Reorder(entropy - other, weight, StructureFactor(other));
    }
  }

  /** A higher candidate entropy never lowers a bonus. */
  lemma DropBonusMonotone(weight: nat, entropy: nat, other: nat, lower: nat)
    requires lower <= entropy
    ensures DropBonus(weight, lower, other) <= DropBonus(weight, entropy, other)
  {
    if other < lower {
      MulMono(lower - other, entropy - other, weight);
      MulMono((lower - other) * weight, (entropy - other) * weight, StructureFactor(other));
      DivMono((lower - other) * weight * StructureFactor(other), (entropy - other) * weight * StructureFactor(other),
        ENTROPY_MAX * 256);
    }
  }

  // ---------- the score in numbers ----------

  lemma EntropyScoreInNumbers(entropy: nat)
    ensures var s := EntropyScore(entropy);
      if entropy <= 1152 then s == 0 else 128 * s <= 1000 * (entropy - 1152) < 128 * s + 128
  {
  }

  lemma DropBonusInNumbers(weight: nat, entropy: nat, other: nat)
    ensures var b := DropBonus(weight, entropy, other);
      if other >= entropy then b == 0
      else 327680 * b <= (entropy - other) * weight * StructureFactor(other) < 327680 * b + 327680
  {
    if other < entropy {
      QuotientInNumbers((entropy - other) * weight * StructureFactor(other), 327680);
    }
  }

  lemma QuotientInNumbers(x: nat, d: nat)
    requires d > 0
    ensures d * (x / d) <= x < d * (x / d) + d
  {
  }

  /** The score is the sum of six parts, each fixed by numbers alone: the floored share of the entropy above the
      threshold, the two floored bonuses, 200 for an isolated candidate, 60 for each neighbour and 80 for each further
      slot of the run. */
  lemma ScoreInNumbers(entropy: nat, neighbor: nat, post: nat, cluster: nat, run: nat)
    returns (share: nat, contrast: nat, postDrop: nat)
    ensures ComputeScore(entropy, neighbor, post, cluster, run) == share + contrast + postDrop +
      (if cluster == 1 then 200 else if cluster > 1 then -60 * (cluster - 1) else 0) +
      (if run > 1 then -80 * (run - 1) else 0)
    ensures if entropy <= 1152 then share == 0 else 128 * share <= 1000 * (entropy - 1152) < 128 * share + 128
    ensures if neighbor >= entropy then contrast == 0
      else 327680 * contrast <= (entropy - neighbor) * 300 * StructureFactor(neighbor) < 327680 * contrast + 327680
    ensures if post >= entropy then postDrop == 0
      else 327680 * postDrop <= (entropy - post) * 500 * StructureFactor(post) < 327680 * postDrop + 327680
  {
    share := EntropyScore(entropy);
    contrast, postDrop := DropBonus(CONTRAST_WEIGHT, entropy, neighbor), DropBonus(POST_DROP_WEIGHT, entropy, post);
    EntropyScoreInNumbers(entropy);
    DropBonusInNumbers(CONTRAST_WEIGHT, entropy, neighbor);
    DropBonusInNumbers(POST_DROP_WEIGHT, entropy, post);
  }

  /** A neighbourhood that is not flatter than the candidate, as an unreadable one counts, earns no bonus. */
  lemma FlatEarnsNothing(entropy: nat, neighbor: nat, post: nat, cluster: nat, run: nat)
    ensures ComputeScore(entropy, entropy, post, cluster, run) <= ComputeScore(entropy, neighbor, post, cluster, run)
    ensures ComputeScore(entropy, neighbor, entropy, cluster, run) <=
      ComputeScore(entropy, neighbor, post, cluster, run)
  {
  }

  /** Scores run from -(960 + 80(N-1)) to 1760, and 1760 is attained. */
  lemma ScoreRange(entropy: nat, neighbor: nat, post: nat, cluster: nat, run: nat, slots: nat)
    requires entropy <= ENTROPY_MAX && cluster <= 17 && run <= slots && slots >= 1
    ensures -(960 + 80 * (slots - 1)) <= ComputeScore(entropy, neighbor, post, cluster, run) <= 1760
    ensures ComputeScore(ENTROPY_MAX, 384, 384, 1, 1) == 1760
    ensures ComputeScore(0, 0, 0, 17, slots) == -(960 + 80 * (slots - 1))
  {
    DropBonusCeiling(CONTRAST_WEIGHT, entropy, neighbor);
    DropBonusCeiling(POST_DROP_WEIGHT, entropy, post);
  }

  /** All else equal, more entropy never lowers the score. */
  lemma ScoreMonotone(lower: nat, entropy: nat, neighbor: nat, post: nat, cluster: nat, run: nat)
    requires lower <= entropy <= ENTROPY_MAX
    ensures ComputeScore(lower, neighbor, post, cluster, run) <= ComputeScore(entropy, neighbor, post, cluster, run)
  {
    DropBonusMonotone(CONTRAST_WEIGHT, entropy, neighbor, lower);
    DropBonusMonotone(POST_DROP_WEIGHT, entropy, post, lower);
  }

  /** Inside a run of 12 or more (hence at least 9 neighbours) the penalties eat every bonus; 200 separates such a
      candidate from an isolated one. */
  lemma DenseAndIsolatedScores(entropy: nat, neighbor: nat, post: nat, cluster: nat, run: nat)
    requires entropy <= ENTROPY_MAX
    ensures cluster >= 9 && run >= 12 ==> ComputeScore(entropy, neighbor, post, cluster, run) <= 200
    ensures cluster == 1 && run <= 1 ==> ComputeScore(entropy, neighbor, post, cluster, run) >= 200
  {
    DropBonusCeiling(CONTRAST_WEIGHT, entropy, neighbor);
    DropBonusCeiling(POST_DROP_WEIGHT, entropy, post);
  }

  // A bonus for another window of at least low and a factor of at most high.
  lemma DropBonusBound(weight: nat, entropy: nat, other: nat, low: nat, high: nat)
    requires low <= other && entropy <= ENTROPY_MAX && low <= ENTROPY_MAX && StructureFactor(other) <= high
    ensures DropBonus(weight, entropy, other) <= (ENTROPY_MAX - low) * weight * high / (ENTROPY_MAX * 256)
  {
    MulMono(0, ENTROPY_MAX - low, weight);
    MulMono(0, (ENTROPY_MAX - low) * weight, high);
    if other < entropy {
      var drop, factor := entropy - other, StructureFactor(other);
      MulMono(drop, ENTROPY_MAX - low, weight);
      MulMono(0, drop, weight);
      Reorder(drop, weight, factor);
      ProductMono(drop * weight, (ENTROPY_MAX - low) * weight, factor, high);
      DivMono(drop * weight * factor, (ENTROPY_MAX - low) * weight * high, ENTROPY_MAX * 256);
    }
  }

  lemma ProductMono(a: nat, b: nat, c: nat, d: nat)
    requires a <= b && c <= d
    ensures a * c <= b * d
  {
    MulMono(a, b, c);
    MulMono(c, d, b);
  }

  // On the lower part of the factor's rising edge.
  lemma RisingBonus(entropy: nat, post: nat)
    requires entropy <= ENTROPY_MAX && post <= 340
    ensures DropBonus(POST_DROP_WEIGHT, entropy, post) <= 304
  {
    if 128 < post < entropy {
      var x := post - 128;
      EdgeBelow(x);
      MulMono(entropy - post, 1152 - x, x);
      Reorder(entropy - post, POST_DROP_WEIGHT, x);
      MulMono((entropy - post) * x, 940 * 212, POST_DROP_WEIGHT);
      DivMono((entropy - post) * POST_DROP_WEIGHT * x, 940 * 212 * POST_DROP_WEIGHT, ENTROPY_MAX * 256);
    }
  }

  lemma EdgeBelow(x: nat)
    requires x <= 212
    ensures (1152 - x) * x <= 940 * 212
  {
    assert (1152 - x) * x == 1152 * x - x * x;
    assert (212 - x) * (940 - x) == 212 * 940 - 1152 * x + x * x;
    MulMono(0, 212 - x, 940 - x);
  }

  /** When the window before reaches the threshold, the mean with the window after keeps both bonuses at 480 in all. */
  lemma LinkedBonuses(entropy: nat, before: nat, after: nat)
    requires entropy <= ENTROPY_MAX && ENTROPY_THRESHOLD <= before
    ensures DropBonus(CONTRAST_WEIGHT, entropy, (before + after) / 2) +
      DropBonus(POST_DROP_WEIGHT, entropy, after) <= 480
  {
    var mean := (before + after) / 2;
    StructureFactorShape(mean, mean);
    if after <= 340 {
      RisingBonus(entropy, after);
      DropBonusBound(CONTRAST_WEIGHT, entropy, mean, 576, 256);
    } else if mean <= ENTROPY_MAX {
      DropBonusCeiling(POST_DROP_WEIGHT, entropy, after);
      DropBonusBound(CONTRAST_WEIGHT, entropy, mean, 746, 256);
    } else {
      DropBonusCeiling(POST_DROP_WEIGHT, entropy, after);
    }
  }

  /** A window after the key that reaches the threshold leaves almost no post-key bonus. */
  lemma HighPost(entropy: nat, post: nat)
    requires entropy <= ENTROPY_MAX && ENTROPY_THRESHOLD <= post
    ensures DropBonus(POST_DROP_WEIGHT, entropy, post) <= 25
  {
    DropBonusBound(POST_DROP_WEIGHT, entropy, post, ENTROPY_THRESHOLD, 128);
  }

  /** When one of the windows next to the key reaches the threshold itself, both bonuses are at most 480 together. An
      unreadable window counts as flat, and so does its mean with the other. */
  lemma BonusesBesideHigh(entropy: nat, before: Option<nat>, after: Option<nat>)
    requires entropy <= ENTROPY_MAX
    requires (before.Some? && before.value >= ENTROPY_THRESHOLD) || (after.Some? && after.value >= ENTROPY_THRESHOLD)
    ensures DropBonus(CONTRAST_WEIGHT, entropy, OrFlat(Mean(before, after), entropy)) +
      DropBonus(POST_DROP_WEIGHT, entropy, OrFlat(after, entropy)) <= 480
  {
    if after.Some? {
      if after.value >= ENTROPY_THRESHOLD {
        HighPost(entropy, after.value);
        DropBonusCeiling(CONTRAST_WEIGHT, entropy, OrFlat(Mean(before, after), entropy));
      } else {
        LinkedBonuses(entropy, before.value, after.value);
      }
    }
  }

  function Mean(before: Option<nat>, after: Option<nat>): Option<nat> {
    if before.None? || after.None? then None else Some((before.value + after.value) / 2)
  }

  function OrFlat(other: Option<nat>, entropy: nat): nat {
    if other.Some? then other.value else entropy
  }

  /** With both bonuses at 480 together, a run of 11 is enough for the penalties. */
  lemma LinkedDenseScore(entropy: nat, neighbor: nat, post: nat, cluster: nat, run: nat)
    requires entropy <= ENTROPY_MAX && cluster >= 9 && run >= 11
    requires DropBonus(CONTRAST_WEIGHT, entropy, neighbor) + DropBonus(POST_DROP_WEIGHT, entropy, post) <= 480
    ensures ComputeScore(entropy, neighbor, post, cluster, run) <= 200
  {
  }

  // ---------- 32-bit arithmetic ----------

  type u32 = x: int | 0 <= x < 0x1_0000_0000

  // Wrap-around; values in range are written first because they are the ones that occur.
  function U32(x: int): u32 {
    if 0 <= x < 0x1_0000_0000 then x else x % 0x1_0000_0000
  }

  // Conversion to int32_t, and wrapping signed arithmetic.
  function I32(x: int): int {
    if -0x8000_0000 <= x < 0x8000_0000 then x
    else if U32(x) < 0x8000_0000 then U32(x) else U32(x) - 0x1_0000_0000
  }

  function MachineBonus(weight: u32, entropy: u32, other: u32): int {
    if other < entropy then
      var drop := U32(entropy - other);
      I32(U32(U32(drop * weight) * StructureFactor(other)) / U32(ENTROPY_MAX * 256))
    else 0
  }

  function MachineEntropyScore(entropy: u32): int {
    var span := U32(ENTROPY_MAX - ENTROPY_THRESHOLD);
    var over := if entropy > ENTROPY_THRESHOLD then U32(entropy - ENTROPY_THRESHOLD) else 0;
    I32(U32(over * 1000) / span)
  }

  /** compute_score with every intermediate result cut to 32 bits, in the order of the code. */
  function MachineScore(entropy: u32, neighbor: u32, post: u32, cluster: u32, run: u32): int {
    MachineTotal(MachineEntropyScore(entropy), MachineBonus(CONTRAST_WEIGHT, entropy, neighbor),
      MachineBonus(POST_DROP_WEIGHT, entropy, post), if cluster == 1 then 200 else 0, MachinePenalty(cluster, 60),
      MachinePenalty(run, 80))
  }

  function MachinePenalty(n: u32, weight: u32): int {
    if n > 1 then I32(U32(U32(n - 1) * weight)) else 0
  }

  function MachineTotal(score: int, contrast: int, postDrop: int, isolated: int, cluster: int, run: int): int {
    I32(I32(I32(I32(I32(score + contrast) + postDrop) + isolated) - cluster) - run)
  }

  // Checked arithmetic: no value when a result leaves its type.
  function Unsigned(x: int): Option<u32> {
    if 0 <= x < 0x1_0000_0000 then Some(x) else None
  }

  function Signed(x: int): Option<int> {
    if -0x8000_0000 <= x < 0x8000_0000 then Some(x) else None
  }

  function CheckedBonus(weight: u32, entropy: u32, other: u32): Option<int> {
    if other < entropy then
      var drop :- Unsigned(entropy - other);
      var weighted :- Unsigned(drop * weight);
      var product :- Unsigned(weighted * StructureFactor(other));
      var unit :- Unsigned(ENTROPY_MAX * 256);
      Signed(product / unit)
    else Some(0)
  }

  function CheckedPenalty(n: u32, weight: u32): Option<int> {
    if n > 1 then
      var extra :- Unsigned(n - 1);
      var penalty :- Unsigned(extra * weight);
      Signed(penalty)
    else Some(0)
  }

  function CheckedEntropyScore(entropy: u32): Option<int> {
    var span :- Unsigned(ENTROPY_MAX - ENTROPY_THRESHOLD);
    var over :- Unsigned(if entropy > ENTROPY_THRESHOLD then entropy - ENTROPY_THRESHOLD else 0);
    var scaled :- Unsigned(over * 1000);
    Signed(scaled / span)
  }

  /** compute_score with every intermediate result checked, in the order of the code. */
  function CheckedScore(entropy: u32, neighbor: u32, post: u32, cluster: u32, run: u32): Option<int> {
    var entropyScore :- CheckedEntropyScore(entropy);
    var contrast :- CheckedBonus(CONTRAST_WEIGHT, entropy, neighbor);
    var postDrop :- CheckedBonus(POST_DROP_WEIGHT, entropy, post);
    var clusterPenalty :- CheckedPenalty(cluster, 60);
    var runPenalty :- CheckedPenalty(run, 80);
    CheckedTotal(entropyScore, contrast, postDrop, if cluster == 1 then 200 else 0, clusterPenalty, runPenalty)
  }

  // The return statement, from left to right.
  function CheckedTotal(score: int, contrast: int, postDrop: int, isolated: int, cluster: int, run: int): Option<int> {
    var withContrast :- Signed(score + contrast);
    var withDrop :- Signed(withContrast + postDrop);
    var withIsolated :- Signed(withDrop + isolated);
    var lessCluster :- Signed(withIsolated - cluster);
    Signed(lessCluster - run)
  }

  lemma CheckedBonusExact(weight: u32, entropy: u32, other: u32)
    requires weight == CONTRAST_WEIGHT || weight == POST_DROP_WEIGHT
    requires entropy <= ENTROPY_MAX
    ensures CheckedBonus(weight, entropy, other) == Some(DropBonus(weight, entropy, other))
  {
    if other < entropy {
      DropArea(entropy, other);
      Reorder(entropy - other, weight, StructureFactor(other));
      DropBonusCeiling(weight, entropy, other);
    }
  }

  lemma CheckedEntropyExact(entropy: u32)
    requires entropy <= ENTROPY_MAX
    ensures CheckedEntropyScore(entropy) == Some(EntropyScore(entropy)) && EntropyScore(entropy) <= 1000
  {
  }

  lemma CheckedPenaltyExact(n: u32, weight: u32)
    requires weight == 60 || weight == 80
    requires weight * n < 0x8000_0000
    ensures CheckedPenalty(n, weight) == Some(if n > 1 then (n - 1) * weight else 0)
  {
  }

  lemma CheckedTotalExact(score: int, contrast: int, postDrop: int, isolated: int, cluster: int, run: int)
    requires 0 <= score <= 1000 && 0 <= contrast <= 210 && 0 <= postDrop <= 350 && 0 <= isolated <= 200
    requires 0 <= cluster <= 960 && 0 <= run && cluster + run < 0x8000_0000
    ensures CheckedTotal(score, contrast, postDrop, isolated, cluster, run) ==
      Some(score + contrast + postDrop + isolated - cluster - run)
  {
  }

  /** No intermediate result of compute_score leaves its 32-bit type while a run of the whole scan fits the penalty, and
      the result is the score. */
  lemma NothingOverflows(entropy: u32, neighbor: u32, post: u32, cluster: u32, run: u32, slots: nat)
    requires entropy <= ENTROPY_MAX && cluster <= 17 && run <= slots && 960 + 80 * slots < 0x8000_0000
    ensures CheckedScore(entropy, neighbor, post, cluster, run) ==
      Some(ComputeScore(entropy, neighbor, post, cluster, run))
  {
    CheckedBonusExact(CONTRAST_WEIGHT, entropy, neighbor);
    CheckedBonusExact(POST_DROP_WEIGHT, entropy, post);
    DropBonusCeiling(CONTRAST_WEIGHT, entropy, neighbor);
    DropBonusCeiling(POST_DROP_WEIGHT, entropy, post);
    CheckedEntropyExact(entropy);
    CheckedPenaltyExact(cluster, 60);
    CheckedPenaltyExact(run, 80);
    CheckedTotalExact(EntropyScore(entropy), DropBonus(CONTRAST_WEIGHT, entropy, neighbor),
      DropBonus(POST_DROP_WEIGHT, entropy, post), if cluster == 1 then 200 else 0,
      if cluster > 1 then (cluster - 1) * 60 else 0, if run > 1 then (run - 1) * 80 else 0);
  }

  lemma CheckedBonusIsMachine(weight: u32, entropy: u32, other: u32)
    ensures CheckedBonus(weight, entropy, other).Some? ==>
      CheckedBonus(weight, entropy, other) == Some(MachineBonus(weight, entropy, other))
  {
  }

  lemma MachineBonusExact(weight: u32, entropy: u32, other: u32)
    requires weight == CONTRAST_WEIGHT || weight == POST_DROP_WEIGHT
    requires entropy <= ENTROPY_MAX
    ensures MachineBonus(weight, entropy, other) == DropBonus(weight, entropy, other)
  {
    CheckedBonusExact(weight, entropy, other);
    CheckedBonusIsMachine(weight, entropy, other);
  }

  lemma CheckedEntropyIsMachine(entropy: u32)
    ensures CheckedEntropyScore(entropy).Some? ==> CheckedEntropyScore(entropy) == Some(MachineEntropyScore(entropy))
  {
  }

  lemma CheckedPenaltyIsMachine(n: u32, weight: u32)
    ensures CheckedPenalty(n, weight).Some? ==> CheckedPenalty(n, weight) == Some(MachinePenalty(n, weight))
  {
  }

  lemma CheckedTotalIsMachine(score: int, contrast: int, postDrop: int, isolated: int, cluster: int, run: int)
    ensures var checked := CheckedTotal(score, contrast, postDrop, isolated, cluster, run);
      checked.Some? ==> checked == Some(MachineTotal(score, contrast, postDrop, isolated, cluster, run))
  {
  }

  /** Arithmetic that overflows nowhere is the machine's, on all inputs. */
  lemma CheckedIsMachine(entropy: u32, neighbor: u32, post: u32, cluster: u32, run: u32)
    ensures var checked := CheckedScore(entropy, neighbor, post, cluster, run);
      checked.Some? ==> checked == Some(MachineScore(entropy, neighbor, post, cluster, run))
  {
    CheckedBonusIsMachine(CONTRAST_WEIGHT, entropy, neighbor);
    CheckedBonusIsMachine(POST_DROP_WEIGHT, entropy, post);
    CheckedPenaltyIsMachine(cluster, 60);
    CheckedPenaltyIsMachine(run, 80);
    CheckedEntropyIsMachine(entropy);
    CheckedTotalIsMachine(MachineEntropyScore(entropy), MachineBonus(CONTRAST_WEIGHT, entropy, neighbor),
      MachineBonus(POST_DROP_WEIGHT, entropy, post), if cluster == 1 then 200 else 0, MachinePenalty(cluster, 60),
      MachinePenalty(run, 80));
  }

  /** Hence the 32-bit arithmetic of compute_score yields the score. */
  lemma MachineScoreExact(entropy: u32, neighbor: u32, post: u32, cluster: u32, run: u32, slots: nat)
    requires entropy <= ENTROPY_MAX && cluster <= 17 && run <= slots && 960 + 80 * slots < 0x8000_0000
    ensures MachineScore(entropy, neighbor, post, cluster, run) == ComputeScore(entropy, neighbor, post, cluster, run)
  {
    NothingOverflows(entropy, neighbor, post, cluster, run, slots);
    CheckedIsMachine(entropy, neighbor, post, cluster, run);
  }
}
