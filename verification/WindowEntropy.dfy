/** Integer entropy of a 32-byte window, as EAPDumper uses it to find key-like data. */
module WindowEntropy {

  // Bytes index the histogram, so here they are integers.
  type byte = b: int | 0 <= b < 256

  const KEY_SIZE := 32
  const ENTROPY_MAX := 1280
  const ENTROPY_THRESHOLD := 1152

  // log2 in 8-bit fixed point; entry f is used for a byte value that occurs f times.
  const LOG2_TABLE: seq<nat> := [
    0,
    0, 256, 406, 512, 595, 662, 720, 768,
    811, 851, 887, 918, 947, 974, 999, 1024,
    1047, 1068, 1088, 1107, 1126, 1143, 1159, 1174,
    1189, 1203, 1216, 1229, 1241, 1253, 1264, 1280]

  /** Contribution of one histogram bin. */
  function Term(f: nat): nat {
    if 0 < f <= KEY_SIZE then f * (ENTROPY_MAX - LOG2_TABLE[f]) / KEY_SIZE else 0
  }

  function Sum(s: seq<nat>): nat {
    if s == [] then 0 else Sum(s[..|s| - 1]) + s[|s| - 1]
  }

  function Terms(h: seq<nat>): (t: seq<nat>)
    ensures |t| == |h| && forall i :: 0 <= i < |h| ==> t[i] == Term(h[i])
  {
    seq(|h|, i requires 0 <= i < |h| => Term(h[i]))
  }

  function Bump(h: seq<nat>, b: byte): seq<nat>
    requires |h| == 256
  {
    h[b := h[b] + 1]
  }

  function Histogram(s: seq<byte>): (h: seq<nat>)
    ensures |h| == 256
  {
    if s == [] then seq(256, _ => 0) else Bump(Histogram(s[..|s| - 1]), s[|s| - 1])
  }

  function Entropy(s: seq<byte>): nat {
    Sum(Terms(Histogram(s)))
  }

  ghost predicate AllEqual(s: seq<byte>) {
    forall i :: 0 <= i < |s| ==> s[i] == s[0]
  }

  ghost predicate AllDistinct(s: seq<byte>) {
    forall i, j :: 0 <= i < j < |s| ==> s[i] != s[j]
  }

  // ---------- the table ----------

  // The values of Term on its support; 33 constants that the solver checks once.
  const TERM_VALUES: seq<nat> := [
    0, 40, 64, 81, 96, 107, 115, 122, 128, 131, 134, 135, 135, 135, 133, 131, 128,
    123, 119, 114, 108, 101, 94, 86, 79, 71, 62, 54, 44, 35, 25, 15, 0]

  /** On powers of two the table is 256 times the logarithm. */
  lemma TableAnchors()
    ensures |LOG2_TABLE| == 33 && LOG2_TABLE[1] == 0 && LOG2_TABLE[2] == 256 && LOG2_TABLE[4] == 512
    ensures LOG2_TABLE[8] == 768 && LOG2_TABLE[16] == 1024 && LOG2_TABLE[32] == 1280
  {
  }

  /** What a byte contributes that occurs f times in a window, in numbers. */
  lemma TermValue(f: nat)
    requires f <= KEY_SIZE
    ensures Term(f) == TERM_VALUES[f]
  {
  }

  /** The contribution per occurrence never grows with the number of occurrences. */
  lemma TermRateStep(f: nat)
    requires 1 <= f < KEY_SIZE
    ensures Term(f + 1) * f <= Term(f) * (f + 1)
  {
    TermValue(f);
    TermValue(f + 1);
  }

  // Rates compose: from tb/(a+1) <= ta/a and tn/n <= tb/(a+1) conclude tn/n <= ta/a.
  lemma RateChain(ta: nat, tb: nat, tn: nat, a: nat, n: nat)
    requires tb * a <= ta * (a + 1) && tn * (a + 1) <= tb * n
    ensures tn * a <= ta * n
  {
    calc <= {
      (tn * a) * (a + 1);
      == (tn * (a + 1)) * a;
      { MulMono(tn * (a + 1), tb * n, a); }
      (tb * n) * a;
      == (tb * a) * n;
      { MulMono(tb * a, ta * (a + 1), n); }
      (ta * (a + 1)) * n;
      == (ta * n) * (a + 1);
    }
    MulCancel(tn * a, ta * n, a + 1);
  }

  lemma MulMono(x: int, y: int, k: nat)
    requires x <= y
    ensures x * k <= y * k
  {
  }

  lemma MulCancel(x: int, y: int, k: nat)
    requires k > 0 && x * k <= y * k
    ensures x <= y
  {
    if x > y {
      MulMono(1, x - y, k);
      assert false;
    }
  }

  lemma {:induction false} TermRate(a: nat, n: nat)
    requires 1 <= a <= n <= KEY_SIZE
    ensures Term(n) * a <= Term(a) * n
    decreases n - a
  {
    if a < n {
      TermRate(a + 1, n);
      TermRateStep(a);
      RateChain(Term(a), Term(a + 1), Term(n), a, n);
    }
  }

  lemma SplitRate(ta: nat, tb: nat, tn: nat, a: nat, b: nat)
    requires a + b > 0 && tn * a <= ta * (a + b) && tn * b <= tb * (a + b)
    ensures tn <= ta + tb
  {
    assert tn * (a + b) == tn * a + tn * b;
    assert (ta + tb) * (a + b) == ta * (a + b) + tb * (a + b);
    MulCancel(tn, ta + tb, a + b);
  }

  /** Merging two bins never increases their contribution, whatever the rounding does. */
  lemma TermSubadditive(a: nat, b: nat)
    ensures Term(a + b) <= Term(a) + Term(b)
  {
    if a != 0 && b != 0 && a + b <= KEY_SIZE {
      TermRate(a, a + b);
      TermRate(b, a + b);
      SplitRate(Term(a), Term(b), Term(a + b), a, b);
    }
  }

  // ---------- sums and histograms ----------

  lemma {:induction false} SumUpdate(s: seq<nat>, j: nat, v: nat)
    requires j < |s|
    ensures Sum(s[j := v]) == Sum(s) - s[j] + v
  {
    var n := |s| - 1;
    if j == n {
      assert s[j := v][..n] == s[..n];
    } else {
      assert s[j := v][..n] == s[..n][j := v];
      SumUpdate(s[..n], j, v);
    }
  }

  lemma {:induction false} SumAllZero(s: seq<nat>)
    requires forall i :: 0 <= i < |s| ==> s[i] == 0
    ensures Sum(s) == 0
  {
    if s != [] {
      SumAllZero(s[..|s| - 1]);
    }
  }

  lemma SumAtLeast(s: seq<nat>, j: nat)
    requires j < |s|
    ensures s[j] <= Sum(s)
  {
    SumUpdate(s, j, 0);
  }

  lemma SumAtLeastTwo(s: seq<nat>, i: nat, j: nat)
    requires i < |s| && j < |s| && i != j
    ensures s[i] + s[j] <= Sum(s)
  {
    SumUpdate(s, i, 0);
    SumUpdate(s[i := 0], j, 0);
  }

  /** The histogram counts occurrences and its bins add up to the window length. */
  lemma {:induction false} HistogramCounts(s: seq<byte>)
    ensures forall b: byte :: Histogram(s)[b] == multiset(s)[b]
    ensures Sum(Histogram(s)) == |s|
  {
    if s == [] {
      SumAllZero(Histogram(s));
    } else {
      var n := |s| - 1;
      HistogramCounts(s[..n]);
      assert s == s[..n] + [s[n]];
      SumUpdate(Histogram(s[..n]), s[n], Histogram(s[..n])[s[n]] + 1);
    }
  }

  lemma HistogramNext(s: seq<byte>, b: byte)
    ensures Histogram(s + [b]) == Histogram(s)[b := multiset(s)[b] + 1] && Histogram(s)[b] == multiset(s)[b]
  {
    HistogramCounts(s);
    assert (s + [b])[..|s|] == s;
  }

  lemma EntropyOfNothing()
    ensures Entropy([]) == 0
  {
    SumAllZero(Terms(Histogram([])));
  }

  /** The entropy, byte by byte from 0: one more b takes away the contribution of b's old multiplicity and adds the new
      one's. */
  lemma EntropyStep(s: seq<byte>, b: byte)
    ensures Entropy(s + [b]) == Entropy(s) - Term(multiset(s)[b]) + Term(multiset(s)[b] + 1)
  {
    var h, n := Histogram(s), multiset(s)[b];
    HistogramNext(s, b);
    TermsUpdate(h, b, n + 1);
    SumUpdate(Terms(h), b, Term(n + 1));
  }

  /** Entropy only depends on which bytes occur how often. */
  lemma EntropyPermutation(s: seq<byte>, t: seq<byte>)
    requires multiset(s) == multiset(t)
    ensures Entropy(s) == Entropy(t)
  {
    HistogramCounts(s);
    HistogramCounts(t);
    assert Histogram(s) == Histogram(t) by {
      forall b | 0 <= b < 256
        ensures Histogram(s)[b] == Histogram(t)[b]
      {
        var c: byte := b;
      }
    }
  }

  // ---------- data processing ----------

  function MapBytes(s: seq<byte>, f: byte -> byte): seq<byte> {
    seq(|s|, i requires 0 <= i < |s| => f(s[i]))
  }

  // The first k bins of h, each moved to the bin f sends it to.
  ghost function Merge(h: seq<nat>, f: byte -> byte, k: nat): (m: seq<nat>)
    requires |h| == 256 && k <= 256
    ensures |m| == 256
  {
    if k == 0 then seq(256, _ => 0)
    else
      var m := Merge(h, f, k - 1);
      m[f(k - 1) := m[f(k - 1)] + h[k - 1]]
  }

  lemma {:induction false} MergeBump(h: seq<nat>, f: byte -> byte, k: nat, x: byte)
    requires |h| == 256 && k <= 256
    ensures Merge(Bump(h, x), f, k) == if x < k then Bump(Merge(h, f, k), f(x)) else Merge(h, f, k)
  {
    if k != 0 {
      MergeBump(h, f, k - 1, x);
    }
  }

  lemma {:induction false} MergeEmpty(h: seq<nat>, f: byte -> byte, k: nat)
    requires |h| == 256 && k <= 256 && forall i :: 0 <= i < 256 ==> h[i] == 0
    ensures Merge(h, f, k) == h
  {
    if k != 0 {
      MergeEmpty(h, f, k - 1);
    }
  }

  lemma {:induction false} HistogramOfMap(s: seq<byte>, f: byte -> byte)
    ensures Histogram(MapBytes(s, f)) == Merge(Histogram(s), f, 256)
  {
    if s == [] {
      MergeEmpty(Histogram(s), f, 256);
    } else {
      var n := |s| - 1;
      HistogramOfMap(s[..n], f);
      MergeBump(Histogram(s[..n]), f, 256, s[n]);
      assert MapBytes(s, f)[..n] == MapBytes(s[..n], f);
    }
  }

  lemma TermsUpdate(h: seq<nat>, j: nat, v: nat)
    requires j < |h|
    ensures Terms(h[j := v]) == Terms(h)[j := Term(v)]
  {
  }

  lemma SumPrefix(s: seq<nat>, k: nat)
    requires 0 < k <= |s|
    ensures Sum(s[..k]) == Sum(s[..k - 1]) + s[k - 1]
  {
    assert s[..k][..k - 1] == s[..k - 1];
  }

  lemma MergeStep(h: seq<nat>, f: byte -> byte, k: nat)
    requires |h| == 256 && 0 < k <= 256
    ensures Sum(Terms(Merge(h, f, k))) <= Sum(Terms(Merge(h, f, k - 1))) + Term(h[k - 1])
  {
    var m, j, n := Merge(h, f, k - 1), f(k - 1), h[k - 1];
    assert Merge(h, f, k) == m[j := m[j] + n];
    MergeBins(m, j, n);
  }

  lemma MergeBins(m: seq<nat>, j: nat, n: nat)
    requires j < |m|
    ensures Sum(Terms(m[j := m[j] + n])) <= Sum(Terms(m)) + Term(n)
  {
    TermsUpdate(m, j, m[j] + n);
    SumUpdate(Terms(m), j, Term(m[j] + n));
    TermSubadditive(m[j], n);
  }

  lemma {:induction false} MergeSum(h: seq<nat>, f: byte -> byte, k: nat)
    requires |h| == 256 && k <= 256
    ensures Sum(Terms(Merge(h, f, k))) <= Sum(Terms(h)[..k])
  {
    if k == 0 {
      SumAllZero(Terms(Merge(h, f, 0)));
    } else {
      MergeSum(h, f, k - 1);
      MergeStep(h, f, k);
      SumPrefix(Terms(h), k);
    }
  }

  /** Integer data-processing inequality: recoding bytes never adds entropy. */
  lemma DataProcessing(s: seq<byte>, f: byte -> byte)
    ensures Entropy(MapBytes(s, f)) <= Entropy(s)
  {
    HistogramOfMap(s, f);
    MergeSum(Histogram(s), f, 256);
    assert Terms(Histogram(s))[..256] == Terms(Histogram(s));
  }

  // ---------- extremes ----------

  lemma TermRange(f: nat)
    ensures Term(f) <= 40 * f
    ensures f <= KEY_SIZE ==> (Term(f) == 40 * f <==> f <= 1)
    ensures 0 < f < KEY_SIZE ==> Term(f) > 0
  {
    if f <= KEY_SIZE {
      TermValue(f);
    }
  }

  lemma {:induction false} SumTermsBound(h: seq<nat>)
    requires forall i :: 0 <= i < |h| ==> h[i] <= KEY_SIZE
    ensures Sum(Terms(h)) <= 40 * Sum(h)
    ensures Sum(Terms(h)) == 40 * Sum(h) <==> AtMostOne(h)
  {
    if h != [] {
      var n := |h| - 1;
      SumTermsBound(h[..n]);
      TermRange(h[n]);
      assert Terms(h)[..n] == Terms(h[..n]);
      assert AtMostOne(h) <==> AtMostOne(h[..n]) && h[n] <= 1;
    }
  }

  ghost predicate AtMostOne(h: seq<nat>) {
    forall i :: 0 <= i < |h| ==> h[i] <= 1
  }

  lemma {:induction false} DistinctCounts(s: seq<byte>)
    ensures AllDistinct(s) <==> forall b: byte :: multiset(s)[b] <= 1
  {
    if s != [] {
      var n := |s| - 1;
      DistinctCounts(s[..n]);
      assert s == s[..n] + [s[n]];
      assert multiset(s)[s[n]] == multiset(s[..n])[s[n]] + 1;
      if s[n] in s[..n] {
        assert multiset(s[..n])[s[n]] >= 1;
        var i :| 0 <= i < n && s[..n][i] == s[n];
        assert s[i] == s[n];
      }
      if AllDistinct(s) {
        assert AllDistinct(s[..n]);
      } else if AllDistinct(s[..n]) {
        var i, j :| 0 <= i < j < |s| && s[i] == s[j];
        assert s[n] == s[i] == s[..n][i];
      } else {
        var b: byte :| multiset(s[..n])[b] > 1;
        assert multiset(s)[b] > 1;
      }
    }
  }

  /** Entropy is 0 exactly on constant windows, 1280 exactly on windows of 32 different bytes, and in between always. */
  lemma EntropyExtremes(s: seq<byte>)
    requires |s| == KEY_SIZE
    ensures Entropy(s) == 0 <==> AllEqual(s)
    ensures Entropy(s) == ENTROPY_MAX <==> AllDistinct(s)
    ensures Entropy(s) <= ENTROPY_MAX
  {
    var h := Histogram(s);
    HistogramCounts(s);
    forall b | 0 <= b < 256
      ensures h[b] <= KEY_SIZE
    {
      SumAtLeast(h, b);
    }
    SumTermsBound(h);
    DistinctCounts(s);
    assert (forall b: byte :: multiset(s)[b] <= 1) <==> (forall i :: 0 <= i < 256 ==> h[i] <= 1) by {
      assert forall b: byte :: h[b] == multiset(s)[b];
    }
    if AllEqual(s) {
      ConstantEntropy(s);
    } else {
      var i :| 0 <= i < |s| && s[i] != s[0];
      assert s[0] in multiset(s) && s[i] in multiset(s);
      SumAtLeastTwo(h, s[0], s[i]);
      TermRange(h[s[0]]);
      SumAtLeast(Terms(h), s[0]);
    }
  }

  lemma ConstantEntropy(s: seq<byte>)
    requires |s| == KEY_SIZE && AllEqual(s)
    ensures Entropy(s) == 0
  {
    var h := Histogram(s);
    HistogramCounts(s);
    forall b: byte
      ensures Term(h[b]) == 0
    {
      if b != s[0] {
        assert b !in multiset(s);
      } else {
        ConstantCount(s, b);
        TermValue(KEY_SIZE);
      }
    }
    forall i | 0 <= i < 256
      ensures Terms(h)[i] == 0
    {
      var b: byte := i;
    }
    SumAllZero(Terms(h));
  }

  lemma {:induction false} ConstantCount(s: seq<byte>, b: byte)
    requires forall i :: 0 <= i < |s| ==> s[i] == b
    ensures multiset(s)[b] == |s|
  {
    if s != [] {
      ConstantCount(s[..|s| - 1], b);
      assert s == s[..|s| - 1] + [s[|s| - 1]];
    }
  }

  // ---------- the code ----------

  method AllBytesEqual(data: seq<byte>) returns (equal: bool)
    ensures equal <==> AllEqual(data)
  {
    if |data| == 0 {
      return true;
    }
    for i := 1 to |data|
      invariant forall k :: 0 <= k < i ==> data[k] == data[0]
    {
      if data[i] != data[0] {
        return false;
      }
    }
    return true;
  }

  method EntropyQ8(data: seq<byte>) returns (result: nat)
    requires |data| == KEY_SIZE
    ensures result == Entropy(data) <= ENTROPY_MAX
  {
    var freq := new nat[256](_ => 0);
    for i := 0 to KEY_SIZE
      invariant freq[..] == Histogram(data[..i])
    {
      freq[data[i]] := freq[data[i]] + 1;
      assert data[..i + 1][..i] == data[..i];
    }
    assert data[..KEY_SIZE] == data;
    result := 0;
    for i := 0 to 256
      invariant freq[..] == Histogram(data)
      invariant result == Sum(Terms(freq[..])[..i])
    {
      assert Terms(freq[..])[..i + 1][..i] == Terms(freq[..])[..i];
      var f := freq[i];
      if f > 0 && f <= KEY_SIZE {
        result := result + f * (ENTROPY_MAX - LOG2_TABLE[f]) / KEY_SIZE;
      }
    }
    assert Terms(freq[..])[..256] == Terms(freq[..]);
    EntropyExtremes(data);
  }

  /** The gate of a window is the threshold test alone: a constant window has entropy 0. */
  method CandidateGate(candidate: seq<byte>) returns (accepted: bool, entropy: nat)
    requires |candidate| == KEY_SIZE
    ensures entropy == Entropy(candidate)
    ensures accepted <==> Entropy(candidate) >= ENTROPY_THRESHOLD
  {
    entropy := 0;
    EntropyExtremes(candidate);
    var equal := AllBytesEqual(candidate);
    if equal {
      return false, entropy;
    }
    entropy := EntropyQ8(candidate);
    return entropy >= ENTROPY_THRESHOLD, entropy;
  }
}
