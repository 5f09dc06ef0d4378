/** The order on scored candidates and the streaming list of the best ones. */
module Ranking {

  datatype Candidate = Candidate(
    offset: nat, entropy: nat, neighbor: nat, post: nat, cluster: nat, run: nat, score: int, valid: bool)

  // An entry that memset has zeroed.
  const CLEARED := Candidate(0, 0, 0, 0, 0, 0, 0, false)

  predicate Better(a: Candidate, b: Candidate) {
    if !a.valid then false
    else if !b.valid then true
    else if a.score != b.score then a.score > b.score
    else if a.cluster != b.cluster then a.cluster < b.cluster
    else if a.run != b.run then a.run < b.run
    else if a.entropy != b.entropy then a.entropy > b.entropy
    else if a.neighbor != b.neighbor then a.neighbor < b.neighbor
    else if a.post != b.post then a.post < b.post
    else a.offset < b.offset
  }

  /** A strict order on all candidates, total on valid ones at different offsets. */
  lemma BetterIsStrictOrder(a: Candidate, b: Candidate, c: Candidate)
    ensures !Better(a, a)
    ensures Better(a, b) ==> !Better(b, a)
    ensures Better(a, b) && Better(b, c) ==> Better(a, c)
    ensures a.valid && b.valid && a.offset != b.offset ==> Better(a, b) || Better(b, a)
  {
  }

  /** What counts first comes first, and smaller is better: a high score, few neighbours, a short run, a high entropy,
      flat surroundings, a low offset. */
  function Key(c: Candidate): (k: seq<int>)
    ensures |k| == 7
  {
    var entropy: int := c.entropy;
    [-c.score, c.cluster, c.run, -entropy, c.neighbor, c.post, c.offset]
  }

  /** The keys agree up to some position, and there a's is smaller. */
  ghost predicate Before(a: Candidate, b: Candidate) {
    exists i :: 0 <= i < 7 && Key(a)[i] < Key(b)[i] && forall j :: 0 <= j < i ==> Key(a)[j] == Key(b)[j]
  }

  ghost predicate DiffersFirst(a: Candidate, b: Candidate, i: nat)
    requires i < 7
  {
    Key(a)[i] != Key(b)[i] && forall j :: 0 <= j < i ==> Key(a)[j] == Key(b)[j]
  }

  // Where two keys differ first decides both ways.
  lemma BeforeAt(a: Candidate, b: Candidate, i: nat)
    requires i < 7 && DiffersFirst(a, b, i)
    ensures Before(a, b) <==> Key(a)[i] < Key(b)[i]
  {
    if Before(a, b) {
      var k :| 0 <= k < 7 && Key(a)[k] < Key(b)[k] && forall j :: 0 <= j < k ==> Key(a)[j] == Key(b)[j];
      assert k == i;
    }
  }

  lemma NeverBefore(a: Candidate, b: Candidate)
    requires forall j :: 0 <= j < 7 ==> Key(a)[j] == Key(b)[j]
    ensures !Before(a, b)
  {
  }

  /** On valid candidates the relation is the lexicographic order of the keys; an invalid one never is better, and
      always is worse than a valid one. */
  lemma BetterIsLexicographic(a: Candidate, b: Candidate)
    ensures a.valid && b.valid ==> (Better(a, b) <==> Before(a, b))
    ensures !a.valid ==> !Better(a, b)
    ensures a.valid && !b.valid ==> Better(a, b)
  {
    if a.valid && b.valid {
      var i := 0;
      while i < 7 && Key(a)[i] == Key(b)[i]
        invariant 0 <= i <= 7 && forall j :: 0 <= j < i ==> Key(a)[j] == Key(b)[j]
      {
        i := i + 1;
      }
      if i < 7 {
        BeforeAt(a, b, i);
        BetterAt(a, b, i);
      } else {
        NeverBefore(a, b);
        KeysEqual(a, b);
      }
    }
  }

  lemma KeysEqual(a: Candidate, b: Candidate)
    requires a.valid && b.valid && forall j :: 0 <= j < 7 ==> Key(a)[j] == Key(b)[j]
    ensures !Better(a, b)
  {
    assert Key(a)[0] == Key(b)[0] && Key(a)[1] == Key(b)[1] && Key(a)[2] == Key(b)[2] && Key(a)[3] == Key(b)[3];
    assert Key(a)[4] == Key(b)[4] && Key(a)[5] == Key(b)[5] && Key(a)[6] == Key(b)[6];
  }

  lemma BetterAt(a: Candidate, b: Candidate, i: nat)
    requires a.valid && b.valid && i < 7 && DiffersFirst(a, b, i)
    ensures Better(a, b) <==> Key(a)[i] < Key(b)[i]
  {
    assert i > 0 ==> Key(a)[0] == Key(b)[0];
    assert i > 1 ==> Key(a)[1] == Key(b)[1];
    assert i > 2 ==> Key(a)[2] == Key(b)[2];
    assert i > 3 ==> Key(a)[3] == Key(b)[3];
    assert i > 4 ==> Key(a)[4] == Key(b)[4];
    assert i > 5 ==> Key(a)[5] == Key(b)[5];
  }

  function Insert(r: seq<Candidate>, c: Candidate): (s: seq<Candidate>)
    ensures |s| == |r| + 1
  {
    if r == [] then [c]
    else if Better(c, r[0]) then [c] + r
    else [r[0]] + Insert(r[1..], c)
  }

  /** All candidates of a stream, best first. */
  function Rank(cs: seq<Candidate>): (r: seq<Candidate>)
    ensures |r| == |cs|
  {
    if cs == [] then [] else Insert(Rank(cs[..|cs| - 1]), cs[|cs| - 1])
  }

  /** The first k of r, filled up with invalid entries. */
  function Padded(r: seq<Candidate>, k: nat): (p: seq<Candidate>)
    ensures |p| == k
    ensures forall i :: 0 <= i < k ==> p[i] == if i < |r| then r[i] else Candidate(0, 0, 0, 0, 0, 0, 0, false)
  {
    seq(k, i requires 0 <= i < k => if i < |r| then r[i] else CLEARED)
  }

  ghost predicate AllValid(cs: seq<Candidate>) {
    forall c :: c in cs ==> c.valid
  }

  ghost predicate DistinctOffsets(cs: seq<Candidate>) {
    forall i, j :: 0 <= i < j < |cs| ==> cs[i].offset != cs[j].offset
  }

  ghost predicate SortedBest(cs: seq<Candidate>) {
    forall i, j :: 0 <= i < j < |cs| ==> Better(cs[i], cs[j])
  }

  // ---------- Rank sorts ----------

  lemma {:induction false} InsertMembers(r: seq<Candidate>, c: Candidate)
    ensures multiset(Insert(r, c)) == multiset(r) + multiset{c}
  {
    if r != [] {
      InsertMembers(r[1..], c);
      assert r == [r[0]] + r[1..];
    }
  }

  lemma {:induction false} InsertSorted(r: seq<Candidate>, c: Candidate)
    requires SortedBest(r) && AllValid(r) && c.valid
    requires forall x :: x in r ==> x.offset != c.offset
    ensures SortedBest(Insert(r, c))
  {
    if r != [] {
      if Better(c, r[0]) {
        forall x | x in r[1..]
          ensures Better(c, x)
        {
          BetterIsStrictOrder(c, r[0], x);
        }
      } else {
        InsertSorted(r[1..], c);
        InsertMembers(r[1..], c);
        BetterIsStrictOrder(c, r[0], c);
        forall x | x in Insert(r[1..], c)
          ensures Better(r[0], x)
        {
          assert x in multiset(Insert(r[1..], c));
          assert x in r[1..] || x == c;
        }
      }
    }
  }

  /** Rank is a permutation, strictly ordered by Better. */
  lemma {:induction false} RankSorts(cs: seq<Candidate>)
    requires AllValid(cs) && DistinctOffsets(cs)
    ensures multiset(Rank(cs)) == multiset(cs)
    ensures SortedBest(Rank(cs)) && AllValid(Rank(cs))
  {
    if cs != [] {
      var front, c := cs[..|cs| - 1], cs[|cs| - 1];
      assert cs == front + [c];
      RankSorts(front);
      forall x | x in front
        ensures x.offset != c.offset
      {
        assert exists i :: 0 <= i < |front| && front[i] == x == cs[i];
      }
      InsertedSorts(front, Rank(front), c);
    }
  }

  lemma InsertedSorts(front: seq<Candidate>, r: seq<Candidate>, c: Candidate)
    requires multiset(r) == multiset(front) && SortedBest(r) && AllValid(r) && c.valid
    requires forall x :: x in front ==> x.offset != c.offset
    ensures multiset(Insert(r, c)) == multiset(front + [c])
    ensures SortedBest(Insert(r, c)) && AllValid(Insert(r, c))
  {
    InsertMembers(r, c);
    forall x | x in r
      ensures x.offset != c.offset
    {
      assert x in multiset(front);
    }
    InsertSorted(r, c);
    forall x | x in Insert(r, c)
      ensures x.valid
    {
      assert x in multiset(r) + multiset{c};
    }
  }

  /** The head of the ranked stream is in the stream and beats everything else there. */
  lemma RankHead(cs: seq<Candidate>, r: seq<Candidate>)
    requires AllValid(cs) && DistinctOffsets(cs) && r == Rank(cs)
    ensures r == [] <==> cs == []
    ensures r != [] ==> r[0] in cs && forall c :: c in cs ==> c == r[0] || Better(r[0], c)
  {
    RankSorts(cs);
    assert |multiset(r)| == |r| && |multiset(cs)| == |cs|;
    if r != [] {
      assert r[0] in multiset(cs);
      forall c | c in cs
        ensures c == r[0] || Better(r[0], c)
      {
        assert c in multiset(r);
      }
    }
  }

  lemma SortedHead(r: seq<Candidate>, s: seq<Candidate>)
    requires SortedBest(r) && SortedBest(s) && multiset(r) == multiset(s) && r != [] && s != []
    ensures r[0] == s[0]
  {
    assert r[0] in multiset(s) && s[0] in multiset(r);
    var i :| 0 <= i < |s| && s[i] == r[0];
    var j :| 0 <= j < |r| && r[j] == s[0];
    BetterIsStrictOrder(r[0], s[0], r[0]);
  }

  lemma TailMultiset(r: seq<Candidate>)
    requires r != []
    ensures multiset(r[1..]) == multiset(r) - multiset{r[0]}
  {
    assert r == [r[0]] + r[1..];
  }

  /** Only one order of the candidates is sorted: the result does not depend on how it was found. */
  lemma {:induction false} SortedUnique(r: seq<Candidate>, s: seq<Candidate>)
    requires SortedBest(r) && SortedBest(s) && multiset(r) == multiset(s)
    ensures r == s
  {
    assert |r| == |multiset(r)| == |s|;
    if r != [] {
      SortedHead(r, s);
      TailMultiset(r);
      TailMultiset(s);
      SortedUnique(r[1..], s[1..]);
      assert r == [r[0]] + r[1..] && s == [s[0]] + s[1..];
    }
  }

  // ---------- the streaming list ----------

  /** Inserting into a padded list keeps exactly the best k seen so far. */
  lemma {:induction false} InsertPadded(r: seq<Candidate>, k: nat, c: Candidate)
    requires c.valid
    ensures Insert(Padded(r, k), c)[..k] == Padded(Insert(r, c), k)
  {
    if k > 0 {
      if r == [] {
        assert Padded(r, k)[0] == CLEARED;
      } else if !Better(c, r[0]) {
        assert Padded(r, k)[0] == r[0];
        assert Padded(r, k)[1..] == Padded(r[1..], k - 1);
        InsertPadded(r[1..], k - 1, c);
      }
    }
  }

  lemma {:induction false} InsertAt(r: seq<Candidate>, c: Candidate, i: nat)
    requires i <= |r| && (forall k :: 0 <= k < i ==> !Better(c, r[k])) && (i < |r| ==> Better(c, r[i]))
    ensures Insert(r, c) == r[..i] + [c] + r[i..]
  {
    if i > 0 {
      InsertAt(r[1..], c, i - 1);
    }
  }

  method TopInsert(top: array<Candidate>, candidate: Candidate)
    modifies top
    ensures top[..] ==
      if candidate.valid then Insert(old(top[..]), candidate)[..top.Length] else old(top[..])
  {
    if !candidate.valid {
      return;
    }
    ghost var was := top[..];
    for i := 0 to top.Length
      invariant top[..] == was
      invariant forall k :: 0 <= k < i ==> !Better(candidate, was[k])
    {
      if Better(candidate, top[i]) {
        InsertAt(was, candidate, i);
        var j := top.Length - 1;
        while j > i
          invariant i <= j < top.Length
          invariant top[..j + 1] == was[..j + 1]
          invariant forall k :: j < k < top.Length ==> top[k] == was[k - 1]
        {
          top[j] := top[j - 1];
          j := j - 1;
        }
        top[i] := candidate;
        return;
      }
    }
    InsertAt(was, candidate, top.Length);
  }

  // ---------- rank numbers ----------

  function BetterCount(cs: seq<Candidate>, c: Candidate): nat {
    if cs == [] then 0 else BetterCount(cs[..|cs| - 1], c) + if Better(cs[|cs| - 1], c) then 1 else 0
  }

  lemma {:induction false} BetterCountFront(cs: seq<Candidate>, c: Candidate)
    requires cs != []
    ensures BetterCount(cs, c) == (if Better(cs[0], c) then 1 else 0) + BetterCount(cs[1..], c)
  {
    if |cs| > 1 {
      BetterCountFront(cs[..|cs| - 1], c);
      assert cs[1..][..|cs| - 2] == cs[..|cs| - 1][1..];
    }
  }

  lemma {:induction false} BetterCountInsert(r: seq<Candidate>, x: Candidate, c: Candidate)
    ensures BetterCount(Insert(r, x), c) == BetterCount(r, c) + if Better(x, c) then 1 else 0
  {
    BetterCountFront(Insert(r, x), c);
    if r != [] {
      BetterCountFront(r, c);
      if Better(x, r[0]) {
        assert Insert(r, x)[1..] == r;
      } else {
        BetterCountInsert(r[1..], x, c);
        assert Insert(r, x)[1..] == Insert(r[1..], x);
      }
    }
  }

  lemma {:induction false} BetterCountRank(cs: seq<Candidate>, c: Candidate)
    ensures BetterCount(Rank(cs), c) == BetterCount(cs, c)
  {
    if cs != [] {
      BetterCountRank(cs[..|cs| - 1], c);
      BetterCountInsert(Rank(cs[..|cs| - 1]), cs[|cs| - 1], c);
    }
  }

  lemma {:induction false} SortedPosition(r: seq<Candidate>, p: nat)
    requires SortedBest(r) && p < |r|
    ensures BetterCount(r, r[p]) == p
  {
    var n := |r| - 1;
    if p < n {
      SortedPosition(r[..n], p);
      BetterIsStrictOrder(r[p], r[n], r[p]);
    } else {
      AllBetterCount(r[..n], r[p]);
      BetterIsStrictOrder(r[p], r[p], r[p]);
    }
  }

  lemma {:induction false} AllBetterCount(r: seq<Candidate>, c: Candidate)
    requires forall x :: x in r ==> Better(x, c)
    ensures BetterCount(r, c) == |r|
  {
    if r != [] {
      AllBetterCount(r[..|r| - 1], c);
    }
  }

  /** A candidate's number of betters is its position; beyond the list's length it is not listed at all. */
  lemma RankMatchesPosition(cs: seq<Candidate>, c: Candidate, k: nat)
    requires AllValid(cs) && DistinctOffsets(cs) && c in cs
    ensures BetterCount(cs, c) < |cs|
    ensures var top := Padded(Rank(cs), k);
      if BetterCount(cs, c) < k then top[BetterCount(cs, c)] == c else c !in top
  {
    RankSorts(cs);
    BetterCountRank(cs, c);
    assert c in multiset(Rank(cs));
    var p :| 0 <= p < |cs| && Rank(cs)[p] == c;
    SortedPosition(Rank(cs), p);
    if c in Padded(Rank(cs), k) {
      var i :| 0 <= i < k && Padded(Rank(cs), k)[i] == c;
      SortedPosition(Rank(cs), i);
    }
  }
}
