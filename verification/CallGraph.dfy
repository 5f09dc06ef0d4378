/** Depth-bounded breadth-first walks over a call graph, and what they collect. */
module CallGraph {

  // Neighbours of a function in the order the tool lists them; a failing query lists nothing.
  type Graph = nat -> seq<nat>

  // ---------- distance ----------

  ghost predicate IsPath(g: Graph, p: seq<nat>) {
    p != [] && forall i :: 0 <= i < |p| - 1 ==> p[i + 1] in g(p[i])
  }

  /** A chain of calls with `depth` steps from a seed to v. */
  ghost predicate PathTo(g: Graph, seeds: set<nat>, v: nat, p: seq<nat>, depth: nat) {
    IsPath(g, p) && |p| == depth + 1 && p[0] in seeds && p[depth] == v
  }

  ghost predicate Reaches(g: Graph, seeds: set<nat>, v: nat, depth: nat) {
    exists p :: PathTo(g, seeds, v, p, depth)
  }

  /** v is at most depth steps away. */
  ghost predicate Within(g: Graph, seeds: set<nat>, v: nat, depth: nat) {
    exists d :: 0 <= d <= depth && Reaches(g, seeds, v, d)
  }

  /** The shortest distance of v is depth. */
  ghost predicate AtDistance(g: Graph, seeds: set<nat>, v: nat, depth: nat) {
    Reaches(g, seeds, v, depth) && forall d :: 0 <= d < depth ==> !Reaches(g, seeds, v, d)
  }

  lemma ReachesSeed(g: Graph, seeds: set<nat>, v: nat)
    ensures Reaches(g, seeds, v, 0) <==> v in seeds
  {
    if v in seeds {
      assert PathTo(g, seeds, v, [v], 0);
    }
  }

  lemma ReachesStep(g: Graph, seeds: set<nat>, v: nat, w: nat, depth: nat)
    requires Reaches(g, seeds, v, depth) && w in g(v)
    ensures Reaches(g, seeds, w, depth + 1)
  {
    var p :| PathTo(g, seeds, v, p, depth);
    assert PathTo(g, seeds, w, p + [w], depth + 1);
  }

  lemma ReachesBack(g: Graph, seeds: set<nat>, w: nat, depth: nat) returns (v: nat)
    requires Reaches(g, seeds, w, depth + 1)
    ensures Reaches(g, seeds, v, depth) && w in g(v)
  {
    var p :| PathTo(g, seeds, w, p, depth + 1);
    v := p[depth];
    assert PathTo(g, seeds, v, p[..depth + 1], depth);
  }

  // ---------- layers ----------

  // What the walk knows after `depth` rounds: the visited set is the ball, the frontier its rim.
  ghost predicate Ball(g: Graph, seeds: set<nat>, visited: set<nat>, rim: set<nat>, depth: nat) {
    && (forall v :: v in visited <==> Within(g, seeds, v, depth))
    && (forall v :: v in rim <==> AtDistance(g, seeds, v, depth))
  }

  lemma FirstBall(g: Graph, seeds: set<nat>)
    ensures Ball(g, seeds, seeds, seeds, 0)
  {
    forall v
      ensures v in seeds <==> Within(g, seeds, v, 0)
      ensures v in seeds <==> AtDistance(g, seeds, v, 0)
    {
      ReachesSeed(g, seeds, v);
    }
  }

  /** The next rim is what the rim's functions list and nobody has visited. */
  lemma NextBall(g: Graph, seeds: set<nat>, visited: set<nat>, rim: set<nat>, next: set<nat>, depth: nat)
    requires Ball(g, seeds, visited, rim, depth)
    requires forall w :: w in next <==> w !in visited && exists v :: v in rim && w in g(v)
    ensures Ball(g, seeds, visited + next, next, depth + 1)
  {
    forall w
      ensures w in next <==> AtDistance(g, seeds, w, depth + 1)
    {
      if w in next {
        var v :| v in rim && w in g(v);
        ReachesStep(g, seeds, v, w, depth);
      }
      if AtDistance(g, seeds, w, depth + 1) {
        var v := ReachesBack(g, seeds, w, depth);
        PredecessorOnRim(g, seeds, v, w, depth);
        assert v in rim;
      }
    }
    forall w
      ensures w in visited + next <==> Within(g, seeds, w, depth + 1)
    {
      if Within(g, seeds, w, depth + 1) && !Within(g, seeds, w, depth) {
        assert AtDistance(g, seeds, w, depth + 1);
      }
    }
  }

  lemma PredecessorOnRim(g: Graph, seeds: set<nat>, v: nat, w: nat, depth: nat)
    requires Reaches(g, seeds, v, depth) && w in g(v) && AtDistance(g, seeds, w, depth + 1)
    ensures AtDistance(g, seeds, v, depth)
  {
    forall d | 0 <= d < depth
      ensures !Reaches(g, seeds, v, d)
    {
      if Reaches(g, seeds, v, d) {
        ReachesStep(g, seeds, v, w, d);
      }
    }
  }

  /** An empty rim means that going deeper finds nothing more. */
  lemma {:induction false} EmptyRimIsFinal(g: Graph, seeds: set<nat>, visited: set<nat>, depth: nat, deeper: nat)
    requires Ball(g, seeds, visited, {}, depth) && depth <= deeper
    ensures Ball(g, seeds, visited, {}, deeper)
    decreases deeper - depth
  {
    if depth < deeper {
      NextBall(g, seeds, visited, {}, {}, depth);
      assert visited + {} == visited;
      EmptyRimIsFinal(g, seeds, visited, depth + 1, deeper);
    }
  }

  // ---------- the caller walk ----------

  datatype Report = Report(depth: nat, node: nat)

  function Elements(s: seq<nat>): set<nat> {
    set x | x in s
  }

  ghost predicate NoDuplicates(s: seq<nat>) {
    forall i, j :: 0 <= i < j < |s| ==> s[i] != s[j]
  }

  // Every reported node is new and reported at its distance.
  ghost predicate ReportsExact(g: Graph, seeds: set<nat>, reports: seq<Report>, visited: set<nat>) {
    && (forall r :: r in reports ==> r.depth > 0 && AtDistance(g, seeds, r.node, r.depth))
    && (forall i, j :: 0 <= i < j < |reports| ==> reports[i].node != reports[j].node)
    && (forall v :: v in visited && v !in seeds <==> exists r :: r in reports && r.node == v)
  }

  function ReportsOf(depth: nat, next: seq<nat>): (rs: seq<Report>)
    ensures |rs| == |next| && forall i :: 0 <= i < |next| ==> rs[i] == Report(depth, next[i])
  {
    seq(|next|, i requires 0 <= i < |next| => Report(depth, next[i]))
  }

  // w is listed by one of the first n functions of the frontier.
  ghost predicate ListedBefore(g: Graph, frontier: seq<nat>, n: nat, w: nat)
    requires n <= |frontier|
  {
    exists k :: 0 <= k < n && w in g(frontier[k])
  }

  lemma ReportsGrow(g: Graph, seeds: set<nat>, reports: seq<Report>, visited: set<nat>, next: seq<nat>, depth: nat)
    requires ReportsExact(g, seeds, reports, visited) && depth > 0 && seeds <= visited
    requires NoDuplicates(next) && forall w :: w in next ==> w !in visited && AtDistance(g, seeds, w, depth)
    ensures ReportsExact(g, seeds, reports + ReportsOf(depth, next), visited + Elements(next))
  {
    var more := ReportsOf(depth, next);
    var all := reports + more;
    forall i, j | 0 <= i < j < |all|
      ensures all[i].node != all[j].node
    {
      if i < |reports| <= j {
        assert all[i] in reports;
        assert all[i].node in visited && all[j].node == next[j - |reports|];
      }
    }
    forall v
      ensures v in visited + Elements(next) && v !in seeds <==> exists r :: r in all && r.node == v
    {
      if v in next {
        var i :| 0 <= i < |next| && next[i] == v;
        assert all[|reports| + i].node == v;
      }
      if v in visited && v !in seeds {
        var r :| r in reports && r.node == v;
        assert r in all;
      }
      if exists r :: r in all && r.node == v {
        var r :| r in all && r.node == v;
        if r !in reports {
          assert r in more;
        }
      }
    }
  }

  // One round of the caller walk; order lists the functions in the order in which their callers are asked for.
  method Round(g: Graph, frontier: seq<nat>, seen: set<nat>, depth: nat, reported: seq<Report>)
    returns (next: seq<nat>, visited: set<nat>, reports: seq<Report>, ghost order: seq<nat>)
    ensures order == frontier
    ensures NoDuplicates(next)
    ensures forall w :: w in next <==> w !in seen && exists v :: v in frontier && w in g(v)
    ensures visited == seen + Elements(next)
    ensures reports == reported + ReportsOf(depth, next)
  {
    next, visited, reports, order := [], seen, reported, [];
    for i := 0 to |frontier|
      invariant order == frontier[..i]
      invariant NoDuplicates(next) && visited == seen + Elements(next)
      invariant forall w :: w in next <==> w !in seen && ListedBefore(g, frontier, i, w)
      invariant reports == reported + ReportsOf(depth, next)
    {
      var callers := g(frontier[i]);
      order := order + [frontier[i]];
      for j := 0 to |callers|
        invariant NoDuplicates(next) && visited == seen + Elements(next)
        invariant forall w :: w in next <==> w !in seen && (ListedBefore(g, frontier, i, w) || w in callers[..j])
        invariant reports == reported + ReportsOf(depth, next)
      {
        var c := callers[j];
        assert callers[..j + 1] == callers[..j] + [c];
        if c !in visited {
          visited := visited + {c};
          next := next + [c];
          reports := reports + [Report(depth, c)];
        }
      }
      assert callers[..|callers|] == callers;
      assert forall w :: ListedBefore(g, frontier, i + 1, w) <==> ListedBefore(g, frontier, i, w) || w in callers;
    }
    forall w
      ensures ListedBefore(g, frontier, |frontier|, w) <==> exists v :: v in frontier && w in g(v)
    {
      if ListedBefore(g, frontier, |frontier|, w) {
        var k :| 0 <= k < |frontier| && w in g(frontier[k]);
        assert frontier[k] in frontier;
      }
    }
  }

  /** After depth rounds: a ball and its rim, exact reports, and everything inside the rim expanded. */
  ghost predicate TraceHolds(g: Graph, seeds: seq<nat>, visited: set<nat>, frontier: seq<nat>, reports: seq<Report>,
                             expanded: seq<nat>, depth: nat)
  {
    && Elements(seeds) <= visited
    && Ball(g, Elements(seeds), visited, Elements(frontier), depth)
    && ReportsExact(g, Elements(seeds), reports, visited)
    && Elements(expanded) == visited - Elements(frontier)
    && (depth == 0 ==> expanded == [] && frontier == seeds)
    && (depth > 0 ==> NoDuplicates(frontier) && (NoDuplicates(expanded) <==> NoDuplicates(seeds)))
  }

  lemma TraceNext(g: Graph, seeds: seq<nat>, visited: set<nat>, frontier: seq<nat>, next: seq<nat>,
                  reports: seq<Report>, expanded: seq<nat>, depth: nat)
    requires depth > 0 && TraceHolds(g, seeds, visited, frontier, reports, expanded, depth - 1)
    requires NoDuplicates(next)
    requires forall w :: w in next <==> w !in visited && exists v :: v in frontier && w in g(v)
    ensures TraceHolds(g, seeds, visited + Elements(next), next, reports + ReportsOf(depth, next), expanded + frontier,
      depth)
  {
    LayerNext(g, Elements(seeds), visited, frontier, next, reports, depth);
    ExpandedGrows(expanded, frontier, visited);
    assert visited == visited + Elements(next) - Elements(next);
    assert [] + frontier == frontier;
  }

  lemma LayerNext(g: Graph, S: set<nat>, visited: set<nat>, frontier: seq<nat>, next: seq<nat>, reports: seq<Report>,
                  depth: nat)
    requires depth > 0 && S <= visited && Ball(g, S, visited, Elements(frontier), depth - 1)
    requires ReportsExact(g, S, reports, visited) && NoDuplicates(next)
    requires forall w :: w in next <==> w !in visited && exists v :: v in frontier && w in g(v)
    ensures Ball(g, S, visited + Elements(next), Elements(next), depth)
    ensures ReportsExact(g, S, reports + ReportsOf(depth, next), visited + Elements(next))
    ensures Elements(frontier) <= visited && Elements(next) !! visited
  {
    NextBall(g, S, visited, Elements(frontier), Elements(next), depth - 1);
    ReportsGrow(g, S, reports, visited, next, depth);
  }

  lemma TraceDone(g: Graph, seeds: seq<nat>, visited: set<nat>, frontier: seq<nat>, reports: seq<Report>,
                  expanded: seq<nat>, depth: nat, maxDepth: nat)
    requires TraceHolds(g, seeds, visited, frontier, reports, expanded, depth)
    requires depth <= maxDepth && (frontier == [] || depth == maxDepth)
    ensures forall v :: v in visited <==> Within(g, Elements(seeds), v, maxDepth)
    ensures ReportsExact(g, Elements(seeds), reports, visited)
    ensures NoDuplicates(expanded) <==> maxDepth == 0 || NoDuplicates(seeds)
    ensures forall v :: v in expanded <==> maxDepth > 0 && Within(g, Elements(seeds), v, maxDepth - 1)
  {
    ExpandedBall(g, Elements(seeds), visited, Elements(frontier), expanded, depth, maxDepth);
    if depth < maxDepth {
      EmptyRimIsFinal(g, Elements(seeds), visited, depth, maxDepth);
    }
  }

  // Without its rim a ball is the ball one step smaller.
  lemma ExpandedBall(g: Graph, seeds: set<nat>, visited: set<nat>, rim: set<nat>, expanded: seq<nat>,
                     depth: nat, maxDepth: nat)
    requires Ball(g, seeds, visited, rim, depth) && depth <= maxDepth
    requires rim == {} || depth == maxDepth
    requires Elements(expanded) == visited - rim
    ensures forall v :: v in expanded <==> maxDepth > 0 && Within(g, seeds, v, maxDepth - 1)
  {
    if depth < maxDepth {
      EmptyRimIsFinal(g, seeds, visited, depth, maxDepth - 1);
    }
    forall v
      ensures v in expanded <==> maxDepth > 0 && Within(g, seeds, v, maxDepth - 1)
    {
      assert v in expanded <==> v in Elements(expanded);
      assert v in rim <==> AtDistance(g, seeds, v, depth);
    }
  }

  lemma ElementsConcat(a: seq<nat>, b: seq<nat>)
    ensures Elements(a + b) == Elements(a) + Elements(b)
  {
    assert forall v :: v in a + b <==> v in a || v in b;
  }

  lemma ExpandedGrows(expanded: seq<nat>, frontier: seq<nat>, visited: set<nat>)
    requires Elements(expanded) == visited - Elements(frontier) && Elements(frontier) <= visited
    ensures Elements(expanded + frontier) == visited
    ensures NoDuplicates(expanded + frontier) <==> NoDuplicates(expanded) && NoDuplicates(frontier)
  {
    ElementsConcat(expanded, frontier);
    var all := expanded + frontier;
    assert forall i :: 0 <= i < |expanded| ==> all[i] == expanded[i];
    assert forall j :: 0 <= j < |frontier| ==> all[|expanded| + j] == frontier[j];
    forall i, j | 0 <= i < |expanded| && 0 <= j < |frontier|
      ensures expanded[i] != frontier[j]
    {
      assert expanded[i] in Elements(expanded) && frontier[j] in Elements(frontier);
    }
  }

  /** The walk up the callers. The collected set is exactly the functions within maxDepth of the seeds, each new one is
      reported once, at its shortest distance; a function is expanded twice exactly when the seed list repeats one and a
      round is run. */
  method TraceCallers(g: Graph, seeds: seq<nat>, maxDepth: nat)
    returns (visited: set<nat>, reports: seq<Report>, ghost expanded: seq<nat>)
    ensures forall v :: v in visited <==> Within(g, Elements(seeds), v, maxDepth)
    ensures ReportsExact(g, Elements(seeds), reports, visited)
    ensures NoDuplicates(expanded) <==> maxDepth == 0 || NoDuplicates(seeds)
    ensures forall v :: v in expanded <==> maxDepth > 0 && Within(g, Elements(seeds), v, maxDepth - 1)
  {
    visited, reports, expanded := Elements(seeds), [], [];
    var frontier := seeds;
    var depth := 0;
    FirstBall(g, Elements(seeds));
    while frontier != [] && depth < maxDepth
      invariant depth <= maxDepth && TraceHolds(g, seeds, visited, frontier, reports, expanded, depth)
      decreases maxDepth - depth
    {
      depth := depth + 1;
      ghost var before, reported := visited, reports;
      var next;
      ghost var order;
      next, visited, reports, order := Round(g, frontier, visited, depth, reports);
      TraceNext(g, seeds, before, frontier, next, reported, expanded, depth);
      expanded := expanded + order;
      frontier := next;
    }
    TraceDone(g, seeds, visited, frontier, reports, expanded, depth, maxDepth);
  }

  /** A seed given twice is expanded twice. */
  method RepeatedSeed(g: Graph, a: nat) returns (visited: set<nat>, reports: seq<Report>, ghost expanded: seq<nat>)
    ensures a in visited && a in expanded && !NoDuplicates(expanded)
  {
    visited, reports, expanded := TraceCallers(g, [a, a], 1);
    assert a in Elements([a, a]);
    ReachesSeed(g, Elements([a, a]), a);
    assert [a, a][0] == [a, a][1];
  }

  // ---------- the walk along callers and callees ----------

  function Both(callers: Graph, callees: Graph): Graph {
    (v: nat) => callers(v) + callees(v)
  }

  /** A step of the walk leads to any caller and to any callee, and nowhere else. */
  lemma BothLists(callers: Graph, callees: Graph, v: nat, w: nat)
    ensures w in Both(callers, callees)(v) <==> w in callers(v) || w in callees(v)
  {
  }

  // Adds the functions of one list that are not collected yet.
  method Collect(listed: seq<nat>, seen: set<nat>, found: set<nat>) returns (all: set<nat>, next: set<nat>)
    requires found <= seen
    ensures all == seen + Elements(listed)
    ensures next == found + (Elements(listed) - seen)
  {
    all, next := seen, found;
    for j := 0 to |listed|
      invariant all == seen + Elements(listed[..j])
      invariant next == found + (Elements(listed[..j]) - seen)
    {
      assert listed[..j + 1] == listed[..j] + [listed[j]];
      if listed[j] !in all {
        all := all + {listed[j]};
        next := next + {listed[j]};
      }
    }
    assert listed[..|listed|] == listed;
  }

  // One round: the frontier is a set, taken in any order.
  method TreeRound(callers: Graph, callees: Graph, frontier: set<nat>, seen: set<nat>)
    returns (all: set<nat>, next: set<nat>, ghost order: seq<nat>)
    ensures all == seen + next
    ensures forall w :: w in next <==> w !in seen && exists v :: v in frontier && w in Both(callers, callees)(v)
    ensures NoDuplicates(order) && Elements(order) == frontier
  {
    all, next, order := seen, {}, [];
    var rest := frontier;
    while rest != {}
      invariant rest <= frontier && Elements(order) == frontier - rest && NoDuplicates(order)
      invariant all == seen + next
      invariant forall w ::
        w in next <==> w !in seen && exists v :: v in frontier - rest && w in Both(callers, callees)(v)
      decreases rest
    {
      var f :| f in rest;
      ghost var found, done := next, frontier - rest;
      all, next := Collect(callers(f), all, next);
      all, next := Collect(callees(f), all, next);
      assert f !in order;
      ElementsConcat(order, [f]);
      order := order + [f];
      rest := rest - {f};
      forall w
        ensures w in next <==> w !in seen && exists v :: v in frontier - rest && w in Both(callers, callees)(v)
      {
        assert w in next <==> w in found || (w !in seen && w in Both(callers, callees)(f));
        assert frontier - rest == done + {f};
      }
    }
  }

  /** The walk along callers and callees collects exactly the functions within `rounds` steps, and expands exactly those
      within one step less, none twice. */
  method WalkCallTree(callers: Graph, callees: Graph, start: set<nat>, rounds: nat)
    returns (all: set<nat>, ghost expanded: seq<nat>)
    ensures forall v :: v in all <==> Within(Both(callers, callees), start, v, rounds)
    ensures NoDuplicates(expanded)
    ensures forall v :: v in expanded <==> rounds > 0 && Within(Both(callers, callees), start, v, rounds - 1)
  {
    ghost var g := Both(callers, callees);
    all, expanded := start, [];
    var frontier := start;
    FirstBall(g, start);
    for depth := 0 to rounds
      invariant Ball(g, start, all, frontier, depth)
      invariant NoDuplicates(expanded) && Elements(expanded) == all - frontier
    {
      ghost var before := all;
      var next;
      ghost var order;
      all, next, order := TreeRound(callers, callees, frontier, all);
      NextBall(g, start, before, frontier, next, depth);
      assert frontier <= before;
      ExpandedGrows(expanded, order, before);
      expanded := expanded + order;
      frontier := next;
    }
    ExpandedBall(g, start, all, frontier, expanded, rounds, rounds);
  }
}
