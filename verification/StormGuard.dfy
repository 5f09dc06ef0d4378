/** The interrupt storm guard: a tumbling window that counts interrupts and disables the line above a maximum. */
module StormGuard {

  // thresholdMs 0 switches the guard off; window is the threshold in jiffies.
  datatype Params = Params(thresholdMs: nat, window: nat, maxCount: nat)

  datatype Guard = Guard(start: nat, count: nat, irqCount: nat, enabled: bool, carrierCheck: bool)

  const IDLE := Guard(0, 0, 0, true, true)

  /** One interrupt at time now. A disabled line delivers no more interrupts. */
  function Step(p: Params, g: Guard, now: nat): Guard {
    if !g.enabled then g
    else if p.thresholdMs > 0 then
      if now > g.start + p.window then g.(start := now, count := 1, irqCount := g.irqCount + 1)
      else if g.count + 1 > p.maxCount then g.(count := g.count + 1, enabled := false, carrierCheck := false)
      else g.(count := g.count + 1, irqCount := g.irqCount + 1)
    else g.(irqCount := g.irqCount + 1)
  }

  function Run(p: Params, ts: seq<nat>): Guard {
    if ts == [] then IDLE else Step(p, Run(p, ts[..|ts| - 1]), ts[|ts| - 1])
  }

  ghost predicate InOrder(ts: seq<nat>) {
    forall i, j :: 0 <= i < j < |ts| ==> ts[i] <= ts[j]
  }

  /** Number of interrupts at times first..last. */
  function CountIn(ts: seq<nat>, first: int, last: int): nat {
    if ts == [] then 0
    else CountIn(ts[..|ts| - 1], first, last) + if first <= ts[|ts| - 1] <= last then 1 else 0
  }

  lemma {:induction false} CountAtMost(ts: seq<nat>, first: int, last: int, from: nat)
    requires from <= |ts| && forall i :: 0 <= i < from ==> ts[i] < first
    ensures CountIn(ts, first, last) <= |ts| - from
  {
    if |ts| > from {
      CountAtMost(ts[..|ts| - 1], first, last, from);
    } else if ts != [] {
      CountAtMost(ts[..|ts| - 1], first, last, from - 1);
    }
  }

  lemma {:induction false} CountAtLeast(ts: seq<nat>, first: int, last: int, from: nat)
    requires from <= |ts| && forall i :: from <= i < |ts| ==> first <= ts[i] <= last
    ensures CountIn(ts, first, last) >= |ts| - from
  {
    if |ts| > from {
      CountAtLeast(ts[..|ts| - 1], first, last, from);
    }
  }

  // ---------- invariant of a run that has not fired ----------

  function WindowCap(p: Params): nat {
    if p.maxCount == 0 then 1 else p.maxCount
  }

  // The last count interrupts are those of the current window; before them come prevCount of the previous window, and
  // everything older lies before prevStart.
  ghost predicate Windows(p: Params, ts: seq<nat>, g: Guard, prevStart: int, prevCount: nat) {
    && g.count + prevCount <= |ts| && g.count <= WindowCap(p) && prevCount <= WindowCap(p)
    && prevStart + p.window < g.start
    && (forall i :: |ts| - g.count <= i < |ts| ==> g.start <= ts[i] <= g.start + p.window)
    && (forall i :: 0 <= i < |ts| - g.count ==> ts[i] < g.start)
    && (forall i :: 0 <= i < |ts| - g.count - prevCount ==> ts[i] < prevStart)
  }

  lemma SameWindow(p: Params, ts: seq<nat>, now: nat, g: Guard, prevStart: int, prevCount: nat)
    requires Windows(p, ts, g, prevStart, prevCount) && g.start <= now <= g.start + p.window
    requires p.thresholdMs > 0 && g.enabled && g.count + 1 <= p.maxCount
    ensures Windows(p, ts + [now], Step(p, g, now), prevStart, prevCount)
  {
    var all := ts + [now];
    assert forall i :: 0 <= i < |ts| ==> all[i] == ts[i];
  }

  lemma NewWindow(p: Params, ts: seq<nat>, now: nat, g: Guard, prevStart: int, prevCount: nat)
    requires p.thresholdMs > 0 && g.enabled
    requires Windows(p, ts, g, prevStart, prevCount) && now > g.start + p.window
    ensures Windows(p, ts + [now], Step(p, g, now), g.start, g.count)
  {
    var all := ts + [now];
    assert forall i :: 0 <= i < |ts| ==> all[i] == ts[i];
  }

  lemma {:induction false} QuietWindows(p: Params, ts: seq<nat>) returns (prevStart: int, prevCount: nat)
    requires p.thresholdMs > 0 && InOrder(ts) && Run(p, ts).enabled
    ensures Windows(p, ts, Run(p, ts), prevStart, prevCount)
    ensures Run(p, ts).irqCount == |ts| && Run(p, ts).carrierCheck
  {
    if ts == [] {
      var window: int := p.window;
      prevStart, prevCount := -1 - window, 0;
    } else {
      var n := |ts| - 1;
      var front, now := ts[..n], ts[n];
      assert ts == front + [now];
      prevStart, prevCount := QuietWindows(p, front);
      var g := Run(p, front);
      assert Run(p, ts) == Step(p, g, now);
      if now > g.start + p.window {
        NewWindow(p, front, now, g, prevStart, prevCount);
        prevStart, prevCount := g.start, g.count;
      } else {
        WindowNotEmpty(p, front);
        assert g.count > 0 ==> g.start <= front[n - 1] == ts[n - 1] <= now;
        SameWindow(p, front, now, g, prevStart, prevCount);
      }
    }
  }

  lemma {:induction false} WindowNotEmpty(p: Params, ts: seq<nat>)
    requires p.thresholdMs > 0
    ensures Run(p, ts).count > 0 || Run(p, ts).start == 0
  {
    if ts != [] {
      WindowNotEmpty(p, ts[..|ts| - 1]);
    }
  }

  // ---------- whole runs ----------

  /** If the guard fires at time t, more than the maximum fell in the window of length W that ends at t. */
  lemma FiresOnlyInStorm(p: Params, ts: seq<nat>)
    requires p.thresholdMs > 0 && InOrder(ts) && ts != []
    requires Run(p, ts[..|ts| - 1]).enabled && !Run(p, ts).enabled
    ensures var t := ts[|ts| - 1]; CountIn(ts, t - p.window, t) >= p.maxCount + 1
  {
    FiresAfter(p, ts[..|ts| - 1], ts, Run(p, ts[..|ts| - 1]));
  }

  lemma FiresAfter(p: Params, front: seq<nat>, ts: seq<nat>, g: Guard)
    requires p.thresholdMs > 0 && InOrder(ts) && |ts| == |front| + 1
    requires forall i :: 0 <= i < |front| ==> front[i] == ts[i]
    requires g == Run(p, front) && g.enabled && !Step(p, g, ts[|front|]).enabled
    ensures CountIn(ts, ts[|front|] - p.window, ts[|front|]) >= p.maxCount + 1
  {
    var prevStart, prevCount := QuietWindows(p, front);
    LastWindowCounts(p, ts, front, g, prevStart, prevCount);
  }

  // The current window's interrupts all lie within W of the one that follows them.
  lemma LastWindowCounts(p: Params, ts: seq<nat>, front: seq<nat>, g: Guard, prevStart: int, prevCount: nat)
    requires InOrder(ts) && |ts| == |front| + 1 && forall i :: 0 <= i < |front| ==> front[i] == ts[i]
    requires Windows(p, front, g, prevStart, prevCount) && ts[|front|] <= g.start + p.window
    ensures CountIn(ts, ts[|front|] - p.window, ts[|front|]) >= g.count + 1
  {
    var n := |front|;
    forall i | n - g.count <= i < n
      ensures ts[n] - p.window <= ts[i]
    {
      assert front[i] == ts[i];
    }
    CountAtLeast(ts, ts[n] - p.window, ts[n], n - g.count);
  }

  /** While it has not fired, an interval of length W never holds more than two windows' worth. */
  lemma {:induction false} QuietIntervals(p: Params, ts: seq<nat>, first: int)
    requires p.thresholdMs > 0 && InOrder(ts) && Run(p, ts).enabled
    ensures CountIn(ts, first, first + p.window) <= 2 * WindowCap(p)
  {
    if ts != [] {
      var n := |ts| - 1;
      if first <= ts[n] <= first + p.window {
        var prevStart, prevCount := QuietWindows(p, ts);
        CountAtMost(ts, first, first + p.window, |ts| - Run(p, ts).count - prevCount);
      } else {
        QuietIntervals(p, ts[..n], first);
      }
    }
  }

  /** With a maximum of at least 1 that is twice the maximum. */
  lemma QuietMeansAtMostTwiceMax(p: Params, ts: seq<nat>, first: int)
    requires p.thresholdMs > 0 && p.maxCount >= 1 && InOrder(ts) && Run(p, ts).enabled
    ensures CountIn(ts, first, first + p.window) <= 2 * p.maxCount
  {
    QuietIntervals(p, ts, first);
  }

  /** A burst of more than twice the maximum within a window always disables the line. */
  lemma StormAlwaysCaught(p: Params, ts: seq<nat>, first: int)
    requires p.thresholdMs > 0 && p.maxCount >= 1 && InOrder(ts)
    requires CountIn(ts, first, first + p.window) > 2 * p.maxCount
    ensures !Run(p, ts).enabled
  {
    if Run(p, ts).enabled {
      QuietMeansAtMostTwiceMax(p, ts, first);
    }
  }

  function Repeat(t: nat, n: nat): (ts: seq<nat>)
    ensures |ts| == n && forall i :: 0 <= i < n ==> ts[i] == t
  {
    seq(n, _ => t)
  }

  // n interrupts at the same time, within the window of g or opening a new one.
  lemma {:induction false} RunRepeat(p: Params, before: seq<nat>, t: nat, n: nat)
    requires p.thresholdMs > 0 && Run(p, before).enabled && 1 <= n <= p.maxCount
    requires var g := Run(p, before); t > g.start + p.window || (g.count == 0 && t <= g.start + p.window)
    ensures var g, r := Run(p, before), Run(p, before + Repeat(t, n));
      r.enabled && r.count == n && r.start == if t > g.start + p.window then t else g.start
    decreases n
  {
    var ts := before + Repeat(t, n);
    assert ts[..|ts| - 1] == before + Repeat(t, n - 1);
    if n == 1 {
      assert before + Repeat(t, 0) == before;
    } else {
      RunRepeat(p, before, t, n - 1);
    }
  }

  lemma TwoBursts(w: nat, n: nat)
    requires w >= 1
    ensures InOrder(Repeat(w, n) + Repeat(w + 1, n))
    ensures CountIn(Repeat(w, n) + Repeat(w + 1, n), w, w + w) == n + n
  {
    var ts := Repeat(w, n) + Repeat(w + 1, n);
    assert forall i :: 0 <= i < |ts| ==> ts[i] == if i < n then w else w + 1;
    CountAtLeast(ts, w, w + w, 0);
    CountAtMost(ts, w, w + w, 0);
  }

  function Bursts(p: Params): seq<nat> {
    Repeat(p.window, p.maxCount) + Repeat(p.window + 1, p.maxCount)
  }

  lemma BurstsPass(p: Params)
    requires p.thresholdMs > 0 && p.maxCount >= 1 && p.window >= 1
    ensures Run(p, Bursts(p)).enabled
  {
    FirstBurstPasses(p, Repeat(p.window, p.maxCount));
    RunRepeat(p, Repeat(p.window, p.maxCount), p.window + 1, p.maxCount);
  }

  // The first burst stays within the window that opens with the run.
  lemma FirstBurstPasses(p: Params, burst: seq<nat>)
    requires p.thresholdMs > 0 && p.maxCount >= 1 && burst == Repeat(p.window, p.maxCount)
    ensures Run(p, burst).enabled && Run(p, burst).start == 0
  {
    RunRepeat(p, [], p.window, p.maxCount);
    assert [] + burst == burst;
  }

  /** The bound is attained: twice the maximum can pass within one window's length. */
  lemma TwiceMaxAttained(p: Params)
    requires p.thresholdMs > 0 && p.maxCount >= 1 && p.window >= 1
    ensures InOrder(Bursts(p)) && Run(p, Bursts(p)).enabled
    ensures CountIn(Bursts(p), p.window, p.window + p.window) == p.maxCount + p.maxCount
  {
    BurstsPass(p);
    TwoBursts(p.window, p.maxCount);
  }

  /** Switched off, the guard never fires. */
  lemma {:induction false} OffNeverFires(p: Params, ts: seq<nat>)
    requires p.thresholdMs == 0
    ensures Run(p, ts) == IDLE.(irqCount := |ts|)
  {
    if ts != [] {
      OffNeverFires(p, ts[..|ts| - 1]);
    }
  }

  // ---------- the windows, one by one ----------

  lemma {:induction false} QuietCounts(p: Params, ts: seq<nat>)
    requires p.thresholdMs > 0 && Run(p, ts).enabled
    ensures Run(p, ts).count <= |ts| == Run(p, ts).irqCount && Run(p, ts).carrierCheck
  {
    if ts != [] {
      QuietCounts(p, ts[..|ts| - 1]);
    }
  }

  /** The window open after ts has opened at time start, and interrupt k is the first one in it. The first window opens
      at time 0, or with the first interrupt when that comes later than W; each further one opens with the first
      interrupt more than W after the opening before. */
  ghost predicate OpenSince(p: Params, ts: seq<nat>, start: nat, k: int, openedBefore: nat) {
    && 0 <= k <= |ts| && (forall i :: k <= i < |ts| ==> ts[i] <= start + p.window)
    && (k == 0 ==> start == if ts != [] && ts[0] > p.window then ts[0] else 0)
    && (k > 0 ==> k < |ts| && start == ts[k] && ts[k] > openedBefore + p.window)
  }

  lemma OpenStays(p: Params, front: seq<nat>, now: nat, start: nat, k: int, openedBefore: nat)
    requires OpenSince(p, front, start, k, openedBefore) && now <= start + p.window
    ensures OpenSince(p, front + [now], start, k, openedBefore)
  {
    var ts := front + [now];
    assert front != [] ==> ts[0] == front[0];
  }

  /** The open window is that of the rule, and the count is that of the interrupts in it. */
  lemma {:induction false} CurrentWindow(p: Params, ts: seq<nat>)
    requires p.thresholdMs > 0 && Run(p, ts).enabled
    ensures Run(p, ts).count <= |ts|
    ensures var k := |ts| - Run(p, ts).count; OpenSince(p, ts, Run(p, ts).start, k, Run(p, ts[..k]).start)
  {
    QuietCounts(p, ts);
    if ts != [] {
      var n := |ts| - 1;
      var front, now := ts[..n], ts[n];
      assert ts == front + [now];
      CurrentWindow(p, front);
      var g := Run(p, front);
      var k := n - g.count;
      if now <= g.start + p.window {
        OpenStays(p, front, now, g.start, k, Run(p, front[..k]).start);
        assert front[..k] == ts[..k];
      } else if n > 0 {
        assert OpenSince(p, ts, now, n, g.start);
      }
    }
  }

  /** The next interrupt disables the line exactly when it comes within W of the opening and is one too many. */
  lemma FiresExactly(p: Params, front: seq<nat>, now: nat)
    requires p.thresholdMs > 0 && Run(p, front).enabled
    ensures !Run(p, front + [now]).enabled <==>
      now <= Run(p, front).start + p.window && Run(p, front).count >= p.maxCount
  {
    assert (front + [now])[..|front|] == front;
  }

  /** Once it has fired, the handler has counted the n interrupts before, link checks are off, and nothing changes. */
  lemma {:induction false} FiredState(p: Params, ts: seq<nat>) returns (n: nat)
    requires p.thresholdMs > 0 && !Run(p, ts).enabled
    ensures n < |ts| && Run(p, ts[..n]).enabled && !Run(p, ts[..n + 1]).enabled
    ensures Run(p, ts) == Run(p, ts[..n]).(count := Run(p, ts[..n]).count + 1, enabled := false, carrierCheck := false)
    ensures Run(p, ts).irqCount == n && Run(p, ts).count > p.maxCount
  {
    var front := ts[..|ts| - 1];
    if Run(p, front).enabled {
      n := |ts| - 1;
      QuietCounts(p, front);
      assert ts[..n + 1] == ts;
    } else {
      n := FiredState(p, front);
      assert front[..n] == ts[..n] && front[..n + 1] == ts[..n + 1];
    }
  }

  // ---------- the code ----------

  class InterruptHandler {
    var stormJiffies: nat
    var windowCount: nat
    var irqCount: nat
    var lineEnabled: bool
    var enableCarrier: bool

    ghost function State(): Guard
      reads this
    {
      Guard(stormJiffies, windowCount, irqCount, lineEnabled, enableCarrier)
    }

    constructor ()
      ensures State() == IDLE
    {
      stormJiffies, windowCount, irqCount, lineEnabled, enableCarrier := 0, 0, 0, true, true;
    }

    /** mts_interrupt; the line delivers it only while it is enabled. */
    method Interrupt(p: Params, now: nat)
      requires lineEnabled
      modifies this
      ensures State() == Step(p, old(State()), now)
    {
      if p.thresholdMs > 0 {
        if now > stormJiffies + p.window {
          stormJiffies := now;
          windowCount := 1;
        } else {
          windowCount := windowCount + 1;
          if windowCount > p.maxCount {
            lineEnabled := false;
            enableCarrier := false;
            return;
          }
        }
      }
      irqCount := irqCount + 1;
    }
  }
}
