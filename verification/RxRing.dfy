/** The receive ring of the Ethernet driver: hardware fills descriptors, the driver empties them, both through OWN. */
module RxRing {

  const RING_SIZE := 256
  const BUF_SIZE := 1536

  type Buffer = b: seq<bv8> | |b| == BUF_SIZE witness seq(BUF_SIZE, _ => 0)

  // The fields of a control word. OWN set means the buffer is empty.
  datatype Desc = Desc(own: bool, wrap: bool, len: nat)

  // What the hardware writes when a frame arrives; the WRAP bit it leaves behind is its own business.
  datatype Fill = Frame(len: nat, wrap: bool, data: Buffer)

  // A retired descriptor, and whether a socket buffer could be allocated for it.
  datatype Retired = Retired(fill: Fill, alloc: bool)

  function Empty(i: nat): Desc {
    Desc(true, i == RING_SIZE - 1, BUF_SIZE)
  }

  function Next(i: nat): nat {
    (i + 1) % RING_SIZE
  }

  predicate Deliverable(r: Retired) {
    0 < r.fill.len <= BUF_SIZE && r.alloc
  }

  function Payload(r: Retired): seq<bv8>
    requires Deliverable(r)
  {
    r.fill.data[..r.fill.len]
  }

  // ---------- what the driver reports upwards ----------

  datatype Account = Account(delivered: seq<seq<bv8>>, packets: nat, bytes: nat, dropped: nat, errors: nat) {
    function Add(r: Retired): Account {
      if 0 < r.fill.len <= BUF_SIZE then
        if r.alloc
        then this.(delivered := delivered + [Payload(r)], packets := packets + 1, bytes := bytes + r.fill.len)
        else this.(dropped := dropped + 1)
      else this.(errors := errors + 1)
    }
  }

  const NOTHING := Account([], 0, 0, 0, 0)

  function AccountOf(rs: seq<Retired>): Account {
    if rs == [] then NOTHING else AccountOf(rs[..|rs| - 1]).Add(rs[|rs| - 1])
  }

  /** The positions of the deliverable descriptors, in order. */
  function DeliverableAt(rs: seq<Retired>): seq<nat> {
    if rs == [] then []
    else DeliverableAt(rs[..|rs| - 1]) + if Deliverable(rs[|rs| - 1]) then [|rs| - 1] else []
  }

  lemma {:induction false} DeliverablePositions(rs: seq<Retired>)
    ensures var at := DeliverableAt(rs);
      && (forall i, j :: 0 <= i < j < |at| ==> at[i] < at[j])
      && (forall p :: p in at <==> 0 <= p < |rs| && 1 <= rs[p].fill.len <= 1536 && rs[p].alloc)
  {
    if rs != [] {
      var n := |rs| - 1;
      DeliverablePositions(rs[..n]);
      var before := DeliverableAt(rs[..n]);
      forall i | 0 <= i < |before|
        ensures before[i] < n
      {
        assert before[i] in before;
      }
      forall p | 0 <= p < n
        ensures p in before <==> Deliverable(rs[p])
      {
        assert rs[..n][p] == rs[p];
      }
    }
  }

  function TotalLength(ps: seq<seq<bv8>>): nat {
    if ps == [] then 0 else TotalLength(ps[..|ps| - 1]) + |ps[|ps| - 1]|
  }

  /** Every retired descriptor is counted once, and the byte count is that of the delivered frames. */
  lemma {:induction false} AccountCounts(rs: seq<Retired>)
    ensures var a := AccountOf(rs);
      && a.packets + a.dropped + a.errors == |rs|
      && a.packets == |a.delivered|
      && a.bytes == TotalLength(a.delivered)
  {
    if rs != [] {
      var n := |rs| - 1;
      AccountCounts(rs[..n]);
      var before := AccountOf(rs[..n]).delivered;
      if Deliverable(rs[n]) {
        assert (before + [Payload(rs[n])])[..|before|] == before;
      }
    }
  }

  ghost predicate LegalLength(r: Retired) {
    1 <= r.fill.len <= 1536
  }

  ghost predicate IsKind(r: Retired, legal: bool, alloc: bool) {
    LegalLength(r) == legal && (legal ==> r.alloc == alloc)
  }

  ghost function Positions(rs: seq<Retired>, legal: bool, alloc: bool): set<int> {
    set i | 0 <= i < |rs| && IsKind(rs[i], legal, alloc)
  }

  lemma PositionsNext(rs: seq<Retired>, r: Retired, legal: bool, alloc: bool)
    ensures |Positions(rs + [r], legal, alloc)| ==
      |Positions(rs, legal, alloc)| + if IsKind(r, legal, alloc) then 1 else 0
  {
    var before, after := Positions(rs, legal, alloc), Positions(rs + [r], legal, alloc);
    forall i: int
      ensures i in after <==> i in before || (i == |rs| && IsKind(r, legal, alloc))
    {
      KindAt(rs, r, legal, alloc, i);
    }
    assert after == if IsKind(r, legal, alloc) then before + {|rs|} else before;
  }

  lemma KindAt(rs: seq<Retired>, r: Retired, legal: bool, alloc: bool, i: int)
    ensures i in Positions(rs + [r], legal, alloc) <==>
      i in Positions(rs, legal, alloc) || (i == |rs| && IsKind(r, legal, alloc))
    ensures |rs| !in Positions(rs, legal, alloc)
  {
  }

  /** Each counter is the number of its own kind of descriptor: a frame of 1 to 1536 bytes with a buffer, one without,
      and one of any other length. */
  lemma {:induction false} CountersByKind(rs: seq<Retired>)
    ensures var a := AccountOf(rs);
      && a.packets == |set i | 0 <= i < |rs| && LegalLength(rs[i]) && rs[i].alloc|
      && a.dropped == |set i | 0 <= i < |rs| && LegalLength(rs[i]) && !rs[i].alloc|
      && a.errors == |set i | 0 <= i < |rs| && !LegalLength(rs[i])|
  {
    assert Positions(rs, true, true) == set i | 0 <= i < |rs| && LegalLength(rs[i]) && rs[i].alloc;
    assert Positions(rs, true, false) == set i | 0 <= i < |rs| && LegalLength(rs[i]) && !rs[i].alloc;
    assert Positions(rs, false, true) == set i | 0 <= i < |rs| && !LegalLength(rs[i]);
    CountersByPosition(rs);
  }

  lemma {:induction false} CountersByPosition(rs: seq<Retired>)
    ensures var a := AccountOf(rs);
      a.packets == |Positions(rs, true, true)| && a.dropped == |Positions(rs, true, false)| &&
      a.errors == |Positions(rs, false, true)|
  {
    if rs != [] {
      var front, r := rs[..|rs| - 1], rs[|rs| - 1];
      CountersByPosition(front);
      PositionsNext(front, r, true, true);
      PositionsNext(front, r, true, false);
      PositionsNext(front, r, false, true);
      assert rs == front + [r];
    }
  }

  /** Delivered frames are the payloads of the deliverable descriptors, in order. */
  lemma {:induction false} DeliveredInOrder(rs: seq<Retired>)
    ensures var delivered, at := AccountOf(rs).delivered, DeliverableAt(rs);
      && |delivered| == |at|
      && forall k :: 0 <= k < |at| ==>
           at[k] < |rs| && rs[at[k]].fill.len <= 1536 && delivered[k] == rs[at[k]].fill.data[..rs[at[k]].fill.len]
  {
    if rs != [] {
      DeliveredInOrder(rs[..|rs| - 1]);
    }
  }

  // ---------- the simple form: a bounded queue ----------

  // All fills the hardware got in, and the allocation outcomes of the ones retired so far, oldest first.
  datatype Fifo = Fifo(accepted: seq<Fill>, outcomes: seq<bool>) {
    ghost predicate Valid() {
      |outcomes| <= |accepted| <= |outcomes| + RING_SIZE
    }

    function Pending(): seq<Fill>
      requires Valid()
    {
      accepted[|outcomes|..]
    }

    /** Retirement happens in fill order, each descriptor once. */
    function Retirements(): (rs: seq<Retired>)
      requires Valid()
      ensures |rs| == |outcomes| && forall i :: 0 <= i < |rs| ==> rs[i] == Retired(accepted[i], outcomes[i])
    {
      seq(|outcomes|, i requires 0 <= i < |outcomes| && Valid() => Retired(accepted[i], outcomes[i]))
    }

    function Step(e: Event): (r: Fifo)
      requires Valid()
      ensures r.Valid()
    {
      match e
      case HwFill(fill) => if |accepted| - |outcomes| < RING_SIZE then this.(accepted := accepted + [fill]) else this
      case Clean(alloc) => if |outcomes| < |accepted| then this.(outcomes := outcomes + [alloc]) else this
    }

    /** Fills get in, in order, until the queue is full. */
    function Offer(fills: seq<Fill>): (r: Fifo)
      requires Valid()
      ensures r.Valid()
    {
      var room := RING_SIZE - (|accepted| - |outcomes|);
      this.(accepted := accepted + fills[..if |fills| <= room then |fills| else room])
    }

    function Run(es: seq<Event>): (r: Fifo)
      requires Valid()
      ensures r.Valid()
    {
      if es == [] then this else Run(es[..|es| - 1]).Step(es[|es| - 1])
    }
  }

  // The hardware offers a frame, or the driver runs one iteration of its loop.
  datatype Event = HwFill(fill: Fill) | Clean(alloc: bool)

  // ---------- the ring ----------

  datatype Ring = Ring(descs: seq<Desc>, bufs: seq<Buffer>, rxIdx: nat, hwIdx: nat, account: Account) {
    ghost predicate Shaped() {
      |descs| == |bufs| == RING_SIZE && rxIdx < RING_SIZE && hwIdx < RING_SIZE
    }

    // The hardware uses the descriptor at its pointer when it is empty and follows the WRAP bit found there.
    function HwStep(fill: Fill): Ring
      requires Shaped()
    {
      if descs[hwIdx].own then
        this.(descs := descs[hwIdx := Desc(false, fill.wrap, fill.len)], bufs := bufs[hwIdx := fill.data],
              hwIdx := if descs[hwIdx].wrap then 0 else hwIdx + 1)
      else this
    }

    // One iteration of mts_rx_clean.
    function CleanOne(alloc: bool): Ring
      requires Shaped()
    {
      var d := descs[rxIdx];
      if d.own then this
      else this.(descs := descs[rxIdx := Empty(rxIdx)], rxIdx := Next(rxIdx),
                 account := account.Add(Retired(Frame(d.len, d.wrap, bufs[rxIdx]), alloc)))
    }

    // How far slot j lies ahead of the driver.
    function Ahead(j: nat): (n: int)
      ensures rxIdx < RING_SIZE ==> n >= 0
    {
      if j >= rxIdx then j - rxIdx else j - rxIdx + RING_SIZE
    }

    // The slot n places on from the driver.
    function Behind(n: nat): int {
      if rxIdx + n < RING_SIZE then rxIdx + n else rxIdx + n - RING_SIZE
    }

    // Slot j shows its frame of p, or is empty and has WRAP exactly at the last index.
    ghost predicate ShowsAt(p: seq<Fill>, j: nat)
      requires Shaped() && j < |descs|
    {
      if Ahead(j) < |p|
      then descs[j] == Desc(false, p[Ahead(j)].wrap, p[Ahead(j)].len) && bufs[j] == p[Ahead(j)].data
      else descs[j] == Empty(j)
    }

    ghost predicate ShowsFirst(p: seq<Fill>, n: nat)
      requires Shaped() && n <= |descs|
    {
      n == 0 || (ShowsFirst(p, n - 1) && ShowsAt(p, n - 1))
    }

    /** The ring shows exactly the frames p, from the driver's index on. */
    ghost predicate Shows(p: seq<Fill>) {
      Shaped() && |p| <= RING_SIZE && hwIdx == Behind(|p|) && ShowsFirst(p, |descs|)
    }

    /** It shows the pending frames of q, and what was reported upwards are the retirements of q. */
    ghost predicate Holds(q: Fifo) {
      q.Valid() && Shows(q.Pending()) && account == AccountOf(q.Retirements())
    }

    function Step(e: Event): Ring
      requires Shaped()
    {
      match e
      case HwFill(fill) => HwStep(fill)
      case Clean(alloc) => CleanOne(alloc)
    }

    // A run; a pointer that left the ring would end it, which never happens.
    ghost function Run(es: seq<Event>): Ring {
      if es == [] then this
      else
        var r := Run(es[..|es| - 1]);
        if r.Shaped() then r.Step(es[|es| - 1]) else r
    }
  }

  lemma {:induction false} ShowsEach(s: Ring, p: seq<Fill>, n: nat)
    requires s.Shaped() && n <= |s.descs|
    ensures s.ShowsFirst(p, n) <==> forall j :: 0 <= j < n ==> s.ShowsAt(p, j)
  {
    if n > 0 {
      ShowsEach(s, p, n - 1);
    }
  }

  lemma FillShows(s: Ring, p: seq<Fill>, fill: Fill)
    requires s.Shows(p)
    ensures s.HwStep(fill).Shows(if |p| < RING_SIZE then p + [fill] else p)
  {
    ShowsEach(s, p, |s.descs|);
    assert s.ShowsAt(p, s.hwIdx);
    assert s.Ahead(s.hwIdx) == if |p| < RING_SIZE then |p| else 0;
    if |p| < RING_SIZE {
      var r, more := s.HwStep(fill), p + [fill];
      forall j | 0 <= j < |r.descs|
        ensures r.ShowsAt(more, j)
      {
        assert s.ShowsAt(p, j);
      }
      ShowsEach(r, more, |r.descs|);
    }
  }

  lemma NextIs(i: nat)
    requires i < RING_SIZE
    ensures Next(i) == if i == RING_SIZE - 1 then 0 else i + 1
  {
  }

  lemma CleanShows(s: Ring, p: seq<Fill>, rest: seq<Fill>, alloc: bool)
    requires s.Shows(p) && p != [] && p == [p[0]] + rest
    ensures s.CleanOne(alloc).Shows(rest)
  {
    NextIs(s.rxIdx);
    HeadShows(s, p);
    ShowsEach(s, p, |s.descs|);
    var r := s.CleanOne(alloc);
    forall j | 0 <= j < |r.descs|
      ensures r.ShowsAt(rest, j)
    {
      assert s.ShowsAt(p, j);
      assert r.Ahead(j) == if j == s.rxIdx then RING_SIZE - 1 else s.Ahead(j) - 1;
    }
    ShowsEach(r, rest, |r.descs|);
  }

  lemma HeadShows(s: Ring, p: seq<Fill>)
    requires s.Shows(p)
    ensures s.descs[s.rxIdx].own <==> p == []
    ensures p != [] ==>
      var d := s.descs[s.rxIdx]; p[0] == Frame(d.len, d.wrap, s.bufs[s.rxIdx])
  {
    ShowsEach(s, p, |s.descs|);
    assert s.ShowsAt(p, s.rxIdx);
    assert s.Ahead(s.rxIdx) == 0;
  }

  // An empty descriptor has WRAP exactly at the last index.
  lemma WrapOfEmpty(s: Ring, p: seq<Fill>, j: nat)
    requires s.Shows(p) && j < RING_SIZE && s.descs[j].own
    ensures (s.descs[j].wrap <==> j == 255) && s.descs[j].len == 1536
  {
    ShowsEach(s, p, |s.descs|);
    assert s.ShowsAt(p, j);
  }

  // A ring of empty descriptors shows nothing.
  lemma EmptyShows(s: Ring)
    requires s.Shaped() && s.hwIdx == s.rxIdx && forall j :: 0 <= j < |s.descs| ==> s.descs[j] == Empty(j)
    ensures s.Shows([])
  {
    ShowsEach(s, [], |s.descs|);
  }

  lemma FillStep(q: Fifo, fill: Fill)
    requires q.Valid()
    ensures var p, next := q.Pending(), q.Step(HwFill(fill));
      && next.Pending() == (if |p| < RING_SIZE then p + [fill] else p)
      && next.Retirements() == q.Retirements()
  {
  }

  lemma CleanStep(q: Fifo, alloc: bool)
    requires q.Valid() && q.Pending() != []
    ensures var p, next := q.Pending(), q.Step(Clean(alloc));
      p == [p[0]] + next.Pending() && next.Retirements() == q.Retirements() + [Retired(p[0], alloc)]
  {
  }

  lemma AccountNext(rs: seq<Retired>, r: Retired)
    ensures AccountOf(rs + [r]) == AccountOf(rs).Add(r)
  {
    assert (rs + [r])[..|rs|] == rs;
  }

  /** A fill goes in exactly when the queue has room. */
  lemma FillRefines(s: Ring, q: Fifo, fill: Fill)
    requires s.Holds(q)
    ensures s.HwStep(fill).Holds(q.Step(HwFill(fill)))
  {
    FillShows(s, q.Pending(), fill);
    FillStep(q, fill);
  }

  /** An iteration retires the oldest pending frame, and does nothing exactly when none is pending. */
  lemma CleanRefines(s: Ring, q: Fifo, alloc: bool)
    requires s.Holds(q)
    ensures s.CleanOne(alloc).Holds(q.Step(Clean(alloc)))
    ensures s.descs[s.rxIdx].own <==> q.Pending() == []
  {
    var p := q.Pending();
    HeadShows(s, p);
    if p != [] {
      CleanStep(q, alloc);
      CleanShows(s, p, q.Step(Clean(alloc)).Pending(), alloc);
      AccountNext(q.Retirements(), Retired(p[0], alloc));
    }
  }

  /** Under any interleaving of hardware fills and driver iterations the ring refines the bounded queue. */
  lemma {:induction false} RingRefinesFifo(s: Ring, q: Fifo, es: seq<Event>)
    requires s.Holds(q)
    ensures s.Run(es).Holds(q.Run(es))
  {
    if es != [] {
      var n := |es| - 1;
      RingRefinesFifo(s, q, es[..n]);
      match es[n]
      case HwFill(fill) => FillRefines(s.Run(es[..n]), q.Run(es[..n]), fill);
      case Clean(alloc) => CleanRefines(s.Run(es[..n]), q.Run(es[..n]), alloc);
    }
  }

  lemma {:induction false} FifoRunAppend(q: Fifo, es: seq<Event>, more: seq<Event>)
    requires q.Valid()
    ensures q.Run(es + more) == q.Run(es).Run(more)
  {
    if more == [] {
      assert es + more == es;
    } else {
      var n := |more| - 1;
      FifoRunAppend(q, es, more[..n]);
      assert (es + more)[..|es + more| - 1] == es + more[..n];
    }
  }

  const NO_FRAMES := Fifo([], [])

  /** Everything a run from reset guarantees: retirement in fill order and exactly once, in-order delivery of exactly
      the deliverable frames, complete counters, WRAP exactly at the last index of the empty descriptors. */
  lemma ReceiveOverRuns(s: Ring, es: seq<Event>)
    requires s.Holds(NO_FRAMES)
    ensures var r, q := s.Run(es), NO_FRAMES.Run(es);
      var retired, at := q.Retirements(), DeliverableAt(q.Retirements());
      && r.Holds(q)
      && |retired| <= |q.accepted| <= |retired| + 256
      && (forall i :: 0 <= i < |retired| ==> retired[i].fill == q.accepted[i])
      && r.account.packets + r.account.dropped + r.account.errors == |retired|
      && r.account.packets == |set i | 0 <= i < |retired| && LegalLength(retired[i]) && retired[i].alloc|
      && r.account.dropped == |set i | 0 <= i < |retired| && LegalLength(retired[i]) && !retired[i].alloc|
      && r.account.errors == |set i | 0 <= i < |retired| && !LegalLength(retired[i])|
      && |r.account.delivered| == |at|
      && (forall p :: p in at <==> 0 <= p < |retired| && 1 <= retired[p].fill.len <= 1536 && retired[p].alloc)
      && (forall k :: 0 <= k < |at| ==>
            at[k] < |retired| && retired[at[k]].fill.len <= 1536 &&
            r.account.delivered[k] == retired[at[k]].fill.data[..retired[at[k]].fill.len])
      && (forall j :: 0 <= j < 256 && r.descs[j].own ==>
            (r.descs[j].wrap <==> j == 255) && r.descs[j].len == 1536)
  {
    RingRefinesFifo(s, NO_FRAMES, es);
    var q := NO_FRAMES.Run(es);
    AccountCounts(q.Retirements());
    DeliveredInOrder(q.Retirements());
    DeliverablePositions(q.Retirements());
    CountersByKind(q.Retirements());
    var r := s.Run(es);
    forall j | 0 <= j < 256 && r.descs[j].own
      ensures (r.descs[j].wrap <==> j == 255) && r.descs[j].len == 1536
    {
      WrapOfEmpty(r, q.Pending(), j);
    }
  }

  // ---------- the code ----------

  function HwFills(fills: seq<Fill>): (es: seq<Event>)
    ensures |es| == |fills|
  {
    seq(|fills|, i requires 0 <= i < |fills| => HwFill(fills[i]))
  }

  lemma OfferOneMore(q: Fifo, front: seq<Fill>, fill: Fill)
    requires q.Valid()
    ensures q.Offer(front + [fill]) == q.Offer(front).Step(HwFill(fill))
  {
  }

  lemma {:induction false} OfferIsRun(q: Fifo, fills: seq<Fill>)
    requires q.Valid()
    ensures q.Offer(fills) == q.Run(HwFills(fills))
  {
    if fills == [] {
      assert q.accepted + [] == q.accepted;
    } else {
      var n := |fills| - 1;
      assert fills == fills[..n] + [fills[n]];
      OfferIsRun(q, fills[..n]);
      OfferOneMore(q, fills[..n], fills[n]);
      assert HwFills(fills)[..n] == HwFills(fills[..n]);
    }
  }

  // What an iteration of the loop meets: the fills before its look at the head, and the outcome of its allocation.
  datatype Turn = Turn(fills: seq<Fill>, alloc: bool)

  /** The queue after n iterations that all found the head filled. */
  function Loop(q: Fifo, turns: seq<Turn>, n: nat): (r: Fifo)
    requires q.Valid() && n <= |turns|
    ensures r.Valid()
  {
    if n == 0 then q else Loop(q, turns, n - 1).Offer(turns[n - 1].fills).Step(Clean(turns[n - 1].alloc))
  }

  /** The loop that stops after n retirements: below the budget, more fills come before the look at the empty head. */
  function LoopEnd(q: Fifo, turns: seq<Turn>, n: nat, budget: int): (r: Fifo)
    requires q.Valid() && n <= |turns| && budget <= |turns|
    ensures r.Valid()
  {
    if n < budget then Loop(q, turns, n).Offer(turns[n].fills) else Loop(q, turns, n)
  }

  function TurnEvents(t: Turn): seq<Event> {
    HwFills(t.fills) + [Clean(t.alloc)]
  }

  function LoopTrace(turns: seq<Turn>, n: nat): seq<Event>
    requires n <= |turns|
  {
    if n == 0 then [] else LoopTrace(turns, n - 1) + TurnEvents(turns[n - 1])
  }

  lemma TurnIsRun(q: Fifo, t: Turn)
    requires q.Valid()
    ensures q.Offer(t.fills).Step(Clean(t.alloc)) == q.Run(TurnEvents(t))
  {
    OfferIsRun(q, t.fills);
    assert TurnEvents(t)[..|t.fills|] == HwFills(t.fills);
  }

  /** The loop is one of the interleavings of fills and iterations. */
  lemma {:induction false} LoopIsRun(q: Fifo, turns: seq<Turn>, n: nat)
    requires q.Valid() && n <= |turns|
    ensures Loop(q, turns, n) == q.Run(LoopTrace(turns, n))
  {
    if n > 0 {
      LoopIsRun(q, turns, n - 1);
      TurnIsRun(Loop(q, turns, n - 1), turns[n - 1]);
      FifoRunAppend(q, LoopTrace(turns, n - 1), TurnEvents(turns[n - 1]));
    }
  }

  function FirstOutcomes(turns: seq<Turn>, n: nat): (bs: seq<bool>)
    requires n <= |turns|
    ensures |bs| == n && forall i :: 0 <= i < n ==> bs[i] == turns[i].alloc
  {
    seq(n, i requires 0 <= i < n && n <= |turns| => turns[i].alloc)
  }

  /** A loop that has retired n descriptors has given the i-th one the outcome of allocation i. */
  lemma {:induction false} LoopFollowsAllocations(q: Fifo, turns: seq<Turn>, n: nat, budget: int)
    requires q.Valid() && n <= |turns| && budget <= |turns|
    ensures var r := LoopEnd(q, turns, n, budget);
      && |r.outcomes| <= |q.outcomes| + n
      && (|r.outcomes| == |q.outcomes| + n ==> r.outcomes == q.outcomes + FirstOutcomes(turns, n))
  {
    if n > 0 {
      LoopFollowsAllocations(q, turns, n - 1, n);
      assert FirstOutcomes(turns, n) == FirstOutcomes(turns, n - 1) + [turns[n - 1].alloc];
    }
  }

  /** The queue when a poll that retired n descriptors has done with the ring. */
  function PollEnd(q: Fifo, budget: int, enableRx: bool, turns: seq<Turn>, n: nat): (r: Fifo)
    requires q.Valid() && n <= |turns| && budget <= |turns|
    ensures r.Valid()
  {
    if enableRx then LoopEnd(q, turns, n, budget) else q
  }

  class Receiver {
    const descs: array<Desc>
    const bufs: array<Buffer>
    var rxIdx: nat
    var hwIdx: nat          // the hardware's own pointer
    var account: Account    // rx_packets, rx_bytes, rx_dropped, rx_errors, and the frames passed up
    ghost var queue: Fifo

    ghost function State(): Ring
      reads this, descs, bufs
    {
      Ring(descs[..], bufs[..], rxIdx, hwIdx, account)
    }

    ghost predicate Valid()
      reads this, descs, bufs
    {
      State().Holds(queue)
    }

    /** mts_setup_rings: all buffers empty, WRAP on the last one, both indices at 0. */
    constructor ()
      ensures Valid() && queue == NO_FRAMES && fresh(descs) && fresh(bufs)
    {
      descs := new Desc[RING_SIZE](i => Empty(if i >= 0 then i else 0));
      bufs := new Buffer[RING_SIZE](_ => seq(BUF_SIZE, _ => 0));
      rxIdx, hwIdx, account, queue := 0, 0, NOTHING, NO_FRAMES;
      new;
      EmptyShows(State());
    }

    /** A frame arrives. */
    method Fill(fill: Fill)
      requires Valid()
      modifies this, descs, bufs
      ensures Valid() && queue == old(queue).Step(HwFill(fill)) && State() == old(State()).Step(HwFill(fill))
    {
      FillRefines(State(), queue, fill);
      var d := descs[hwIdx];
      if d.own {
        descs[hwIdx] := Desc(false, fill.wrap, fill.len);
        bufs[hwIdx] := fill.data;
        hwIdx := if d.wrap then 0 else hwIdx + 1;
      }
      queue := queue.Step(HwFill(fill));
      assert State() == old(State()).Step(HwFill(fill));
    }

    method FillAll(fills: seq<Fill>)
      requires Valid()
      modifies this, descs, bufs
      ensures Valid() && queue == old(queue).Offer(fills)
    {
      assert old(queue.accepted) + [] == old(queue.accepted);
      for i := 0 to |fills|
        invariant Valid() && queue == old(queue).Offer(fills[..i])
      {
        assert fills[..i + 1] == fills[..i] + [fills[i]];
        OfferOneMore(old(queue), fills[..i], fills[i]);
        Fill(fills[i]);
      }
      assert fills[..|fills|] == fills;
    }

    // The frame at the head is passed up, dropped or counted as an error.
    method Deliver(alloc: bool)
      requires descs.Length == bufs.Length && rxIdx < descs.Length
      modifies this`account
      ensures account == old(account).Add(Retired(Frame(descs[rxIdx].len, descs[rxIdx].wrap, bufs[rxIdx]), alloc))
    {
      var len := descs[rxIdx].len;
      if len > 0 && len <= BUF_SIZE {
        if alloc {
          account := account.(delivered := account.delivered + [bufs[rxIdx][..len]], packets := account.packets + 1,
                              bytes := account.bytes + len);
        } else {
          account := account.(dropped := account.dropped + 1);
        }
      } else {
        account := account.(errors := account.errors + 1);
      }
    }

    // The body of the loop of mts_rx_clean once the head has been seen filled.
    method CleanHead(alloc: bool)
      requires Valid() && queue.Pending() != []
      modifies this, descs
      ensures Valid() && queue == old(queue).Step(Clean(alloc)) && State() == old(State()).Step(Clean(alloc))
    {
      CleanRefines(State(), queue, alloc);
      Deliver(alloc);
      descs[rxIdx] := Desc(true, rxIdx == RING_SIZE - 1, BUF_SIZE);
      rxIdx := (rxIdx + 1) % RING_SIZE;
      queue := queue.Step(Clean(alloc));
      assert State() == old(State()).Step(Clean(alloc));
    }

    // One iteration of the loop of mts_rx_clean, after the fills that come before its look at the head.
    method Iterate(fills: seq<Fill>, alloc: bool) returns (filled: bool)
      requires Valid()
      modifies this, descs, bufs
      ensures Valid()
      ensures var seen := old(queue).Offer(fills);
        && filled == (seen.Pending() != [])
        && queue == (if filled then seen.Step(Clean(alloc)) else seen)
        && (!filled ==> descs[rxIdx].own)
    {
      FillAll(fills);
      CleanRefines(State(), queue, alloc);
      filled := !descs[rxIdx].own;
      if filled {
        CleanHead(alloc);
      }
    }

    /** mts_rx_clean, meeting turns[i] in iteration i. Fewer than budget means the head was seen empty. */
    method RxClean(budget: int, turns: seq<Turn>) returns (cleaned: nat)
      requires Valid() && budget <= |turns|
      modifies this, descs, bufs
      ensures Valid() && cleaned <= if budget > 0 then budget else 0
      ensures queue == LoopEnd(old(queue), turns, cleaned, budget)
      ensures |queue.outcomes| == |old(queue).outcomes| + cleaned
      ensures cleaned < budget ==> descs[rxIdx].own && queue.Pending() == []
    {
      cleaned := 0;
      while cleaned < budget
        invariant cleaned <= if budget > 0 then budget else 0
        invariant Valid() && queue == Loop(old(queue), turns, cleaned)
        invariant |queue.outcomes| == |old(queue).outcomes| + cleaned
      {
        var filled := Iterate(turns[cleaned].fills, turns[cleaned].alloc);
        if !filled {
          return;
        }
        cleaned := cleaned + 1;
      }
    }

    /** mts_poll: fewer than budget means polling was completed. Then the head was seen empty exactly when receiving is
        enabled or nothing was waiting anyway; without receiving the ring is not touched. Frames may arrive later. */
    method Poll(budget: int, enableRx: bool, turns: seq<Turn>, late: seq<Fill>) returns (done: nat, completed: bool)
      requires Valid() && 0 <= budget <= |turns|
      modifies this, descs, bufs
      ensures Valid() && done <= budget
      ensures queue == PollEnd(old(queue), budget, enableRx, turns, done).Offer(late)
      ensures completed <==> done < budget
      ensures |queue.outcomes| == |old(queue).outcomes| + done
      ensures !enableRx ==> done == 0
      ensures completed ==>
        (PollEnd(old(queue), budget, enableRx, turns, done).Pending() == [] <==> enableRx || old(queue).Pending() == [])
    {
      var rxDone := 0;
      if enableRx {
        rxDone := RxClean(budget, turns);
      }
      FillAll(late);
      if rxDone < budget {
        return rxDone, true;
      }
      return budget, false;
    }
  }

  /** Receiving disabled: any frame that waits is still waiting after a poll that reports completion with 0 done. */
  method PollMissesFrame(fill: Fill, budget: int) returns (rx: Receiver, done: nat, completed: bool)
    requires budget >= 1
    ensures fresh(rx) && rx.Valid() && completed && done == 0
    ensures rx.queue.Pending() == [fill] && !rx.descs[rx.rxIdx].own
  {
    rx := new Receiver();
    rx.Fill(fill);
    done, completed := rx.Poll(budget, false, seq(budget, _ => Turn([], true)), []);
    CleanRefines(rx.State(), rx.queue, true);
  }
}
