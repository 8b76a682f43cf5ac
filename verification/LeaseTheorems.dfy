/** What every run of the message store guarantees. */
module LeaseTheorems {
  import opened Wrappers
  import opened MessageTable
  import opened LeaseProtocol

  // ----- steady runs: visibility changes included -----

  ghost predicate SteadyTrail(t: Trail, clock: int, changes: map<nat, Change>) {
    forall i :: 0 <= i < |t.grants| ==> SteadyGrant(t.grants[i], clock, changes)
  }

  ghost predicate SteadyGrant(g: Grant, clock: int, changes: map<nat, Change>) {
    && g.now <= clock && g.now <= g.end
    && forall c :: c in changes && changes[c].handle == g.handle ==> g.now <= changes[c].at
  }

  ghost predicate SteadyInv(s: State) {
    && (forall c :: c in s.receives ==> s.receives[c].now <= s.clock)
    && (forall c :: c in s.changes ==> s.changes[c].handle in s.used)
    && (forall id :: id in s.trails ==> SteadyTrail(s.trails[id], s.clock, s.changes))
  }

  lemma SteadyCommitReceive(s: State, client: nat, drawn: map<RowId, Handle>)
    requires Inv(s) && SteadyInv(s) && Enabled(s, CommitReceive(client, drawn))
    ensures SteadyInv(Apply(s, CommitReceive(client, drawn)))
  {
    var c := s.receives[client];
    var chosen := Takes(s, client);
    forall id | id in chosen
      ensures SteadyTrail(Grants(s.trails, chosen, c, drawn)[id], s.clock, s.changes)
    {
      SteadyAppend(s.trails[id], s.clock, s.changes, Grant(c.now, c.until, c.until, false, drawn[id]));
    }
  }

  lemma SteadyAppend(t: Trail, clock: int, changes: map<nat, Change>, g: Grant)
    requires SteadyTrail(t, clock, changes) && SteadyGrant(g, clock, changes)
    ensures SteadyTrail(t.(grants := t.grants + [g]), clock, changes)
  {
  }

  lemma SteadyMoveEnd(t: Trail, clock: int, changes: map<nat, Change>, client: nat)
    requires SteadyTrail(t, clock, changes) && client in changes
    requires t.grants != [] && t.grants[|t.grants| - 1].handle == changes[client].handle
    ensures SteadyTrail(MoveEnd(t, changes[client].at), clock, changes)
  {
  }

  lemma SteadyCommitChange(s: State, client: nat)
    requires Inv(s) && SteadyInv(s) && client in s.changes
    ensures SteadyInv(Apply(s, CommitChange(client)))
  {
    var c := s.changes[client];
    forall id | id in Holding(s.rows, c.queue, c.handle)
      ensures SteadyTrail(MoveEnd(s.trails[id], c.at), s.clock, s.changes)
    {
      assert RowInv(s.rows[id], s.trails[id]);
      SteadyMoveEnd(s.trails[id], s.clock, s.changes, client);
    }
    var u := Apply(s, CommitChange(client));
    forall id | id in u.trails ensures SteadyTrail(u.trails[id], s.clock, u.changes) {
      assert SteadyTrail(u.trails[id], s.clock, s.changes);
    }
  }

  lemma SteadyBeginChange(s: State, step: Step)
    requires Inv(s) && SteadyInv(s) && step.BeginChange? && Enabled(s, step) && Steady(s, step)
    ensures SteadyInv(Apply(s, step))
  {
  }

  lemma SteadyLaterClock(s: State, clock: int)
    requires SteadyInv(s) && s.clock <= clock
    ensures SteadyInv(s.(clock := clock))
  {
  }

  lemma StepKeepsSteadyInv(s: State, step: Step)
    requires Inv(s) && SteadyInv(s) && Enabled(s, step) && Steady(s, step)
    ensures SteadyInv(Apply(s, step))
  {
    match step
    case Tick(clock) => SteadyLaterClock(s, clock);
    case BeginReceive(_, _, _, _, secondRead) => SteadyLaterClock(s, secondRead);
    case CommitReceive(client, drawn) => SteadyCommitReceive(s, client, drawn);
    case BeginChange(_, _, _, _) => SteadyBeginChange(s, step);
    case CommitChange(client) => SteadyCommitChange(s, client);
    case _ =>
  }

  lemma {:induction false} SteadyRunInv(states: seq<State>, steps: seq<Step>, n: nat)
    requires IsSteadyRun(states, steps) && n < |states|
    ensures SteadyInv(states[n])
    decreases n
  {
    if n != 0 {
      RunInv(states, steps, n - 1);
      SteadyRunInv(states, steps, n - 1);
      StepKeepsSteadyInv(states[n - 1], steps[n - 1]);
    }
  }

  lemma {:induction false} GrantsAscend(r: Row, t: Trail, i: nat, j: nat)
    requires RowInv(r, t) && i < j < |t.grants|
    requires forall k :: 0 <= k < |t.grants| ==> t.grants[k].now <= t.grants[k].end
    ensures t.grants[i].end <= t.grants[j].now
    decreases j
  {
    assert t.grants[j - 1].end <= t.grants[j].now;
    if i < j - 1 {
      GrantsAscend(r, t, i, j - 1);
    }
  }

  lemma SteadyGrantsExclude(states: seq<State>, steps: seq<Step>, n: nat, id: RowId, i: nat, j: nat)
    requires IsSteadyRun(states, steps) && n < |states| && id in states[n].trails
    requires i < j < |states[n].trails[id].grants|
    ensures states[n].trails[id].grants[i].end <= states[n].trails[id].grants[j].now
  {
    RunInv(states, steps, n);
    SteadyRunInv(states, steps, n);
    assert SteadyTrail(states[n].trails[id], states[n].clock, states[n].changes);
    GrantsAscend(states[n].rows[id], states[n].trails[id], i, j);
  }

  lemma SteadyVisibility(s: State, id: RowId)
    requires Inv(s) && SteadyInv(s) && id in s.rows
    ensures s.rows[id].sentAt + s.trails[id].delay * SECOND <= s.rows[id].visibleAt
  {
    var t := s.trails[id];
    assert RowInv(s.rows[id], t) && SteadyTrail(t, s.clock, s.changes);
    if t.grants != [] {
      var last := |t.grants| - 1;
      assert SteadyGrant(t.grants[0], s.clock, s.changes) && SteadyGrant(t.grants[last], s.clock, s.changes);
      if 0 < last { GrantsAscend(s.rows[id], t, 0, last); }
    }
  }

  // ----- only the latest receiver holds the row -----

  ghost predicate Holds(s: State, queue: int, handle: Handle, id: RowId) {
    && id in s.rows && id in s.trails && s.rows[id].queueId == queue
    && s.trails[id].grants != []
    && s.trails[id].grants[|s.trails[id].grants| - 1].handle == handle
  }

  lemma HoldingIffHolds(s: State, queue: int, handle: Handle)
    requires Inv(s)
    ensures forall id :: id in Holding(s.rows, queue, handle) <==> Holds(s, queue, handle, id)
  {
  }

  lemma AtMostOneHolder(s: State, queue: int, handle: Handle)
    requires Inv(s)
    ensures |Holding(s.rows, queue, handle)| <= 1
  {
    var hit := Holding(s.rows, queue, handle);
    HoldingIffHolds(s, queue, handle);
    if hit != {} {
      var a :| a in hit;
      forall b | b in hit ensures b == a { assert Holds(s, queue, handle, a) && Holds(s, queue, handle, b); }
      assert hit == {a};
    }
  }

  lemma MissChangesNothing(s: State, queue: int, handle: Handle, client: nat)
    requires Inv(s) && Holding(s.rows, queue, handle) == {}
    ensures Apply(s, Delete(queue, handle)) == s
    ensures client in s.changes && s.changes[client].queue == queue && s.changes[client].handle == handle ==>
              Apply(s, CommitChange(client)) == s.(changes := s.changes - {client})
  {
    RemoveNothing(s);
    if client in s.changes && s.changes[client].queue == queue && s.changes[client].handle == handle {
      MoveNothing(s, s.changes[client].at);
    }
  }

  lemma RemoveNothing(s: State)
    ensures Remove(s, {}) == s
  {
    assert s.rows - {} == s.rows && s.trails - {} == s.trails;
  }

  lemma MoveNothing(s: State, at: int)
    ensures SetVisible(s.rows, {}, at) == s.rows && MoveEnds(s.trails, {}, at) == s.trails
  {
  }

  ghost predicate Unheld(t: Table, handle: Handle) {
    forall id :: id in t ==> t[id].handle != Some(handle)
  }

  // Handed out, and held by no row.
  ghost predicate Dead(s: State, handle: Handle) {
    handle in s.used && Unheld(s.rows, handle)
  }

  lemma StepKeepsDead(s: State, step: Step, handle: Handle)
    requires Enabled(s, step) && Dead(s, handle)
    ensures Dead(Apply(s, step), handle)
  {
  }

  lemma RunStepKeepsDead(states: seq<State>, steps: seq<Step>, k: nat, handle: Handle)
    requires IsRun(states, steps) && k < |steps| && Dead(states[k], handle)
    ensures Dead(states[k + 1], handle)
  {
    StepKeepsDead(states[k], steps[k], handle);
  }

  /** A handle that was handed out and is held by no row, superseded or deleted, never matches again. */
  lemma DeadHandlesStayDead(states: seq<State>, steps: seq<Step>, m: nat, n: nat, handle: Handle)
    requires IsRun(states, steps) && m <= n < |states|
    requires Dead(states[m], handle)
    ensures Dead(states[n], handle)
  {
    forall i | m <= i < n && Dead(states[i], handle) ensures Dead(states[i + 1], handle) {
      RunStepKeepsDead(states, steps, i, handle);
    }
    DeadChain(states, m, n, handle);
  }

  lemma {:induction false} DeadChain(states: seq<State>, m: nat, n: nat, handle: Handle)
    requires m <= n < |states| && Dead(states[m], handle)
    requires forall i :: m <= i < n && Dead(states[i], handle) ==> Dead(states[i + 1], handle)
    ensures Dead(states[n], handle)
    decreases n
  {
    if m < n {
      DeadChain(states, m, n - 1, handle);
      assert Dead(states[n - 1 + 1], handle);
    }
  }

  // ----- counts -----

  /** At one instant the live messages of a queue are the visible, the delayed and the in-flight ones. */
  lemma CountsPartition(states: seq<State>, steps: seq<Step>, n: nat, queue: int, now: int)
    requires IsRun(states, steps) && n < |states|
    ensures var t := states[n].rows;
            |Live(t, queue, now)| == |EligibleIds(t, queue, now)| + |Delayed(t, queue, now)| + |InFlight(t, queue, now)|
  {
    var t := states[n].rows;
    RunInv(states, steps, n);
    forall id | id in t ensures t[id].handle == None <==> t[id].receiveCount <= 0 {
      assert RowInv(t[id], states[n].trails[id]);
    }
    LiveSplits(t, queue, now);
  }

  lemma LiveSplits(t: Table, queue: int, now: int)
    requires forall id :: id in t ==> (t[id].handle == None <==> t[id].receiveCount <= 0)
    ensures |Live(t, queue, now)| == |EligibleIds(t, queue, now)| + |Delayed(t, queue, now)| + |InFlight(t, queue, now)|
  {
    var visible, delayed, inFlight := EligibleIds(t, queue, now), Delayed(t, queue, now), InFlight(t, queue, now);
    assert Live(t, queue, now) == visible + delayed + inFlight;
    assert visible !! delayed && (visible + delayed) !! inFlight;
  }

  // ----- queues do not disturb each other, and only removal removes -----

  ghost predicate Addresses(s: State, step: Step, queue: int) {
    match step
    case Enqueue(target, _, _, _, _, _) => target.id == queue
    case CommitReceive(client, _) => client in s.receives && s.receives[client].queue == queue
    case CommitChange(client) => client in s.changes && s.changes[client].queue == queue
    case Delete(q, _) => q == queue
    case DeleteById(q, _) => q == queue
    case Purge(q) => q == queue
    case _ => false
  }

  function RowsOf(t: Table, queue: int): Table {
    map id | id in t && t[id].queueId == queue :: t[id]
  }

  lemma StepIsolation(s: State, step: Step, queue: int)
    requires Enabled(s, step) && !Addresses(s, step, queue)
    ensures RowsOf(Apply(s, step).rows, queue) == RowsOf(s.rows, queue)
  {
    var t, u := s.rows, Apply(s, step).rows;
    forall id ensures id in RowsOf(t, queue) <==> id in RowsOf(u, queue) {
      if step.Enqueue? { assert step.id !in t; }
    }
    forall id | id in RowsOf(t, queue) ensures u[id] == t[id] {
    }
  }

  ghost predicate SameRows(s: State, u: State, queue: int) {
    RowsOf(u.rows, queue) == RowsOf(s.rows, queue)
  }

  lemma RunStepIsolation(states: seq<State>, steps: seq<Step>, i: nat, queue: int)
    requires IsRun(states, steps) && i < |steps|
    requires !Addresses(states[i], steps[i], queue)
    ensures SameRows(states[i], states[i + 1], queue)
  {
    StepIsolation(states[i], steps[i], queue);
  }

  lemma {:induction false} SameRowsChain(states: seq<State>, m: nat, n: nat, queue: int)
    requires m <= n < |states|
    requires forall i :: m <= i < n ==> SameRows(states[i], states[i + 1], queue)
    ensures SameRows(states[m], states[n], queue)
    decreases n
  {
    if m < n {
      SameRowsChain(states, m, n - 1, queue);
      assert SameRows(states[n - 1], states[n - 1 + 1], queue);
    }
  }

  /** As long as no step addresses a queue, its rows stay exactly as they are. */
  lemma QueueIsolation(states: seq<State>, steps: seq<Step>, m: nat, n: nat, queue: int)
    requires IsRun(states, steps) && m <= n < |states|
    requires forall i :: m <= i < n ==> !Addresses(states[i], steps[i], queue)
    ensures RowsOf(states[n].rows, queue) == RowsOf(states[m].rows, queue)
  {
    forall i | m <= i < n ensures SameRows(states[i], states[i + 1], queue) {
      RunStepIsolation(states, steps, i, queue);
    }
    SameRowsChain(states, m, n, queue);
  }

  predicate Removes(step: Step) {
    step.Delete? || step.DeleteById? || step.Purge?
  }

  ghost predicate SameMessage(r: Row, u: Row) {
    && r.queueId == u.queueId && r.messageId == u.messageId && r.body == u.body
    && r.sentAt == u.sentAt && r.expiresAt == u.expiresAt && r.receiveCount <= u.receiveCount
  }

  /** Without a delete or a purge a message stays in the table, expired or not, and keeps its content. */
  lemma {:induction false} OnlyRemovalRemoves(states: seq<State>, steps: seq<Step>, m: nat, n: nat, id: RowId)
    requires IsRun(states, steps) && m <= n < |states| && id in states[m].rows
    requires forall i :: m <= i < n ==> !Removes(steps[i])
    ensures id in states[n].rows && SameMessage(states[m].rows[id], states[n].rows[id])
    decreases n
  {
    if m < n {
      OnlyRemovalRemoves(states, steps, m, n - 1, id);
    }
  }
}
