/**
 What a client asked for and what it gets: the queue, the limit, the clock readings and the timeouts
 of the requests of a run decide, to the nanosecond, when a message can be received.
 */
module LeaseRequests {
  import opened Wrappers
  import opened MessageTable
  import opened LeaseProtocol
  import opened LeaseTheorems
  import opened LeaseHistory

  // ----- the request behind a pending receive or change -----

  // The step that began the receive which the client has pending in state n.
  ghost function ReceiveBegun(states: seq<State>, steps: seq<Step>, n: nat, client: nat): (b: nat)
    requires IsRun(states, steps) && n < |states| && client in states[n].receives
    ensures b < n
    decreases n
  {
    if client in states[n - 1].receives then ReceiveBegun(states, steps, n - 1, client) else n - 1
  }

  ghost function ChangeBegun(states: seq<State>, steps: seq<Step>, n: nat, client: nat): (b: nat)
    requires IsRun(states, steps) && n < |states| && client in states[n].changes
    ensures b < n
    decreases n
  {
    if client in states[n - 1].changes then ChangeBegun(states, steps, n - 1, client) else n - 1
  }

  // The receive is the one that the step asked for, begun when the clock read `clock`.
  ghost predicate AskedBy(c: Receive, step: Step, client: nat, clock: int) {
    && step.BeginReceive? && step.client == client
    && c.queue == step.queue && c.limit == step.limit && c.now == clock
    && c.until == step.secondRead + step.timeout * 1_000_000_000
  }

  ghost predicate ChangeAskedBy(c: Change, step: Step, client: nat, clock: int) {
    && step.BeginChange? && step.client == client
    && c.queue == step.queue && c.handle == step.handle
    && c.at == clock + step.timeout * 1_000_000_000
  }

  lemma StepKeepsReceive(s: State, step: Step, client: nat)
    requires Enabled(s, step) && client in Apply(s, step).receives
    ensures if client in s.receives then Apply(s, step).receives[client] == s.receives[client]
            else AskedBy(Apply(s, step).receives[client], step, client, s.clock)
    ensures client in s.receives ==> !ConcernsReceive(step, client)
  {
  }

  lemma StepKeepsChange(s: State, step: Step, client: nat)
    requires Enabled(s, step) && client in Apply(s, step).changes
    ensures if client in s.changes then Apply(s, step).changes[client] == s.changes[client]
            else ChangeAskedBy(Apply(s, step).changes[client], step, client, s.clock)
    ensures client in s.changes ==> !ConcernsChange(step, client)
  {
  }

  // The step begins, commits or gives up a receive of the client.
  predicate ConcernsReceive(step: Step, client: nat) {
    (step.BeginReceive? || step.CommitReceive? || step.AbortReceive?) && step.client == client
  }

  predicate ConcernsChange(step: Step, client: nat) {
    (step.BeginChange? || step.CommitChange?) && step.client == client
  }

  /** A pending receive is what its client last asked for, and no step since concerns it. */
  lemma {:induction false} PendingReceiveIsAsked(states: seq<State>, steps: seq<Step>, n: nat, client: nat)
    requires IsRun(states, steps) && n < |states| && client in states[n].receives
    ensures var b := ReceiveBegun(states, steps, n, client);
            && AskedBy(states[n].receives[client], steps[b], client, states[b].clock)
            && forall k :: b < k < n ==> !ConcernsReceive(steps[k], client)
    decreases n
  {
    StepKeepsReceive(states[n - 1], steps[n - 1], client);
    if client in states[n - 1].receives { PendingReceiveIsAsked(states, steps, n - 1, client); }
  }

  lemma {:induction false} PendingChangeIsAsked(states: seq<State>, steps: seq<Step>, n: nat, client: nat)
    requires IsRun(states, steps) && n < |states| && client in states[n].changes
    ensures var b := ChangeBegun(states, steps, n, client);
            && ChangeAskedBy(states[n].changes[client], steps[b], client, states[b].clock)
            && forall k :: b < k < n ==> !ConcernsChange(steps[k], client)
    decreases n
  {
    StepKeepsChange(states[n - 1], steps[n - 1], client);
    if client in states[n - 1].changes { PendingChangeIsAsked(states, steps, n - 1, client); }
  }

  // ----- what a receive and a change do to a row -----

  // The request of the receive that step p commits.
  ghost function RequestOf(states: seq<State>, steps: seq<Step>, p: nat): (b: nat)
    requires IsRun(states, steps) && p < |steps| && steps[p].CommitReceive?
    ensures b < p
  {
    ReceiveBegun(states, steps, p, steps[p].client)
  }

  ghost function ChangeRequestOf(states: seq<State>, steps: seq<Step>, p: nat): (b: nat)
    requires IsRun(states, steps) && p < |steps| && steps[p].CommitChange?
    ensures b < p
  {
    ChangeBegun(states, steps, p, steps[p].client)
  }

  /**
   A receive takes messages of the queue it asked for that are visible and not expired at its first
   clock reading, and hides each for the requested timeout from its second.
   */
  lemma ReceiveDoesWhatWasAsked(states: seq<State>, steps: seq<Step>, p: nat, id: RowId)
    requires IsRun(states, steps) && p < |steps| && Returns(states[p], steps[p], id)
    ensures var b := RequestOf(states, steps, p); var now := states[b].clock; var r := states[p].rows[id];
            && steps[b].BeginReceive? && steps[b].client == steps[p].client
            && (forall k :: b < k < p ==> !ConcernsReceive(steps[k], steps[p].client))
            && ReceiveAt(states[p], steps[p]).now == now
            && r.queueId == steps[b].queue && r.visibleAt <= now < r.expiresAt
            && id in states[p + 1].rows
            && states[p + 1].rows[id] ==
               r.(visibleAt := steps[b].secondRead + steps[b].timeout * 1_000_000_000,
                  handle := Some(steps[p].drawn[id]),
                  receiveCount := r.receiveCount + 1,
                  firstReceivedAt := Some(if r.firstReceivedAt.Some? then r.firstReceivedAt.value else now))
  {
    PendingReceiveIsAsked(states, steps, p, steps[p].client);
    LeasedRow(states[p], steps[p], id);
  }

  lemma LeasedRow(s: State, step: Step, id: RowId)
    requires Enabled(s, step) && Returns(s, step, id)
    ensures var c := ReceiveAt(s, step);
            && id in s.rows && Eligible(s.rows[id], c.queue, c.now)
            && id in Apply(s, step).rows && Apply(s, step).rows[id] == Lease(s.rows[id], c.now, c.until, step.drawn[id])
  {
  }

  /** A visibility change reaches the row of its queue with its handle, and hides it for the requested timeout. */
  lemma ChangeDoesWhatWasAsked(states: seq<State>, steps: seq<Step>, p: nat, id: RowId)
    requires IsRun(states, steps) && p < |steps| && steps[p].CommitChange? && id in states[p].rows
    ensures var b := ChangeRequestOf(states, steps, p); var r := states[p].rows[id];
            && steps[b].BeginChange? && steps[b].client == steps[p].client
            && (forall k :: b < k < p ==> !ConcernsChange(steps[k], steps[p].client))
            && (Moves(states[p], steps[p], id) <==> r.queueId == steps[b].queue && r.handle == Some(steps[b].handle))
            && id in states[p + 1].rows
            && states[p + 1].rows[id] ==
               if Moves(states[p], steps[p], id)
               then r.(visibleAt := states[b].clock + steps[b].timeout * 1_000_000_000) else r
  {
    PendingChangeIsAsked(states, steps, p, steps[p].client);
  }

  // ----- when a message can be received -----

  // From m up to n the row is in the table, and no step returns it or moves its visibility.
  ghost predicate Untouched(states: seq<State>, steps: seq<Step>, id: RowId, m: nat, n: nat)
    requires IsRun(states, steps) && n <= |steps|
  {
    && Stays(states, id, m, n) && Quiet(states, steps, id, m, n)
    && forall k :: m <= k < n ==> !Returns(states[k], steps[k], id)
  }

  lemma StepKeepsUntouched(s: State, step: Step, id: RowId)
    requires Enabled(s, step) && id in s.rows && id in Apply(s, step).rows
    requires !Returns(s, step, id) && !Moves(s, step, id)
    ensures Apply(s, step).rows[id] == s.rows[id]
  {
  }

  lemma RunStepKeepsUntouched(states: seq<State>, steps: seq<Step>, id: RowId, k: nat)
    requires IsRun(states, steps) && k < |steps| && id in states[k].rows && id in states[k + 1].rows
    requires !Returns(states[k], steps[k], id) && !Moves(states[k], steps[k], id)
    ensures states[k + 1].rows[id] == states[k].rows[id]
  {
    StepKeepsUntouched(states[k], steps[k], id);
  }

  lemma {:induction false} UntouchedRow(states: seq<State>, steps: seq<Step>, id: RowId, m: nat, n: nat)
    requires IsRun(states, steps) && m <= n <= |steps| && Untouched(states, steps, id, m, n)
    ensures states[n].rows[id] == states[m].rows[id]
    decreases n
  {
    if m < n {
      UntouchedRow(states, steps, id, m, n - 1);
      RunStepKeepsUntouched(states, steps, id, n - 1);
    }
  }

  // In this state a receive with the first clock reading `time` may take the row exactly from `from` to `to`.
  ghost predicate ReceivableWithin(s: State, id: RowId, queue: int, from: int, to: int) {
    forall time, limit ::
      (limit < 0 ==> (id in Selected(s.rows, queue, time, limit) <==> from <= time < to))
      && (id in Selected(s.rows, queue, time, limit) ==> from <= time < to)
  }

  lemma ReceivableRow(s: State, id: RowId, queue: int, from: int, to: int)
    requires id in s.rows && s.rows[id].queueId == queue && s.rows[id].visibleAt == from && s.rows[id].expiresAt == to
    ensures ReceivableWithin(s, id, queue, from, to)
  {
  }

  // The end of the retention of the row in state n.
  ghost function RetainedUntil(states: seq<State>, steps: seq<Step>, n: nat, id: RowId): int
    requires IsRun(states, steps) && n < |states| && id in states[n].rows
  {
    var birth := steps[BornAt(states, steps, n, id)];
    if birth.Enqueue? then birth.date + birth.target.retentionSeconds * 1_000_000_000 else 0
  }

  lemma ExpiryIsRetention(states: seq<State>, steps: seq<Step>, n: nat, id: RowId)
    requires IsRun(states, steps) && n < |states| && id in states[n].rows
    ensures states[n].rows[id].expiresAt == RetainedUntil(states, steps, n, id)
  {
    RunInv(states, steps, n);
    BornByEnqueue(states, steps, n, id);
    assert RowInv(states[n].rows[id], states[n].trails[id]);
  }

  // The delay that an enqueue resolves to: its own, or else that of the queue.
  function DelayOf(birth: Step): int
    requires birth.Enqueue?
  {
    if birth.requested.Some? then birth.requested.value else birth.target.delaySeconds
  }

  /**
   From its insertion until a receive or a change touches it, a message can be received exactly from
   sent + delay until sent + retention.
   */
  lemma NewMessageReceivable(states: seq<State>, steps: seq<Step>, n: nat, id: RowId)
    requires IsRun(states, steps) && n < |states| && id in states[n].rows
    requires Untouched(states, steps, id, BornAt(states, steps, n, id) + 1, n)
    ensures var birth := steps[BornAt(states, steps, n, id)];
            && birth.Enqueue? && 0 <= DelayOf(birth) <= 900
            && ReceivableWithin(states[n], id, birth.target.id, birth.date + DelayOf(birth) * 1_000_000_000,
                                birth.date + birth.target.retentionSeconds * 1_000_000_000)
  {
    var b := BornAt(states, steps, n, id);
    InsertedBy(states, steps, n, id);
    UntouchedRow(states, steps, id, b + 1, n);
    var r := states[n].rows[id];
    ReceivableRow(states[n], id, r.queueId, r.visibleAt, r.expiresAt);
  }

  // The row as the enqueue made it.
  ghost predicate Inserts(step: Step, r: Row) {
    && step.Enqueue? && 0 <= DelayOf(step) <= 900
    && r == Row(step.target.id, step.messageId, step.body, step.date, step.date + DelayOf(step) * 1_000_000_000,
                step.date + step.target.retentionSeconds * 1_000_000_000, 0, None, None)
  }

  lemma {:induction false} InsertedBy(states: seq<State>, steps: seq<Step>, n: nat, id: RowId)
    requires IsRun(states, steps) && n < |states| && id in states[n].rows
    ensures var b := BornAt(states, steps, n, id);
            id in states[b + 1].rows && Inserts(steps[b], states[b + 1].rows[id])
    decreases n
  {
    if id in states[n - 1].rows {
      InsertedBy(states, steps, n - 1, id);
    } else {
      InsertedRow(states[n - 1], steps[n - 1], id);
    }
  }

  lemma InsertedRow(s: State, step: Step, id: RowId)
    requires Enabled(s, step) && id !in s.rows && id in Apply(s, step).rows
    ensures Inserts(step, Apply(s, step).rows[id])
  {
  }

  /**
   From a receive that returned it until the next receive or change touches it, a message can be
   received exactly from the second clock reading of that receive plus the timeout it asked for.
   */
  lemma ReceivedMessageReceivable(states: seq<State>, steps: seq<Step>, p: nat, n: nat, id: RowId)
    requires IsRun(states, steps) && p < n <= |steps| && Returns(states[p], steps[p], id)
    requires Untouched(states, steps, id, p + 1, n)
    ensures var b := RequestOf(states, steps, p);
            && steps[b].BeginReceive?
            && ReceivableWithin(states[n], id, steps[b].queue,
                                steps[b].secondRead + steps[b].timeout * 1_000_000_000,
                                RetainedUntil(states, steps, n, id))
  {
    ReceiveDoesWhatWasAsked(states, steps, p, id);
    UntouchedRow(states, steps, id, p + 1, n);
    ExpiryIsRetention(states, steps, n, id);
    var r := states[n].rows[id];
    ReceivableRow(states[n], id, r.queueId, r.visibleAt, r.expiresAt);
  }

  /** The same after a visibility change, from the clock reading of the change plus the timeout it asked for. */
  lemma ChangedMessageReceivable(states: seq<State>, steps: seq<Step>, p: nat, n: nat, id: RowId)
    requires IsRun(states, steps) && p < n <= |steps| && Moves(states[p], steps[p], id)
    requires Untouched(states, steps, id, p + 1, n)
    ensures var b := ChangeRequestOf(states, steps, p);
            && steps[b].BeginChange?
            && ReceivableWithin(states[n], id, steps[b].queue,
                                states[b].clock + steps[b].timeout * 1_000_000_000,
                                RetainedUntil(states, steps, n, id))
  {
    ChangeDoesWhatWasAsked(states, steps, p, id);
    UntouchedRow(states, steps, id, p + 1, n);
    ExpiryIsRetention(states, steps, n, id);
    var r := states[n].rows[id];
    ReceivableRow(states[n], id, r.queueId, r.visibleAt, r.expiresAt);
  }

  // ----- the timeout is kept -----

  // A time in the window that the request asks for: from its first clock reading, for its timeout from the second.
  ghost predicate InWindow(time: int, step: Step, clock: int) {
    step.BeginReceive? && clock <= time < step.secondRead + step.timeout * 1_000_000_000
  }

  /**
   In every run, however the receivers interleave, however stale their clock readings and however the
   clock jumps: of two receives that return the same row, with the row in the table and no visibility
   change of it in between, the later reads the clock at or after the end of the timeout that the
   earlier asked for, so the windows they asked for are disjoint.
   */
  lemma LeaseExclusion(states: seq<State>, steps: seq<Step>, p: nat, q: nat, id: RowId)
    requires IsRun(states, steps) && p < q < |steps|
    requires Returns(states[p], steps[p], id) && Returns(states[q], steps[q], id)
    requires Stays(states, id, p, q) && Quiet(states, steps, id, p, q)
    ensures var b, c := RequestOf(states, steps, p), RequestOf(states, steps, q);
            && steps[b].BeginReceive? && steps[c].BeginReceive?
            && steps[b].secondRead + steps[b].timeout * 1_000_000_000 <= states[c].clock
            && forall time :: !(InWindow(time, steps[b], states[b].clock) && InWindow(time, steps[c], states[c].clock))
  {
    ReceiveDoesWhatWasAsked(states, steps, p, id);
    ReceiveDoesWhatWasAsked(states, steps, q, id);
    WindowsExclude(states, steps, p, q, id);
    PendingReceiveIsAsked(states, steps, p, steps[p].client);
  }

  /** After a visibility change likewise: the next receive waits for the timeout that the change asked for. */
  lemma ChangedTimeoutIsKept(states: seq<State>, steps: seq<Step>, p: nat, q: nat, id: RowId)
    requires IsRun(states, steps) && p < q < |steps|
    requires Moves(states[p], steps[p], id) && Returns(states[q], steps[q], id)
    requires Stays(states, id, p, q) && Quiet(states, steps, id, p + 1, q)
    ensures var b, c := ChangeRequestOf(states, steps, p), RequestOf(states, steps, q);
            && steps[b].BeginChange? && steps[c].BeginReceive?
            && states[b].clock + steps[b].timeout * 1_000_000_000 <= states[c].clock
  {
    ChangeDoesWhatWasAsked(states, steps, p, id);
    ReceiveDoesWhatWasAsked(states, steps, q, id);
    VisibilityGrows(states, steps, p + 1, q, id);
  }

  // ----- message ids -----

  ghost predicate OneRowEach(t: Table) {
    forall a, b :: a in t && b in t && t[a].messageId == t[b].messageId ==> a == b
  }

  lemma StepKeepsOneRowEach(s: State, step: Step)
    requires Enabled(s, step) && OneRowEach(s.rows)
    ensures OneRowEach(Apply(s, step).rows)
  {
    var u := Apply(s, step).rows;
    forall a, b | a in u && b in u && u[a].messageId == u[b].messageId ensures a == b {
      if a in s.rows { StepKeepsContent(s, step, a); }
      if b in s.rows { StepKeepsContent(s, step, b); }
    }
  }

  /** In every reachable state a message id names at most one row. */
  lemma {:induction false} MessageIdsUnique(states: seq<State>, steps: seq<Step>, n: nat, a: RowId, b: RowId)
    requires IsRun(states, steps) && n < |states|
    requires a in states[n].rows && b in states[n].rows
    requires states[n].rows[a].messageId == states[n].rows[b].messageId
    ensures a == b
  {
    OneRowEachRun(states, steps, n);
  }

  lemma {:induction false} OneRowEachRun(states: seq<State>, steps: seq<Step>, n: nat)
    requires IsRun(states, steps) && n < |states|
    ensures OneRowEach(states[n].rows)
    decreases n
  {
    if n != 0 {
      OneRowEachRun(states, steps, n - 1);
      StepKeepsOneRowEach(states[n - 1], steps[n - 1]);
    }
  }
}
