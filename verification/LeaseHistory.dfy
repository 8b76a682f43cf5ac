/**
 The history of a row read off the steps of a run: which steps inserted it, returned it and moved
 its visibility.  The theorems here mention only states and steps.
 */
module LeaseHistory {
  import opened Wrappers
  import opened MessageTable
  import opened LeaseProtocol
  import opened LeaseTheorems

  // ----- steps that concern a row -----

  ghost predicate Returns(s: State, step: Step, id: RowId)
    requires Enabled(s, step)
  {
    step.CommitReceive? && id in Takes(s, step.client)
  }

  ghost predicate Moves(s: State, step: Step, id: RowId)
    requires Enabled(s, step)
  {
    step.CommitChange? && id in Holding(s.rows, s.changes[step.client].queue, s.changes[step.client].handle)
  }

  // The receive that a step commits.
  function ReceiveAt(s: State, step: Step): Receive
    requires step.CommitReceive? && step.client in s.receives
  {
    s.receives[step.client]
  }

  ghost predicate Stays(states: seq<State>, id: RowId, m: nat, n: nat)
    requires n < |states|
  {
    forall k :: m <= k <= n ==> id in states[k].rows
  }

  // No step from m up to n is a visibility change that reaches the row.
  ghost predicate Quiet(states: seq<State>, steps: seq<Step>, id: RowId, m: nat, n: nat)
    requires IsRun(states, steps) && n <= |steps|
  {
    forall k :: m <= k < n ==> !Moves(states[k], steps[k], id)
  }

  // ----- leases exclude each other -----

  lemma StepDelaysVisibility(s: State, step: Step, id: RowId)
    requires Inv(s) && Enabled(s, step) && id in s.rows && id in Apply(s, step).rows && !Moves(s, step, id)
    ensures s.rows[id].visibleAt <= Apply(s, step).rows[id].visibleAt
  {
    if step.CommitReceive? {
      ReceiveDelaysVisibility(s, step, id);
    } else if step.CommitChange? {
      MissKeepsRow(s, step, id);
    } else {
      OtherStepsKeepRow(s, step, id);
    }
  }

  lemma ReceiveDelaysVisibility(s: State, step: Step, id: RowId)
    requires Inv(s) && Enabled(s, step) && id in s.rows && step.CommitReceive?
    ensures s.rows[id].visibleAt <= Apply(s, step).rows[id].visibleAt
  {
    if id in Takes(s, step.client) {
      assert Eligible(s.rows[id], s.receives[step.client].queue, s.receives[step.client].now);
    }
  }

  lemma MissKeepsRow(s: State, step: Step, id: RowId)
    requires Enabled(s, step) && id in s.rows && step.CommitChange? && !Moves(s, step, id)
    ensures Apply(s, step).rows[id] == s.rows[id]
  {
  }

  lemma OtherStepsKeepRow(s: State, step: Step, id: RowId)
    requires Enabled(s, step) && id in s.rows && id in Apply(s, step).rows
    requires !step.CommitReceive? && !step.CommitChange?
    ensures Apply(s, step).rows[id] == s.rows[id]
  {
  }

  lemma RunStepDelays(states: seq<State>, steps: seq<Step>, k: nat, id: RowId)
    requires IsRun(states, steps) && k < |steps| && id in states[k].rows && id in states[k + 1].rows
    requires !Moves(states[k], steps[k], id)
    ensures states[k].rows[id].visibleAt <= states[k + 1].rows[id].visibleAt
  {
    RunInv(states, steps, k);
    StepDelaysVisibility(states[k], steps[k], id);
  }

  lemma {:induction false} VisibilityGrows(states: seq<State>, steps: seq<Step>, m: nat, n: nat, id: RowId)
    requires IsRun(states, steps) && m <= n <= |steps|
    requires Stays(states, id, m, n) && Quiet(states, steps, id, m, n)
    ensures states[m].rows[id].visibleAt <= states[n].rows[id].visibleAt
    decreases n
  {
    if m < n {
      VisibilityGrows(states, steps, m, n - 1, id);
      RunStepDelays(states, steps, n - 1, id);
    }
  }

  // Two receives that return the same row, the row staying and no visibility change of it in between.
  lemma WindowsExclude(states: seq<State>, steps: seq<Step>, p: nat, q: nat, id: RowId)
    requires IsRun(states, steps) && p < q < |steps|
    requires Returns(states[p], steps[p], id) && Returns(states[q], steps[q], id)
    requires Stays(states, id, p, q) && Quiet(states, steps, id, p, q)
    ensures ReceiveAt(states[p], steps[p]).until <= ReceiveAt(states[q], steps[q]).now
  {
    VisibilityGrows(states, steps, p + 1, q, id);
  }

  // ----- the receives of a row, in order -----

  // The steps before n that returned the row since it was last inserted.
  ghost function Receipts(states: seq<State>, steps: seq<Step>, n: nat, id: RowId): seq<nat>
    requires IsRun(states, steps) && n < |states|
    decreases n
  {
    if n == 0 || id !in states[n - 1].rows then []
    else
      var before := Receipts(states, steps, n - 1, id);
      if Returns(states[n - 1], steps[n - 1], id) then before + [n - 1] else before
  }

  ghost predicate AscendBelow(ks: seq<nat>, n: nat) {
    (forall i :: 0 <= i < |ks| ==> ks[i] < n) && (forall i, j :: 0 <= i < j < |ks| ==> ks[i] < ks[j])
  }

  lemma AscendSnoc(ks: seq<nat>, n: nat)
    requires AscendBelow(ks, n)
    ensures AscendBelow(ks, n + 1) && AscendBelow(ks + [n], n + 1)
  {
  }

  lemma {:induction false} ReceiptsAscend(states: seq<State>, steps: seq<Step>, n: nat, id: RowId)
    requires IsRun(states, steps) && n < |states|
    ensures AscendBelow(Receipts(states, steps, n, id), n)
    decreases n
  {
    if n != 0 && id in states[n - 1].rows {
      ReceiptsAscend(states, steps, n - 1, id);
      AscendSnoc(Receipts(states, steps, n - 1, id), n - 1);
    }
  }

  ghost predicate ReturnedSince(states: seq<State>, steps: seq<Step>, n: nat, id: RowId, k: nat)
    requires IsRun(states, steps) && n < |states|
  {
    k < n && Returns(states[k], steps[k], id) && Stays(states, id, k, n - 1)
  }

  /** They are exactly the steps that returned the row and after which it stayed in the table. */
  lemma {:induction false} ReceiptsAreReturns(states: seq<State>, steps: seq<Step>, n: nat, id: RowId, k: nat)
    requires IsRun(states, steps) && n < |states|
    ensures k in Receipts(states, steps, n, id) <==> ReturnedSince(states, steps, n, id, k)
    decreases n
  {
    if n != 0 {
      ReceiptsAreReturns(states, steps, n - 1, id, k);
    }
  }

  // Where the lease that step k granted ends in state m: at the time of the last visibility change
  // of the row, or where the receive put it.
  ghost function EndAt(states: seq<State>, steps: seq<Step>, k: nat, m: nat, id: RowId): int
    requires IsRun(states, steps) && k < m <= |steps| && Returns(states[k], steps[k], id)
    decreases m
  {
    if m == k + 1 then ReceiveAt(states[k], steps[k]).until
    else if Moves(states[m - 1], steps[m - 1], id) then states[m - 1].changes[steps[m - 1].client].at
    else EndAt(states, steps, k, m - 1, id)
  }

  // The grant says what step k did to the row, and what happened to that lease before state m.
  ghost predicate Tells(states: seq<State>, steps: seq<Step>, id: RowId, g: Grant, k: nat, m: nat)
    requires IsRun(states, steps)
  {
    && k < m <= |steps| && Returns(states[k], steps[k], id)
    && var c := ReceiveAt(states[k], steps[k]);
    && g == Grant(c.now, c.until, EndAt(states, steps, k, m, id),
                  !Quiet(states, steps, id, k + 1, m), steps[k].drawn[id])
  }

  function Next(ks: seq<nat>, i: nat, n: nat): nat {
    if i + 1 < |ks| then ks[i + 1] else n
  }

  ghost predicate TellsAll(states: seq<State>, steps: seq<Step>, id: RowId, grants: seq<Grant>, ks: seq<nat>, n: nat)
    requires IsRun(states, steps)
  {
    && |grants| == |ks|
    && forall i :: 0 <= i < |ks| ==> Tells(states, steps, id, grants[i], ks[i], Next(ks, i, n))
  }

  lemma NewRowHasNoGrants(s: State, step: Step, id: RowId)
    requires Inv(s) && Enabled(s, step) && id !in s.rows && id in Apply(s, step).rows
    ensures id in Apply(s, step).trails && Apply(s, step).trails[id].grants == []
  {
  }

  // What a step does to the grants of a row that it leaves in the table.
  ghost function NextGrants(s: State, step: Step, id: RowId, grants: seq<Grant>): seq<Grant>
    requires Enabled(s, step)
  {
    if Returns(s, step, id) then
      var c := ReceiveAt(s, step);
      grants + [Grant(c.now, c.until, c.until, false, step.drawn[id])]
    else if Moves(s, step, id) && grants != [] then
      var last := |grants| - 1;
      grants[last := grants[last].(end := s.changes[step.client].at, changed := true)]
    else grants
  }

  // The grants of the row after the step.
  ghost predicate Extends(s: State, step: Step, id: RowId)
    requires Enabled(s, step) && id in s.trails
  {
    var u := Apply(s, step);
    id in u.trails && u.trails[id].grants == NextGrants(s, step, id, s.trails[id].grants)
  }

  lemma StepExtendsGrants(s: State, step: Step, id: RowId)
    requires Inv(s) && Enabled(s, step) && id in s.rows && id in Apply(s, step).rows
    ensures Extends(s, step, id)
  {
    if step.CommitReceive? {
      ReceiveExtendsGrants(s, step, id);
    } else if step.CommitChange? {
      ChangeExtendsGrants(s, step, id);
    } else {
      OtherStepsKeepGrants(s, step, id);
    }
  }

  lemma ReceiveExtendsGrants(s: State, step: Step, id: RowId)
    requires Inv(s) && Enabled(s, step) && id in s.rows && step.CommitReceive?
    ensures Extends(s, step, id)
  {
    GrantsOf(s.trails, Takes(s, step.client), ReceiveAt(s, step), step.drawn, id);
  }

  lemma GrantsOf(trails: map<RowId, Trail>, chosen: set<RowId>, c: Receive, drawn: map<RowId, Handle>, id: RowId)
    requires chosen <= drawn.Keys && id in trails
    ensures id in Grants(trails, chosen, c, drawn)
    ensures Grants(trails, chosen, c, drawn)[id].grants ==
            if id in chosen then trails[id].grants + [Grant(c.now, c.until, c.until, false, drawn[id])]
            else trails[id].grants
  {
  }

  lemma ChangeExtendsGrants(s: State, step: Step, id: RowId)
    requires Inv(s) && Enabled(s, step) && id in s.rows && step.CommitChange?
    ensures Extends(s, step, id)
  {
  }

  lemma OtherStepsKeepGrants(s: State, step: Step, id: RowId)
    requires Inv(s) && Enabled(s, step) && id in s.rows && id in Apply(s, step).rows
    requires !step.CommitReceive? && !step.CommitChange?
    ensures Extends(s, step, id)
  {
    OtherStepsKeepTrail(s, step, id);
  }

  lemma OtherStepsKeepTrail(s: State, step: Step, id: RowId)
    requires Inv(s) && Enabled(s, step) && id in s.rows && id in Apply(s, step).rows
    requires !step.CommitReceive? && !step.CommitChange?
    ensures id in Apply(s, step).trails && Apply(s, step).trails[id] == s.trails[id]
  {
  }

  lemma TellsLater(states: seq<State>, steps: seq<Step>, id: RowId, g: Grant, k: nat, m: nat)
    requires IsRun(states, steps) && m < |steps| && Tells(states, steps, id, g, k, m)
    ensures !Moves(states[m], steps[m], id) ==> Tells(states, steps, id, g, k, m + 1)
    ensures Moves(states[m], steps[m], id) ==>
              Tells(states, steps, id, g.(end := states[m].changes[steps[m].client].at, changed := true), k, m + 1)
  {
  }

  lemma TellsNew(states: seq<State>, steps: seq<Step>, id: RowId, m: nat)
    requires IsRun(states, steps) && m < |steps| && Returns(states[m], steps[m], id)
    ensures var c := ReceiveAt(states[m], steps[m]);
            Tells(states, steps, id, Grant(c.now, c.until, c.until, false, steps[m].drawn[id]), m, m + 1)
  {
  }

  lemma TellsAllReceive(states: seq<State>, steps: seq<Step>, id: RowId, grants: seq<Grant>, ks: seq<nat>, m: nat)
    requires IsRun(states, steps) && m < |steps| && TellsAll(states, steps, id, grants, ks, m)
    requires Returns(states[m], steps[m], id)
    ensures TellsAll(states, steps, id, NextGrants(states[m], steps[m], id, grants), ks + [m], m + 1)
  {
    var after, longer := NextGrants(states[m], steps[m], id, grants), ks + [m];
    forall i | 0 <= i < |longer| ensures Tells(states, steps, id, after[i], longer[i], Next(longer, i, m + 1)) {
      if i < |ks| {
        assert Next(longer, i, m + 1) == Next(ks, i, m) && after[i] == grants[i];
      } else {
        TellsNew(states, steps, id, m);
      }
    }
  }

  lemma TellsAllOther(states: seq<State>, steps: seq<Step>, id: RowId, grants: seq<Grant>, ks: seq<nat>, m: nat)
    requires IsRun(states, steps) && m < |steps| && TellsAll(states, steps, id, grants, ks, m)
    requires !Returns(states[m], steps[m], id)
    ensures TellsAll(states, steps, id, NextGrants(states[m], steps[m], id, grants), ks, m + 1)
  {
    var after := NextGrants(states[m], steps[m], id, grants);
    forall i | 0 <= i < |ks| ensures Tells(states, steps, id, after[i], ks[i], Next(ks, i, m + 1)) {
      assert Tells(states, steps, id, grants[i], ks[i], Next(ks, i, m));
      if i + 1 == |ks| {
        TellsLater(states, steps, id, grants[i], ks[i], m);
      }
    }
  }

  /**
   The history that a state carries for a row is what the run did to it: grant i has the window, the
   drawn handle and the visibility changes of the i-th receive that returned the row.
   */
  lemma {:induction false} GrantsAreReceives(states: seq<State>, steps: seq<Step>, n: nat, id: RowId)
    requires IsRun(states, steps) && n < |states| && id in states[n].rows
    ensures id in states[n].trails
    ensures TellsAll(states, steps, id, states[n].trails[id].grants, Receipts(states, steps, n, id), n)
    decreases n
  {
    if n != 0 {
      var m := n - 1;
      RunInv(states, steps, m);
      if id in states[m].rows {
        GrantsAreReceives(states, steps, m, id);
        StepExtendsGrants(states[m], steps[m], id);
        var grants, ks := states[m].trails[id].grants, Receipts(states, steps, m, id);
        if Returns(states[m], steps[m], id) {
          TellsAllReceive(states, steps, id, grants, ks, m);
        } else {
          TellsAllOther(states, steps, id, grants, ks, m);
        }
      } else {
        NewRowHasNoGrants(states[m], steps[m], id);
      }
    }
  }

  /**
   In every reachable state a row's receive count is the number of receives in the run that returned
   it since it was inserted, its first-received time is the `now` of the first of them, its handle is
   the one drawn by the last, and it is visible again where the last lease ends.
   */
  lemma HistoryIsRecorded(states: seq<State>, steps: seq<Step>, n: nat, id: RowId)
    requires IsRun(states, steps) && n < |states| && id in states[n].rows
    ensures var r := states[n].rows[id]; var ks := Receipts(states, steps, n, id); var last := |ks| - 1;
            && r.receiveCount == |ks|
            && (ks == [] ==> r.firstReceivedAt == None && r.handle == None)
            && (ks != [] ==>
                  && ReturnedSince(states, steps, n, id, ks[0]) && ReturnedSince(states, steps, n, id, ks[last])
                  && r.firstReceivedAt == Some(ReceiveAt(states[ks[0]], steps[ks[0]]).now)
                  && r.handle == Some(steps[ks[last]].drawn[id])
                  && r.visibleAt == EndAt(states, steps, ks[last], n, id))
  {
    var ks := Receipts(states, steps, n, id);
    RunInv(states, steps, n);
    GrantsAreReceives(states, steps, n, id);
    assert RowInv(states[n].rows[id], states[n].trails[id]);
    if ks != [] {
      ReceiptsAreReturns(states, steps, n, id, ks[0]);
      ReceiptsAreReturns(states, steps, n, id, ks[|ks| - 1]);
      var grants := states[n].trails[id].grants;
      assert Tells(states, steps, id, grants[0], ks[0], Next(ks, 0, n));
      assert Tells(states, steps, id, grants[|ks| - 1], ks[|ks| - 1], n);
    }
  }

  // ----- only the latest receiver holds the row -----

  // The last receive that returned the row drew this handle for it.
  ghost predicate DrewLast(states: seq<State>, steps: seq<Step>, n: nat, id: RowId, handle: Handle)
    requires IsRun(states, steps) && n < |states|
  {
    var ks := Receipts(states, steps, n, id);
    ks != [] && var k := ks[|ks| - 1];
    ReturnedSince(states, steps, n, id, k) && steps[k].drawn[id] == handle
  }

  lemma HandleIsLastDrawn(states: seq<State>, steps: seq<Step>, n: nat, id: RowId, handle: Handle)
    requires IsRun(states, steps) && n < |states| && id in states[n].rows
    ensures states[n].rows[id].handle == Some(handle) <==> DrewLast(states, steps, n, id, handle)
  {
    HistoryIsRecorded(states, steps, n, id);
  }

  /**
   In every reachable state a handle matches a row of a queue exactly when the row's latest receive drew
   it, and it matches at most one row.
   */
  lemma CurrentHolderOnly(states: seq<State>, steps: seq<Step>, n: nat, queue: int, handle: Handle)
    requires IsRun(states, steps) && n < |states|
    ensures forall id :: id in Holding(states[n].rows, queue, handle) <==>
                         id in states[n].rows && states[n].rows[id].queueId == queue
                         && DrewLast(states, steps, n, id, handle)
    ensures |Holding(states[n].rows, queue, handle)| <= 1
  {
    RunInv(states, steps, n);
    AtMostOneHolder(states[n], queue, handle);
    forall id | id in states[n].rows
      ensures states[n].rows[id].handle == Some(handle) <==> DrewLast(states, steps, n, id, handle)
    {
      HandleIsLastDrawn(states, steps, n, id, handle);
    }
  }

  lemma SupersededIsDead(s: State, id: RowId, i: nat)
    requires Inv(s) && id in s.trails && i + 1 < |s.trails[id].grants|
    ensures Dead(s, s.trails[id].grants[i].handle)
  {
    var handle := s.trails[id].grants[i].handle;
    forall a | a in s.rows ensures s.rows[a].handle != Some(handle) {
      assert RowInv(s.rows[a], s.trails[a]);
    }
  }

  /**
   A handle that a later receive of the row superseded is found in no queue, now or in any later state,
   and using it changes nothing.
   */
  lemma SupersededHandleIsDead(
      states: seq<State>, steps: seq<Step>, n: nat, id: RowId, i: nat, m: nat, queue: int, client: nat)
    requires IsRun(states, steps) && n <= m < |states| && id in states[n].rows
    requires i + 1 < |Receipts(states, steps, n, id)|
    ensures var k := Receipts(states, steps, n, id)[i]; var s := states[m];
            && ReturnedSince(states, steps, n, id, k)
            && var handle := steps[k].drawn[id];
            && Holding(s.rows, queue, handle) == {}
            && Apply(s, Delete(queue, handle)) == s
            && (client in s.changes && s.changes[client].queue == queue && s.changes[client].handle == handle ==>
                  Apply(s, CommitChange(client)) == s.(changes := s.changes - {client}))
  {
    var ks := Receipts(states, steps, n, id);
    RunInv(states, steps, n);
    ReceiptsAreReturns(states, steps, n, id, ks[i]);
    GrantsAreReceives(states, steps, n, id);
    var grants := states[n].trails[id].grants;
    assert Tells(states, steps, id, grants[i], ks[i], Next(ks, i, n));
    SupersededIsDead(states[n], id, i);
    DeadHandlesStayDead(states, steps, n, m, grants[i].handle);
    RunInv(states, steps, m);
    MissChangesNothing(states[m], queue, grants[i].handle, client);
  }

  /**
   In a steady run the lease of every receive ends, visibility changes included, before the `now` of
   every later receive of the row.
   */
  lemma EffectiveLeaseExclusion(states: seq<State>, steps: seq<Step>, n: nat, id: RowId, i: nat, j: nat)
    requires IsSteadyRun(states, steps) && n < |states| && id in states[n].rows
    requires i < j < |Receipts(states, steps, n, id)|
    ensures var ks := Receipts(states, steps, n, id);
            && ReturnedSince(states, steps, n, id, ks[i]) && ReturnedSince(states, steps, n, id, ks[j])
            && ks[i] < ks[i + 1] <= ks[j]
            && EndAt(states, steps, ks[i], ks[i + 1], id) <= ReceiveAt(states[ks[j]], steps[ks[j]]).now
  {
    var ks := Receipts(states, steps, n, id);
    ReceiptsAscend(states, steps, n, id);
    ReceiptsAreReturns(states, steps, n, id, ks[i]);
    ReceiptsAreReturns(states, steps, n, id, ks[j]);
    GrantsAreReceives(states, steps, n, id);
    var grants := states[n].trails[id].grants;
    assert Tells(states, steps, id, grants[i], ks[i], Next(ks, i, n));
    assert Tells(states, steps, id, grants[j], ks[j], Next(ks, j, n));
    SteadyGrantsExclude(states, steps, n, id, i, j);
  }

  // ----- the enqueue that inserted a row -----

  ghost function BornAt(states: seq<State>, steps: seq<Step>, n: nat, id: RowId): (b: nat)
    requires IsRun(states, steps) && n < |states| && id in states[n].rows
    ensures b < n
    decreases n
  {
    if id in states[n - 1].rows then BornAt(states, steps, n - 1, id) else n - 1
  }

  // The row and its trail are those of the enqueue, apart from what receives and changes set.
  ghost predicate BornBy(r: Row, t: Trail, step: Step, id: RowId) {
    && step.Enqueue? && step.id == id
    && ResolveDelay(step.requested, step.target.delaySeconds) == Some(t.delay)
    && t.retention == step.target.retentionSeconds
    && r.queueId == step.target.id && r.messageId == step.messageId && r.body == step.body && r.sentAt == step.date
  }

  ghost predicate HasBirth(s: State, id: RowId, birth: Step) {
    id in s.rows && id in s.trails && BornBy(s.rows[id], s.trails[id], birth, id)
  }

  lemma InsertedByEnqueue(s: State, step: Step, id: RowId)
    requires Inv(s) && Enabled(s, step) && id !in s.rows && id in Apply(s, step).rows
    ensures HasBirth(Apply(s, step), id, step)
  {
  }

  lemma StepKeepsBirth(s: State, step: Step, id: RowId, birth: Step)
    requires Inv(s) && Enabled(s, step) && id in Apply(s, step).rows && HasBirth(s, id, birth)
    ensures HasBirth(Apply(s, step), id, birth)
  {
    StepKeepsContent(s, step, id);
    StepKeepsTerms(s, step, id);
  }

  lemma StepKeepsContent(s: State, step: Step, id: RowId)
    requires Enabled(s, step) && id in s.rows && id in Apply(s, step).rows
    ensures SameMessage(s.rows[id], Apply(s, step).rows[id])
  {
    if step.Enqueue? { assert step.id != id; }
  }

  lemma StepKeepsTerms(s: State, step: Step, id: RowId)
    requires Inv(s) && Enabled(s, step) && id in s.rows && id in Apply(s, step).rows
    ensures id in Apply(s, step).trails
    ensures SameTerms(s.trails[id], Apply(s, step).trails[id])
  {
    if step.CommitReceive? {
      ReceiveKeepsTerms(s, step, id);
    } else if step.CommitChange? {
      ChangeKeepsTerms(s, step, id);
    } else {
      OtherStepsKeepTrail(s, step, id);
    }
  }

  ghost predicate SameTerms(t: Trail, u: Trail) {
    t.delay == u.delay && t.retention == u.retention
  }

  lemma ReceiveKeepsTerms(s: State, step: Step, id: RowId)
    requires Inv(s) && Enabled(s, step) && id in s.rows && step.CommitReceive?
    ensures id in Apply(s, step).trails && SameTerms(s.trails[id], Apply(s, step).trails[id])
  {
  }

  lemma ChangeKeepsTerms(s: State, step: Step, id: RowId)
    requires Inv(s) && Enabled(s, step) && id in s.rows && step.CommitChange?
    ensures id in Apply(s, step).trails && SameTerms(s.trails[id], Apply(s, step).trails[id])
  {
  }

  /** A row is there because an enqueue inserted it, and has been in the table ever since. */
  lemma BornByEnqueue(states: seq<State>, steps: seq<Step>, n: nat, id: RowId)
    requires IsRun(states, steps) && n < |states| && id in states[n].rows
    ensures HasBirth(states[n], id, steps[BornAt(states, steps, n, id)])
    ensures Stays(states, id, BornAt(states, steps, n, id) + 1, n)
  {
    BirthKept(states, steps, n, id);
    BornStays(states, steps, n, id);
  }

  lemma {:induction false} BornStays(states: seq<State>, steps: seq<Step>, n: nat, id: RowId)
    requires IsRun(states, steps) && n < |states| && id in states[n].rows
    ensures Stays(states, id, BornAt(states, steps, n, id) + 1, n)
    decreases n
  {
    if id in states[n - 1].rows { BornStays(states, steps, n - 1, id); }
  }

  lemma RunStepKeepsBirth(states: seq<State>, steps: seq<Step>, k: nat, id: RowId, birth: Step)
    requires IsRun(states, steps) && k < |steps| && HasBirth(states[k], id, birth) && id in states[k + 1].rows
    ensures HasBirth(states[k + 1], id, birth)
  {
    RunInv(states, steps, k);
    StepKeepsBirth(states[k], steps[k], id, birth);
  }

  lemma RunStepInserts(states: seq<State>, steps: seq<Step>, k: nat, id: RowId)
    requires IsRun(states, steps) && k < |steps| && id !in states[k].rows && id in states[k + 1].rows
    ensures HasBirth(states[k + 1], id, steps[k])
  {
    RunInv(states, steps, k);
    InsertedByEnqueue(states[k], steps[k], id);
  }

  lemma {:induction false} BirthKept(states: seq<State>, steps: seq<Step>, n: nat, id: RowId)
    requires IsRun(states, steps) && n < |states| && id in states[n].rows
    ensures HasBirth(states[n], id, steps[BornAt(states, steps, n, id)])
    decreases n
  {
    if id in states[n - 1].rows {
      BirthKept(states, steps, n - 1, id);
      RunStepKeepsBirth(states, steps, n - 1, id, steps[BornAt(states, steps, n, id)]);
    } else {
      RunStepInserts(states, steps, n - 1, id);
    }
  }

  // At `now` the delay of the enqueue has passed.
  ghost predicate NotEarly(birth: Step, now: int) {
    birth.Enqueue? && var delay := ResolveDelay(birth.requested, birth.target.delaySeconds);
    delay.Some? && birth.date + delay.value * SECOND <= now
  }

  // At `now` its retention has not passed.
  ghost predicate NotLate(birth: Step, now: int) {
    birth.Enqueue? && now < birth.date + birth.target.retentionSeconds * SECOND
  }

  /** In a steady run every receive of a message lies within [sent + delay, sent + retention). */
  lemma DelayAndRetention(states: seq<State>, steps: seq<Step>, p: nat, id: RowId)
    requires IsSteadyRun(states, steps) && p < |steps| && Returns(states[p], steps[p], id)
    ensures var birth, now := steps[BornAt(states, steps, p, id)], ReceiveAt(states[p], steps[p]).now;
            NotEarly(birth, now) && NotLate(birth, now)
  {
    RunInv(states, steps, p);
    SteadyRunInv(states, steps, p);
    BornByEnqueue(states, steps, p, id);
    SteadyVisibility(states[p], id);
    assert RowInv(states[p].rows[id], states[p].trails[id]);
  }

  // Every visibility change that reaches the row from m up to n is to a time when the delay has passed.
  ghost predicate OnTime(states: seq<State>, steps: seq<Step>, id: RowId, birth: Step, m: nat, n: nat)
    requires IsRun(states, steps) && n <= |steps|
  {
    forall k :: m <= k < n && Moves(states[k], steps[k], id) ==> NotEarly(birth, states[k].changes[steps[k].client].at)
  }

  lemma MovedVisibility(s: State, step: Step, id: RowId)
    requires Enabled(s, step) && id in s.rows && Moves(s, step, id)
    ensures id in Apply(s, step).rows && Apply(s, step).rows[id].visibleAt == s.changes[step.client].at
  {
  }

  lemma {:induction false} VisibilityOnTime(
      states: seq<State>, steps: seq<Step>, id: RowId, birth: Step, m: nat, n: nat)
    requires IsRun(states, steps) && m <= n <= |steps| && Stays(states, id, m, n)
    requires OnTime(states, steps, id, birth, m, n) && NotEarly(birth, states[m].rows[id].visibleAt)
    ensures NotEarly(birth, states[n].rows[id].visibleAt)
    decreases n
  {
    if m < n {
      VisibilityOnTime(states, steps, id, birth, m, n - 1);
      RunStepOnTime(states, steps, id, birth, n - 1);
    }
  }

  lemma RunStepOnTime(states: seq<State>, steps: seq<Step>, id: RowId, birth: Step, k: nat)
    requires IsRun(states, steps) && k < |steps| && id in states[k].rows && id in states[k + 1].rows
    requires Moves(states[k], steps[k], id) ==> NotEarly(birth, states[k].changes[steps[k].client].at)
    requires NotEarly(birth, states[k].rows[id].visibleAt)
    ensures NotEarly(birth, states[k + 1].rows[id].visibleAt)
  {
    if Moves(states[k], steps[k], id) {
      MovedVisibility(states[k], steps[k], id);
    } else {
      RunStepDelays(states, steps, k, id);
    }
  }

  /**
   Whatever the clock does, no receive is late, and none is early if every visibility change of the row
   before it was to a time when the delay had passed; the first is never early.
   */
  lemma RetentionInEveryRun(states: seq<State>, steps: seq<Step>, p: nat, id: RowId)
    requires IsRun(states, steps) && p < |steps| && Returns(states[p], steps[p], id)
    ensures var b, now := BornAt(states, steps, p, id), ReceiveAt(states[p], steps[p]).now;
            && NotLate(steps[b], now)
            && (OnTime(states, steps, id, steps[b], b + 1, p) || Receipts(states, steps, p, id) == [] ==>
                  NotEarly(steps[b], now))
  {
    var b := BornAt(states, steps, p, id);
    RunInv(states, steps, p);
    BornByEnqueue(states, steps, p, id);
    assert RowInv(states[p].rows[id], states[p].trails[id]);
    if Receipts(states, steps, p, id) == [] {
      GrantsAreReceives(states, steps, p, id);
    } else if OnTime(states, steps, id, steps[b], b + 1, p) {
      NewbornVisibility(states, steps, p, id);
      VisibilityOnTime(states, steps, id, steps[b], b + 1, p);
    }
  }

  lemma NewbornVisibility(states: seq<State>, steps: seq<Step>, p: nat, id: RowId)
    requires IsRun(states, steps) && p < |states| && id in states[p].rows
    ensures var b := BornAt(states, steps, p, id);
            id in states[b + 1].rows && NotEarly(steps[b], states[b + 1].rows[id].visibleAt)
  {
    var b := BornAt(states, steps, p, id);
    BornByEnqueue(states, steps, p, id);
    NotBefore(states, steps, p, id);
    assert id in states[b + 1].rows && states[b + 1] == Apply(states[b], steps[b]);
    NewbornRow(states[b], steps[b], id);
  }

  lemma {:induction false} NotBefore(states: seq<State>, steps: seq<Step>, p: nat, id: RowId)
    requires IsRun(states, steps) && p < |states| && id in states[p].rows
    ensures id !in states[BornAt(states, steps, p, id)].rows
    decreases p
  {
    if id in states[p - 1].rows { NotBefore(states, steps, p - 1, id); }
  }

  lemma NewbornRow(s: State, step: Step, id: RowId)
    requires Enabled(s, step) && id !in s.rows && id in Apply(s, step).rows
    ensures NotEarly(step, Apply(s, step).rows[id].visibleAt)
  {
  }
}
