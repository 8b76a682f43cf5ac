/**
 Runs of the message store.  Any number of clients interleave; a receive and a visibility change
 each read the clock in one step and touch the table in a later one, so the time they use can be
 stale when they run.  Receipt handles are fresh: each is drawn outside the set of handles used
 so far.  The clock itself may jump in either direction unless a run is called steady.
 */
module LeaseProtocol {
  import opened Wrappers
  import opened MessageTable

  // One receive that returned a row: the window it asked for is [now, until); `end` is where the
  // window ends after the visibility changes made under its handle, if there were any.
  datatype Grant = Grant(now: int, until: int, end: int, changed: bool, handle: Handle)

  // What happened to a row since it was inserted.
  datatype Trail = Trail(delay: int, retention: int, grants: seq<Grant>)

  datatype Receive = Receive(queue: int, limit: int, now: int, until: int)

  datatype Change = Change(queue: int, handle: Handle, at: int)

  datatype QueueConfig = QueueConfig(id: int, delaySeconds: int, retentionSeconds: int)

  datatype State = State(
    clock: int,
    rows: Table,
    used: set<Handle>,
    receives: map<nat, Receive>,
    changes: map<nat, Change>,
    trails: map<RowId, Trail>)

  datatype Step =
    | Tick(clock: int)
    | Enqueue(target: QueueConfig, requested: Option<int>, date: int, messageId: string, body: string, id: RowId)
    | BeginReceive(client: nat, queue: int, limit: int, timeout: nat, secondRead: int)
    | CommitReceive(client: nat, drawn: map<RowId, Handle>)
    | AbortReceive(client: nat)
    | BeginChange(client: nat, queue: int, handle: Handle, timeout: nat)
    | CommitChange(client: nat)
    | Delete(queue: int, handle: Handle)
    | DeleteById(queue: int, messageId: string)
    | Purge(queue: int)

  function Initial(clock: int): State {
    State(clock, map[], {}, map[], map[], map[])
  }

  // ----- enqueueing -----

  function ResolveDelay(requested: Option<int>, queueDelay: int): (r: Option<int>)
    ensures r.Some? ==> 0 <= r.value <= 900
                        && (requested == Some(r.value) || (requested == None && r.value == queueDelay))
    ensures r.None? ==> var d := if requested.Some? then requested.value else queueDelay; d < 0 || 900 < d
  {
    var d := if requested.Some? then requested.value else queueDelay;
    if 0 <= d <= 900 then Some(d) else None
  }

  function NewRow(queue: QueueConfig, delay: int, date: int, messageId: string, body: string): Row {
    Row(queue.id, messageId, body, date, date + delay * SECOND, date + queue.retentionSeconds * SECOND, 0, None, None)
  }

  // ----- steps -----

  // The rows a pending receive takes if it runs now.
  ghost function Takes(s: State, client: nat): set<RowId>
    requires client in s.receives
  {
    var c := s.receives[client];
    Selected(s.rows, c.queue, c.now, c.limit)
  }

  ghost predicate Fresh(s: State, chosen: set<RowId>, drawn: map<RowId, Handle>) {
    && chosen <= drawn.Keys
    && (forall id :: id in chosen ==> drawn[id] !in s.used)
    && (forall a, b :: a in chosen && b in chosen && a != b ==> drawn[a] != drawn[b])
  }

  ghost predicate Enabled(s: State, step: Step) {
    match step
    case Enqueue(_, _, _, _, _, id) => IsNextRowId(s.rows, id)
    case BeginReceive(client, _, _, _, secondRead) => client !in s.receives && s.clock <= secondRead
    case CommitReceive(client, drawn) => client in s.receives && Fresh(s, Takes(s, client), drawn)
    case AbortReceive(client) => client in s.receives
    case BeginChange(client, _, _, _) => client !in s.changes
    case CommitChange(client) => client in s.changes
    case _ => true
  }

  function Grants(trails: map<RowId, Trail>, chosen: set<RowId>, c: Receive, drawn: map<RowId, Handle>)
    : map<RowId, Trail>
    requires chosen <= drawn.Keys
  {
    map id | id in trails ::
      if id in chosen
      then trails[id].(grants := trails[id].grants + [Grant(c.now, c.until, c.until, false, drawn[id])])
      else trails[id]
  }

  function MoveEnd(t: Trail, at: int): Trail {
    if t.grants == [] then t
    else var n := |t.grants| - 1; t.(grants := t.grants[n := t.grants[n].(end := at, changed := true)])
  }

  function MoveEnds(trails: map<RowId, Trail>, ids: set<RowId>, at: int): map<RowId, Trail> {
    map id | id in trails :: if id in ids then MoveEnd(trails[id], at) else trails[id]
  }

  function Remove(s: State, ids: set<RowId>): State {
    s.(rows := s.rows - ids, trails := s.trails - ids)
  }

  ghost function Apply(s: State, step: Step): State
    requires Enabled(s, step)
  {
    match step
    case Tick(clock) => s.(clock := clock)
    case Enqueue(queue, requested, date, messageId, body, id) =>
      var delay := ResolveDelay(requested, queue.delaySeconds);
      if delay.None? || HasMessage(s.rows, messageId) then s
      else s.(rows := s.rows[id := NewRow(queue, delay.value, date, messageId, body)],
              trails := s.trails[id := Trail(delay.value, queue.retentionSeconds, [])])
    case BeginReceive(client, queue, limit, timeout, secondRead) =>
      s.(clock := secondRead,
         receives := s.receives[client := Receive(queue, limit, s.clock, secondRead + timeout * SECOND)])
    case CommitReceive(client, drawn) =>
      var c := s.receives[client];
      var chosen := Takes(s, client);
      s.(rows := LeaseRows(s.rows, chosen, c.now, c.until, drawn),
         used := s.used + set id | id in chosen :: drawn[id],
         receives := s.receives - {client},
         trails := Grants(s.trails, chosen, c, drawn))
    case AbortReceive(client) => s.(receives := s.receives - {client})
    case BeginChange(client, queue, handle, timeout) =>
      s.(changes := s.changes[client := Change(queue, handle, s.clock + timeout * SECOND)])
    case CommitChange(client) =>
      var c := s.changes[client];
      var hit := Holding(s.rows, c.queue, c.handle);
      s.(rows := SetVisible(s.rows, hit, c.at),
         changes := s.changes - {client},
         trails := MoveEnds(s.trails, hit, c.at))
    case Delete(queue, handle) => Remove(s, Holding(s.rows, queue, handle))
    case DeleteById(queue, messageId) => Remove(s, Named(s.rows, queue, messageId))
    case Purge(queue) => Remove(s, Owned(s.rows, queue))
  }

  // A steady step: the clock does not go back, and a visibility change uses a handle that some
  // receive has already handed out.
  ghost predicate Steady(s: State, step: Step) {
    match step
    case Tick(clock) => s.clock <= clock
    case BeginChange(_, _, handle, _) => handle in s.used
    case _ => true
  }

  ghost predicate IsRun(states: seq<State>, steps: seq<Step>) {
    && |states| == |steps| + 1
    && states[0] == Initial(states[0].clock)
    && forall i :: 0 <= i < |steps| ==> Enabled(states[i], steps[i]) && states[i + 1] == Apply(states[i], steps[i])
  }

  ghost predicate IsSteadyRun(states: seq<State>, steps: seq<Step>) {
    && IsRun(states, steps)
    && forall i :: 0 <= i < |steps| ==> Steady(states[i], steps[i])
  }

  // ----- the invariant of every run -----

  ghost predicate RowInv(r: Row, t: Trail) {
    && 0 <= t.delay <= 900
    && r.expiresAt == r.sentAt + t.retention * SECOND
    && r.receiveCount == |t.grants|
    && (t.grants == [] ==>
          r.handle == None && r.firstReceivedAt == None && r.visibleAt == r.sentAt + t.delay * SECOND)
    && (t.grants != [] ==>
          && var last := t.grants[|t.grants| - 1];
          && r.handle == Some(last.handle)
          && r.firstReceivedAt == Some(t.grants[0].now)
          && r.visibleAt == last.end
          && r.sentAt + t.delay * SECOND <= t.grants[0].now)
    && (forall i :: 0 <= i < |t.grants| ==> GrantInv(r, t.grants[i]))
    && (forall i :: 1 <= i < |t.grants| ==> t.grants[i - 1].end <= t.grants[i].now)
  }

  ghost predicate GrantInv(r: Row, g: Grant) {
    && g.now <= g.until
    && g.now < r.expiresAt
    && (!g.changed ==> g.end == g.until)
  }

  ghost predicate HandlesInv(trails: map<RowId, Trail>, used: set<Handle>) {
    && (forall id, i :: id in trails && 0 <= i < |trails[id].grants| ==> trails[id].grants[i].handle in used)
    && (forall a, i, b, j ::
          a in trails && 0 <= i < |trails[a].grants| && b in trails && 0 <= j < |trails[b].grants|
          && trails[a].grants[i].handle == trails[b].grants[j].handle
          ==> a == b && i == j)
  }

  ghost predicate Inv(s: State) {
    && s.trails.Keys == s.rows.Keys
    && (forall id :: id in s.rows ==> RowInv(s.rows[id], s.trails[id]))
    && HandlesInv(s.trails, s.used)
    && (forall c :: c in s.receives ==> s.receives[c].now <= s.receives[c].until)
  }

  lemma RowInvGrant(r: Row, t: Trail, c: Receive, handle: Handle)
    requires RowInv(r, t)
    requires Eligible(r, c.queue, c.now) && c.now <= c.until
    ensures RowInv(Lease(r, c.now, c.until, handle),
                   t.(grants := t.grants + [Grant(c.now, c.until, c.until, false, handle)]))
  {
  }

  lemma RowInvMove(r: Row, t: Trail, at: int)
    requires RowInv(r, t) && t.grants != []
    ensures RowInv(r.(visibleAt := at), MoveEnd(t, at))
  {
  }

  lemma HandlesInvGrant(s: State, chosen: set<RowId>, c: Receive, drawn: map<RowId, Handle>)
    requires HandlesInv(s.trails, s.used) && Fresh(s, chosen, drawn)
    ensures HandlesInv(Grants(s.trails, chosen, c, drawn), s.used + set id | id in chosen :: drawn[id])
  {
    var u := Grants(s.trails, chosen, c, drawn);
    var used := s.used + set id | id in chosen :: drawn[id];
    forall a, i | a in u && 0 <= i < |u[a].grants|
      ensures u[a].grants[i].handle in used
    {
      if i < |s.trails[a].grants| { assert s.trails[a].grants[i].handle in s.used; }
    }
    forall a, i, b, j | a in u && 0 <= i < |u[a].grants| && b in u && 0 <= j < |u[b].grants|
                        && u[a].grants[i].handle == u[b].grants[j].handle
      ensures a == b && i == j
    {
      if i < |s.trails[a].grants| { assert s.trails[a].grants[i].handle in s.used; }
      if j < |s.trails[b].grants| { assert s.trails[b].grants[j].handle in s.used; }
    }
  }

  lemma HandlesInvMove(trails: map<RowId, Trail>, used: set<Handle>, ids: set<RowId>, at: int)
    requires HandlesInv(trails, used)
    ensures HandlesInv(MoveEnds(trails, ids, at), used)
  {
  }

  lemma InvCommitReceive(s: State, client: nat, drawn: map<RowId, Handle>)
    requires Inv(s) && Enabled(s, CommitReceive(client, drawn))
    ensures Inv(Apply(s, CommitReceive(client, drawn)))
  {
    var c := s.receives[client];
    var chosen := Takes(s, client);
    HandlesInvGrant(s, chosen, c, drawn);
    forall id | id in chosen
      ensures RowInv(Lease(s.rows[id], c.now, c.until, drawn[id]), Grants(s.trails, chosen, c, drawn)[id])
    {
      RowInvGrant(s.rows[id], s.trails[id], c, drawn[id]);
    }
  }

  lemma InvCommitChange(s: State, client: nat)
    requires Inv(s) && client in s.changes
    ensures Inv(Apply(s, CommitChange(client)))
  {
    var c := s.changes[client];
    var hit := Holding(s.rows, c.queue, c.handle);
    HandlesInvMove(s.trails, s.used, hit, c.at);
    forall id | id in hit
      ensures RowInv(s.rows[id].(visibleAt := c.at), MoveEnd(s.trails[id], c.at))
    {
      RowInvMove(s.rows[id], s.trails[id], c.at);
    }
  }

  lemma InvRemove(s: State, ids: set<RowId>)
    requires Inv(s)
    ensures Inv(Remove(s, ids))
  {
  }

  lemma InvInsert(s: State, id: RowId, r: Row, t: Trail)
    requires Inv(s) && id !in s.rows && RowInv(r, t) && t.grants == []
    ensures Inv(s.(rows := s.rows[id := r], trails := s.trails[id := t]))
  {
    assert HandlesInv(s.trails[id := t], s.used);
  }

  lemma NewRowInv(queue: QueueConfig, delay: int, date: int, messageId: string, body: string)
    requires 0 <= delay <= 900
    ensures RowInv(NewRow(queue, delay, date, messageId, body), Trail(delay, queue.retentionSeconds, []))
  {
  }

  lemma InvEnqueue(s: State, step: Step)
    requires Inv(s) && step.Enqueue? && Enabled(s, step)
    ensures Inv(Apply(s, step))
  {
    var delay := ResolveDelay(step.requested, step.target.delaySeconds);
    if delay.Some? {
      NewRowInv(step.target, delay.value, step.date, step.messageId, step.body);
      InvInsert(s, step.id, NewRow(step.target, delay.value, step.date, step.messageId, step.body),
                Trail(delay.value, step.target.retentionSeconds, []));
    }
  }

  /** Every step keeps the invariant. */
  lemma StepKeepsInv(s: State, step: Step)
    requires Inv(s) && Enabled(s, step)
    ensures Inv(Apply(s, step))
  {
    match step
    case Tick(_) =>
    case Enqueue(_, _, _, _, _, _) => InvEnqueue(s, step);
    case BeginReceive(_, _, _, _, _) =>
    case CommitReceive(client, drawn) => InvCommitReceive(s, client, drawn);
    case AbortReceive(_) =>
    case BeginChange(_, _, _, _) =>
    case CommitChange(client) => InvCommitChange(s, client);
    case Delete(queue, handle) => InvRemove(s, Holding(s.rows, queue, handle));
    case DeleteById(queue, messageId) => InvRemove(s, Named(s.rows, queue, messageId));
    case Purge(queue) => InvRemove(s, Owned(s.rows, queue));
  }

  lemma {:induction false} RunInv(states: seq<State>, steps: seq<Step>, n: nat)
    requires IsRun(states, steps) && n < |states|
    ensures Inv(states[n])
    decreases n
  {
    if n != 0 {
      RunInv(states, steps, n - 1);
      StepKeepsInv(states[n - 1], steps[n - 1]);
    }
  }
}
