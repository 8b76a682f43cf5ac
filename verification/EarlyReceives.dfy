/**
 When a message can be received before its delay has passed: the exact condition on a reachable state,
 and a run in which it happens.
 */
module EarlyReceives {
  import opened Wrappers
  import opened MessageTable
  import opened LeaseProtocol
  import opened LeaseHistory

  ghost predicate Leads(s: State, step: Step, u: State) {
    Enabled(s, step) && u == Apply(s, step)
  }

  ghost predicate LeadsThrough(s: seq<State>, steps: seq<Step>) {
    |s| == |steps| + 1 && forall i :: 0 <= i < |steps| ==> Leads(s[i], steps[i], s[i + 1])
  }

  // ----- continuing a run -----

  ghost predicate Continues(states: seq<State>, steps: seq<Step>, longer: seq<State>, more: seq<Step>) {
    IsRun(states, steps) && IsRun(longer, more) && states <= longer && steps <= more
  }

  lemma ContinuesOne(states: seq<State>, steps: seq<Step>, step: Step, u: State)
    requires IsRun(states, steps) && Leads(states[|steps|], step, u)
    ensures Continues(states, steps, states + [u], steps + [step])
  {
    var longer, more := states + [u], steps + [step];
    forall i | 0 <= i < |more| ensures Enabled(longer[i], more[i]) && longer[i + 1] == Apply(longer[i], more[i]) {
      if i < |steps| {
        assert Enabled(states[i], steps[i]) && states[i + 1] == Apply(states[i], steps[i]);
      }
    }
  }

  lemma {:induction false} BornAtContinues(
      states: seq<State>, steps: seq<Step>, longer: seq<State>, more: seq<Step>, n: nat, id: RowId)
    requires Continues(states, steps, longer, more) && n < |states| && id in states[n].rows
    ensures id in longer[n].rows && BornAt(longer, more, n, id) == BornAt(states, steps, n, id)
    decreases n
  {
    if id in states[n - 1].rows { BornAtContinues(states, steps, longer, more, n - 1, id); }
  }

  lemma {:induction false} BornAtStays(states: seq<State>, steps: seq<Step>, m: nat, n: nat, id: RowId)
    requires IsRun(states, steps) && m <= n < |states| && Stays(states, id, m, n)
    ensures BornAt(states, steps, n, id) == BornAt(states, steps, m, id)
    decreases n
  {
    if m < n { BornAtStays(states, steps, m, n - 1, id); }
  }

  // ----- a receive of one message -----

  lemma {:induction false} LengthBound(used: set<Handle>) returns (n: nat)
    ensures forall h :: h in used ==> |h| < n
    decreases |used|
  {
    if used == {} {
      n := 0;
    } else {
      var h :| h in used;
      n := LengthBound(used - {h});
      if n <= |h| { n := |h| + 1; }
    }
  }

  lemma FreshHandle(used: set<Handle>) returns (h: Handle)
    ensures h !in used
  {
    var n := LengthBound(used);
    h := seq(n, _ => 'h');
  }

  lemma {:induction false} ClientBound(busy: set<nat>) returns (n: nat)
    ensures forall c: nat :: c in busy ==> c < n
    decreases |busy|
  {
    if busy == {} {
      n := 0;
    } else {
      var b: nat :| b in busy;
      var rest := busy - {b};
      n := ClientBound(rest);
      if n <= b { n := b + 1; }
      forall c: nat | c in busy ensures c < n {
        assert c == b || c in rest;
      }
    }
  }

  lemma OneTaken(s: State, client: nat) returns (x: RowId)
    requires client in s.receives && s.receives[client].limit == 1
    requires var c := s.receives[client]; EligibleIds(s.rows, c.queue, c.now) != {}
    ensures Takes(s, client) == {x}
  {
    var c := s.receives[client];
    TakeOldestIsSelection(s.rows, EligibleIds(s.rows, c.queue, c.now), 1);
    assert |Takes(s, client)| == 1;
    x :| x in Takes(s, client);
    SubsetSize({x}, Takes(s, client));
  }

  // The receive takes row x at `now` and hides it beyond that time.
  ghost predicate ServesOne(s: State, u: State, queue: int, x: RowId) {
    && u.clock == s.clock
    && (forall id :: id in u.rows <==> id in s.rows)
    && (forall id :: id in s.rows && id != x ==> u.rows[id] == s.rows[id])
    && EligibleIds(u.rows, queue, s.clock) == EligibleIds(s.rows, queue, s.clock) - {x}
  }

  lemma LeaseServesOne(s: State, client: nat, queue: int, x: RowId, handle: Handle)
    requires client in s.receives && Takes(s, client) == {x} && handle !in s.used
    requires s.receives[client] == Receive(queue, 1, s.clock, s.clock + SECOND)
    ensures var step := CommitReceive(client, map[x := handle]);
            Enabled(s, step) && ServesOne(s, Apply(s, step), queue, x)
  {
  }

  // In any state with an eligible message some client can receive one.
  lemma OneReceive(s: State, queue: int)
      returns (begin: Step, s1: State, commit: Step, s2: State, x: RowId)
    requires EligibleIds(s.rows, queue, s.clock) != {}
    ensures Leads(s, begin, s1) && Leads(s1, commit, s2) && IsAccepted(begin) && IsAccepted(commit)
    ensures commit.CommitReceive? && Takes(s1, commit.client) == {x} && s1.receives[commit.client].now == s.clock
    ensures s1.rows == s.rows && x in EligibleIds(s.rows, queue, s.clock) && ServesOne(s, s2, queue, x)
  {
    var client := ClientBound(s.receives.Keys);
    begin := BeginReceive(client, queue, 1, 1, s.clock);
    s1 := Apply(s, begin);
    x := OneTaken(s1, client);
    var handle := FreshHandle(s1.used);
    commit := CommitReceive(client, map[x := handle]);
    LeaseServesOne(s1, client, queue, x, handle);
    s2 := Apply(s1, commit);
  }

  // The clock moves, or a client receives with a limit and a timeout that the service accepts.
  predicate IsAccepted(step: Step) {
    match step
    case Tick(_) => true
    case BeginReceive(_, _, limit, timeout, _) => 1 <= limit <= 10 && timeout <= 43200
    case CommitReceive(_, _) => true
    case _ => false
  }

  // ----- receiving until the row comes -----

  // A continuation by receives alone whose last step returns the row at `now`.
  ghost predicate Reaches(
      states: seq<State>, steps: seq<Step>, longer: seq<State>, more: seq<Step>, id: RowId, now: int)
  {
    && Continues(states, steps, longer, more) && |steps| < |more|
    && (forall k :: |steps| <= k < |more| ==> IsAccepted(more[k]) && id in longer[k].rows)
    && var p := |more| - 1;
    Returns(longer[p], more[p], id) && ReceiveAt(longer[p], more[p]).now == now
  }

  ghost predicate ReceivesCanReach(states: seq<State>, steps: seq<Step>, id: RowId, now: int) {
    exists longer, more :: Reaches(states, steps, longer, more, id, now)
  }

  lemma ReachesSooner(
      states: seq<State>, steps: seq<Step>, step: Step, u: State,
      longer: seq<State>, more: seq<Step>, id: RowId, now: int)
    requires IsRun(states, steps) && id in states[|steps|].rows && Leads(states[|steps|], step, u) && IsAccepted(step)
    requires Reaches(states + [u], steps + [step], longer, more, id, now)
    ensures Reaches(states, steps, longer, more, id, now)
  {
    assert more[|steps|] == (steps + [step])[|steps|] && longer[|steps|] == (states + [u])[|steps|];
  }

  lemma ReachesNow(states: seq<State>, steps: seq<Step>, step: Step, u: State, id: RowId, now: int)
    requires IsRun(states, steps) && Leads(states[|steps|], step, u) && IsAccepted(step)
    requires id in states[|steps|].rows && Returns(states[|steps|], step, id)
             && ReceiveAt(states[|steps|], step).now == now
    ensures Reaches(states, steps, states + [u], steps + [step], id, now)
  {
    ContinuesOne(states, steps, step, u);
  }

  /** Repeated receives of one message at one time reach every row that is eligible at that time. */
  lemma {:induction false} ReceiveUntil(states: seq<State>, steps: seq<Step>, queue: int, id: RowId)
      returns (longer: seq<State>, more: seq<Step>)
    requires IsRun(states, steps)
    requires id in EligibleIds(states[|steps|].rows, queue, states[|steps|].clock)
    ensures Reaches(states, steps, longer, more, id, states[|steps|].clock)
    decreases |EligibleIds(states[|steps|].rows, queue, states[|steps|].clock)|
  {
    var s := states[|steps|];
    var begin, s1, commit, s2, x := OneReceive(s, queue);
    ContinuesOne(states, steps, begin, s1);
    var states1, steps1 := states + [s1], steps + [begin];
    if x == id {
      ReachesNow(states1, steps1, commit, s2, id, s.clock);
      longer, more := states1 + [s2], steps1 + [commit];
    } else {
      ContinuesOne(states1, steps1, commit, s2);
      var states2, steps2 := states1 + [s2], steps1 + [commit];
      TakenShrinks(s, s2, queue, x);
      longer, more := ReceiveUntil(states2, steps2, queue, id);
      ReachesSooner(states1, steps1, commit, s2, longer, more, id, s.clock);
    }
    ReachesSooner(states, steps, begin, s1, longer, more, id, s.clock);
  }

  lemma TakenShrinks(s: State, u: State, queue: int, x: RowId)
    requires ServesOne(s, u, queue, x) && x in EligibleIds(s.rows, queue, s.clock)
    ensures |EligibleIds(u.rows, queue, s.clock)| < |EligibleIds(s.rows, queue, s.clock)|
  {
    var before, after := EligibleIds(s.rows, queue, s.clock), EligibleIds(u.rows, queue, s.clock);
    assert before == after + {x} && x !in after;
  }

  // ----- the exact condition -----

  ghost predicate IsEarlyReceive(
      states: seq<State>, steps: seq<Step>, longer: seq<State>, more: seq<Step>, p: nat, id: RowId)
  {
    && Continues(states, steps, longer, more) && |steps| <= p < |more|
    && Stays(longer, id, |steps|, p) && Quiet(longer, more, id, |steps|, p)
    && Returns(longer[p], more[p], id)
    && !NotEarly(more[BornAt(longer, more, p, id)], ReceiveAt(longer[p], more[p]).now)
  }

  // Some continuation of the run receives the row early, without a further visibility change of it.
  ghost predicate EarlyCanFollow(states: seq<State>, steps: seq<Step>, id: RowId) {
    exists longer, more, p :: IsEarlyReceive(states, steps, longer, more, p, id)
  }

  ghost predicate VisibleEarly(states: seq<State>, steps: seq<Step>, id: RowId)
    requires IsRun(states, steps) && id in states[|steps|].rows
  {
    var birth, at := steps[BornAt(states, steps, |steps|, id)], states[|steps|].rows[id].visibleAt;
    !NotEarly(birth, at) && NotLate(birth, at)
  }

  lemma EarlyReceiveNeeds(
      states: seq<State>, steps: seq<Step>, longer: seq<State>, more: seq<Step>, p: nat, id: RowId)
    requires IsEarlyReceive(states, steps, longer, more, p, id)
    ensures id in states[|steps|].rows && VisibleEarly(states, steps, id)
  {
    var n := |steps|;
    assert longer[n] == states[n] && id in longer[n].rows;
    BornAtContinues(states, steps, longer, more, n, id);
    BornAtStays(longer, more, n, p, id);
    VisibilityGrows(longer, more, n, p, id);
    BornByEnqueue(longer, more, p, id);
    RetentionInEveryRun(longer, more, p, id);
  }

  lemma EarlyReceiveFollows(states: seq<State>, steps: seq<Step>, id: RowId)
    requires IsRun(states, steps) && id in states[|steps|].rows && VisibleEarly(states, steps, id)
    ensures EarlyCanFollow(states, steps, id) && ReceivesCanReach(states, steps, id, states[|steps|].rows[id].visibleAt)
  {
    var n := |steps|;
    var s := states[n];
    var r := s.rows[id];
    RunInv(states, steps, n);
    BornByEnqueue(states, steps, n, id);
    assert RowInv(r, s.trails[id]);
    var u := Apply(s, Tick(r.visibleAt));
    ContinuesOne(states, steps, Tick(r.visibleAt), u);
    assert id in EligibleIds(u.rows, r.queueId, u.clock);
    var longer, more := ReceiveUntil(states + [u], steps + [Tick(r.visibleAt)], r.queueId, id);
    ReachesSooner(states, steps, Tick(r.visibleAt), u, longer, more, id, r.visibleAt);
    ReachedIsEarly(states, steps, longer, more, id);
  }

  lemma ReachedIsEarly(states: seq<State>, steps: seq<Step>, longer: seq<State>, more: seq<Step>, id: RowId)
    requires IsRun(states, steps) && id in states[|steps|].rows && VisibleEarly(states, steps, id)
    requires Reaches(states, steps, longer, more, id, states[|steps|].rows[id].visibleAt)
    ensures IsEarlyReceive(states, steps, longer, more, |more| - 1, id)
  {
    var n, p := |steps|, |more| - 1;
    forall k | n <= k < p ensures !Moves(longer[k], more[k], id) { assert IsAccepted(more[k]); }
    BornAtContinues(states, steps, longer, more, n, id);
    BornAtStays(longer, more, n, p, id);
  }

  /**
   From a reachable state a message can be received before its delay has passed, without a further
   visibility change of it, exactly when its visible_at lies before sent + delay and before sent +
   retention.  Receives alone, with limits that the service accepts, then get there; and it takes an
   earlier visibility change of the message to a time before sent + delay.  visible_at is where its last
   lease ends.
   */
  lemma EarlyCanFollowIff(states: seq<State>, steps: seq<Step>, id: RowId)
    requires IsRun(states, steps) && id in states[|steps|].rows
    ensures EarlyCanFollow(states, steps, id) <==> VisibleEarly(states, steps, id)
    ensures EarlyCanFollow(states, steps, id) ==>
              ReceivesCanReach(states, steps, id, states[|steps|].rows[id].visibleAt)
    ensures EarlyCanFollow(states, steps, id) ==>
              var n := |steps|; var b := BornAt(states, steps, n, id); var ks := Receipts(states, steps, n, id);
              && !OnTime(states, steps, id, steps[b], b + 1, n)
              && ks != [] && ReturnedSince(states, steps, n, id, ks[|ks| - 1])
              && states[n].rows[id].visibleAt == EndAt(states, steps, ks[|ks| - 1], n, id)
  {
    if EarlyCanFollow(states, steps, id) {
      var longer, more, p :| IsEarlyReceive(states, steps, longer, more, p, id);
      EarlyReceiveNeeds(states, steps, longer, more, p, id);
    }
    if VisibleEarly(states, steps, id) {
      EarlyReceiveFollows(states, steps, id);
      VisibleEarlyNeeds(states, steps, id);
    }
  }

  lemma VisibleEarlyNeeds(states: seq<State>, steps: seq<Step>, id: RowId)
    requires IsRun(states, steps) && id in states[|steps|].rows && VisibleEarly(states, steps, id)
    ensures var n := |steps|; var b := BornAt(states, steps, n, id); var ks := Receipts(states, steps, n, id);
            && !OnTime(states, steps, id, steps[b], b + 1, n)
            && ks != [] && ReturnedSince(states, steps, n, id, ks[|ks| - 1])
            && states[n].rows[id].visibleAt == EndAt(states, steps, ks[|ks| - 1], n, id)
  {
    var n := |steps|;
    var b := BornAt(states, steps, n, id);
    RunInv(states, steps, n);
    BornByEnqueue(states, steps, n, id);
    HistoryIsRecorded(states, steps, n, id);
    NewbornVisibility(states, steps, n, id);
    if OnTime(states, steps, id, steps[b], b + 1, n) {
      VisibilityOnTime(states, steps, id, steps[b], b + 1, n);
    }
    assert RowInv(states[n].rows[id], states[n].trails[id]);
  }

  // ----- a run whose clock goes back, with an early receive -----

  lemma OneRowReceive(s: State, client: nat, id: RowId, r: Row, handle: Handle)
    requires s.rows == map[id := r] && client in s.receives && handle !in s.used
    requires var c := s.receives[client]; c.limit == 1 && Eligible(r, c.queue, c.now)
    ensures var step := CommitReceive(client, map[id := handle]); var c := s.receives[client];
            && Enabled(s, step) && Returns(s, step, id)
            && Apply(s, step).rows == map[id := Lease(r, c.now, c.until, handle)]
            && Apply(s, step).used == s.used + {handle}
  {
    var c := s.receives[client];
    assert id in EligibleIds(s.rows, c.queue, c.now);
    var x := OneTaken(s, client);
    var drawn := map[id := handle];
    var got := set i | i in Takes(s, client) :: drawn[i];
    assert id in Takes(s, client) && drawn[id] in got;
    assert got == {handle};
  }

  lemma OneRowChange(s: State, client: nat, id: RowId, r: Row)
    requires s.rows == map[id := r] && client in s.changes
    requires r.queueId == s.changes[client].queue && r.handle == Some(s.changes[client].handle)
    ensures Apply(s, CommitChange(client)).rows == map[id := r.(visibleAt := s.changes[client].at)]
  {
  }

  lemma LeadsFour(s: State, a: Step, t: State, b: Step, u: State, c: Step, v: State, d: Step, w: State)
    requires Leads(s, a, t) && Leads(t, b, u) && Leads(u, c, v) && Leads(v, d, w)
    ensures LeadsThrough([s, t, u, v, w], [a, b, c, d])
  {
  }

  lemma JoinRuns(s: seq<State>, steps: seq<Step>, t: seq<State>, more: seq<Step>)
    requires LeadsThrough(s, steps) && LeadsThrough(t, more) && s[|steps|] == t[0] && s[0] == Initial(s[0].clock)
    ensures IsRun(s + t[1..], steps + more)
  {
    var states, all := s + t[1..], steps + more;
    forall i | 0 <= i < |all| ensures Enabled(states[i], all[i]) && states[i + 1] == Apply(states[i], all[i]) {
      if i < |steps| {
        assert Leads(s[i], steps[i], s[i + 1]);
      } else {
        assert Leads(t[i - |steps|], more[i - |steps|], t[i - |steps| + 1]);
      }
    }
  }

  const BIRTH := Enqueue(QueueConfig(0, 0, 60), Some(1), 0, "m", "b", 1)
  const BORN := NewRow(QueueConfig(0, 0, 60), 1, 0, "m", "b")
  const LEASED := Lease(BORN, SECOND, SECOND + 30 * SECOND, "h")

  // The message is received once its delay has passed; then the clock goes back.
  lemma ReceiveInTime() returns (s: seq<State>, steps: seq<Step>)
    ensures |steps| == 4 && LeadsThrough(s, steps) && s[0] == Initial(SECOND)
    ensures steps[0] == BIRTH && forall k :: 1 <= k < 4 ==> !steps[k].Enqueue?
    ensures forall k :: 0 <= k < 3 ==> Steady(s[k], steps[k])
    ensures s[4].clock == 0 && s[4].rows == map[1 := LEASED] && s[4].used == {"h"}
    ensures 0 !in s[4].receives && 0 !in s[4].changes
  {
    var s0 := Initial(SECOND);
    var s1 := Apply(s0, BIRTH);
    assert s1.rows == map[1 := BORN];
    var begin, commit := BeginReceive(0, 0, 1, 30, SECOND), CommitReceive(0, map[1 := "h"]);
    var s2 := Apply(s1, begin);
    OneRowReceive(s2, 0, 1, BORN, "h");
    var s3 := Apply(s2, commit);
    var s4 := Apply(s3, Tick(0));
    LeadsFour(s0, BIRTH, s1, begin, s2, commit, s3, Tick(0), s4);
    s, steps := [s0, s1, s2, s3, s4], [BIRTH, begin, commit, Tick(0)];
  }

  // The receiver makes the message visible at the earlier time.
  lemma ChangeBack(s4: State) returns (s5: State, s6: State)
    requires s4.clock == 0 && s4.rows == map[1 := LEASED] && s4.used == {"h"}
    requires 0 !in s4.receives && 0 !in s4.changes
    ensures Leads(s4, BeginChange(0, 0, "h", 0), s5) && Leads(s5, CommitChange(0), s6)
    ensures s6.clock == 0 && s6.rows == map[1 := LEASED.(visibleAt := 0)] && s6.used == {"h"} && 0 !in s6.receives
  {
    s5 := Apply(s4, BeginChange(0, 0, "h", 0));
    OneRowChange(s5, 0, 1, LEASED);
    s6 := Apply(s5, CommitChange(0));
  }

  // The message is received at that time.
  lemma ReceiveAgain(s6: State) returns (s7: State, s8: State)
    requires s6.clock == 0 && s6.rows == map[1 := LEASED.(visibleAt := 0)] && s6.used == {"h"} && 0 !in s6.receives
    ensures Leads(s6, BeginReceive(0, 0, 1, 30, 0), s7) && Leads(s7, CommitReceive(0, map[1 := "i"]), s8)
    ensures Returns(s7, CommitReceive(0, map[1 := "i"]), 1) && ReceiveAt(s7, CommitReceive(0, map[1 := "i"])).now == 0
  {
    s7 := Apply(s6, BeginReceive(0, 0, 1, 30, 0));
    OneRowReceive(s7, 0, 1, LEASED.(visibleAt := 0), "i");
    s8 := Apply(s7, CommitReceive(0, map[1 := "i"]));
  }

  lemma ReceiveEarly(s4: State) returns (s: seq<State>, steps: seq<Step>)
    requires s4.clock == 0 && s4.rows == map[1 := LEASED] && s4.used == {"h"}
    requires 0 !in s4.receives && 0 !in s4.changes
    ensures |steps| == 4 && LeadsThrough(s, steps) && s[0] == s4
    ensures forall k :: 0 <= k < 4 ==> !steps[k].Enqueue? && Steady(s[k], steps[k])
    ensures Leads(s[3], steps[3], s[4]) && Returns(s[3], steps[3], 1) && ReceiveAt(s[3], steps[3]).now == 0
  {
    var s5, s6 := ChangeBack(s4);
    var s7, s8 := ReceiveAgain(s6);
    var change, begin := BeginChange(0, 0, "h", 0), BeginReceive(0, 0, 1, 30, 0);
    var commit := CommitReceive(0, map[1 := "i"]);
    LeadsFour(s4, change, s5, CommitChange(0), s6, begin, s7, commit, s8);
    s, steps := [s4, s5, s6, s7, s8], [change, CommitChange(0), begin, commit];
  }

  // The two halves joined.
  lemma EarlyRun() returns (states: seq<State>, steps: seq<Step>)
    ensures IsRun(states, steps) && |steps| == 8
    ensures forall k :: 0 <= k < |steps| && k != 3 ==> Steady(states[k], steps[k])
    ensures Returns(states[7], steps[7], 1) && ReceiveAt(states[7], steps[7]).now == 0
    ensures steps[0] == BIRTH && forall k :: 1 <= k < |steps| ==> !steps[k].Enqueue?
  {
    var s, first := ReceiveInTime();
    var t, second := ReceiveEarly(s[4]);
    JoinRuns(s, first, t, second);
    states, steps := s + t[1..], first + second;
    forall k | 0 <= k < |steps| && k != 3 ensures Steady(states[k], steps[k]) {
      if 3 < k { assert states[k] == t[k - 4] && steps[k] == second[k - 4]; }
    }
    assert steps[7] == second[3] && states[7] == t[3];
  }

  /**
   Steadiness is needed: in this run the clock goes back in one step, every other step is steady, and
   a receive at time 0 returns a message sent at 0 with a delay of one second.
   */
  lemma ClockBackEarlyReceive() returns (states: seq<State>, steps: seq<Step>)
    ensures IsRun(states, steps) && |steps| == 8
    ensures forall k :: 0 <= k < |steps| && k != 3 ==> Steady(states[k], steps[k])
    ensures Returns(states[7], steps[7], 1)
    ensures !NotEarly(steps[BornAt(states, steps, 7, 1)], ReceiveAt(states[7], steps[7]).now)
  {
    states, steps := EarlyRun();
    BornByEnqueue(states, steps, 7, 1);
    OnlyOneBirth(steps, BornAt(states, steps, 7, 1));
  }

  lemma OnlyOneBirth(steps: seq<Step>, b: nat)
    requires b < |steps| && steps[b].Enqueue?
    requires steps[0] == BIRTH && forall k :: 1 <= k < |steps| ==> !steps[k].Enqueue?
    ensures !NotEarly(steps[b], 0)
  {
  }
}
