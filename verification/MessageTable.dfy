/**
 The `sqs_messages` table and the statements that change it.  A table is a finite map from
 row ids to rows; each SQL statement is one atomic step on that map.  Times are nanoseconds.
 */
module MessageTable {
  import opened Wrappers

  type RowId = nat
  type Handle = string

  const SECOND := 1_000_000_000

  datatype Row = Row(
    queueId: int,
    messageId: string,
    body: string,
    sentAt: int,
    visibleAt: int,
    expiresAt: int,
    receiveCount: int,
    handle: Option<Handle>,
    firstReceivedAt: Option<int>)

  type Table = map<RowId, Row>

  // ----- inserting a message -----

  predicate HasMessage(t: Table, messageId: string) {
    exists id :: id in t && t[id].messageId == messageId
  }

  // The id that an INTEGER PRIMARY KEY column without AUTOINCREMENT receives: one more than the
  // largest id in the table.  Ids of deleted rows can therefore come back.
  ghost predicate IsNextRowId(t: Table, id: RowId) {
    if t == map[] then id == 1
    else 0 < id && id - 1 in t && forall i :: i in t ==> i < id
  }

  // ----- the eligible rows and their order -----

  predicate Eligible(r: Row, queue: int, now: int) {
    r.queueId == queue && r.visibleAt <= now && r.expiresAt > now
  }

  function EligibleIds(t: Table, queue: int, now: int): set<RowId> {
    set id | id in t && Eligible(t[id], queue, now)
  }

  // ORDER BY sent_at, id
  predicate Older(t: Table, a: RowId, b: RowId)
    requires a in t && b in t
  {
    t[a].sentAt < t[b].sentAt || (t[a].sentAt == t[b].sentAt && a < b)
  }

  ghost predicate IsOldest(t: Table, ids: set<RowId>, a: RowId)
    requires ids <= t.Keys
  {
    a in ids && forall b :: b in ids && b != a ==> Older(t, a, b)
  }

  lemma {:induction false} OldestExists(t: Table, ids: set<RowId>)
    requires ids <= t.Keys && ids != {}
    ensures exists a :: IsOldest(t, ids, a)
    decreases |ids|
  {
    var x :| x in ids;
    var rest := ids - {x};
    assert ids == {x} + rest;
    if rest == {} {
      assert IsOldest(t, ids, x);
    } else {
      OldestExists(t, rest);
      var y :| IsOldest(t, rest, y);
      var z := if Older(t, x, y) then x else y;
      forall b | b in ids && b != z ensures Older(t, z, b) {
        if b != x && b != y { assert b in rest && Older(t, y, b); }
      }
      assert IsOldest(t, ids, z);
    }
  }

  ghost function Oldest(t: Table, ids: set<RowId>): (a: RowId)
    requires ids <= t.Keys && ids != {}
    ensures IsOldest(t, ids, a)
  {
    OldestExists(t, ids);
    var a :| IsOldest(t, ids, a);
    a
  }

  // The first k of the ids in that order.
  ghost function TakeOldest(t: Table, ids: set<RowId>, k: nat): (s: set<RowId>)
    requires ids <= t.Keys
    ensures s <= ids
    decreases k
  {
    if k == 0 || ids == {} then {}
    else var a := Oldest(t, ids); {a} + TakeOldest(t, ids - {a}, k - 1)
  }

  // LIMIT ?: a negative limit means no limit.
  ghost function Selected(t: Table, queue: int, now: int, limit: int): (s: set<RowId>)
    ensures s <= EligibleIds(t, queue, now)
  {
    var ids := EligibleIds(t, queue, now);
    if limit < 0 then ids else TakeOldest(t, ids, limit)
  }

  function Min(a: int, b: int): int { if a <= b then a else b }

  // What "the k oldest eligible rows" means, without saying how they are found.
  ghost predicate IsOldestSelection(t: Table, ids: set<RowId>, k: nat, s: set<RowId>)
    requires ids <= t.Keys
  {
    && s <= ids
    && |s| == Min(k, |ids|)
    && forall a, b :: a in s && b in ids - s ==> Older(t, a, b)
  }

  lemma {:induction false} TakeOldestIsSelection(t: Table, ids: set<RowId>, k: nat)
    requires ids <= t.Keys
    ensures IsOldestSelection(t, ids, k, TakeOldest(t, ids, k))
    decreases k
  {
    if k != 0 && ids != {} {
      var a := Oldest(t, ids);
      TakeOldestIsSelection(t, ids - {a}, k - 1);
    }
  }

  lemma SelectionUnique(t: Table, ids: set<RowId>, k: nat, r: set<RowId>, s: set<RowId>)
    requires ids <= t.Keys
    requires IsOldestSelection(t, ids, k, r) && IsOldestSelection(t, ids, k, s)
    ensures r == s
  {
    if r != s {
      assert !(r <= s) by { if r <= s { SubsetSize(r, s); } }
      assert !(s <= r) by { if s <= r { SubsetSize(s, r); } }
      var a :| a in r && a in ids - s;
      var b :| b in s && b in ids - r;
      assert false;
    }
  }

  lemma SubsetSize(r: set<RowId>, s: set<RowId>)
    requires r <= s && |r| == |s|
    ensures r == s
  {
    assert s == r + (s - r);
  }

  // WHERE queue_id = ? AND visible_at <= ? AND expires_at > ?
  ghost predicate Due(r: Row, queue: int, now: int) {
    r.queueId == queue && r.visibleAt <= now && now < r.expiresAt
  }

  // The first rows that are due in the order of (sent_at, id), as many as the limit allows.
  ghost predicate IsFirstDue(t: Table, queue: int, now: int, limit: int, s: set<RowId>) {
    && s <= t.Keys
    && (forall a :: a in s ==> Due(t[a], queue, now))
    && (forall a, b :: a in s && b in t && b !in s && Due(t[b], queue, now) ==>
          t[a].sentAt < t[b].sentAt || (t[a].sentAt == t[b].sentAt && a < b))
    && (0 <= limit ==> |s| <= limit)
    && ((exists b :: b in t && b !in s && Due(t[b], queue, now)) ==> 0 <= limit && |s| == limit)
  }

  lemma FirstDueIsOldest(t: Table, queue: int, now: int, limit: int, s: set<RowId>)
    requires IsFirstDue(t, queue, now, limit, s)
    ensures var ids := EligibleIds(t, queue, now); IsOldestSelection(t, ids, if limit < 0 then |ids| else limit, s)
  {
    var ids := EligibleIds(t, queue, now);
    assert s <= ids;
    assert ids == s + (ids - s);
    if s != ids {
      var b :| b in ids - s;
      assert b in t && b !in s && Due(t[b], queue, now);
    }
  }

  lemma OldestIsFirstDue(t: Table, queue: int, now: int, limit: int, s: set<RowId>)
    requires var ids := EligibleIds(t, queue, now); IsOldestSelection(t, ids, if limit < 0 then |ids| else limit, s)
    ensures IsFirstDue(t, queue, now, limit, s)
  {
    var ids := EligibleIds(t, queue, now);
    assert ids == s + (ids - s);
    if b :| b in t && b !in s && Due(t[b], queue, now) {
      assert b in ids - s;
    }
    forall a, b | a in s && b in t && b !in s && Due(t[b], queue, now)
      ensures t[a].sentAt < t[b].sentAt || (t[a].sentAt == t[b].sentAt && a < b)
    {
      assert b in ids - s && Older(t, a, b);
    }
  }

  /** The rows a receive takes are exactly the first ones that are due, up to the limit. */
  lemma SelectedIffOldest(t: Table, queue: int, now: int, limit: int, s: set<RowId>)
    ensures s == Selected(t, queue, now, limit) <==> IsFirstDue(t, queue, now, limit, s)
  {
    var ids := EligibleIds(t, queue, now);
    var k := if limit < 0 then |ids| else limit;
    var chosen := Selected(t, queue, now, limit);
    assert IsOldestSelection(t, ids, k, chosen) by {
      if 0 <= limit { TakeOldestIsSelection(t, ids, limit); }
    }
    OldestIsFirstDue(t, queue, now, limit, chosen);
    if IsFirstDue(t, queue, now, limit, s) {
      FirstDueIsOldest(t, queue, now, limit, s);
      SelectionUnique(t, ids, k, s, chosen);
    }
  }

  // ----- the UPDATE of a receive -----

  function Lease(r: Row, now: int, until: int, handle: Handle): Row {
    r.(visibleAt := until,
       handle := Some(handle),
       receiveCount := r.receiveCount + 1,
       firstReceivedAt := if r.firstReceivedAt.None? then Some(now) else r.firstReceivedAt)
  }

  function LeaseRows(t: Table, chosen: set<RowId>, now: int, until: int, drawn: map<RowId, Handle>): (u: Table)
    requires chosen <= drawn.Keys
    ensures u.Keys == t.Keys
  {
    map id | id in t :: if id in chosen then Lease(t[id], now, until, drawn[id]) else t[id]
  }

  // ----- the statements keyed by a receipt handle, a message id or a queue -----

  function Holding(t: Table, queue: int, handle: Handle): set<RowId> {
    set id | id in t && t[id].queueId == queue && t[id].handle == Some(handle)
  }

  function Named(t: Table, queue: int, messageId: string): set<RowId> {
    set id | id in t && t[id].queueId == queue && t[id].messageId == messageId
  }

  function Owned(t: Table, queue: int): set<RowId> {
    set id | id in t && t[id].queueId == queue
  }

  function SetVisible(t: Table, ids: set<RowId>, at: int): (u: Table)
    ensures u.Keys == t.Keys
  {
    map id | id in t :: if id in ids then t[id].(visibleAt := at) else t[id]
  }

  // ----- the three counts -----

  function Live(t: Table, queue: int, now: int): set<RowId> {
    set id | id in t && t[id].queueId == queue && t[id].expiresAt > now
  }

  function Delayed(t: Table, queue: int, now: int): set<RowId> {
    set id | id in t && t[id].queueId == queue && t[id].visibleAt > now && t[id].expiresAt > now && t[id].handle.None?
  }

  function InFlight(t: Table, queue: int, now: int): set<RowId> {
    set id | id in t && t[id].queueId == queue && t[id].visibleAt > now && t[id].expiresAt > now
             && t[id].receiveCount > 0
  }

  // ----- draining a queue at one instant -----

  datatype Call = Call(until: int, drawn: map<RowId, Handle>)

  ghost function AfterCall(t: Table, queue: int, now: int, limit: nat, c: Call): (u: Table)
    requires t.Keys <= c.drawn.Keys
    ensures u.Keys == t.Keys
  {
    LeaseRows(t, Selected(t, queue, now, limit), now, c.until, c.drawn)
  }

  // The sets of rows returned by a sequence of receives that all use the same `now`.
  ghost function Batches(t: Table, queue: int, now: int, limit: nat, calls: seq<Call>): (b: seq<set<RowId>>)
    requires forall c :: c in calls ==> t.Keys <= c.drawn.Keys
    ensures |b| == |calls|
    ensures forall i :: 0 <= i < |b| ==> b[i] <= t.Keys
  {
    if calls == [] then []
    else [Selected(t, queue, now, limit)] +
         Batches(AfterCall(t, queue, now, limit, calls[0]), queue, now, limit, calls[1..])
  }

  lemma CallShrinksEligible(t: Table, queue: int, now: int, limit: nat, c: Call)
    requires t.Keys <= c.drawn.Keys
    requires now < c.until
    ensures EligibleIds(AfterCall(t, queue, now, limit, c), queue, now) ==
            EligibleIds(t, queue, now) - Selected(t, queue, now, limit)
  {
  }

  lemma CallSizes(t: Table, queue: int, now: int, limit: nat, c: Call)
    requires t.Keys <= c.drawn.Keys
    requires now < c.until
    ensures var n := |EligibleIds(t, queue, now)|;
            && |Selected(t, queue, now, limit)| == Min(limit, n)
            && |EligibleIds(AfterCall(t, queue, now, limit, c), queue, now)| == n - Min(limit, n)
  {
    TakeOldestIsSelection(t, EligibleIds(t, queue, now), limit);
    CallShrinksEligible(t, queue, now, limit, c);
  }

  lemma CallKeepsOrder(t: Table, queue: int, now: int, limit: nat, c: Call, a: RowId, b: RowId)
    requires t.Keys <= c.drawn.Keys
    requires a in t && b in t
    ensures Older(AfterCall(t, queue, now, limit, c), a, b) == Older(t, a, b)
  {
  }

  // What is left of n eligible rows after i receives.
  ghost function Remaining(n: nat, limit: nat, i: nat): nat
    decreases i
  {
    if i == 0 then n else Remaining(n - Min(limit, n), limit, i - 1)
  }

  lemma {:induction false} RemainingClosedForm(n: nat, limit: nat, i: nat)
    ensures Remaining(n, limit, i) == if n <= limit * i then 0 else n - limit * i
    decreases i
  {
    if i != 0 {
      RemainingClosedForm(n - Min(limit, n), limit, i - 1);
      assert limit * i == limit * (i - 1) + limit;
      assert limit * (i - 1) >= 0;
    }
  }

  ghost predicate CallsLater(t: Table, now: int, calls: seq<Call>) {
    forall c :: c in calls ==> t.Keys <= c.drawn.Keys && now < c.until
  }

  /**
   Repeated receives at one `now`, with leases ending later, drain the n eligible rows: call i
   returns min(limit, n - limit * i) of them, and none once limit * i reaches n.
   */
  lemma {:induction false} DrainSizes(t: Table, queue: int, now: int, limit: nat, calls: seq<Call>, i: nat)
    requires CallsLater(t, now, calls)
    requires i < |calls|
    ensures var n := |EligibleIds(t, queue, now)|;
            |Batches(t, queue, now, limit, calls)[i]| ==
            if n <= limit * i then 0 else Min(limit, n - limit * i)
  {
    BatchSize(t, queue, now, limit, calls, i);
    RemainingClosedForm(|EligibleIds(t, queue, now)|, limit, i);
  }

  lemma CeilingBound(n: nat, limit: nat, i: nat)
    requires 1 <= limit
    ensures limit * i < n <==> i < (n + limit - 1) / limit
  {
    var q := (n + limit - 1) / limit;
    assert q * limit <= n + limit - 1 < (q + 1) * limit;
    if i < q {
      assert i * limit <= (q - 1) * limit;
    } else {
      assert q * limit <= i * limit;
    }
  }

  /** Exactly the first ceil(n / limit) calls return something. */
  lemma DrainCalls(t: Table, queue: int, now: int, limit: nat, calls: seq<Call>, i: nat)
    requires 1 <= limit && CallsLater(t, now, calls) && i < |calls|
    ensures Batches(t, queue, now, limit, calls)[i] != {} <==>
            i < (|EligibleIds(t, queue, now)| + limit - 1) / limit
  {
    DrainSizes(t, queue, now, limit, calls, i);
    CeilingBound(|EligibleIds(t, queue, now)|, limit, i);
  }

  // The table after the first of several calls, with the batches and the counts that remain.
  lemma FirstCall(t: Table, queue: int, now: int, limit: nat, calls: seq<Call>) returns (u: Table)
    requires CallsLater(t, now, calls) && calls != []
    ensures CallsLater(u, now, calls[1..])
    ensures var chosen := Selected(t, queue, now, limit); var n := |EligibleIds(t, queue, now)|;
            && Batches(t, queue, now, limit, calls) == [chosen] + Batches(u, queue, now, limit, calls[1..])
            && |chosen| == Min(limit, n)
            && |EligibleIds(u, queue, now)| == n - Min(limit, n)
  {
    assert calls[0] in calls;
    CallSizes(t, queue, now, limit, calls[0]);
    u := AfterCall(t, queue, now, limit, calls[0]);
  }

  ghost predicate IsCallSize(size: nat, n: nat, limit: nat, i: nat) {
    size == Min(limit, Remaining(n, limit, i))
  }

  lemma CallSizeStep(size: nat, n: nat, limit: nat, i: nat)
    requires IsCallSize(size, n - Min(limit, n), limit, i)
    ensures IsCallSize(size, n, limit, i + 1)
  {
  }

  lemma {:induction false} BatchSize(t: Table, queue: int, now: int, limit: nat, calls: seq<Call>, i: nat)
    requires CallsLater(t, now, calls)
    requires i < |calls|
    ensures IsCallSize(|Batches(t, queue, now, limit, calls)[i]|, |EligibleIds(t, queue, now)|, limit, i)
    decreases i
  {
    var u := FirstCall(t, queue, now, limit, calls);
    var b := Batches(u, queue, now, limit, calls[1..]);
    if i != 0 {
      BatchSize(u, queue, now, limit, calls[1..], i - 1);
      assert Batches(t, queue, now, limit, calls)[i] == b[i - 1];
      CallSizeStep(|b[i - 1]|, |EligibleIds(t, queue, now)|, limit, i - 1);
    }
  }

  lemma {:induction false} BatchEligible(t: Table, queue: int, now: int, limit: nat, calls: seq<Call>, i: nat)
    requires CallsLater(t, now, calls)
    requires i < |calls|
    ensures Batches(t, queue, now, limit, calls)[i] <= EligibleIds(t, queue, now)
    decreases i
  {
    assert calls[0] in calls;
    if i != 0 {
      CallShrinksEligible(t, queue, now, limit, calls[0]);
      BatchEligible(AfterCall(t, queue, now, limit, calls[0]), queue, now, limit, calls[1..], i - 1);
    }
  }

  lemma SelectedAreOlder(t: Table, queue: int, now: int, limit: nat, c: Call, x: RowId, y: RowId)
    requires t.Keys <= c.drawn.Keys && now < c.until
    requires x in Selected(t, queue, now, limit) && y in EligibleIds(AfterCall(t, queue, now, limit, c), queue, now)
    ensures x != y && Older(t, x, y)
  {
    CallShrinksEligible(t, queue, now, limit, c);
    TakeOldestIsSelection(t, EligibleIds(t, queue, now), limit);
    assert y in EligibleIds(t, queue, now) - Selected(t, queue, now, limit);
  }

  /** No row is returned twice, and every returned row is older than every row returned later. */
  lemma {:induction false} DrainOrder(
      t: Table, queue: int, now: int, limit: nat, calls: seq<Call>, i: nat, j: nat, x: RowId, y: RowId)
    requires CallsLater(t, now, calls)
    requires i < j < |calls|
    requires x in Batches(t, queue, now, limit, calls)[i] && y in Batches(t, queue, now, limit, calls)[j]
    ensures x != y && (t[x].sentAt < t[y].sentAt || (t[x].sentAt == t[y].sentAt && x < y))
    decreases i
  {
    var u := AfterCall(t, queue, now, limit, calls[0]);
    assert calls[0] in calls;
    if i == 0 {
      BatchEligible(u, queue, now, limit, calls[1..], j - 1);
      SelectedAreOlder(t, queue, now, limit, calls[0], x, y);
    } else {
      DrainOrder(u, queue, now, limit, calls[1..], i - 1, j - 1, x, y);
      CallKeepsOrder(t, queue, now, limit, calls[0], x, y);
    }
  }

  lemma {:induction false} UnionSize(b: seq<set<RowId>>)
    requires forall i, j :: 0 <= i < j < |b| ==> b[i] !! b[j]
    ensures |Union(b)| == TotalSize(b)
  {
    if b != [] {
      UnionSize(b[1..]);
      assert b[0] !! Union(b[1..]) by {
        forall x | x in Union(b[1..]) ensures x !in b[0] { var i := InUnion(b[1..], x); assert b[1..][i] == b[i + 1]; }
      }
    }
  }

  ghost function Union(b: seq<set<RowId>>): set<RowId> {
    if b == [] then {} else b[0] + Union(b[1..])
  }

  ghost function TotalSize(b: seq<set<RowId>>): nat {
    if b == [] then 0 else |b[0]| + TotalSize(b[1..])
  }

  lemma {:induction false} InUnion(b: seq<set<RowId>>, x: RowId) returns (i: nat)
    requires x in Union(b)
    ensures i < |b| && x in b[i]
  {
    if x in b[0] { i := 0; } else { i := InUnion(b[1..], x); i := i + 1; }
  }

  lemma TotalCons(first: set<RowId>, rest: seq<set<RowId>>)
    ensures TotalSize([first] + rest) == |first| + TotalSize(rest)
  {
    assert ([first] + rest)[1..] == rest;
  }

  // After i calls on n rows, what was returned and what remains add up.
  ghost predicate AddsUp(total: nat, n: nat, limit: nat, i: nat) {
    total + Remaining(n, limit, i) == n
  }

  lemma AddsUpStep(total: nat, n: nat, limit: nat, i: nat)
    requires AddsUp(total, n - Min(limit, n), limit, i)
    ensures AddsUp(Min(limit, n) + total, n, limit, i + 1)
  {
  }

  lemma {:induction false} DrainTotal(t: Table, queue: int, now: int, limit: nat, calls: seq<Call>)
    requires CallsLater(t, now, calls)
    ensures AddsUp(TotalSize(Batches(t, queue, now, limit, calls)), |EligibleIds(t, queue, now)|, limit, |calls|)
    decreases |calls|
  {
    if calls != [] {
      var u := FirstCall(t, queue, now, limit, calls);
      var rest := calls[1..];
      DrainTotal(u, queue, now, limit, rest);
      TotalCons(Selected(t, queue, now, limit), Batches(u, queue, now, limit, rest));
      AddsUpStep(TotalSize(Batches(u, queue, now, limit, rest)), |EligibleIds(t, queue, now)|, limit, |rest|);
    }
  }

  /** Enough calls return every eligible row (each exactly once, by DrainOrder). */
  lemma DrainIsComplete(t: Table, queue: int, now: int, limit: nat, calls: seq<Call>)
    requires CallsLater(t, now, calls)
    requires |EligibleIds(t, queue, now)| <= limit * |calls|
    ensures Union(Batches(t, queue, now, limit, calls)) == EligibleIds(t, queue, now)
  {
    var ids := EligibleIds(t, queue, now);
    var b := Batches(t, queue, now, limit, calls);
    forall i, j | 0 <= i < j < |b| ensures b[i] !! b[j] {
      BatchesDisjoint(t, queue, now, limit, calls, i, j);
    }
    UnionSize(b);
    DrainTotal(t, queue, now, limit, calls);
    RemainingClosedForm(|ids|, limit, |calls|);
    forall i | 0 <= i < |b| ensures b[i] <= ids { BatchEligible(t, queue, now, limit, calls, i); }
    UnionWithin(b, ids);
    SubsetSize(Union(b), ids);
  }

  lemma BatchesDisjoint(t: Table, queue: int, now: int, limit: nat, calls: seq<Call>, i: nat, j: nat)
    requires CallsLater(t, now, calls)
    requires i < j < |calls|
    ensures Batches(t, queue, now, limit, calls)[i] !! Batches(t, queue, now, limit, calls)[j]
  {
    var b := Batches(t, queue, now, limit, calls);
    forall x | x in b[i] ensures x !in b[j] {
      if x in b[j] { DrainOrder(t, queue, now, limit, calls, i, j, x, x); }
    }
  }

  lemma {:induction false} UnionWithin(b: seq<set<RowId>>, ids: set<RowId>)
    requires forall i :: 0 <= i < |b| ==> b[i] <= ids
    ensures Union(b) <= ids
  {
    if b != [] {
      assert forall i :: 0 <= i < |b| - 1 ==> b[1..][i] == b[i + 1];
      UnionWithin(b[1..], ids);
    }
  }
}
