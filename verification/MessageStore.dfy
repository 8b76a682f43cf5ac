/**
 The store object: one method per store operation, each changing the table in place.  The clock
 readings and the random receipt handles of a receive are parameters; `drawn` gives the handle
 that the database draws for each row it updates.
 */
module MessageStore {
  import opened Wrappers
  import opened MessageTable
  import opened LeaseProtocol

  datatype StoreError = NotFound | Conflict

  // ----- what an operation is in the runs of LeaseProtocol -----

  // From every state with the table `before`, the step leads to the table `after`.
  ghost predicate Performs(before: Table, step: Step, after: Table) {
    forall s: State :: s.rows == before && Enabled(s, step) ==> Apply(s, step).rows == after
  }

  // The same for the commit of any client whose pending receive is c.
  ghost predicate PerformsReceive(before: Table, c: Receive, drawn: map<RowId, Handle>, after: Table) {
    forall s: State, client: nat ::
      s.rows == before && client in s.receives && s.receives[client] == c && Enabled(s, CommitReceive(client, drawn))
      ==> Apply(s, CommitReceive(client, drawn)).rows == after
  }

  // The same for the commit of any client whose pending visibility change is c.
  ghost predicate PerformsChange(before: Table, c: Change, after: Table) {
    forall s: State, client: nat ::
      s.rows == before && client in s.changes && s.changes[client] == c
      ==> Apply(s, CommitChange(client)).rows == after
  }

  // The same for every enqueue that resolves to the row `message`.
  ghost predicate PerformsEnqueue(before: Table, message: Row, after: Table) {
    forall step: Step :: step.Enqueue? && EnqueuedRow(step) == Some(message) ==> Performs(before, step, after)
  }

  function EnqueuedRow(step: Step): Option<Row>
    requires step.Enqueue?
  {
    var delay := ResolveDelay(step.requested, step.target.delaySeconds);
    if delay.None? then None else Some(NewRow(step.target, delay.value, step.date, step.messageId, step.body))
  }

  lemma NextRowIdUnique(t: Table, a: RowId, b: RowId)
    requires IsNextRowId(t, a) && IsNextRowId(t, b)
    ensures a == b
  {
  }

  lemma InsertIsEnqueue(before: Table, message: Row, id: RowId)
    requires IsNextRowId(before, id)
    ensures PerformsEnqueue(before, message,
                            if HasMessage(before, message.messageId) then before else before[id := message])
  {
    var after := if HasMessage(before, message.messageId) then before else before[id := message];
    forall step: Step | step.Enqueue? && EnqueuedRow(step) == Some(message) ensures Performs(before, step, after) {
      forall s: State | s.rows == before && Enabled(s, step) ensures Apply(s, step).rows == after {
        NextRowIdUnique(before, id, step.id);
      }
    }
  }

  // ----- the store -----

  ghost function Matching(t: Table, matches: Row -> bool): set<RowId> {
    set id | id in t && matches(t[id])
  }

  // How many rows matched so far, with some of them still to do.
  ghost function Matched(t: Table, matches: Row -> bool, todo: set<RowId>): (n: nat)
    ensures todo == {} ==> n == |Matching(t, matches)|
    ensures todo == t.Keys ==> n == 0
  {
    assert todo == {} ==> Matching(t, matches) - todo == Matching(t, matches);
    assert todo == t.Keys ==> Matching(t, matches) - todo == {};
    |Matching(t, matches) - todo|
  }

  lemma NoneMatching(t: Table, matches: Row -> bool)
    ensures |Matching(t, matches)| == 0 <==> forall id :: id in t ==> !matches(t[id])
  {
    if id :| id in t && matches(t[id]) {
      assert id in Matching(t, matches);
    } else {
      assert Matching(t, matches) == {};
    }
  }

  lemma MatchOne(t: Table, matches: Row -> bool, todo: set<RowId>, id: RowId)
    requires id in t && id in todo
    ensures Matched(t, matches, todo - {id}) == Matched(t, matches, todo) + if matches(t[id]) then 1 else 0
  {
    var hit := Matching(t, matches);
    assert hit - (todo - {id}) == (hit - todo) + if matches(t[id]) then {id} else {};
  }

  function Changed(r: Row, matches: Row -> bool, change: Row -> Row): Row {
    if matches(r) then change(r) else r
  }

  // `after` is `before` with every row changed that matches, apart from the rows still to do.
  ghost predicate UpdatedBut(before: Table, after: Table, todo: set<RowId>, matches: Row -> bool, change: Row -> Row) {
    && (forall id :: id in after <==> id in before)
    && forall id :: id in before ==>
         after[id] == if id in todo then before[id] else Changed(before[id], matches, change)
  }

  lemma UpdateOne(before: Table, after: Table, todo: set<RowId>, matches: Row -> bool, change: Row -> Row, id: RowId)
    requires UpdatedBut(before, after, todo, matches, change) && id in todo && id in before
    ensures if matches(before[id])
            then UpdatedBut(before, after[id := change(before[id])], todo - {id}, matches, change)
            else UpdatedBut(before, after, todo - {id}, matches, change)
  {
  }

  // The first rows that are due are leased and returned, and all others are left as they were.
  ghost predicate Received(before: Table, queue: int, now: int, until: int, limit: int, drawn: map<RowId, Handle>,
                           messages: map<RowId, Row>, after: Table)
  {
    && IsFirstDue(before, queue, now, limit, messages.Keys)
    && after.Keys == before.Keys
    && (forall id :: id in after && id !in messages ==> after[id] == before[id])
    && (forall id :: id in messages ==>
          && id in drawn && id in before && messages[id] == after[id]
          && var r := before[id];
          && after[id] == r.(
               visibleAt := until,
               handle := Some(drawn[id]),
               receiveCount := r.receiveCount + 1,
               firstReceivedAt := Some(if r.firstReceivedAt.Some? then r.firstReceivedAt.value else now)))
  }

  lemma LeaseIsReceived(t: Table, queue: int, now: int, until: int, limit: int, drawn: map<RowId, Handle>,
                        chosen: set<RowId>)
    requires chosen == Selected(t, queue, now, limit) && chosen <= drawn.Keys
    ensures var after := LeaseRows(t, chosen, now, until, drawn);
            Received(t, queue, now, until, limit, drawn, map id | id in chosen :: after[id], after)
  {
    SelectedIffOldest(t, queue, now, limit, chosen);
    var after := LeaseRows(t, chosen, now, until, drawn);
    var messages := map id | id in chosen :: after[id];
    assert messages.Keys == chosen;
  }

  class SqliteStore {
    var rows: Table

    constructor ()
      ensures rows == map[]
    {
      rows := map[];
    }

    method NextRowId() returns (id: RowId)
      ensures IsNextRowId(rows, id)
      ensures if rows == map[] then id == 1 else id - 1 in rows && forall i :: i in rows ==> i < id
    {
      if rows == map[] { return 1; }
      var todo := rows.Keys;
      var best :| best in todo;
      while todo != {}
        invariant best in rows
        invariant todo <= rows.Keys
        invariant forall i :: i in rows && i !in todo ==> i <= best
        decreases |todo|
      {
        var i :| i in todo;
        if best < i { best := i; }
        todo := todo - {i};
      }
      id := best + 1;
    }

    method SendMessage(message: Row) returns (r: Result<RowId, StoreError>)
      modifies this
      ensures r == Err(Conflict) <==> exists id :: id in old(rows) && old(rows)[id].messageId == message.messageId
      ensures r.Err? ==> r == Err(Conflict) && rows == old(rows)
      ensures r.Ok? ==> IsNextRowId(old(rows), r.value) && rows == old(rows)[r.value := message]
      ensures PerformsEnqueue(old(rows), message, rows)
    {
      var id := NextRowId();
      InsertIsEnqueue(rows, message, id);
      if HasMessage(rows, message.messageId) { return Err(Conflict); }
      rows := rows[id := message];
      r := Ok(id);
    }

    method FindOldest(ids: set<RowId>) returns (a: RowId)
      requires ids <= rows.Keys && ids != {}
      ensures IsOldest(rows, ids, a)
    {
      a :| a in ids;
      var todo := ids - {a};
      while todo != {}
        invariant a in ids && todo <= ids && a !in todo
        invariant forall b :: b in ids && b !in todo && b != a ==> Older(rows, a, b)
        decreases |todo|
      {
        var b :| b in todo;
        if Older(rows, b, a) { a := b; }
        todo := todo - {b};
      }
    }

    method SelectOldest(queue: int, now: int, limit: int) returns (chosen: set<RowId>)
      ensures chosen == Selected(rows, queue, now, limit)
    {
      var ids := EligibleIds(rows, queue, now);
      if limit < 0 { return ids; }
      chosen := {};
      var left := limit;
      while left > 0 && ids != {}
        invariant 0 <= left && ids <= rows.Keys
        invariant chosen + TakeOldest(rows, ids, left) == Selected(rows, queue, now, limit)
        decreases left
      {
        var a := FindOldest(ids);
        assert a == Oldest(rows, ids);
        chosen := chosen + {a};
        ids := ids - {a};
        left := left - 1;
      }
    }

    method ReceiveMessages(queue: int, limit: int, now: int, until: int, drawn: map<RowId, Handle>)
        returns (messages: map<RowId, Row>)
      requires Selected(rows, queue, now, limit) <= drawn.Keys
      modifies this
      ensures Received(old(rows), queue, now, until, limit, drawn, messages, rows)
      ensures PerformsReceive(old(rows), Receive(queue, limit, now, until), drawn, rows)
    {
      var chosen := SelectOldest(queue, now, limit);
      LeaseIsReceived(rows, queue, now, until, limit, drawn, chosen);
      rows := LeaseRows(rows, chosen, now, until, drawn);
      messages := map id | id in chosen :: rows[id];
    }

    // ----- statements that visit the rows one by one -----

    // SELECT COUNT(*) .. WHERE
    method CountWhere(matches: Row -> bool) returns (count: nat)
      ensures count == |Matching(rows, matches)|
    {
      count := 0;
      var todo := rows.Keys;
      while todo != {}
        invariant todo <= rows.Keys
        invariant count == Matched(rows, matches, todo)
        decreases |todo|
      {
        var id :| id in todo;
        MatchOne(rows, matches, todo, id);
        todo := todo - {id};
        if matches(rows[id]) {
          count := count + 1;
        }
      }
    }

    // DELETE .. WHERE, with the number of rows affected
    method DeleteWhere(matches: Row -> bool) returns (affected: nat)
      modifies this
      ensures forall id :: id in rows <==> id in old(rows) && !matches(old(rows)[id])
      ensures forall id :: id in rows ==> rows[id] == old(rows)[id]
      ensures affected == |Matching(old(rows), matches)|
      ensures affected == 0 <==> rows == old(rows)
    {
      affected := 0;
      ghost var before := rows;
      var todo := rows.Keys;
      while todo != {}
        invariant todo <= rows.Keys
        invariant forall id :: id in rows <==> id in before && (id in todo || !matches(before[id]))
        invariant forall id :: id in rows ==> rows[id] == before[id]
        invariant affected == Matched(before, matches, todo)
        decreases |todo|
      {
        var id :| id in todo;
        MatchOne(before, matches, todo, id);
        todo := todo - {id};
        if matches(rows[id]) {
          rows := rows - {id};
          affected := affected + 1;
        }
      }
      NoneMatching(before, matches);
    }

    // UPDATE .. SET .. WHERE, with the number of rows affected
    method UpdateWhere(matches: Row -> bool, change: Row -> Row) returns (affected: nat)
      modifies this
      ensures forall id :: id in rows <==> id in old(rows)
      ensures forall id :: id in rows ==> rows[id] == Changed(old(rows)[id], matches, change)
      ensures affected == |Matching(old(rows), matches)|
      ensures affected == 0 <==> forall id :: id in old(rows) ==> !matches(old(rows)[id])
    {
      affected := 0;
      NoneMatching(rows, matches);
      var updated := rows;
      var todo := rows.Keys;
      while todo != {}
        invariant todo <= rows.Keys
        invariant rows == old(rows) && UpdatedBut(rows, updated, todo, matches, change)
        invariant affected == Matched(rows, matches, todo)
        decreases |todo|
      {
        var id :| id in todo;
        MatchOne(rows, matches, todo, id);
        UpdateOne(rows, updated, todo, matches, change, id);
        todo := todo - {id};
        if matches(rows[id]) {
          updated := updated[id := change(rows[id])];
          affected := affected + 1;
        }
      }
      rows := updated;
    }

    method DeleteMessage(queue: int, handle: Handle) returns (r: Result<(), StoreError>)
      modifies this
      ensures forall id :: id in rows <==>
                id in old(rows) && !(old(rows)[id].queueId == queue && old(rows)[id].handle == Some(handle))
      ensures forall id :: id in rows ==> rows[id] == old(rows)[id]
      ensures r == if rows == old(rows) then Err(NotFound) else Ok(())
      ensures Performs(old(rows), Delete(queue, handle), rows)
    {
      var affected := DeleteWhere((row: Row) => row.queueId == queue && row.handle == Some(handle));
      assert rows == old(rows) - Holding(old(rows), queue, handle);
      r := if affected == 0 then Err(NotFound) else Ok(());
    }

    method DeleteMessageById(queue: int, messageId: string) returns (r: Result<(), StoreError>)
      modifies this
      ensures forall id :: id in rows <==>
                id in old(rows) && !(old(rows)[id].queueId == queue && old(rows)[id].messageId == messageId)
      ensures forall id :: id in rows ==> rows[id] == old(rows)[id]
      ensures r == if rows == old(rows) then Err(NotFound) else Ok(())
      ensures Performs(old(rows), DeleteById(queue, messageId), rows)
    {
      var affected := DeleteWhere((row: Row) => row.queueId == queue && row.messageId == messageId);
      assert rows == old(rows) - Named(old(rows), queue, messageId);
      r := if affected == 0 then Err(NotFound) else Ok(());
    }

    method SetMessageVisibleAt(queue: int, handle: Handle, at: int) returns (r: Result<(), StoreError>)
      modifies this
      ensures rows.Keys == old(rows).Keys
      ensures forall id :: id in rows ==> var row := old(rows)[id];
                rows[id] == if row.queueId == queue && row.handle == Some(handle) then row.(visibleAt := at) else row
      ensures r == Ok(()) <==>
              exists id :: id in old(rows) && old(rows)[id].queueId == queue && old(rows)[id].handle == Some(handle)
      ensures r.Err? ==> r == Err(NotFound)
      ensures PerformsChange(old(rows), Change(queue, handle, at), rows)
    {
      var affected := UpdateWhere((row: Row) => row.queueId == queue && row.handle == Some(handle),
                                  (row: Row) => row.(visibleAt := at));
      assert rows == SetVisible(old(rows), Holding(old(rows), queue, handle), at);
      r := if affected == 0 then Err(NotFound) else Ok(());
    }

    method PurgeQueue(queue: int)
      modifies this
      ensures forall id :: id in rows <==> id in old(rows) && old(rows)[id].queueId != queue
      ensures forall id :: id in rows ==> rows[id] == old(rows)[id]
      ensures Performs(old(rows), Purge(queue), rows)
    {
      var _ := DeleteWhere((row: Row) => row.queueId == queue);
      assert rows == old(rows) - Owned(old(rows), queue);
    }

    method GetMessageCount(queue: int, now: int) returns (count: nat)
      ensures count == |Live(rows, queue, now)|
      ensures count == |set id | id in rows && rows[id].queueId == queue && rows[id].expiresAt > now|
    {
      count := CountWhere((row: Row) => row.queueId == queue && row.expiresAt > now);
      assert Live(rows, queue, now) == set id | id in rows && rows[id].queueId == queue && rows[id].expiresAt > now;
      assert Live(rows, queue, now) == Matching(rows, (row: Row) => row.queueId == queue && row.expiresAt > now);
    }

    method GetVisibleMessageCount(queue: int, now: int) returns (count: nat)
      ensures count == |EligibleIds(rows, queue, now)|
      ensures count ==
              |set id | id in rows && rows[id].queueId == queue && rows[id].visibleAt <= now
                        && rows[id].expiresAt > now|
    {
      count := CountWhere((row: Row) => Eligible(row, queue, now));
      assert EligibleIds(rows, queue, now) ==
             set id | id in rows && rows[id].queueId == queue && rows[id].visibleAt <= now && rows[id].expiresAt > now;
      assert EligibleIds(rows, queue, now) == Matching(rows, (row: Row) => Eligible(row, queue, now));
    }

    method GetMessagesDelayedCount(queue: int, now: int) returns (count: nat)
      ensures count == |Delayed(rows, queue, now)|
      ensures count == |set id | id in rows && rows[id].queueId == queue && rows[id].visibleAt > now
                                 && rows[id].expiresAt > now && rows[id].handle == None|
    {
      var hidden := (row: Row) =>
        row.queueId == queue && row.visibleAt > now && row.expiresAt > now && row.handle.None?;
      count := CountWhere(hidden);
      assert Delayed(rows, queue, now) ==
             set id | id in rows && rows[id].queueId == queue && rows[id].visibleAt > now
                      && rows[id].expiresAt > now && rows[id].handle == None;
      assert Delayed(rows, queue, now) == Matching(rows, hidden);
    }
  }
}
