/**
 Which span is under which: the calls that made contexts and timers decide, at every level of nesting,
 the parent and the request id of every record, and so the depth of every stored span.
 */
module TraceNesting {
  import opened Wrappers
  import opened TraceForest

  // ----- the steps that made a context and a timer -----

  // The step that made context c.
  ghost function ContextMaker(states: seq<State>, steps: seq<Step>, n: nat, c: nat): (m: nat)
    requires IsRun(states, steps) && n < |states| && c < |states[n].contexts|
    ensures m < n
    decreases n
  {
    if c < |states[n - 1].contexts| then ContextMaker(states, steps, n - 1, c) else n - 1
  }

  // The step that started timer t.
  ghost function TimerMaker(states: seq<State>, steps: seq<Step>, n: nat, t: nat): (m: nat)
    requires IsRun(states, steps) && n < |states| && t < |states[n].timers|
    ensures m < n
    decreases n
  {
    if t < |states[n - 1].timers| then TimerMaker(states, steps, n - 1, t) else n - 1
  }

  // Step m made context c, number for number.
  ghost predicate MadeContext(states: seq<State>, steps: seq<Step>, m: nat, c: nat) {
    && m < |steps| && m < |states| && |states[m].contexts| == c
    && match steps[m] {
         case New(_) => true
         case Child(context, timer) => context < |states[m].contexts| && timer < |states[m].timers|
         case _ => false
       }
  }

  ghost predicate MadeTimer(states: seq<State>, steps: seq<Step>, m: nat, t: nat) {
    && m < |steps| && m < |states| && |states[m].timers| == t
    && steps[m].Start? && steps[m].context < |states[m].contexts|
  }

  lemma {:induction false} ContextIsMade(states: seq<State>, steps: seq<Step>, n: nat, c: nat)
    requires IsRun(states, steps) && n < |states| && c < |states[n].contexts|
    ensures var m := ContextMaker(states, steps, n, c);
            && MadeContext(states, steps, m, c)
            && c < |states[m + 1].contexts| && states[n].contexts[c] == states[m + 1].contexts[c]
    decreases n
  {
    if c < |states[n - 1].contexts| { ContextIsMade(states, steps, n - 1, c); }
  }

  lemma {:induction false} TimerIsMade(states: seq<State>, steps: seq<Step>, n: nat, t: nat)
    requires IsRun(states, steps) && n < |states| && t < |states[n].timers|
    ensures var m := TimerMaker(states, steps, n, t);
            && MadeTimer(states, steps, m, t)
            && t < |states[m + 1].timers| && states[n].timers[t] == states[m + 1].timers[t]
    decreases n
  {
    if t < |states[n - 1].timers| { TimerIsMade(states, steps, n - 1, t); }
  }

  lemma {:induction false} TimersRemain(states: seq<State>, steps: seq<Step>, m: nat, n: nat)
    requires IsRun(states, steps) && m <= n < |states|
    ensures |states[m].timers| <= |states[n].timers|
    ensures forall t :: 0 <= t < |states[m].timers| ==>
              TimerMaker(states, steps, n, t) == TimerMaker(states, steps, m, t)
    decreases n
  {
    if m < n { TimersRemain(states, steps, m, n - 1); }
  }

  // ----- what the calls say -----

  // The id drawn for timer t.
  ghost function SpanIdOf(states: seq<State>, steps: seq<Step>, n: nat, t: nat): SpanId
    requires IsRun(states, steps) && n < |states| && t < |states[n].timers|
  {
    TimerIsMade(states, steps, n, t);
    steps[TimerMaker(states, steps, n, t)].id
  }

  // The timer that the calls put around context c: the one its child_context call was given.
  ghost function Around(states: seq<State>, steps: seq<Step>, n: nat, c: nat): (u: Option<nat>)
    requires IsRun(states, steps) && n < |states| && c < |states[n].contexts|
    ensures u.Some? ==> u.value < |states[ContextMaker(states, steps, n, c)].timers|
  {
    ContextIsMade(states, steps, n, c);
    var m := ContextMaker(states, steps, n, c);
    if steps[m].Child? then Some(steps[m].timer) else None
  }

  // The request id at the root of the contexts that context c was derived from.
  ghost function RequestIdOf(states: seq<State>, steps: seq<Step>, n: nat, c: nat): string
    requires IsRun(states, steps) && n < |states| && c < |states[n].contexts|
    decreases n
  {
    ContextIsMade(states, steps, n, c);
    var m := ContextMaker(states, steps, n, c);
    match steps[m]
    case New(requestId) => requestId
    case Child(context, _) => RequestIdOf(states, steps, m, context)
  }

  // The timer around the context in which timer t was started; it was made before t.
  ghost function ParentTimer(states: seq<State>, steps: seq<Step>, n: nat, t: nat): (u: Option<nat>)
    requires IsRun(states, steps) && n < |states| && t < |states[n].timers|
    ensures u.Some? ==> u.value < t
  {
    TimerIsMade(states, steps, n, t);
    var k := TimerMaker(states, steps, n, t);
    var u := Around(states, steps, k, steps[k].context);
    TimersRemain(states, steps, ContextMaker(states, steps, k, steps[k].context), k);
    u
  }

  // ----- contexts, timers and records are what the calls say -----

  ghost predicate ContextFollows(states: seq<State>, steps: seq<Step>, n: nat, c: nat)
    requires IsRun(states, steps) && n < |states| && c < |states[n].contexts|
  {
    var u := Around(states, steps, n, c); var m := ContextMaker(states, steps, n, c);
    && states[n].contexts[c].requestId == RequestIdOf(states, steps, n, c)
    && states[n].contexts[c].parent ==
       if u.Some? then Some(SpanIdOf(states, steps, m, u.value)) else None
  }

  ghost predicate TimerFollows(states: seq<State>, steps: seq<Step>, n: nat, t: nat)
    requires IsRun(states, steps) && n < |states| && t < |states[n].timers|
  {
    var u := ParentTimer(states, steps, n, t);
    && states[n].timers[t].spanId == SpanIdOf(states, steps, n, t)
    && states[n].timers[t].parent == if u.Some? then Some(SpanIdOf(states, steps, n, u.value)) else None
  }

  lemma StartedId(states: seq<State>, steps: seq<Step>, n: nat, t: nat)
    requires IsRun(states, steps) && n < |states| && t < |states[n].timers|
    ensures states[n].timers[t].spanId == SpanIdOf(states, steps, n, t)
  {
    TimerIsMade(states, steps, n, t);
    var k := TimerMaker(states, steps, n, t);
    assert states[k + 1] == Apply(states[k], steps[k]);
  }

  lemma {:induction false} ContextsFollow(states: seq<State>, steps: seq<Step>, n: nat, c: nat)
    requires IsRun(states, steps) && n < |states| && c < |states[n].contexts|
    ensures ContextFollows(states, steps, n, c)
    decreases n
  {
    ContextIsMade(states, steps, n, c);
    var m := ContextMaker(states, steps, n, c);
    assert states[m + 1] == Apply(states[m], steps[m]);
    if steps[m].Child? {
      ContextsFollow(states, steps, m, steps[m].context);
      StartedId(states, steps, m, steps[m].timer);
    }
  }

  lemma TimersFollow(states: seq<State>, steps: seq<Step>, n: nat, t: nat)
    requires IsRun(states, steps) && n < |states| && t < |states[n].timers|
    ensures TimerFollows(states, steps, n, t)
  {
    StartedId(states, steps, n, t);
    TimerIsMade(states, steps, n, t);
    var k := TimerMaker(states, steps, n, t);
    assert states[k + 1] == Apply(states[k], steps[k]);
    var c := steps[k].context;
    ContextsFollow(states, steps, k, c);
    var m := ContextMaker(states, steps, k, c);
    TimersRemain(states, steps, m, n);
  }

  /**
   Whatever the nesting: a recorded span carries the request id at the root of the context that recorded
   it, the id its timer drew, and as its parent the id of the span whose timer made the context in which
   it was started; in a context made for a new request it has none.
   */
  lemma RecordFollowsCalls(states: seq<State>, steps: seq<Step>, k: nat)
    requires IsRun(states, steps) && k < |steps| && steps[k].RecordSpan?
    ensures steps[k].timer < |states[k].timers| && steps[k].context < |states[k].contexts|
    ensures var t := steps[k].timer; var u := ParentTimer(states, steps, k, t);
            states[k + 1].records == states[k].records +
            if steps[k].lost then []
            else [Record(RequestIdOf(states, steps, k, steps[k].context), SpanIdOf(states, steps, k, t),
                         if u.Some? then Some(SpanIdOf(states, steps, k, u.value)) else None, steps[k].durationMs)]
  {
    assert states[k + 1] == Apply(states[k], steps[k]);
    TimersFollow(states, steps, k, steps[k].timer);
    ContextsFollow(states, steps, k, steps[k].context);
    assert states[k].records + [] == states[k].records;
  }

  // ----- the depth of a stored span -----

  ghost predicate FromTimer(s: State, r: Record, t: nat) {
    t < |s.timers| && r.spanId == s.timers[t].spanId && r.parent == s.timers[t].parent
  }

  ghost predicate HasTimer(s: State, r: Record) {
    exists t :: FromTimer(s, r, t)
  }

  ghost predicate RecordsFromTimers(s: State) {
    forall i :: 0 <= i < |s.records| ==> HasTimer(s, s.records[i])
  }

  lemma StepKeepsFromTimer(s: State, step: Step, r: Record, t: nat)
    requires Enabled(s, step) && FromTimer(s, r, t)
    ensures FromTimer(Apply(s, step), r, t)
  {
  }

  lemma StepKeepsRecords(s: State, step: Step)
    requires Enabled(s, step) && RecordsFromTimers(s)
    ensures RecordsFromTimers(Apply(s, step))
  {
    var u := Apply(s, step);
    forall i | 0 <= i < |u.records| ensures HasTimer(u, u.records[i]) {
      if i < |s.records| {
        var t :| FromTimer(s, s.records[i], t);
        StepKeepsFromTimer(s, step, s.records[i], t);
        assert u.records[i] == s.records[i];
      } else {
        assert FromTimer(u, u.records[i], step.timer);
      }
    }
  }

  lemma {:induction false} RunRecords(states: seq<State>, steps: seq<Step>, n: nat)
    requires IsRun(states, steps) && n < |states|
    ensures RecordsFromTimers(states[n])
    decreases n
  {
    if n != 0 {
      RunRecords(states, steps, n - 1);
      StepKeepsRecords(states[n - 1], steps[n - 1]);
    }
  }

  // Timers and issued ids go together.
  lemma {:induction false} IssuedByTimers(states: seq<State>, steps: seq<Step>, n: nat)
    requires IsRun(states, steps) && n < |states|
    ensures |states[n].issued| == |states[n].timers|
    ensures forall t :: 0 <= t < |states[n].timers| ==>
              states[n].issued[t] == states[n].timers[t].spanId && states[n].issued[t] != ""
    decreases n
  {
    if n != 0 {
      IssuedByTimers(states, steps, n - 1);
      var s, step := states[n - 1], steps[n - 1];
      assert states[n] == Apply(s, step);
    }
  }

  lemma IdsDiffer(states: seq<State>, steps: seq<Step>, n: nat, t: nat, u: nat)
    requires IsRun(states, steps) && n < |states| && t < |states[n].timers| && u < |states[n].timers|
    requires SpanIdOf(states, steps, n, t) == SpanIdOf(states, steps, n, u)
    ensures t == u
  {
    RunInv(states, steps, n);
    IssuedByTimers(states, steps, n);
    StartedId(states, steps, n, t);
    StartedId(states, steps, n, u);
  }

  // The stored span is one that timer t measured.
  ghost predicate IsOf(states: seq<State>, steps: seq<Step>, n: nat, v: SpanView, t: nat)
    requires IsRun(states, steps) && n < |states|
  {
    t < |states[n].timers| && v.spanId == SpanIdOf(states, steps, n, t)
  }

  ghost predicate IsStored(states: seq<State>, steps: seq<Step>, n: nat, spans: seq<SpanView>, t: nat)
    requires IsRun(states, steps) && n < |states|
  {
    exists i :: 0 <= i < |spans| && IsOf(states, steps, n, spans[i], t)
  }

  // How many spans of an unbroken line of stored enclosing spans there are, counting the span itself.
  ghost function StoredLevel(states: seq<State>, steps: seq<Step>, n: nat, spans: seq<SpanView>, t: nat): nat
    requires IsRun(states, steps) && n < |states| && t < |states[n].timers|
    decreases t
  {
    var u := ParentTimer(states, steps, n, t);
    if u.Some? && IsStored(states, steps, n, spans, u.value)
    then StoredLevel(states, steps, n, spans, u.value) + 1 else 1
  }

  // What the viewer is told about the parent of a stored span.
  lemma ViewedParent(states: seq<State>, steps: seq<Step>, n: nat, spans: seq<SpanView>, i: nat, t: nat)
    requires IsRun(states, steps) && n < |states| && DrawnFrom(spans, states[n].records)
    requires i < |spans| && IsOf(states, steps, n, spans[i], t)
    ensures var u := ParentTimer(states, steps, n, t);
            if u.Some? then spans[i].parentSpanId == SpanIdOf(states, steps, n, u.value) && spans[i].parentSpanId != ""
            else spans[i].parentSpanId == ""
  {
    var r :| r in states[n].records && spans[i] == ViewOf(r);
    RunRecords(states, steps, n);
    assert HasTimer(states[n], r);
    var w :| FromTimer(states[n], r, w);
    StartedId(states, steps, n, w);
    IdsDiffer(states, steps, n, t, w);
    TimersFollow(states, steps, n, t);
    var u := ParentTimer(states, steps, n, t);
    IssuedByTimers(states, steps, n);
    if u.Some? { StartedId(states, steps, n, u.value); }
  }

  lemma ParentIsStored(states: seq<State>, steps: seq<Step>, n: nat, spans: seq<SpanView>, i: nat, t: nat)
    requires IsRun(states, steps) && n < |states| && DrawnFrom(spans, states[n].records)
    requires i < |spans| && IsOf(states, steps, n, spans[i], t)
    ensures var u, p := ParentTimer(states, steps, n, t), ParentIndex(spans, i);
            && (p.Some? <==> u.Some? && IsStored(states, steps, n, spans, u.value))
            && (p.Some? ==> IsOf(states, steps, n, spans[p.value], u.value))
  {
    ViewedParent(states, steps, n, spans, i, t);
    var m := IndexById(spans);
    var u := ParentTimer(states, steps, n, t);
    if u.Some? && IsStored(states, steps, n, spans, u.value) {
      var j :| 0 <= j < |spans| && IsOf(states, steps, n, spans[j], u.value);
      assert spans[j].spanId in m;
    }
  }

  /**
   After every run, with any subset of the records stored in any order: the depth of a stored span is
   the number of spans in the unbroken line of stored spans around it, counting itself.
   */
  lemma {:induction false} DepthIsNesting(
      states: seq<State>, steps: seq<Step>, n: nat, spans: seq<SpanView>, rank: seq<nat>, i: nat, t: nat)
    requires IsRun(states, steps) && n < |states| && DrawnFrom(spans, states[n].records)
    requires Ranked(spans, rank) && i < |spans| && IsOf(states, steps, n, spans[i], t)
    ensures SpanDepth(i, spans, rank) == StoredLevel(states, steps, n, spans, t)
    decreases t
  {
    ParentIsStored(states, steps, n, spans, i, t);
    var p := ParentIndex(spans, i);
    if p.Some? {
      DepthIsNesting(states, steps, n, spans, rank, p.value, ParentTimer(states, steps, n, t).value);
    }
  }

  /** So a stored span lies exactly one level below the span around it, when that is stored. */
  lemma ChildIsOneDeeper(
      states: seq<State>, steps: seq<Step>, n: nat, spans: seq<SpanView>, rank: seq<nat>, i: nat, t: nat, j: nat)
    requires IsRun(states, steps) && n < |states| && DrawnFrom(spans, states[n].records)
    requires Ranked(spans, rank) && i < |spans| && IsOf(states, steps, n, spans[i], t)
    requires j < |spans| && ParentTimer(states, steps, n, t).Some?
    requires IsOf(states, steps, n, spans[j], ParentTimer(states, steps, n, t).value)
    ensures SpanDepth(i, spans, rank) == SpanDepth(j, spans, rank) + 1
  {
    DepthIsNesting(states, steps, n, spans, rank, i, t);
    DepthIsNesting(states, steps, n, spans, rank, j, ParentTimer(states, steps, n, t).value);
  }
}
