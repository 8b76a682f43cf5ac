/**
 Trace spans.  Contexts, timers and records are created step by step; any record may be lost and
 records may be stored in any order.  A span id is fresh when it is drawn, unless said otherwise.
 */
module TraceForest {
  import opened Wrappers

  type SpanId = string

  datatype Context = Context(requestId: string, parent: Option<SpanId>)

  datatype Timer = Timer(spanId: SpanId, parent: Option<SpanId>)

  datatype Record = Record(requestId: string, spanId: SpanId, parent: Option<SpanId>, durationMs: nat)

  function NewContext(requestId: string): Context {
    Context(requestId, None)
  }

  function StartSpan(c: Context, id: SpanId): Timer {
    Timer(id, c.parent)
  }

  function ChildContext(c: Context, t: Timer): Context {
    Context(c.requestId, Some(t.spanId))
  }

  function RecordOf(c: Context, t: Timer, durationMs: nat): Record {
    Record(c.requestId, t.spanId, t.parent, durationMs)
  }

  // ----- runs -----

  // Contexts and timers are numbered in the order in which they are made.
  datatype State = State(issued: seq<SpanId>, contexts: seq<Context>, timers: seq<Timer>, records: seq<Record>)

  datatype Step =
    | New(requestId: string)
    | Start(context: nat, id: SpanId)
    | Child(context: nat, timer: nat)
    | RecordSpan(context: nat, timer: nat, durationMs: nat, lost: bool)

  // A drawn id is not empty: it is the request id, a hyphen and a number.
  ghost predicate Enabled(s: State, step: Step) {
    match step
    case New(_) => true
    case Start(c, id) => c < |s.contexts| && id !in s.issued && id != ""
    case Child(c, t) => c < |s.contexts| && t < |s.timers|
    case RecordSpan(c, t, _, _) => c < |s.contexts| && t < |s.timers|
  }

  ghost function Apply(s: State, step: Step): State
    requires Enabled(s, step)
  {
    match step
    case New(requestId) => s.(contexts := s.contexts + [NewContext(requestId)])
    case Start(c, id) => s.(issued := s.issued + [id], timers := s.timers + [StartSpan(s.contexts[c], id)])
    case Child(c, t) => s.(contexts := s.contexts + [ChildContext(s.contexts[c], s.timers[t])])
    case RecordSpan(c, t, durationMs, lost) =>
      if lost then s else s.(records := s.records + [RecordOf(s.contexts[c], s.timers[t], durationMs)])
  }

  ghost predicate IsRun(states: seq<State>, steps: seq<Step>) {
    && |states| == |steps| + 1
    && states[0] == State([], [], [], [])
    && forall i :: 0 <= i < |steps| ==> Enabled(states[i], steps[i]) && states[i + 1] == Apply(states[i], steps[i])
  }

  // The parent, if any, was issued before the span.
  ghost predicate ParentFirst(issued: seq<SpanId>, id: SpanId, parent: Option<SpanId>) {
    exists j :: 0 <= j < |issued| && issued[j] == id && (parent.Some? ==> parent.value in issued[..j])
  }

  ghost predicate Inv(s: State) {
    && (forall i, j :: 0 <= i < j < |s.issued| ==> s.issued[i] != s.issued[j])
    && (forall c :: 0 <= c < |s.contexts| && s.contexts[c].parent.Some? ==> s.contexts[c].parent.value in s.issued)
    && (forall t :: 0 <= t < |s.timers| ==> ParentFirst(s.issued, s.timers[t].spanId, s.timers[t].parent))
    && (forall i :: 0 <= i < |s.records| ==> ParentFirst(s.issued, s.records[i].spanId, s.records[i].parent))
  }

  lemma ParentFirstGrows(issued: seq<SpanId>, new_: SpanId, id: SpanId, parent: Option<SpanId>)
    requires ParentFirst(issued, id, parent)
    ensures ParentFirst(issued + [new_], id, parent)
  {
    var j :| 0 <= j < |issued| && issued[j] == id && (parent.Some? ==> parent.value in issued[..j]);
    assert (issued + [new_])[..j] == issued[..j] && (issued + [new_])[j] == id;
  }

  lemma StartKeepsInv(s: State, c: nat, id: SpanId)
    requires Inv(s) && Enabled(s, Start(c, id))
    ensures Inv(Apply(s, Start(c, id)))
  {
    var u := Apply(s, Start(c, id));
    forall t | 0 <= t < |s.timers| ensures ParentFirst(u.issued, s.timers[t].spanId, s.timers[t].parent) {
      ParentFirstGrows(s.issued, id, s.timers[t].spanId, s.timers[t].parent);
    }
    forall i | 0 <= i < |s.records| ensures ParentFirst(u.issued, s.records[i].spanId, s.records[i].parent) {
      ParentFirstGrows(s.issued, id, s.records[i].spanId, s.records[i].parent);
    }
    var n := |s.issued|;
    assert u.issued[n] == id && u.issued[..n] == s.issued;
    assert ParentFirst(u.issued, id, s.contexts[c].parent);
  }

  lemma StepKeepsInv(s: State, step: Step)
    requires Inv(s) && Enabled(s, step)
    ensures Inv(Apply(s, step))
  {
    match step
    case New(_) =>
    case Start(c, id) => StartKeepsInv(s, c, id);
    case Child(_, t) => assert ParentFirst(s.issued, s.timers[t].spanId, s.timers[t].parent);
    case RecordSpan(_, t, _, _) => assert ParentFirst(s.issued, s.timers[t].spanId, s.timers[t].parent);
  }

  lemma {:induction false} RunInv(states: seq<State>, steps: seq<Step>, n: nat)
    requires IsRun(states, steps) && n < |states|
    ensures Inv(states[n])
    decreases n
  {
    if n != 0 {
      RunInv(states, steps, n - 1);
      StepKeepsInv(states[n - 1], steps[n - 1]);
    }
  }

  // ----- the stored spans of a trace, as the viewer sees them -----

  datatype SpanView = SpanView(spanId: SpanId, parentSpanId: SpanId, durationMs: nat)

  function ViewOf(r: Record): SpanView {
    SpanView(r.spanId, if r.parent.Some? then r.parent.value else "", r.durationMs)
  }

  predicate HasParentSpanId(s: SpanView) {
    s.parentSpanId != ""
  }

  // Collected into a hash map: of several spans with one id the last one is kept.
  function IndexById(spans: seq<SpanView>): (m: map<SpanId, nat>)
    ensures forall id :: id in m ==> m[id] < |spans| && spans[m[id]].spanId == id
    ensures forall i :: 0 <= i < |spans| ==> spans[i].spanId in m && i <= m[spans[i].spanId]
  {
    if spans == [] then map[]
    else var n := |spans| - 1; IndexById(spans[..n])[spans[n].spanId := n]
  }

  function ParentIndex(spans: seq<SpanView>, i: nat): (p: Option<nat>)
    requires i < |spans|
    ensures p.Some? ==> p.value < |spans| && spans[p.value].spanId == spans[i].parentSpanId
  {
    var m := IndexById(spans);
    if HasParentSpanId(spans[i]) && spans[i].parentSpanId in m then Some(m[spans[i].parentSpanId]) else None
  }

  // Parents have smaller ranks, so following parents ends.
  ghost predicate Ranked(spans: seq<SpanView>, rank: seq<nat>) {
    && |rank| == |spans|
    && forall i :: 0 <= i < |spans| && ParentIndex(spans, i).Some? ==> rank[ParentIndex(spans, i).value] < rank[i]
  }

  function SpanDepth(index: nat, spans: seq<SpanView>, ghost rank: seq<nat>): (d: nat)
    requires Ranked(spans, rank) && index < |spans|
    ensures 1 <= d
    decreases rank[index]
  {
    var p := ParentIndex(spans, index);
    if p.None? then 1 else SpanDepth(p.value, spans, rank) + 1
  }

  // A span and its recorded ancestors, up to the first without a recorded parent.
  ghost predicate IsChain(spans: seq<SpanView>, c: seq<nat>, start: nat) {
    && c != [] && c[0] == start
    && (forall k :: 0 <= k < |c| ==> c[k] < |spans|)
    && (forall k :: 0 <= k < |c| - 1 ==> ParentIndex(spans, c[k]) == Some(c[k + 1]))
    && ParentIndex(spans, c[|c| - 1]).None?
  }

  /** The depth of a span is the length of its chain of recorded ancestors, counting itself. */
  lemma {:induction false} DepthIsChainLength(spans: seq<SpanView>, rank: seq<nat>, c: seq<nat>, start: nat)
    requires Ranked(spans, rank) && start < |spans| && IsChain(spans, c, start)
    ensures SpanDepth(start, spans, rank) == |c|
    decreases |c|
  {
    if |c| > 1 {
      assert ParentIndex(spans, c[0]) == Some(c[1]);
      assert IsChain(spans, c[1..], c[1]);
      DepthIsChainLength(spans, rank, c[1..], c[1]);
    }
  }

  lemma {:induction false} ChainExists(spans: seq<SpanView>, rank: seq<nat>, start: nat) returns (c: seq<nat>)
    requires Ranked(spans, rank) && start < |spans|
    ensures IsChain(spans, c, start)
    decreases rank[start]
  {
    var p := ParentIndex(spans, start);
    if p.None? {
      c := [start];
    } else {
      var rest := ChainExists(spans, rank, p.value);
      c := [start] + rest;
      forall k | 0 <= k < |c| - 1 ensures ParentIndex(spans, c[k]) == Some(c[k + 1]) {
        if 0 < k { assert c[k] == rest[k - 1] && c[k + 1] == rest[k]; }
      }
    }
  }

  lemma {:induction false} ChainRanksFall(spans: seq<SpanView>, rank: seq<nat>, c: seq<nat>, start: nat, i: nat, j: nat)
    requires Ranked(spans, rank) && IsChain(spans, c, start) && i < j < |c|
    ensures rank[c[j]] < rank[c[i]]
    decreases j
  {
    assert ParentIndex(spans, c[j - 1]) == Some(c[j - 1 + 1]);
    if i < j - 1 { ChainRanksFall(spans, rank, c, start, i, j - 1); }
  }

  ghost function Members(c: seq<nat>): (m: set<nat>)
    ensures forall x: nat :: x in m <==> x in c
  {
    if c == [] then {} else Members(c[..|c| - 1]) + {c[|c| - 1]}
  }

  ghost function Below(n: nat): (m: set<nat>)
    ensures forall x: nat :: x in m <==> x < n
    ensures |m| == n
  {
    if n == 0 then {} else Below(n - 1) + {n - 1}
  }

  lemma {:induction false} DistinctSize(c: seq<nat>)
    requires forall i, j :: 0 <= i < j < |c| ==> c[i] != c[j]
    ensures |Members(c)| == |c|
  {
    if c != [] {
      DistinctSize(c[..|c| - 1]);
      assert c[|c| - 1] !in c[..|c| - 1];
    }
  }

  lemma DistinctBelow(c: seq<nat>, n: nat)
    requires forall i :: 0 <= i < |c| ==> c[i] < n
    requires forall i, j :: 0 <= i < j < |c| ==> c[i] != c[j]
    ensures |c| <= n
  {
    DistinctSize(c);
    assert Members(c) <= Below(n);
    assert Below(n) == Members(c) + (Below(n) - Members(c));
  }

  /** A span is never deeper than the number of spans. */
  lemma DepthBound(spans: seq<SpanView>, rank: seq<nat>, index: nat)
    requires Ranked(spans, rank) && index < |spans|
    ensures SpanDepth(index, spans, rank) <= |spans|
  {
    var c := ChainExists(spans, rank, index);
    DepthIsChainLength(spans, rank, c, index);
    forall i, j | 0 <= i < j < |c| ensures c[i] != c[j] { ChainRanksFall(spans, rank, c, index, i, j); }
    DistinctBelow(c, |spans|);
  }

  ghost predicate HasChain(spans: seq<SpanView>, start: nat) {
    exists c :: IsChain(spans, c, start)
  }

  ghost function TheChain(spans: seq<SpanView>, start: nat): (c: seq<nat>)
    requires HasChain(spans, start)
    ensures IsChain(spans, c, start)
  {
    var c :| IsChain(spans, c, start); c
  }

  lemma {:induction false} ChainsAgree(spans: seq<SpanView>, c: seq<nat>, d: seq<nat>, start: nat)
    requires IsChain(spans, c, start) && IsChain(spans, d, start)
    ensures c == d
    decreases |c|
  {
    assert |c| > 1 ==> ParentIndex(spans, c[0]) == Some(c[1]);
    assert |d| > 1 ==> ParentIndex(spans, d[0]) == Some(d[1]);
    if |c| > 1 && |d| > 1 {
      assert IsChain(spans, c[1..], c[1]) && IsChain(spans, d[1..], d[1]);
      ChainsAgree(spans, c[1..], d[1..], c[1]);
      assert c == [c[0]] + c[1..] && d == [d[0]] + d[1..];
    }
  }

  lemma ParentChainShorter(spans: seq<SpanView>, i: nat, p: nat)
    requires i < |spans| && ParentIndex(spans, i) == Some(p) && HasChain(spans, i) && HasChain(spans, p)
    ensures |TheChain(spans, p)| < |TheChain(spans, i)|
  {
    var c := TheChain(spans, i);
    assert |c| > 1;
    assert IsChain(spans, c[1..], p);
    ChainsAgree(spans, c[1..], TheChain(spans, p), p);
  }

  /** The recursion of the depth ends for every span exactly when every span has a finite chain. */
  lemma RankedIffChains(spans: seq<SpanView>)
    ensures (exists rank :: Ranked(spans, rank)) <==>
            forall i: nat :: i < |spans| ==> HasChain(spans, i)
  {
    if rank :| Ranked(spans, rank) {
      forall i: nat | i < |spans| ensures HasChain(spans, i) {
        var c := ChainExists(spans, rank, i);
      }
    }
    if forall i: nat :: i < |spans| ==> HasChain(spans, i) {
      var rank := seq(|spans|, i requires 0 <= i < |spans| && HasChain(spans, i) => |TheChain(spans, i)|);
      forall i | 0 <= i < |spans| && ParentIndex(spans, i).Some?
        ensures rank[ParentIndex(spans, i).value] < rank[i]
      {
        ParentChainShorter(spans, i, ParentIndex(spans, i).value);
      }
      assert Ranked(spans, rank);
    }
  }

  // Span p is the last one stored under the id that span i names as its parent.
  ghost predicate Links(spans: seq<SpanView>, i: nat, p: nat) {
    && i < |spans| && p < |spans|
    && spans[i].parentSpanId != "" && spans[p].spanId == spans[i].parentSpanId
    && forall q :: p < q < |spans| ==> spans[q].spanId != spans[p].spanId
  }

  lemma LinksIff(spans: seq<SpanView>, i: nat, p: nat)
    requires i < |spans|
    ensures Links(spans, i, p) <==> ParentIndex(spans, i) == Some(p)
  {
    var m := IndexById(spans);
    if Links(spans, i, p) {
      assert spans[p].spanId in m && p <= m[spans[p].spanId];
    }
  }

  ghost predicate IsPath(spans: seq<SpanView>, c: seq<nat>) {
    && c != []
    && (forall k :: 0 <= k < |c| ==> c[k] < |spans|)
    && (forall k :: 0 <= k < |c| - 1 ==> Links(spans, c[k], c[k + 1]))
  }

  ghost predicate IsCycle(spans: seq<SpanView>, c: seq<nat>) {
    IsPath(spans, c) && Links(spans, c[|c| - 1], c[0])
  }

  ghost predicate Acyclic(spans: seq<SpanView>) {
    forall c :: !IsCycle(spans, c)
  }

  lemma {:induction false} PathOrChain(spans: seq<SpanView>, start: nat, n: nat) returns (c: seq<nat>)
    requires start < |spans|
    ensures IsPath(spans, c) && c[0] == start
    ensures IsChain(spans, c, start) || |c| == n + 1
    decreases n
  {
    var p := ParentIndex(spans, start);
    if n == 0 || p.None? {
      c := [start];
    } else {
      var rest := PathOrChain(spans, p.value, n - 1);
      LinksIff(spans, start, p.value);
      c := [start] + rest;
      ConsPath(spans, start, rest);
    }
  }

  lemma ConsPath(spans: seq<SpanView>, start: nat, rest: seq<nat>)
    requires IsPath(spans, rest) && Links(spans, start, rest[0])
    ensures IsPath(spans, [start] + rest)
    ensures IsChain(spans, rest, rest[0]) ==> IsChain(spans, [start] + rest, start)
  {
    var c := [start] + rest;
    LinksIff(spans, start, rest[0]);
    forall k | 0 <= k < |c| - 1 ensures Links(spans, c[k], c[k + 1]) && ParentIndex(spans, c[k]) == Some(c[k + 1]) {
      if 0 < k { assert c[k] == rest[k - 1] && c[k + 1] == rest[k]; }
      LinksIff(spans, c[k], c[k + 1]);
    }
  }

  lemma AcyclicPathDistinct(spans: seq<SpanView>, c: seq<nat>, i: nat, j: nat)
    requires Acyclic(spans) && IsPath(spans, c) && i < j < |c|
    ensures c[i] != c[j]
  {
    if c[i] == c[j] {
      assert Links(spans, c[j - 1], c[j - 1 + 1]);
      assert IsCycle(spans, c[i..j]);
    }
  }

  lemma AcyclicHasChain(spans: seq<SpanView>, start: nat)
    requires Acyclic(spans) && start < |spans|
    ensures HasChain(spans, start)
  {
    var c := PathOrChain(spans, start, |spans|);
    forall i, j | 0 <= i < j < |c| ensures c[i] != c[j] { AcyclicPathDistinct(spans, c, i, j); }
    DistinctBelow(c, |spans|);
  }

  lemma {:induction false} PathRanksFall(spans: seq<SpanView>, rank: seq<nat>, c: seq<nat>, j: nat)
    requires Ranked(spans, rank) && IsPath(spans, c) && j < |c|
    ensures rank[c[j]] <= rank[c[0]]
    decreases j
  {
    if 0 < j {
      PathRanksFall(spans, rank, c, j - 1);
      assert Links(spans, c[j - 1], c[j - 1 + 1]);
      LinksIff(spans, c[j - 1], c[j]);
    }
  }

  /**
   The recursion of the depth ends for every span exactly when the stored pairs of span id and parent
   id contain no cycle.
   */
  lemma RankedIffAcyclic(spans: seq<SpanView>)
    ensures (exists rank :: Ranked(spans, rank)) <==> Acyclic(spans)
  {
    if rank :| Ranked(spans, rank) {
      forall c ensures !IsCycle(spans, c) {
        if IsCycle(spans, c) {
          PathRanksFall(spans, rank, c, |c| - 1);
          LinksIff(spans, c[|c| - 1], c[0]);
        }
      }
    }
    if Acyclic(spans) {
      forall i: nat | i < |spans| ensures HasChain(spans, i) { AcyclicHasChain(spans, i); }
      RankedIffChains(spans);
    }
  }

  // ----- runs give forests -----

  // Some of the stored records, in any order, repeated or not.
  ghost predicate DrawnFrom(spans: seq<SpanView>, records: seq<Record>) {
    forall i :: 0 <= i < |spans| ==> exists r :: r in records && spans[i] == ViewOf(r)
  }

  ghost predicate IssuedAt(issued: seq<SpanId>, id: SpanId, j: nat) {
    j < |issued| && issued[j] == id
  }

  lemma SpanIssue(s: State, v: SpanView) returns (j: nat)
    requires Inv(s) && (exists r :: r in s.records && v == ViewOf(r))
    ensures IssuedAt(s.issued, v.spanId, j)
    ensures HasParentSpanId(v) ==> v.parentSpanId in s.issued[..j]
  {
    var r :| r in s.records && v == ViewOf(r);
    var i :| 0 <= i < |s.records| && s.records[i] == r;
    assert ParentFirst(s.issued, s.records[i].spanId, s.records[i].parent);
    j :| 0 <= j < |s.issued| && s.issued[j] == r.spanId && (r.parent.Some? ==> r.parent.value in s.issued[..j]);
  }

  ghost function Position(issued: seq<SpanId>, id: SpanId): (j: nat)
    ensures id in issued ==> IssuedAt(issued, id, j)
  {
    if id in issued then var j :| 0 <= j < |issued| && issued[j] == id; j else 0
  }

  /** Every run leaves a forest: the ancestors of every stored span end, whatever was lost or reordered. */
  lemma RunsGiveForests(states: seq<State>, steps: seq<Step>, n: nat, spans: seq<SpanView>) returns (rank: seq<nat>)
    requires IsRun(states, steps) && n < |states|
    requires DrawnFrom(spans, states[n].records)
    ensures Ranked(spans, rank)
  {
    var s := states[n];
    RunInv(states, steps, n);
    rank := seq(|spans|, i requires 0 <= i < |spans| => Position(s.issued, spans[i].spanId));
    forall i | 0 <= i < |spans| && ParentIndex(spans, i).Some?
      ensures rank[ParentIndex(spans, i).value] < rank[i]
    {
      ParentIssuedFirst(s, spans, i);
    }
  }

  lemma ParentIssuedFirst(s: State, spans: seq<SpanView>, i: nat)
    requires Inv(s) && DrawnFrom(spans, s.records) && i < |spans| && ParentIndex(spans, i).Some?
    ensures Position(s.issued, spans[ParentIndex(spans, i).value].spanId) < Position(s.issued, spans[i].spanId)
  {
    var p := ParentIndex(spans, i).value;
    var j := SpanIssue(s, spans[i]);
    var k :| 0 <= k < j && s.issued[k] == spans[i].parentSpanId;
    assert IssuedAt(s.issued, spans[p].spanId, k);
  }

  /** Freshness is needed: a child that draws its parent's id has no finite chain of ancestors. */
  lemma CollidingIdsLoop(requestId: string, id: SpanId, durationMs: nat)
    requires id != ""
    ensures var root := NewContext(requestId);
            var child := ChildContext(root, StartSpan(root, id));
            var spans := [ViewOf(RecordOf(child, StartSpan(child, id), durationMs))];
            forall c :: !IsChain(spans, c, 0)
  {
  }
}
