/** The observational state machine: replaying a capture through its states, and counting states
    and transitions. State names are strings, as a branch name is chosen by the caller. */
module Replay {
  import opened Bytes

  const STABLE_STARTUP_SEQUENCE: seq<u16> := [0x1E, 0x1F, 0x19, 0x1A, 0x79, 0x7A, 0x12E, 0x12F]
  const START: string := "START"
  const STARTUP_SEQUENCE: string := "STARTUP_SEQUENCE"
  const POST_STARTUP: string := "POST_STARTUP"
  const REPEATING_CLUSTER_01: string := "REPEATING_CLUSTER_01"

  datatype Observation = Observation(frameIndex: u32, messageId: u16, direction: string, context: u32)

  datatype TraceEntry = TraceEntry(
    frameIndex: u32, messageId: u16, direction: string, context: u32, fromState: string, toState: string)

  /** How many leading ids match the startup sequence. */
  method StartupPrefixLen(ids: seq<u16>) returns (n: nat)
    ensures n <= |ids| && n <= |STABLE_STARTUP_SEQUENCE| && ids[..n] == STABLE_STARTUP_SEQUENCE[..n]
    ensures n < |ids| && n < |STABLE_STARTUP_SEQUENCE| ==> ids[n] != STABLE_STARTUP_SEQUENCE[n]
  {
    n := 0;
    while n < |STABLE_STARTUP_SEQUENCE| && n < |ids| && ids[n] == STABLE_STARTUP_SEQUENCE[n]
      invariant n <= |ids| && n <= |STABLE_STARTUP_SEQUENCE|
      invariant forall k | 0 <= k < n :: ids[k] == STABLE_STARTUP_SEQUENCE[k]
    {
      n := n + 1;
    }
  }

  predicate IsClusterMember(id: u16) { id == 0xFA || id == 0xFB }

  /** From some frame on, a capture may be in a branch of its own. */
  datatype BranchAfter = BranchAfter(index: nat, state: string)

  /** The next state, as the replay computes it from the current one. */
  function NextState(index: nat, messageId: u16, current: string, startupLen: nat, branch: Option<BranchAfter>)
    : string
  {
    if index < startupLen then STARTUP_SEQUENCE
    else if IsClusterMember(messageId) then REPEATING_CLUSTER_01
    else if current == REPEATING_CLUSTER_01 && !IsClusterMember(messageId) then
      if branch.Some? && index >= branch.value.index then branch.value.state else POST_STARTUP
    else if branch.Some? && index >= branch.value.index then branch.value.state
    else if current == STARTUP_SEQUENCE || current == START then POST_STARTUP
    else current
  }

  /** The state of frame `index`, from its position and id alone. */
  function StateOf(index: nat, messageId: u16, startupLen: nat, branch: Option<BranchAfter>): string {
    if index < startupLen then "STARTUP_SEQUENCE"
    else if messageId in {0xFA, 0xFB} then "REPEATING_CLUSTER_01"
    else if branch.Some? && index >= branch.value.index then branch.value.state
    else "POST_STARTUP"
  }

  /** The length of the longest common prefix with the startup sequence. */
  ghost predicate IsStartupLen(ids: seq<u16>, n: nat) {
    var startup := [0x1E, 0x1F, 0x19, 0x1A, 0x79, 0x7A, 0x12E, 0x12F];
    n <= |ids| && n <= 8 && ids[..n] == startup[..n] && (n < |ids| && n < 8 ==> ids[n] != startup[n])
  }

  /** History does not matter. If the current state is the one of the frame before, or START at the
      first frame, the replay's rule gives the state of this frame, whatever the branch is called. */
  lemma NextStateForgetsHistory(index: nat, id: u16, before: u16, startupLen: nat, branch: Option<BranchAfter>)
    ensures NextState(index, id, if index == 0 then START else StateOf(index - 1, before, startupLen, branch),
        startupLen, branch)
         == StateOf(index, id, startupLen, branch)
  {
    assert START != REPEATING_CLUSTER_01;
    assert STARTUP_SEQUENCE != REPEATING_CLUSTER_01;
    assert POST_STARTUP != REPEATING_CLUSTER_01;
  }

  /** Entry i copies its observation, starts where the entry before it ended, and ends in the state
      its own position and id determine. */
  ghost predicate Traced(out: seq<TraceEntry>, observations: seq<Observation>, i: nat, startupLen: nat,
      branch: Option<BranchAfter>)
    requires i < |out| <= |observations|
  {
    var o, from := observations[i], if i == 0 then START else out[i - 1].toState;
    out[i] == TraceEntry(o.frameIndex, o.messageId, o.direction, o.context, from,
                         StateOf(i, o.messageId, startupLen, branch))
  }

  function IdsOf(observations: seq<Observation>): (ids: seq<u16>)
    ensures |ids| == |observations| && forall i | 0 <= i < |ids| :: ids[i] == observations[i].messageId
  {
    if observations == [] then []
    else
      var last := |observations| - 1;
      IdsOf(observations[..last]) + [observations[last].messageId]
  }

  /** Replays the observations by the history-free rule; consecutive entries chain, from START. */
  method ReplayStateTrace(observations: seq<Observation>, branch: Option<BranchAfter>)
    returns (out: seq<TraceEntry>, ghost startupLen: nat)
    ensures |out| == |observations|
    ensures IsStartupLen(IdsOf(observations), startupLen)
    ensures forall i | 0 <= i < |out| :: Traced(out, observations, i, startupLen, branch)
  {
    hide NextState, StateOf, IdsOf;
    var prefix := StartupPrefixLen(IdsOf(observations));
    startupLen := prefix;
    out := [];
    var current := START;
    for i := 0 to |observations|
      invariant |out| == i
      invariant current == if i == 0 then START else out[i - 1].toState
      invariant forall k | 0 <= k < i :: Traced(out, observations, k, startupLen, branch)
    {
      var o := observations[i];
      var from := current;
      var to := NextState(i, o.messageId, from, prefix, branch);
      if i > 0 {
        assert Traced(out, observations, i - 1, startupLen, branch);
      }
      NextStateForgetsHistory(i, o.messageId, if i == 0 then 0 else observations[i - 1].messageId, prefix, branch);
      ghost var before := out;
      out := out + [TraceEntry(o.frameIndex, o.messageId, o.direction, o.context, from, to)];
      forall k | 0 <= k <= i ensures Traced(out, observations, k, startupLen, branch) {
        if k < i {
          assert Traced(before, observations, k, startupLen, branch);
        }
      }
      current := to;
    }
  }

  /** The total over all keys of a map of counts. */
  ghost function Total<K>(m: map<K, nat>): nat
    decreases |m|
  {
    if m == map[] then 0
    else
      var k :| k in m;
      m[k] + Total(m - {k})
  }

  /** The total does not depend on the order of the keys. */
  lemma {:induction false} TotalSplit<K>(m: map<K, nat>, k: K)
    requires k in m
    ensures Total(m) == m[k] + Total(m - {k})
    decreases |m|
  {
    var first :| first in m && Total(m) == m[first] + Total(m - {first});
    if first == k {
    } else {
      TotalSplit(m - {first}, k);
      TotalSplit(m - {k}, first);
      assert m - {first} - {k} == m - {k} - {first};
    }
  }

  function Count<K(==)>(m: map<K, nat>, k: K): nat { if k in m then m[k] else 0 }

  lemma TotalUpdate<K>(m: map<K, nat>, k: K, v: nat)
    ensures Total(m[k := v]) == Total(m) - Count(m, k) + v
  {
    var n := m[k := v];
    TotalSplit(n, k);
    assert n - {k} == m - {k};
    if k in m {
      TotalSplit(m, k);
    } else {
      assert m - {k} == m;
    }
  }

  /** First frame, last frame and number of the entries into a state. */
  datatype Visit = Visit(first: u32, last: u32, count: nat)

  /** How often a state was entered. */
  ghost function Entries(trace: seq<TraceEntry>, state: string): nat {
    if trace == [] then 0
    else Entries(trace[..|trace| - 1], state) + if trace[|trace| - 1].toState == state then 1 else 0
  }

  ghost function VisitCounts(m: map<string, Visit>): map<string, nat> { map k | k in m :: m[k].count }

  /** A visit that tells the truth about a state of the trace: its count, and its first and last
      frame, both attained. */
  ghost predicate VisitOf(v: Visit, trace: seq<TraceEntry>, s: string) {
    && v.count == Entries(trace, s) > 0
    && (forall e <- trace :: e.toState == s ==> v.first <= e.frameIndex <= v.last)
    && (exists e <- trace :: e.toState == s && e.frameIndex == v.first)
    && (exists e <- trace :: e.toState == s && e.frameIndex == v.last)
  }

  ghost predicate Summarises(m: map<string, Visit>, trace: seq<TraceEntry>) {
    && (forall e <- trace :: e.toState in m)
    && (forall s :: s in m ==> VisitOf(m[s], trace, s))
  }

  lemma Longer(trace: seq<TraceEntry>, e: TraceEntry, s: string)
    ensures Entries(trace + [e], s) == Entries(trace, s) + if e.toState == s then 1 else 0
    ensures e in trace + [e] && (forall d <- trace :: d in trace + [e]) &&
        (forall d <- trace + [e] :: d == e || d in trace)
  {
    assert (trace + [e])[..|trace|] == trace;
  }

  lemma VisitKept(v: Visit, trace: seq<TraceEntry>, s: string, e: TraceEntry)
    requires VisitOf(v, trace, s) && e.toState != s
    ensures VisitOf(v, trace + [e], s)
  {
    Longer(trace, e, s);
    hide Entries;
    var a :| a in trace && a.toState == s && a.frameIndex == v.first;
    var b :| b in trace && b.toState == s && b.frameIndex == v.last;
    assert a in trace + [e] && b in trace + [e];
  }

  /** The visit of a state after one more entry into it. */
  function Entered(m: map<string, Visit>, e: TraceEntry): Visit {
    if e.toState in m then
      var v := m[e.toState];
      Visit(if v.first <= e.frameIndex then v.first else e.frameIndex,
            if v.last >= e.frameIndex then v.last else e.frameIndex, v.count + 1)
    else Visit(e.frameIndex, e.frameIndex, 1)
  }

  lemma VisitEntered(m: map<string, Visit>, trace: seq<TraceEntry>, e: TraceEntry)
    requires Summarises(m, trace)
    ensures VisitOf(Entered(m, e), trace + [e], e.toState)
  {
    var s := e.toState;
    Longer(trace, e, s);
    hide Entries;
    assert e in trace + [e];
    if s in m {
      var v := m[s];
      assert VisitOf(v, trace, s);
      var a :| a in trace && a.toState == s && a.frameIndex == v.first;
      var b :| b in trace && b.toState == s && b.frameIndex == v.last;
      assert a in trace + [e] && b in trace + [e];
    } else {
      NoneEntered(trace, s);
    }
  }

  lemma SummarisesStep(m: map<string, Visit>, trace: seq<TraceEntry>, e: TraceEntry)
    requires Summarises(m, trace)
    ensures Summarises(m[e.toState := Entered(m, e)], trace + [e])
  {
    hide VisitOf, Entered;
    VisitEntered(m, trace, e);
    var n := m[e.toState := Entered(m, e)];
    forall s | s in n ensures VisitOf(n[s], trace + [e], s) {
      if s != e.toState {
        VisitKept(m[s], trace, s, e);
      }
    }
  }

  lemma {:induction false} NoneEntered(trace: seq<TraceEntry>, s: string)
    requires forall e <- trace :: e.toState != s
    ensures Entries(trace, s) == 0
  {
    if trace == [] {
    } else {
      NoneEntered(trace[..|trace| - 1], s);
    }
  }

  /** Counts the states of a trace. The counts of all states add up to the length of the trace. */
  method AggregateStates(trace: seq<TraceEntry>) returns (m: map<string, Visit>)
    ensures Summarises(m, trace)
    ensures Total(VisitCounts(m)) == |trace|
  {
    hide Summarises, Entries;
    m := map[];
    assert VisitCounts(m) == map[];
    NothingSummarised();
    for i := 0 to |trace|
      invariant Summarises(m, trace[..i]) && Total(VisitCounts(m)) == i
    {
      var e := trace[i];
      var v := Entered(m, e);
      SummarisesStep(m, trace[..i], e);
      assert trace[..i] + [e] == trace[..i + 1];
      TotalUpdate(VisitCounts(m), e.toState, v.count);
      assert VisitCounts(m[e.toState := v]) == VisitCounts(m)[e.toState := v.count];
      m := m[e.toState := v];
    }
    assert trace[..|trace|] == trace;
  }

  lemma NothingSummarised()
    ensures Summarises(map[], [])
  {
  }

  datatype Classification = Observed | StableCrossCapture | CaptureSpecific | UnknownClass

  datatype Edge = Edge(
    fromState: string, toState: string, messageId: u16, direction: string, context: u32,
    occurrences: nat, capturesSeen: set<string>, classification: Classification, requestResponse: bool)

  /** What two edges must share to be one: within a capture their context too, across captures not. */
  datatype Key = Key(fromState: string, toState: string, messageId: u16, direction: string, context: Option<u32>)

  function KeyOf(e: Edge, byContext: bool): Key {
    Key(e.fromState, e.toState, e.messageId, e.direction, if byContext then Some(e.context) else None)
  }

  /** An edge with another of its key added to it. */
  function Joined(e: Edge, more: Edge): Edge {
    e.(occurrences := e.occurrences + more.occurrences, capturesSeen := e.capturesSeen + more.capturesSeen,
       requestResponse := e.requestResponse || more.requestResponse)
  }

  /** All edges of one key joined, in order; None if there are none. Other keys play no part. */
  ghost function Group(edges: seq<Edge>, k: Key, byContext: bool): Option<Edge> {
    if edges == [] then None
    else
      var last := edges[|edges| - 1];
      var before := Group(edges[..|edges| - 1], k, byContext);
      if KeyOf(last, byContext) != k then before
      else match before case None => Some(last) case Some(e) => Some(Joined(e, last))
  }

  ghost predicate Grouped(m: map<Key, Edge>, edges: seq<Edge>, byContext: bool) {
    forall k :: Group(edges, k, byContext) == if k in m then Some(m[k]) else None
  }

  ghost function Occurrences(m: map<Key, Edge>): map<Key, nat> { map k | k in m :: m[k].occurrences }

  ghost function SumOf(edges: seq<Edge>): nat {
    if edges == [] then 0 else SumOf(edges[..|edges| - 1]) + edges[|edges| - 1].occurrences
  }

  function Added(m: map<Key, Edge>, e: Edge, byContext: bool): map<Key, Edge> {
    var k := KeyOf(e, byContext);
    m[k := if k in m then Joined(m[k], e) else e]
  }

  lemma AddedGroups(m: map<Key, Edge>, edges: seq<Edge>, e: Edge, byContext: bool)
    requires Grouped(m, edges, byContext) && Total(Occurrences(m)) == SumOf(edges)
    ensures Grouped(Added(m, e, byContext), edges + [e], byContext)
    ensures Total(Occurrences(Added(m, e, byContext))) == SumOf(edges + [e])
  {
    var n, k := Added(m, e, byContext), KeyOf(e, byContext);
    assert (edges + [e])[..|edges|] == edges;
    assert Occurrences(n) == Occurrences(m)[k := n[k].occurrences];
    TotalUpdate(Occurrences(m), k, n[k].occurrences);
    forall j ensures Group(edges + [e], j, byContext) == if j in n then Some(n[j]) else None {
      assert Group(edges, j, byContext) == if j in m then Some(m[j]) else None;
    }
  }

  /** Is the id one of a request and response pair? */
  predicate InPair(id: u16, pairs: set<(u16, u16)>) { exists p <- pairs :: id == p.0 || id == p.1 }

  lemma InPairMeans(id: u16, pairs: set<(u16, u16)>)
    ensures InPair(id, pairs) <==> exists other :: (id, other) in pairs || (other, id) in pairs
  {
    if InPair(id, pairs) {
      var p :| p in pairs && (id == p.0 || id == p.1);
      assert p == (p.0, p.1);
    }
  }

  /** A trace entry as an edge that occurred once. */
  function EdgeOf(captureId: string, e: TraceEntry, pairs: set<(u16, u16)>): Edge {
    Edge(e.fromState, e.toState, e.messageId, e.direction, e.context, 1, {captureId}, Observed,
         InPair(e.messageId, pairs))
  }

  function EdgesOf(captureId: string, trace: seq<TraceEntry>, pairs: set<(u16, u16)>): (edges: seq<Edge>)
    ensures |edges| == |trace| && forall i | 0 <= i < |edges| :: edges[i] == EdgeOf(captureId, trace[i], pairs)
  {
    if trace == [] then []
    else EdgesOf(captureId, trace[..|trace| - 1], pairs) + [EdgeOf(captureId, trace[|trace| - 1], pairs)]
  }

  lemma EdgesSnoc(captureId: string, trace: seq<TraceEntry>, i: nat, pairs: set<(u16, u16)>)
    requires i < |trace|
    ensures EdgesOf(captureId, trace[..i + 1], pairs) ==
        EdgesOf(captureId, trace[..i], pairs) + [EdgeOf(captureId, trace[i], pairs)]
  {
    assert trace[..i + 1][..i] == trace[..i];
  }

  lemma {:induction false} UnitEdgesSum(captureId: string, trace: seq<TraceEntry>, pairs: set<(u16, u16)>)
    ensures SumOf(EdgesOf(captureId, trace, pairs)) == |trace|
  {
    if trace == [] {
    } else {
      var before := trace[..|trace| - 1];
      UnitEdgesSum(captureId, before, pairs);
      assert EdgesOf(captureId, trace, pairs)[..|trace| - 1] == EdgesOf(captureId, before, pairs);
    }
  }

  lemma NothingGrouped(byContext: bool)
    ensures Grouped(map[], [], byContext) && Total(Occurrences(map[])) == SumOf([]) == 0
  {
    assert Occurrences(map[]) == map[];
  }

  /** The key of a trace entry without its context. */
  function PlainKey(e: TraceEntry): Key { Key(e.fromState, e.toState, e.messageId, e.direction, None) }

  function Plain(k: Key): Key { k.(context := None) }

  /** How many entries of a trace have a key. */
  ghost function Shown(trace: seq<TraceEntry>, k: Key): nat {
    if trace == [] then 0
    else Shown(trace[..|trace| - 1], k) + if PlainKey(trace[|trace| - 1]) == k then 1 else 0
  }

  /** The occurrences of the edges of a map that differ in context only. */
  ghost function OccurrencesOf(m: map<Key, Edge>, k: Key): map<Key, nat> {
    map j | j in m && Plain(j) == k :: m[j].occurrences
  }

  /** The edges of one capture, each under its own key. */
  ghost predicate OfCapture(m: map<Key, Edge>, captureId: string, pairs: set<(u16, u16)>) {
    forall j :: j in m ==>
      && KeyOf(m[j], true) == j && m[j].occurrences > 0 && m[j].capturesSeen == {captureId}
      && m[j].classification == Observed
      && m[j].requestResponse == InPair(j.messageId, pairs)
  }

  /** Over all contexts, the edges of a map count the entries of a trace key by key. */
  ghost predicate CountsShown(m: map<Key, Edge>, trace: seq<TraceEntry>) {
    forall k :: Total(OccurrencesOf(m, k)) == Shown(trace, k)
  }

  lemma AddedOfCapture(m: map<Key, Edge>, captureId: string, e: TraceEntry, pairs: set<(u16, u16)>)
    requires OfCapture(m, captureId, pairs)
    ensures OfCapture(Added(m, EdgeOf(captureId, e, pairs), true), captureId, pairs)
  {
    hide InPair;
  }

  lemma AddedShows(m: map<Key, Edge>, captureId: string, trace: seq<TraceEntry>, e: TraceEntry, pairs: set<(u16, u16)>)
    requires CountsShown(m, trace)
    ensures CountsShown(Added(m, EdgeOf(captureId, e, pairs), true), trace + [e])
  {
    hide InPair;
    var edge := EdgeOf(captureId, e, pairs);
    var n, j := Added(m, edge, true), KeyOf(edge, true);
    assert (trace + [e])[..|trace|] == trace;
    forall k ensures Total(OccurrencesOf(n, k)) == Shown(trace + [e], k) {
      assert Total(OccurrencesOf(m, k)) == Shown(trace, k);
      if Plain(j) == k {
        assert OccurrencesOf(n, k) == OccurrencesOf(m, k)[j := n[j].occurrences];
        TotalUpdate(OccurrencesOf(m, k), j, n[j].occurrences);
      } else {
        assert OccurrencesOf(n, k) == OccurrencesOf(m, k);
      }
    }
  }

  lemma NothingShown(captureId: string, pairs: set<(u16, u16)>)
    ensures OfCapture(map[], captureId, pairs) && CountsShown(map[], [])
  {
    forall k ensures Total(OccurrencesOf(map[], k)) == Shown([], k) {
      assert OccurrencesOf(map[], k) == map[];
    }
  }

  /** The transitions of one capture: for every key its entries joined, and the occurrences add up
      to the length of the trace. */
  method CollectTransitions(captureId: string, trace: seq<TraceEntry>, pairs: set<(u16, u16)>)
      returns (m: map<Key, Edge>)
    ensures Grouped(m, EdgesOf(captureId, trace, pairs), true)
    ensures Total(Occurrences(m)) == |trace|
    ensures OfCapture(m, captureId, pairs) && CountsShown(m, trace)
  {
    hide Grouped, SumOf, Total, Added, EdgesOf, EdgeOf, OfCapture, CountsShown, InPair;
    m := map[];
    NothingGrouped(true);
    NothingShown(captureId, pairs);
    assert EdgesOf(captureId, [], pairs) == [];
    assert trace[..0] == [];
    for i := 0 to |trace|
      invariant Grouped(m, EdgesOf(captureId, trace[..i], pairs), true)
      invariant Total(Occurrences(m)) == SumOf(EdgesOf(captureId, trace[..i], pairs))
      invariant OfCapture(m, captureId, pairs) && CountsShown(m, trace[..i])
    {
      var e := EdgeOf(captureId, trace[i], pairs);
      AddedGroups(m, EdgesOf(captureId, trace[..i], pairs), e, true);
      EdgesSnoc(captureId, trace, i, pairs);
      AddedOfCapture(m, captureId, trace[i], pairs);
      AddedShows(m, captureId, trace[..i], trace[i], pairs);
      assert trace[..i] + [trace[i]] == trace[..i + 1];
      m := Added(m, e, true);
    }
    assert trace[..|trace|] == trace;
    UnitEdgesSum(captureId, trace, pairs);
  }

  function Classify(captures: nat): Classification {
    if captures == 2 then StableCrossCapture else if captures == 1 then CaptureSpecific else UnknownClass
  }

  function Classified(m: map<Key, Edge>): map<Key, Edge> {
    map k | k in m :: m[k].(classification := Classify(|m[k].capturesSeen|))
  }

  /** Merges the transitions of several captures, ignoring contexts: for every key its edges joined
      and classified by the number of captures that show it. No occurrence is lost or added. */
  method MergeTransitions(edges: seq<Edge>) returns (out: map<Key, Edge>)
    ensures exists m :: Grouped(m, edges, false) && out == Classified(m)
    ensures forall k :: k in out ==>
              var n := |out[k].capturesSeen|;
              && (out[k].classification == StableCrossCapture <==> n == 2)
              && (out[k].classification == CaptureSpecific <==> n == 1)
              && (out[k].classification == UnknownClass <==> n != 1 && n != 2)
    ensures Total(Occurrences(out)) == SumOf(edges)
  {
    hide Grouped, SumOf, Total, Added;
    var m: map<Key, Edge> := map[];
    NothingGrouped(false);
    assert edges[..0] == [];
    for i := 0 to |edges|
      invariant Grouped(m, edges[..i], false) && Total(Occurrences(m)) == SumOf(edges[..i])
    {
      AddedGroups(m, edges[..i], edges[i], false);
      assert edges[..i] + [edges[i]] == edges[..i + 1];
      m := Added(m, edges[i], false);
    }
    assert edges[..|edges|] == edges;
    out := Classified(m);
    assert Occurrences(out) == Occurrences(m);
  }

  /** The occurrences of a group are those of its edges. */
  ghost function SumFor(edges: seq<Edge>, k: Key, byContext: bool): nat {
    if edges == [] then 0
    else
      var last := edges[|edges| - 1];
      SumFor(edges[..|edges| - 1], k, byContext) + if KeyOf(last, byContext) == k then last.occurrences else 0
  }

  /** A group is there exactly if some edge has its key; it counts all of their occurrences, has
      seen exactly their captures, and is a request or response if one of them is. */
  lemma {:induction false} GroupMeans(edges: seq<Edge>, k: Key, byContext: bool)
    ensures var g := Group(edges, k, byContext);
            && (g.Some? <==> exists e <- edges :: KeyOf(e, byContext) == k)
            && (g.Some? ==>
                  && KeyOf(g.value, byContext) == k && g.value.occurrences == SumFor(edges, k, byContext)
                  && (forall c :: c in g.value.capturesSeen <==>
                        exists e <- edges :: KeyOf(e, byContext) == k && c in e.capturesSeen)
                  && (g.value.requestResponse <==> exists e <- edges :: KeyOf(e, byContext) == k && e.requestResponse))
            && (g.None? ==> SumFor(edges, k, byContext) == 0)
  {
    if edges == [] {
    } else {
      var before, last := edges[..|edges| - 1], edges[|edges| - 1];
      GroupMeans(before, k, byContext);
      assert edges == before + [last];
      assert forall e <- edges :: e == last || e in before;
      assert last in edges && forall e <- before :: e in edges;
    }
  }

  /** A list of the edges of a map, in some order. */
  ghost predicate Lists(edges: seq<Edge>, m: map<Key, Edge>)
    decreases |edges|
  {
    if edges == [] then m == map[]
    else
      var last := edges[|edges| - 1];
      var k := KeyOf(last, true);
      k in m && m[k] == last && Lists(edges[..|edges| - 1], m - {k})
  }

  lemma ListedMore(edges: seq<Edge>, m: map<Key, Edge>, left: set<Key>, k: Key)
    requires k in left && left <= m.Keys && KeyOf(m[k], true) == k && Lists(edges, m - left)
    ensures Lists(edges + [m[k]], m - (left - {k}))
  {
    assert (edges + [m[k]])[..|edges|] == edges;
    assert m - (left - {k}) - {k} == m - left;
  }

  /** The edges of a map in some order. */
  method Listing(m: map<Key, Edge>) returns (edges: seq<Edge>)
    requires forall k :: k in m ==> KeyOf(m[k], true) == k
    ensures Lists(edges, m)
  {
    hide Lists;
    edges := [];
    var left := m.Keys;
    assert m - left == map[];
    NothingListed();
    while left != {}
      invariant left <= m.Keys && Lists(edges, m - left)
      decreases |left|
    {
      var k :| k in left;
      ListedMore(edges, m, left, k);
      edges := edges + [m[k]];
      left := left - {k};
    }
    assert m - left == m;
  }

  lemma NothingListed()
    ensures Lists([], map[])
  {
  }

  lemma {:induction false} ListedSumFor(edges: seq<Edge>, m: map<Key, Edge>, k: Key)
    requires Lists(edges, m)
    ensures SumFor(edges, k, false) == Total(OccurrencesOf(m, k))
    decreases |edges|
  {
    if edges == [] {
      assert OccurrencesOf(m, k) == map[];
    } else {
      var last := edges[|edges| - 1];
      var j := KeyOf(last, true);
      ListedSumFor(edges[..|edges| - 1], m - {j}, k);
      if Plain(j) == k {
        assert OccurrencesOf(m - {j}, k) == OccurrencesOf(m, k) - {j};
        TotalSplit(OccurrencesOf(m, k), j);
      } else {
        assert OccurrencesOf(m - {j}, k) == OccurrencesOf(m, k);
      }
    }
  }

  lemma {:induction false} ListedAreIn(edges: seq<Edge>, m: map<Key, Edge>)
    requires Lists(edges, m)
    ensures forall e <- edges :: KeyOf(e, true) in m && m[KeyOf(e, true)] == e
    decreases |edges|
  {
    if edges == [] {
    } else {
      var last := edges[|edges| - 1];
      ListedAreIn(edges[..|edges| - 1], m - {KeyOf(last, true)});
      assert edges == edges[..|edges| - 1] + [last];
    }
  }

  lemma {:induction false} SumForAppend(xs: seq<Edge>, ys: seq<Edge>, k: Key)
    ensures SumFor(xs + ys, k, false) == SumFor(xs, k, false) + SumFor(ys, k, false)
  {
    if ys == [] {
      assert xs + ys == xs;
    } else {
      assert (xs + ys)[..|xs + ys| - 1] == xs + ys[..|ys| - 1];
      SumForAppend(xs, ys[..|ys| - 1], k);
    }
  }

  /** Edges with a positive count are there exactly if the counts of their key are not zero. */
  lemma {:induction false} SomeEdgeIff(edges: seq<Edge>, k: Key)
    requires forall e <- edges :: e.occurrences > 0
    ensures SumFor(edges, k, false) > 0 <==> exists e <- edges :: KeyOf(e, false) == k
  {
    if edges == [] {
    } else {
      var before, last := edges[..|edges| - 1], edges[|edges| - 1];
      assert edges == before + [last];
      SomeEdgeIff(before, k);
      assert forall e <- edges :: e == last || e in before;
      assert last in edges && forall e <- before :: e in edges;
    }
  }

  /** What the edges of one capture say about a key. */
  lemma ListedCapture(edges: seq<Edge>, m: map<Key, Edge>, captureId: string, trace: seq<TraceEntry>,
      pairs: set<(u16, u16)>, k: Key)
    requires Lists(edges, m) && OfCapture(m, captureId, pairs) && CountsShown(m, trace)
    ensures SumFor(edges, k, false) == Shown(trace, k)
    ensures Shown(trace, k) > 0 <==> exists e <- edges :: KeyOf(e, false) == k
    ensures forall e <- edges :: KeyOf(e, false) == k ==>
              e.capturesSeen == {captureId} && e.requestResponse == InPair(k.messageId, pairs)
  {
    hide Lists, SumFor, Shown, Total, InPair;
    ListedAreIn(edges, m);
    ListedSumFor(edges, m, k);
    SomeEdgeIff(edges, k);
  }

  /** A merged edge tells the truth about two captures: it counts the entries of both traces that have
      its key, was seen in exactly the captures that show one, and is stable if both do. */
  ghost predicate MergedTruly(e: Edge, k: Key, captureA: string, a: seq<TraceEntry>, captureB: string,
      b: seq<TraceEntry>, pairs: set<(u16, u16)>)
  {
    && KeyOf(e, false) == k && e.occurrences == Shown(a, k) + Shown(b, k)
    && (forall c :: c in e.capturesSeen <==> (c == captureA && Shown(a, k) > 0) || (c == captureB && Shown(b, k) > 0))
    && e.requestResponse == InPair(k.messageId, pairs)
    && e.classification == (if Shown(a, k) > 0 && Shown(b, k) > 0 && captureA != captureB then StableCrossCapture
                            else CaptureSpecific)
  }

  lemma MergedKey(edgesA: seq<Edge>, edgesB: seq<Edge>, k: Key, captureA: string, a: seq<TraceEntry>, captureB: string,
      b: seq<TraceEntry>, pairs: set<(u16, u16)>)
    requires SumFor(edgesA, k, false) == Shown(a, k) && SumFor(edgesB, k, false) == Shown(b, k)
    requires Shown(a, k) > 0 <==> exists e <- edgesA :: KeyOf(e, false) == k
    requires Shown(b, k) > 0 <==> exists e <- edgesB :: KeyOf(e, false) == k
    requires forall e <- edgesA :: KeyOf(e, false) == k ==>
               e.capturesSeen == {captureA} && e.requestResponse == InPair(k.messageId, pairs)
    requires forall e <- edgesB :: KeyOf(e, false) == k ==>
               e.capturesSeen == {captureB} && e.requestResponse == InPair(k.messageId, pairs)
    ensures var g := Group(edgesA + edgesB, k, false);
            && (g.Some? <==> Shown(a, k) + Shown(b, k) > 0)
            && (g.Some? ==>
                  var seen := g.value.capturesSeen;
                  MergedTruly(g.value.(classification := Classify(|seen|)), k, captureA, a, captureB, b, pairs))
  {
    hide SumFor, Shown, Group, InPair;
    var edges := edgesA + edgesB;
    GroupMeans(edges, k, false);
    SumForAppend(edgesA, edgesB, k);
    assert forall e <- edges :: e in edgesA || e in edgesB;
    assert (forall e <- edgesA :: e in edges) && forall e <- edgesB :: e in edges;
    var g := Group(edges, k, false);
    if g.Some? {
      var seen := g.value.capturesSeen;
      if Shown(a, k) > 0 && Shown(b, k) > 0 {
        assert seen == {captureA, captureB};
      } else if Shown(a, k) > 0 {
        assert seen == {captureA};
      } else {
        assert seen == {captureB};
      }
    }
  }

  /** From two traces to the merged graph. There is an edge exactly for every key that some entry of
      either trace has, and it tells the truth about both; so every message is counted once, and
      under its own key. */
  method MergedGraph(captureA: string, a: seq<TraceEntry>, captureB: string, b: seq<TraceEntry>, pairs: set<(u16, u16)>)
      returns (out: map<Key, Edge>)
    ensures forall k :: k in out <==> Shown(a, k) + Shown(b, k) > 0
    ensures forall k :: k in out ==> MergedTruly(out[k], k, captureA, a, captureB, b, pairs)
    ensures Total(Occurrences(out)) == |a| + |b|
  {
    hide Shown, SumFor, SumOf, Group, Total, Lists, CountsShown, InPair, MergedTruly;
    var ma := CollectTransitions(captureA, a, pairs);
    var mb := CollectTransitions(captureB, b, pairs);
    var edgesA := Listing(ma);
    var edgesB := Listing(mb);
    out := MergeTransitions(edgesA + edgesB);
    ghost var m :| Grouped(m, edgesA + edgesB, false) && out == Classified(m);
    forall k ensures (k in out <==> Shown(a, k) + Shown(b, k) > 0) &&
        (k in out ==> MergedTruly(out[k], k, captureA, a, captureB, b, pairs))
    {
      ListedCapture(edgesA, ma, captureA, a, pairs, k);
      ListedCapture(edgesB, mb, captureB, b, pairs, k);
      MergedKey(edgesA, edgesB, k, captureA, a, captureB, b, pairs);
      assert Group(edgesA + edgesB, k, false) == if k in m then Some(m[k]) else None;
    }
    ListedSum(edgesA, ma);
    ListedSum(edgesB, mb);
    SumAppend(edgesA, edgesB);
  }

  lemma {:induction false} ListedSum(edges: seq<Edge>, m: map<Key, Edge>)
    requires Lists(edges, m)
    ensures SumOf(edges) == Total(Occurrences(m))
    decreases |edges|
  {
    if edges == [] {
      NothingGrouped(true);
    } else {
      var k := KeyOf(edges[|edges| - 1], true);
      ListedSum(edges[..|edges| - 1], m - {k});
      assert Occurrences(m - {k}) == Occurrences(m) - {k};
      TotalSplit(Occurrences(m), k);
    }
  }

  lemma {:induction false} SumAppend(xs: seq<Edge>, ys: seq<Edge>)
    ensures SumOf(xs + ys) == SumOf(xs) + SumOf(ys)
  {
    if ys == [] {
      assert xs + ys == xs;
    } else {
      assert (xs + ys)[..|xs + ys| - 1] == xs + ys[..|ys| - 1];
      SumAppend(xs, ys[..|ys| - 1]);
    }
  }
}
