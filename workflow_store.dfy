/**
 * The routines that write the workflow store: the bulk refresh of execution
 * and credential issues, the per-node refresh of credential and parameter
 * issues, and the bulk enable/disable toggle with its undo bracketing and
 * usage telemetry. The store is a class; history and telemetry calls are
 * appended to its event log.
 */
module WorkflowStore {
  import opened Wrappers
  import opened NodeData
  import CredentialIssues
  import NodeIssues

  /** A call into the history store or the telemetry sink. */
  datatype Event =
    | StartUndo
    | PushToggle(nodeName: string, wasDisabled: bool, isDisabled: bool)
    | StopUndo
    | Telemetry(nodeType: string, isEnabled: bool, workflowId: string)

  predicate IsStart(e: Event) { e.StartUndo? }
  predicate IsPush(e: Event) { e.PushToggle? }
  predicate IsStop(e: Event) { e.StopUndo? }
  predicate IsTelemetry(e: Event) { e.Telemetry? }

  /** One category written by `setNodeIssue`; `None` (`null`) deletes the category. */
  datatype IssueSlot =
    | ExecutionSlot(flag: bool)
    | CredentialsSlot(credentials: Option<IssueMap>)
    | ParametersSlot(parameters: Option<IssueMap>)

  function SetSlot(issues: IssueSet, slot: IssueSlot): IssueSet {
    match slot
    case ExecutionSlot(flag) => issues.(execution := flag)
    case CredentialsSlot(credentials) => issues.(credentials := credentials)
    case ParametersSlot(parameters) => issues.(parameters := parameters)
  }

  /** `issues === null ? null : issues.credentials`. */
  function CredentialsOf(r: Option<IssueSet>): Option<IssueMap> {
    if r.Some? then r.value.credentials else None
  }

  /** `issues === null ? null : issues.parameters`. */
  function ParametersOf(r: Option<IssueSet>): Option<IssueMap> {
    if r.Some? then r.value.parameters else None
  }

  /** A node's issue slots after its parameter issues and then its credential issues are refreshed. */
  function RefreshedSlots(ctx: Context, slots: IssueSet, node: Node): IssueSet {
    var withParameters :=
      match NodeTypeOf(ctx, node)
      case None => slots
      case Some(nodeType) => slots.(parameters := ParametersOf(ctx.parameterIssues(nodeType.properties, node)));
    withParameters.(credentials := CredentialsOf(CredentialIssues.CredentialIssues(ctx, node, None)))
  }

  /** Refreshing twice for the same type and version is refreshing once with the later record. */
  lemma RefreshedTwice(ctx: Context, slots: IssueSet, a: Node, b: Node)
    requires a.nodeType == b.nodeType && a.typeVersion == b.typeVersion
    ensures RefreshedSlots(ctx, RefreshedSlots(ctx, slots, a), b) == RefreshedSlots(ctx, slots, b)
  {
  }

  predicate AllIn(names: seq<string>, nodes: map<string, Node>) {
    forall n :: n in names ==> n in nodes
  }

  /** The node records after each listed node's `disabled` flag is negated, in list order. */
  function Toggled(nodes: map<string, Node>, names: seq<string>): (r: map<string, Node>)
    requires AllIn(names, nodes)
    ensures r.Keys == nodes.Keys
    ensures forall n :: n in r ==> r[n] == nodes[n].(disabled := r[n].disabled)
    decreases |names|
  {
    if names == [] then nodes
    else
      var prefix := names[..|names| - 1];
      assert forall n :: n in prefix ==> n in names;
      var before := Toggled(nodes, prefix);
      var n := names[|names| - 1];
      before[n := before[n].(disabled := !before[n].disabled)]
  }

  /** The calls made for one listed node: its telemetry event, then its undo command when tracked. */
  function StepEvents(before: map<string, Node>, name: string, workflowId: string, trackHistory: bool): seq<Event>
    requires name in before
  {
    [Telemetry(before[name].nodeType, before[name].disabled, workflowId)]
    + if trackHistory then [PushToggle(name, before[name].disabled, !before[name].disabled)] else []
  }

  /** The calls made inside the toggle loop, node after node. */
  function ToggleEvents(nodes: map<string, Node>, names: seq<string>, workflowId: string, trackHistory: bool)
    : seq<Event>
    requires AllIn(names, nodes)
    decreases |names|
  {
    if names == [] then []
    else
      var prefix := names[..|names| - 1];
      assert forall n :: n in prefix ==> n in names;
      ToggleEvents(nodes, prefix, workflowId, trackHistory)
      + StepEvents(Toggled(nodes, prefix), names[|names| - 1], workflowId, trackHistory)
  }

  /** The undo group around the loop when history is tracked. */
  function Bracketed(trackHistory: bool, events: seq<Event>): seq<Event> {
    if trackHistory then [StartUndo] + events + [StopUndo] else events
  }

  /** The number of events satisfying `p`. */
  function Count(events: seq<Event>, p: Event -> bool): nat
    decreases |events|
  {
    if events == [] then 0
    else Count(events[..|events| - 1], p) + if p(events[|events| - 1]) then 1 else 0
  }

  lemma {:induction false} CountAppend(a: seq<Event>, b: seq<Event>, p: Event -> bool)
    ensures Count(a + b, p) == Count(a, p) + Count(b, p)
    decreases |b|
  {
    if b == [] {
      assert a + b == a;
    } else {
      var n := |b| - 1;
      assert (a + b)[..|a + b| - 1] == a + b[..n];
      assert (a + b)[|a + b| - 1] == b[n];
      CountAppend(a, b[..n], p);
    }
  }

  /** One node's calls: one telemetry event, and one undo command exactly when tracked. */
  lemma StepCounts(before: map<string, Node>, name: string, workflowId: string, trackHistory: bool)
    requires name in before
    ensures Count(StepEvents(before, name, workflowId, trackHistory), IsTelemetry) == 1
    ensures Count(StepEvents(before, name, workflowId, trackHistory), IsPush) == if trackHistory then 1 else 0
    ensures Count(StepEvents(before, name, workflowId, trackHistory), IsStart) == 0
    ensures Count(StepEvents(before, name, workflowId, trackHistory), IsStop) == 0
  {
    var telemetry := Telemetry(before[name].nodeType, before[name].disabled, workflowId);
    assert Count([telemetry], IsTelemetry) == 1 by { assert [telemetry][..0] == []; }
    assert Count([telemetry], IsPush) == 0 by { assert [telemetry][..0] == []; }
    assert Count([telemetry], IsStart) == 0 by { assert [telemetry][..0] == []; }
    assert Count([telemetry], IsStop) == 0 by { assert [telemetry][..0] == []; }
    if trackHistory {
      var push := PushToggle(name, before[name].disabled, !before[name].disabled);
      assert StepEvents(before, name, workflowId, trackHistory) == [telemetry, push];
      assert [telemetry, push][..1] == [telemetry];
    }
  }

  /**
   * The loop emits one telemetry event per listed node, one undo command per
   * listed node when tracked and none otherwise, and never opens or closes
   * an undo group itself.
   */
  lemma {:induction false} ToggleEventCounts(
    nodes: map<string, Node>, names: seq<string>, workflowId: string, trackHistory: bool)
    requires AllIn(names, nodes)
    ensures Count(ToggleEvents(nodes, names, workflowId, trackHistory), IsTelemetry) == |names|
    ensures Count(ToggleEvents(nodes, names, workflowId, trackHistory), IsPush)
         == if trackHistory then |names| else 0
    ensures Count(ToggleEvents(nodes, names, workflowId, trackHistory), IsStart) == 0
    ensures Count(ToggleEvents(nodes, names, workflowId, trackHistory), IsStop) == 0
    decreases |names|
  {
    if names != [] {
      var prefix := names[..|names| - 1];
      assert forall n :: n in prefix ==> n in names;
      var step := StepEvents(Toggled(nodes, prefix), names[|names| - 1], workflowId, trackHistory);
      ToggleEventCounts(nodes, prefix, workflowId, trackHistory);
      CountAppend(ToggleEvents(nodes, prefix, workflowId, trackHistory), step, IsTelemetry);
      CountAppend(ToggleEvents(nodes, prefix, workflowId, trackHistory), step, IsPush);
      CountAppend(ToggleEvents(nodes, prefix, workflowId, trackHistory), step, IsStart);
      CountAppend(ToggleEvents(nodes, prefix, workflowId, trackHistory), step, IsStop);
      StepCounts(Toggled(nodes, prefix), names[|names| - 1], workflowId, trackHistory);
    }
  }

  /** Every undo command records the node's previous state and its negation. */
  lemma {:induction false} PushesRecordToggle(
    nodes: map<string, Node>, names: seq<string>, workflowId: string, trackHistory: bool)
    requires AllIn(names, nodes)
    ensures forall e :: e in ToggleEvents(nodes, names, workflowId, trackHistory) && e.PushToggle? ==>
              e.isDisabled == !e.wasDisabled && e.nodeName in names
    decreases |names|
  {
    if names != [] {
      var prefix := names[..|names| - 1];
      assert forall n :: n in prefix ==> n in names;
      PushesRecordToggle(nodes, prefix, workflowId, trackHistory);
    }
  }

  /**
   * What `disableNodes` sends to history and telemetry: with tracking, one
   * start first, one stop last and no other start or stop, one undo command
   * per listed node in between; without it, no history call at all. Either
   * way one telemetry event per listed node.
   */
  lemma DisableNodesLog(nodes: map<string, Node>, names: seq<string>, workflowId: string, trackHistory: bool)
    requires AllIn(names, nodes)
    ensures var log := Bracketed(trackHistory, ToggleEvents(nodes, names, workflowId, trackHistory));
            && Count(log, IsTelemetry) == |names|
            && (trackHistory ==>
                  && log[0] == StartUndo && log[|log| - 1] == StopUndo
                  && Count(log, IsStart) == 1 && Count(log, IsStop) == 1
                  && Count(log, IsPush) == |names|)
            && (!trackHistory ==>
                  Count(log, IsStart) == 0 && Count(log, IsStop) == 0 && Count(log, IsPush) == 0)
  {
    var events := ToggleEvents(nodes, names, workflowId, trackHistory);
    ToggleEventCounts(nodes, names, workflowId, trackHistory);
    if trackHistory {
      CountAppend([StartUndo], events, IsTelemetry);
      CountAppend([StartUndo] + events, [StopUndo], IsTelemetry);
      CountAppend([StartUndo], events, IsStart);
      CountAppend([StartUndo] + events, [StopUndo], IsStart);
      CountAppend([StartUndo], events, IsStop);
      CountAppend([StartUndo] + events, [StopUndo], IsStop);
      CountAppend([StartUndo], events, IsPush);
      CountAppend([StartUndo] + events, [StopUndo], IsPush);
      assert Count([StartUndo], IsStart) == 1 && Count([StopUndo], IsStop) == 1;
      assert Count([StartUndo], IsStop) == 0 && Count([StopUndo], IsStart) == 0;
    }
  }

  /**
   * A node's final `disabled` flag is its first one negated once per
   * occurrence in the list; in particular a node listed once is flipped and
   * an unlisted node keeps its flag.
   */
  lemma {:induction false} ToggledParity(nodes: map<string, Node>, names: seq<string>, n: string)
    requires AllIn(names, nodes) && n in nodes
    ensures Toggled(nodes, names)[n].disabled == (nodes[n].disabled != (multiset(names)[n] % 2 == 1))
    decreases |names|
  {
    if names != [] {
      var prefix := names[..|names| - 1];
      var last := names[|names| - 1];
      assert forall x :: x in prefix ==> x in names;
      ToggledLast(nodes, names, n);
      OccurrencesLast(names, n);
      ToggledParity(nodes, prefix, n);
      var k := multiset(prefix)[n];
      var earlier := Toggled(nodes, prefix)[n].disabled;
      assert earlier == (nodes[n].disabled != (k % 2 == 1));
      if last == n {
        OddStep(k);
        assert Toggled(nodes, names)[n].disabled == !earlier;
      } else {
        assert Toggled(nodes, names)[n].disabled == earlier;
      }
    } else {
      assert multiset(names)[n] == 0;
    }
  }

  /** The last listed node's toggle is the only one applied after the others. */
  lemma ToggledLast(nodes: map<string, Node>, names: seq<string>, n: string)
    requires AllIn(names, nodes) && names != [] && n in nodes
    ensures AllIn(names[..|names| - 1], nodes)
    ensures var before := Toggled(nodes, names[..|names| - 1]);
            Toggled(nodes, names)[n].disabled
            == if names[|names| - 1] == n then !before[n].disabled else before[n].disabled
  {
    assert forall x :: x in names[..|names| - 1] ==> x in names;
  }

  /** The last name adds one occurrence of itself and none of any other. */
  lemma OccurrencesLast(names: seq<string>, n: string)
    requires names != []
    ensures multiset(names)[n]
            == multiset(names[..|names| - 1])[n] + (if names[|names| - 1] == n then 1 else 0)
  {
    var prefix := names[..|names| - 1];
    assert names == prefix + [names[|names| - 1]];
    assert multiset(names) == multiset(prefix) + multiset{names[|names| - 1]};
  }

  /** One more occurrence flips whether the count is odd. */
  lemma OddStep(k: nat)
    ensures ((k + 1) % 2 == 1) == !(k % 2 == 1)
  {
  }

  /** The run data after the listed nodes' execution data is cleared. */
  function Cleared(runData: Option<RunData>, names: seq<string>): Option<RunData> {
    if runData.None? then None
    else Some(map n | n in runData.value && n !in names :: runData.value[n])
  }

  /** A node's issue slots in an issue map; a node with none has the empty set. */
  function SlotOf(issues: map<string, IssueSet>, name: string): IssueSet {
    if name in issues then issues[name] else NO_ISSUES
  }

  /** The four fields of the store that the toggle loop writes. */
  datatype Snapshot = Snapshot(
    nodes: map<string, Node>, runData: Option<RunData>, issues: map<string, IssueSet>, log: seq<Event>)

  /**
   * What one iteration of the toggle loop does to the store: the node's flag
   * negated, its run data dropped, its telemetry (and undo command) logged,
   * its parameter and credential slots refreshed from the new record, and
   * every other node's slots left alone.
   */
  ghost predicate ToggleStep(
    ctx: Context, workflowId: string, trackHistory: bool, s: Snapshot, name: string, t: Snapshot)
    requires name in s.nodes
  {
    && t.nodes == s.nodes[name := s.nodes[name].(disabled := !s.nodes[name].disabled)]
    && t.runData == (if s.runData.None? then None else Some(s.runData.value - {name}))
    && t.log == s.log + StepEvents(s.nodes, name, workflowId, trackHistory)
    && (forall n :: n in t.issues <==> n in s.issues || n == name)
    && SlotOf(t.issues, name) == RefreshedSlots(ctx, SlotOf(s.issues, name), t.nodes[name])
    && (forall n :: n != name ==> SlotOf(t.issues, n) == SlotOf(s.issues, n))
  }

  /** The store `t` after the listed nodes are toggled, in order, from `start`. */
  ghost predicate ToggledFrom(
    ctx: Context, workflowId: string, trackHistory: bool, start: Snapshot, names: seq<string>, t: Snapshot)
  {
    && AllIn(names, start.nodes)
    && t.nodes == Toggled(start.nodes, names)
    && t.runData == Cleared(start.runData, names)
    && t.log == start.log + ToggleEvents(start.nodes, names, workflowId, trackHistory)
    && (forall n :: n in t.issues <==> n in start.issues || n in names)
    && (forall n :: n in t.nodes ==>
          SlotOf(t.issues, n) == if n in names then RefreshedSlots(ctx, SlotOf(start.issues, n), t.nodes[n])
                                 else SlotOf(start.issues, n))
  }

  /** Toggling no node leaves the store as it is. */
  lemma ToggledFromNothing(ctx: Context, workflowId: string, trackHistory: bool, start: Snapshot)
    ensures ToggledFrom(ctx, workflowId, trackHistory, start, [], start)
  {
    assert start.log + [] == start.log;
    if start.runData.Some? {
      var m := start.runData.value;
      assert (map n | n in m && n !in [] :: m[n]) == m;
    }
  }

  /** The toggle loop's invariant survives one more listed node. */
  lemma ToggledFromStep(
    ctx: Context, workflowId: string, trackHistory: bool, start: Snapshot, done: seq<string>, name: string,
    s: Snapshot, t: Snapshot)
    requires ToggledFrom(ctx, workflowId, trackHistory, start, done, s)
    requires name in start.nodes && name in s.nodes
    requires ToggleStep(ctx, workflowId, trackHistory, s, name, t)
    ensures ToggledFrom(ctx, workflowId, trackHistory, start, done + [name], t)
  {
    ToggledSnoc(start.nodes, done, name, workflowId, trackHistory);
    ClearedSnoc(start.runData, done, name);
    LogStep(start.log, ToggleEvents(start.nodes, done, workflowId, trackHistory),
            StepEvents(s.nodes, name, workflowId, trackHistory), s.log, t.log);
    SlotsStep(ctx, start.issues, done, name, s, t);
  }

  /** The log grows by one node's calls at a time. */
  lemma LogStep(head: seq<Event>, done: seq<Event>, step: seq<Event>, before: seq<Event>, after: seq<Event>)
    requires before == head + done && after == before + step
    ensures after == head + (done + step)
  {
  }

  /** The slot part of the loop invariant survives one more listed node. */
  lemma SlotsStep(
    ctx: Context, issues: map<string, IssueSet>, done: seq<string>, name: string, s: Snapshot, t: Snapshot)
    requires name in s.nodes
    requires forall n :: n in s.nodes ==>
               SlotOf(s.issues, n) == if n in done then RefreshedSlots(ctx, SlotOf(issues, n), s.nodes[n])
                                      else SlotOf(issues, n)
    requires t.nodes == s.nodes[name := s.nodes[name].(disabled := !s.nodes[name].disabled)]
    requires SlotOf(t.issues, name) == RefreshedSlots(ctx, SlotOf(s.issues, name), t.nodes[name])
    requires forall n :: n != name ==> SlotOf(t.issues, n) == SlotOf(s.issues, n)
    ensures forall n :: n in t.nodes ==>
              SlotOf(t.issues, n) == if n in done + [name] then RefreshedSlots(ctx, SlotOf(issues, n), t.nodes[n])
                                     else SlotOf(issues, n)
  {
    if name in done {
      RefreshedTwice(ctx, SlotOf(issues, name), s.nodes[name], t.nodes[name]);
    }
  }

  class Store {
    const ctx: Context
    const workflowId: string
    var nodes: map<string, Node>
    var issues: map<string, IssueSet>
    var runData: Option<RunData>
    var log: seq<Event>

    /** Every node record is filed under its own name. */
    ghost predicate Valid()
      reads this
    {
      forall n :: n in nodes ==> nodes[n].name == n
    }

    constructor (ctx: Context, workflowId: string, nodes: map<string, Node>, runData: Option<RunData>)
      requires forall n :: n in nodes ==> nodes[n].name == n
      ensures Valid()
      ensures this.ctx == ctx && this.workflowId == workflowId
      ensures this.nodes == nodes && this.runData == runData && issues == map[] && log == []
    {
      this.ctx := ctx;
      this.workflowId := workflowId;
      this.nodes := nodes;
      this.runData := runData;
      issues := map[];
      log := [];
    }

    /** The node's issue slots; a node with none has the empty set. */
    function SlotsOf(name: string): IssueSet
      reads this
    {
      SlotOf(issues, name)
    }

    /** `setNodeIssue`: writes one category of a node's issues; an unknown node name changes nothing. */
    method SetNodeIssue(name: string, slot: IssueSlot)
      modifies this`issues
      ensures issues == if name in nodes then old(issues)[name := SetSlot(old(SlotsOf(name)), slot)] else old(issues)
    {
      if name in nodes {
        issues := issues[name := SetSlot(SlotsOf(name), slot)];
      }
    }

    /** `clearNodeExecutionData`: drops the node's recorded runs. */
    method ClearNodeExecutionData(name: string)
      modifies this`runData
      ensures runData == if old(runData).None? then None else Some(old(runData).value - {name})
    {
      if runData.Some? {
        runData := Some(runData.value - {name});
      }
    }

    /** `updateNodesExecutionIssues`: every node's `execution` slot says whether one of its runs failed. */
    method UpdateNodesExecutionIssues()
      requires Valid()
      modifies this`issues
      ensures forall n :: n in issues <==> n in old(issues) || n in nodes
      ensures forall n :: n in nodes ==>
                SlotsOf(n) == old(SlotsOf(n)).(execution := NodeIssues.HasExecutionIssues(runData, n))
      ensures forall n :: n in old(issues) && n !in nodes ==> issues[n] == old(issues)[n]
    {
      var todo := nodes.Keys;
      while todo != {}
        invariant todo <= nodes.Keys
        invariant forall n :: n in issues <==> n in old(issues) || (n in nodes && n !in todo)
        invariant forall n :: n in nodes && n !in todo ==>
                    SlotsOf(n) == old(SlotsOf(n)).(execution := NodeIssues.HasExecutionIssues(runData, n))
        invariant forall n :: n in old(issues) && (n !in nodes || n in todo) ==> issues[n] == old(issues)[n]
        decreases todo
      {
        var name :| name in todo;
        var hasIssues := NodeIssues.HasNodeExecutionIssues(runData, nodes[name]);
        SetNodeIssue(name, ExecutionSlot(hasIssues));
        todo := todo - {name};
      }
    }

    /** `updateNodeCredentialIssues`: the node's `credentials` slot gets its credential issues, or is deleted. */
    method UpdateNodeCredentialIssues(node: Node)
      modifies this`issues
      ensures issues == if node.name in nodes then
                old(issues)[node.name := old(SlotsOf(node.name)).(credentials :=
                  CredentialsOf(CredentialIssues.CredentialIssues(ctx, node, None)))]
              else old(issues)
    {
      var fullNodeIssues := CredentialIssues.GetNodeCredentialIssues(ctx, node, None);
      var newIssues: Option<IssueMap> := None;
      if fullNodeIssues.Some? {
        newIssues := fullNodeIssues.value.credentials;
      }
      SetNodeIssue(node.name, CredentialsSlot(newIssues));
    }

    /**
     * `updateNodeParameterIssues`: the node's `parameters` slot gets the
     * validator's parameter issues; nothing changes when the type is unknown.
     */
    method UpdateNodeParameterIssues(node: Node, given: Option<NodeTypeDescription>)
      modifies this`issues
      ensures var nodeType := if given.Some? then given else NodeTypeOf(ctx, node);
              issues == if node.name !in nodes || nodeType.None? then old(issues)
                        else old(issues)[node.name := old(SlotsOf(node.name)).(parameters :=
                          ParametersOf(ctx.parameterIssues(nodeType.value.properties, node)))]
    {
      var nodeType := given;
      if nodeType.None? {
        nodeType := NodeTypeOf(ctx, node);
      }
      if nodeType.None? {
        return;
      }
      var fullNodeIssues := ctx.parameterIssues(nodeType.value.properties, node);
      var newIssues: Option<IssueMap> := None;
      if fullNodeIssues.Some? {
        newIssues := fullNodeIssues.value.parameters;
      }
      SetNodeIssue(node.name, ParametersSlot(newIssues));
    }

    /** `updateNodesCredentialsIssues`: every node's `credentials` slot is recomputed. */
    method UpdateNodesCredentialsIssues()
      requires Valid()
      modifies this`issues
      ensures forall n :: n in issues <==> n in old(issues) || n in nodes
      ensures forall n :: n in nodes ==>
                SlotsOf(n) == old(SlotsOf(n)).(credentials :=
                  CredentialsOf(CredentialIssues.CredentialIssues(ctx, nodes[n], None)))
      ensures forall n :: n in old(issues) && n !in nodes ==> issues[n] == old(issues)[n]
    {
      var todo := nodes.Keys;
      while todo != {}
        invariant todo <= nodes.Keys
        invariant forall n :: n in issues <==> n in old(issues) || (n in nodes && n !in todo)
        invariant forall n :: n in nodes && n !in todo ==>
                    SlotsOf(n) == old(SlotsOf(n)).(credentials :=
                      CredentialsOf(CredentialIssues.CredentialIssues(ctx, nodes[n], None)))
        invariant forall n :: n in old(issues) && (n !in nodes || n in todo) ==> issues[n] == old(issues)[n]
        decreases todo
      {
        var name :| name in todo;
        var nodeIssues := CredentialIssues.GetNodeCredentialIssues(ctx, nodes[name], None);
        SetNodeIssue(name, CredentialsSlot(if nodeIssues.None? then None else nodeIssues.value.credentials));
        todo := todo - {name};
      }
    }

    /** The parameter issues and then the credential issues of a stored node, refreshed from its record. */
    method RefreshNodeIssues(node: Node)
      requires node.name in nodes
      modifies this`issues
      ensures issues == old(issues)[node.name := RefreshedSlots(ctx, old(SlotsOf(node.name)), node)]
    {
      UpdateNodeParameterIssues(node, None);
      UpdateNodeCredentialIssues(node);
    }

    /**
     * One iteration of `disableNodes`: telemetry with the previous flag, the
     * negated flag written back, the node's run data dropped, its parameter
     * and credential issues refreshed from the new record, and its undo
     * command when history is tracked.
     */
    method ToggleNode(name: string, trackHistory: bool)
      requires Valid() && name in nodes
      modifies this`nodes, this`runData, this`issues, this`log
      ensures Valid()
      ensures ToggleStep(ctx, workflowId, trackHistory, Snapshot(old(nodes), old(runData), old(issues), old(log)),
                         name, Snapshot(nodes, runData, issues, log))
    {
      var node := nodes[name];
      var oldState := node.disabled;
      log := log + [Telemetry(node.nodeType, node.disabled, workflowId)];
      nodes := nodes[name := node.(disabled := !oldState)];
      ClearNodeExecutionData(name);
      RefreshNodeIssues(nodes[name]);
      if trackHistory {
        log := log + [PushToggle(name, oldState, nodes[name].disabled)];
      }
    }

    /** The loop of `disableNodes`: each listed node toggled in turn, as `ToggledFrom` describes. */
    method ToggleEach(names: seq<string>, trackHistory: bool)
      requires Valid() && AllIn(names, nodes)
      modifies this`nodes, this`runData, this`issues, this`log
      ensures Valid()
      ensures ToggledFrom(ctx, workflowId, trackHistory, Snapshot(old(nodes), old(runData), old(issues), old(log)),
                          names, Snapshot(nodes, runData, issues, log))
    {
      ghost var start := Snapshot(nodes, runData, issues, log);
      ToggledFromNothing(ctx, workflowId, trackHistory, start);
      ghost var done: seq<string> := [];
      for i := 0 to |names|
        invariant done == names[..i]
        invariant Valid()
        invariant ToggledFrom(ctx, workflowId, trackHistory, start, done, Snapshot(nodes, runData, issues, log))
      {
        ghost var before := Snapshot(nodes, runData, issues, log);
        ToggleNode(names[i], trackHistory);
        ToggledFromStep(ctx, workflowId, trackHistory, start, done, names[i], before,
                        Snapshot(nodes, runData, issues, log));
        SliceGrows(names, i);
        done := done + [names[i]];
      }
      assert done == names;
    }

    /**
     * `disableNodes`: negates each listed node's `disabled` flag, drops its
     * run data, refreshes its parameter and credential issues, sends one
     * telemetry event per node, and, when history is tracked, pushes one
     * undo command per node inside a single undo group.
     */
    method DisableNodes(names: seq<string>, trackHistory: bool)
      requires Valid() && AllIn(names, nodes)
      modifies this`nodes, this`runData, this`issues, this`log
      ensures Valid()
      ensures nodes == Toggled(old(nodes), names)
      ensures runData == Cleared(old(runData), names)
      ensures log == old(log) + Bracketed(trackHistory, ToggleEvents(old(nodes), names, workflowId, trackHistory))
      ensures forall n :: n in issues <==> n in old(issues) || n in names
      ensures forall n :: n in nodes ==>
                SlotOf(issues, n) == if n in names then RefreshedSlots(ctx, SlotOf(old(issues), n), nodes[n])
                                     else SlotOf(old(issues), n)
    {
      if trackHistory {
        log := log + [StartUndo];
      }
      ToggleEach(names, trackHistory);
      ghost var events := ToggleEvents(old(nodes), names, workflowId, trackHistory);
      if trackHistory {
        log := log + [StopUndo];
      }
      BracketedLog(old(log), events, trackHistory);
    }
  }

  /** A prefix of the list grows by the next element. */
  lemma SliceGrows(names: seq<string>, i: nat)
    requires i < |names|
    ensures names[..i] + [names[i]] == names[..i + 1]
  {
  }

  /** The log `disableNodes` leaves: the opening marker, the events, the closing marker. */
  lemma BracketedLog(log: seq<Event>, events: seq<Event>, trackHistory: bool)
    ensures var head := log + (if trackHistory then [StartUndo] else []);
            (if trackHistory then head + events + [StopUndo] else head + events)
            == log + Bracketed(trackHistory, events)
  {
    if trackHistory {
      assert log + [StartUndo] + events + [StopUndo] == log + ([StartUndo] + events + [StopUndo]);
    } else {
      assert log + [] == log;
    }
  }

  /** Toggling one more node: its flag is negated after the earlier ones, and its calls follow theirs. */
  lemma ToggledSnoc(nodes: map<string, Node>, done: seq<string>, name: string, workflowId: string, trackHistory: bool)
    requires AllIn(done, nodes) && name in nodes
    ensures AllIn(done + [name], nodes)
    ensures var before := Toggled(nodes, done);
            && Toggled(nodes, done + [name]) == before[name := before[name].(disabled := !before[name].disabled)]
            && ToggleEvents(nodes, done + [name], workflowId, trackHistory)
               == ToggleEvents(nodes, done, workflowId, trackHistory) + StepEvents(before, name, workflowId, trackHistory)
  {
    assert (done + [name])[..|done|] == done;
  }

  /** Clearing one more node drops its entry from what the earlier ones left. */
  lemma ClearedSnoc(runData: Option<RunData>, done: seq<string>, name: string)
    ensures var cleared := Cleared(runData, done);
            Cleared(runData, done + [name]) == if cleared.None? then None else Some(cleared.value - {name})
  {
    if runData.Some? {
      var m := runData.value;
      var grown := map n | n in m && n !in done + [name] :: m[n];
      var stepped := (map n | n in m && n !in done :: m[n]) - {name};
      assert forall n :: n in grown <==> n in stepped;
      assert grown == stepped;
    }
  }
}
