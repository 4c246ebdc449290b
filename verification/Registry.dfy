/** Creating, updating and deleting nodes, as functions on the node list. */
module Registry {
  import opened Types
  import opened Text
  import opened Ports
  import opened Allocation
  import opened Config

  datatype NodeError = InvalidNode | NameTaken | PortTaken | NodeNotFound | SaveFailed

  /** `url.QueryUnescape`. */
  type Unescape = string -> Option<string>

  function Names(nodes: seq<NodeConfig>): (r: seq<string>)
    ensures |r| == |nodes|
  {
    seq(|nodes|, i requires 0 <= i < |nodes| => nodes[i].name)
  }

  function LastIndexOf(s: string, c: char): (r: int)
    ensures -1 <= r < |s|
  {
    if s == "" then -1
    else if s[|s| - 1] == c then |s| - 1
    else LastIndexOf(s[..|s| - 1], c)
  }

  /** Another node, by name, sits on `port`. */
  predicate PortInUse(nodes: seq<NodeConfig>, port: Port, currentName: string) {
    port != 0 && exists i :: 0 <= i < |nodes| && nodes[i].name != currentName && nodes[i].port == port
  }

  ghost function UsedPorts(nodes: seq<NodeConfig>): set<Port> {
    Elements(PortsOf(nodes)) - {0}
  }

  /** The ports 1 .. n. */
  ghost function PortsUpTo(n: nat): set<Port>
    requires n < PORT_COUNT
  {
    if n == 0 then {} else PortsUpTo(n - 1) + {n}
  }

  ghost function UnusedPorts(nodes: seq<NodeConfig>): set<Port> {
    PortsUpTo(PORT_COUNT - 1) - UsedPorts(nodes)
  }

  function AutoBase(s: Settings): Port {
    if s.basePort == 0 then 24000 else s.basePort
  }

  /** The first unused port met going up from the base, 0 left out; the base itself when
      every port is used. */
  ghost function NextAvailable(s: Settings, nodes: seq<NodeConfig>): Port {
    if UnusedPorts(nodes) == {} then AutoBase(s) else FirstFree(AutoBase(s), UnusedPorts(nodes))
  }

  /** The name a node without one receives. */
  function DefaultName(uri: string, currentName: string, index: nat, unescape: Unescape): string {
    if currentName != "" then currentName
    else
      var at := LastIndexOf(uri, '#');
      var decoded := if at != -1 && at < |uri| - 1 then unescape(uri[at + 1..]) else None;
      if decoded.Some? && decoded.value != "" then decoded.value else "node-" + Itoa(index)
  }

  /** Validation and defaults for a node to be stored; `currentName` is the node being
      updated, "" when creating. */
  ghost function Prepare(s: Settings, nodes: seq<NodeConfig>, node: NodeConfig, currentName: string,
                         unescape: Unescape): Result<NodeConfig, NodeError> {
    var n := Trimmed(node);
    if n.uri == "" then Err(InvalidNode)
    else
      var n := if n.name != "" then n else n.(name := DefaultName(n.uri, currentName, |nodes| + 1, unescape));
      if n.name in Names(nodes) && (currentName == "" || n.name != currentName) then Err(NameTaken)
      else if !s.mode.MultiPort? then Ok(n)
      else if n.port != 0 && PortInUse(nodes, n.port, currentName) then Err(PortTaken)
      else
        var n := if n.port == 0 then n.(port := NextAvailable(s, nodes)) else n;
        Ok(if n.username == "" then n.(username := s.username, password := s.password) else n)
  }

  datatype Outcome = Outcome(result: Result<NodeConfig, NodeError>, nodes: seq<NodeConfig>)

  function NewSource(s: Settings): NodeSource {
    if s.subscriptions == [] && s.nodesFile != "" then NodesFile else Inline
  }

  ghost function Create(s: Settings, nodes: seq<NodeConfig>, node: NodeConfig, saved: bool,
                        unescape: Unescape): Outcome {
    match Prepare(s, nodes, node, "", unescape)
    case Err(e) => Outcome(Err(e), nodes)
    case Ok(n) =>
      var n := n.(source := NewSource(s));
      if saved then Outcome(Ok(n), nodes + [n]) else Outcome(Err(SaveFailed), nodes)
  }

  ghost function Update(s: Settings, nodes: seq<NodeConfig>, name: string, node: NodeConfig, saved: bool,
                        unescape: Unescape): Outcome {
    var name := TrimSpace(name);
    var at := IndexOf(Names(nodes), name);
    if at == -1 then Outcome(Err(NodeNotFound), nodes)
    else
      match Prepare(s, nodes, node, name, unescape)
      case Err(e) => Outcome(Err(e), nodes)
      case Ok(n) =>
        var n := n.(source := nodes[at].source);
        if saved then Outcome(Ok(n), nodes[at := n]) else Outcome(Err(SaveFailed), nodes)
  }

  function Delete(nodes: seq<NodeConfig>, name: string, saved: bool): Outcome {
    var at := IndexOf(Names(nodes), TrimSpace(name));
    if at == -1 then Outcome(Err(NodeNotFound), nodes)
    else if saved then Outcome(Ok(nodes[at]), nodes[..at] + nodes[at + 1..])
    else Outcome(Err(SaveFailed), nodes)
  }

  datatype Op =
    | OpCreate(node: NodeConfig, saved: bool)
    | OpUpdate(name: string, node: NodeConfig, saved: bool)
    | OpDelete(name: string, saved: bool)

  ghost function Apply(s: Settings, nodes: seq<NodeConfig>, op: Op, unescape: Unescape): Outcome {
    match op
    case OpCreate(node, saved) => Create(s, nodes, node, saved, unescape)
    case OpUpdate(name, node, saved) => Update(s, nodes, name, node, saved, unescape)
    case OpDelete(name, saved) => Delete(nodes, name, saved)
  }

  ghost function Run(s: Settings, nodes: seq<NodeConfig>, ops: seq<Op>, unescape: Unescape): seq<NodeConfig>
    decreases |ops|
  {
    if ops == [] then nodes else Run(s, Apply(s, nodes, ops[0], unescape).nodes, ops[1..], unescape)
  }

  ghost predicate NamesSound(nodes: seq<NodeConfig>) {
    Distinct(Names(nodes)) && "" !in Names(nodes)
  }

  /** Names identify nodes, and in multi-port mode so do ports. */
  ghost predicate Sound(s: Settings, nodes: seq<NodeConfig>) {
    && NamesSound(nodes)
    && (s.mode.MultiPort? ==> Distinct(PortsOf(nodes)) && 0 !in PortsOf(nodes))
  }

  lemma {:induction false} PortsUpToSize(n: nat)
    requires n < PORT_COUNT
    ensures |PortsUpTo(n)| == n
    ensures forall p: Port :: p in PortsUpTo(n) <==> 0 < p <= n
    decreases n
  {
    if n > 0 {
      PortsUpToSize(n - 1);
    }
  }

  lemma {:induction false} ElementsSize<T>(xs: seq<T>)
    ensures |Elements(xs)| <= |xs|
    decreases |xs|
  {
    if xs != [] {
      var n := |xs| - 1;
      ElementsSize(xs[..n]);
      assert Elements(xs) == Elements(xs[..n]) + {xs[n]};
    }
  }

  /** Pigeonhole: while there are fewer than 65535 nodes, some port is unused; with
      distinct ports that bound is exact. */
  lemma UnusedPortExists(nodes: seq<NodeConfig>)
    ensures |nodes| < PORT_COUNT - 1 ==> UnusedPorts(nodes) != {}
    ensures Distinct(PortsOf(nodes)) && 0 !in PortsOf(nodes) && UnusedPorts(nodes) != {} ==>
      |nodes| < PORT_COUNT - 1
  {
    hide PortsUpTo, PortsOf;
    var all := PortsUpTo(PORT_COUNT - 1);
    PortsUpToSize(PORT_COUNT - 1);
    ElementsSize(PortsOf(nodes));
    if UnusedPorts(nodes) == {} {
      assert forall p :: p in all && p !in UsedPorts(nodes) ==> p in UnusedPorts(nodes);
      SubsetSize(all, UsedPorts(nodes));
      SubsetSize(UsedPorts(nodes), Elements(PortsOf(nodes)));
    } else if Distinct(PortsOf(nodes)) && 0 !in PortsOf(nodes) {
      DistinctSize(PortsOf(nodes));
      assert Elements(PortsOf(nodes)) == UsedPorts(nodes);
      SubsetSize(UsedPorts(nodes), all);
    }
  }

  /** The port chosen for a node that asks for none: non-zero, unused, and the nearest
      such port above the base, as long as there is one. */
  lemma NextAvailableIsNearestUnused(s: Settings, nodes: seq<NodeConfig>)
    ensures var p := NextAvailable(s, nodes);
      && p != 0
      && (UnusedPorts(nodes) != {} ==>
            && p !in PortsOf(nodes)
            && forall q: Port :: 0 < q && q !in PortsOf(nodes) ==> Distance(AutoBase(s), p) <= Distance(AutoBase(s), q))
      && (UnusedPorts(nodes) == {} ==> p in PortsOf(nodes))
  {
    PortsUpToSize(PORT_COUNT - 1);
    forall q: Port | 0 < q
      ensures q in UnusedPorts(nodes) <==> q !in PortsOf(nodes)
    {
    }
  }

  // What the operations keep.

  lemma DeleteKeepsSound(s: Settings, nodes: seq<NodeConfig>, name: string, saved: bool)
    requires Sound(s, nodes)
    ensures Sound(s, Delete(nodes, name, saved).nodes)
  {
    var at := IndexOf(Names(nodes), TrimSpace(name));
    if at != -1 && saved {
      var rest := nodes[..at] + nodes[at + 1..];
      forall i | 0 <= i < |rest|
        ensures rest[i] == nodes[if i < at then i else i + 1]
        ensures Names(rest)[i] == Names(nodes)[if i < at then i else i + 1]
        ensures PortsOf(rest)[i] == PortsOf(nodes)[if i < at then i else i + 1]
      {
      }
    }
  }

  /** What `Prepare` promises about a node it accepts. */
  lemma PrepareIsSound(s: Settings, nodes: seq<NodeConfig>, node: NodeConfig, currentName: string, unescape: Unescape)
    requires Prepare(s, nodes, node, currentName, unescape).Ok?
    requires "" !in Names(nodes)
    ensures var n := Prepare(s, nodes, node, currentName, unescape).value;
      && n.name != ""
      && (n.name in Names(nodes) ==> n.name == currentName)
      && (s.mode.MultiPort? ==> n.port != 0)
      && (s.mode.MultiPort? && (node.port != 0 || UnusedPorts(nodes) != {}) ==>
            forall i :: 0 <= i < |nodes| && nodes[i].port == n.port ==> nodes[i].name == currentName)
  {
    NextAvailableIsNearestUnused(s, nodes);
    forall i | 0 <= i < |nodes|
      ensures nodes[i].name in Names(nodes) && nodes[i].port in PortsOf(nodes)
    {
      assert Names(nodes)[i] in Names(nodes) && PortsOf(nodes)[i] in PortsOf(nodes);
    }
  }

  lemma AppendKeepsSound(s: Settings, nodes: seq<NodeConfig>, n: NodeConfig)
    requires Sound(s, nodes)
    requires n.name != "" && n.name !in Names(nodes)
    requires s.mode.MultiPort? ==> n.port != 0 && n.port !in PortsOf(nodes)
    ensures Sound(s, nodes + [n])
  {
    assert Names(nodes + [n]) == Names(nodes) + [n.name];
    assert PortsOf(nodes + [n]) == PortsOf(nodes) + [n.port];
  }

  lemma ReplaceKeepsSound(s: Settings, nodes: seq<NodeConfig>, at: nat, n: NodeConfig)
    requires Sound(s, nodes) && at < |nodes|
    requires n.name != "" && (n.name in Names(nodes) ==> n.name == nodes[at].name)
    requires s.mode.MultiPort? ==> n.port != 0
    requires s.mode.MultiPort? ==> forall i :: 0 <= i < |nodes| && nodes[i].port == n.port ==> i == at
    ensures Sound(s, nodes[at := n])
  {
    assert Names(nodes[at := n]) == Names(nodes)[at := n.name];
    assert PortsOf(nodes[at := n]) == PortsOf(nodes)[at := n.port];
    forall i | 0 <= i < |nodes| && i != at
      ensures Names(nodes)[i] != n.name
      ensures s.mode.MultiPort? ==> PortsOf(nodes)[i] != n.port
    {
      assert Names(nodes)[i] in Names(nodes);
      assert Names(nodes)[at] == nodes[at].name;
    }
  }

  /** A stored node keeps the registry sound exactly when it brought its own port or a
      port was left to give it. */
  lemma CreateKeepsSoundIff(s: Settings, nodes: seq<NodeConfig>, node: NodeConfig, saved: bool, unescape: Unescape)
    requires Sound(s, nodes)
    ensures var o := Create(s, nodes, node, saved, unescape);
      Sound(s, o.nodes) <==>
        (o.result.Ok? && s.mode.MultiPort? ==> node.port != 0 || |nodes| < PORT_COUNT - 1)
  {
    var o := Create(s, nodes, node, saved, unescape);
    if o.result.Ok? {
      PrepareIsSound(s, nodes, node, "", unescape);
      UnusedPortExists(nodes);
      var n := o.result.value;
      if s.mode.MultiPort? && node.port == 0 && UnusedPorts(nodes) == {} {
        NextAvailableIsNearestUnused(s, nodes);
        assert PortsOf(o.nodes) == PortsOf(nodes) + [n.port];
        var i :| 0 <= i < |nodes| && PortsOf(nodes)[i] == n.port;
        assert PortsOf(o.nodes)[i] == PortsOf(o.nodes)[|nodes|];
      } else {
        if n.port in PortsOf(nodes) {
          var i :| 0 <= i < |nodes| && PortsOf(nodes)[i] == n.port;
          assert nodes[i].name == Names(nodes)[i];
        }
        AppendKeepsSound(s, nodes, n);
      }
    }
  }

  /** In the other modes, hybrid among them, nobody looks at the port: storing a node keeps
      the ports sound exactly when it brings none, or happens to bring an unused one. */
  lemma UncheckedCreatePortsIff(s: Settings, nodes: seq<NodeConfig>, node: NodeConfig, saved: bool,
                                unescape: Unescape)
    requires !s.mode.MultiPort? && PortsSound(s, nodes)
    requires Create(s, nodes, node, saved, unescape).result.Ok?
    ensures PortsSound(s, Create(s, nodes, node, saved, unescape).nodes) <==>
      || node.port == 0
      || ((forall i :: 0 <= i < |nodes| ==> nodes[i].port != node.port) &&
          (s.mode.Hybrid? ==> node.port != s.listenerPort))
  {
    hide TrimSpace;
    var o := Create(s, nodes, node, saved, unescape);
    assert o.nodes == nodes + [o.result.value] && o.result.value.port == node.port;
    assert o.nodes[|nodes|].port == node.port;
    assert forall i :: 0 <= i < |nodes| ==> o.nodes[i] == nodes[i];
  }

  /** Nor does anybody when a node is replaced. */
  lemma UncheckedUpdatePortsIff(s: Settings, nodes: seq<NodeConfig>, name: string, node: NodeConfig, saved: bool,
                                unescape: Unescape)
    requires !s.mode.MultiPort? && PortsSound(s, nodes)
    requires Update(s, nodes, name, node, saved, unescape).result.Ok?
    ensures var at := IndexOf(Names(nodes), TrimSpace(name));
      PortsSound(s, Update(s, nodes, name, node, saved, unescape).nodes) <==>
        || node.port == 0
        || ((forall i :: 0 <= i < |nodes| && i != at ==> nodes[i].port != node.port) &&
            (s.mode.Hybrid? ==> node.port != s.listenerPort))
  {
    hide TrimSpace;
    var at := IndexOf(Names(nodes), TrimSpace(name));
    var o := Update(s, nodes, name, node, saved, unescape);
    assert o.nodes[at].port == node.port;
    assert forall i :: 0 <= i < |nodes| && i != at ==> o.nodes[i] == nodes[i];
  }

  lemma UpdateKeepsSound(s: Settings, nodes: seq<NodeConfig>, name: string, node: NodeConfig, saved: bool,
                         unescape: Unescape)
    requires Sound(s, nodes)
    requires s.mode.MultiPort? ==> node.port != 0 || |nodes| < PORT_COUNT - 1
    ensures Sound(s, Update(s, nodes, name, node, saved, unescape).nodes)
  {
    var o := Update(s, nodes, name, node, saved, unescape);
    if o.result.Ok? {
      var at := IndexOf(Names(nodes), TrimSpace(name));
      PrepareIsSound(s, nodes, node, TrimSpace(name), unescape);
      UnusedPortExists(nodes);
      forall i | 0 <= i < |nodes| && nodes[i].name == TrimSpace(name)
        ensures i == at
      {
        assert Names(nodes)[i] == Names(nodes)[at];
      }
      ReplaceKeepsSound(s, nodes, at, o.result.value);
    }
  }

  /** The operation brings its own port, or fewer than 65535 nodes leave one to give it. */
  predicate HasRoom(s: Settings, nodes: seq<NodeConfig>, op: Op) {
    s.mode.MultiPort? && !op.OpDelete? ==> op.node.port != 0 || |nodes| < PORT_COUNT - 1
  }

  /** Every operation of the run has room when its turn comes. */
  ghost predicate RoomThroughout(s: Settings, nodes: seq<NodeConfig>, ops: seq<Op>, unescape: Unescape)
    decreases |ops|
  {
    ops == [] ||
    (HasRoom(s, nodes, ops[0]) && RoomThroughout(s, Apply(s, nodes, ops[0], unescape).nodes, ops[1..], unescape))
  }

  /** The registry stays sound over any run whose operations all have room. */
  lemma {:induction false} RunKeepsSound(s: Settings, nodes: seq<NodeConfig>, ops: seq<Op>, unescape: Unescape)
    requires Sound(s, nodes) && RoomThroughout(s, nodes, ops, unescape)
    ensures Sound(s, Run(s, nodes, ops, unescape))
    decreases |ops|
  {
    hide Sound, Create, Update, Delete;
    if ops != [] {
      match ops[0] {
        case OpCreate(node, saved) => CreateKeepsSoundIff(s, nodes, node, saved, unescape);
        case OpUpdate(name, node, saved) => UpdateKeepsSound(s, nodes, name, node, saved, unescape);
        case OpDelete(name, saved) => DeleteKeepsSound(s, nodes, name, saved);
      }
      RunKeepsSound(s, Apply(s, nodes, ops[0], unescape).nodes, ops[1..], unescape);
    }
  }

  /** A run never stores more nodes than it has operations on top of those it began with,
      so a short enough run always has room. */
  lemma {:induction false} ShortRunsHaveRoom(s: Settings, nodes: seq<NodeConfig>, ops: seq<Op>, unescape: Unescape)
    requires |nodes| + |ops| < PORT_COUNT
    ensures RoomThroughout(s, nodes, ops, unescape)
    decreases |ops|
  {
    hide Prepare;
    if ops != [] {
      assert |Apply(s, nodes, ops[0], unescape).nodes| <= |nodes| + 1;
      ShortRunsHaveRoom(s, Apply(s, nodes, ops[0], unescape).nodes, ops[1..], unescape);
    }
  }

  /** Names stay unique and non-empty whatever the mode and however full the registry. */
  lemma ApplyKeepsNames(s: Settings, nodes: seq<NodeConfig>, op: Op, unescape: Unescape)
    requires NamesSound(nodes)
    ensures NamesSound(Apply(s, nodes, op, unescape).nodes)
  {
    hide Prepare, TrimSpace;
    var pool := s.(mode := Pool);
    match op
    case OpCreate(node, saved) =>
      var o := Create(s, nodes, node, saved, unescape);
      if o.result.Ok? {
        PrepareIsSound(s, nodes, node, "", unescape);
        AppendKeepsSound(pool, nodes, o.result.value);
      }
    case OpUpdate(name, node, saved) =>
      var o := Update(s, nodes, name, node, saved, unescape);
      if o.result.Ok? {
        PrepareIsSound(s, nodes, node, TrimSpace(name), unescape);
        var at := IndexOf(Names(nodes), TrimSpace(name));
        assert nodes[at].name == TrimSpace(name);
        ReplaceKeepsSound(pool, nodes, at, o.result.value);
      }
    case OpDelete(name, saved) =>
      DeleteKeepsSound(pool, nodes, name, saved);
  }

  lemma {:induction false} RunKeepsNames(s: Settings, nodes: seq<NodeConfig>, ops: seq<Op>, unescape: Unescape)
    requires NamesSound(nodes)
    ensures NamesSound(Run(s, nodes, ops, unescape))
    decreases |ops|
  {
    hide NamesSound, Apply;
    if ops != [] {
      ApplyKeepsNames(s, nodes, ops[0], unescape);
      RunKeepsNames(s, Apply(s, nodes, ops[0], unescape).nodes, ops[1..], unescape);
    }
  }

  lemma StoredName(s: Settings, nodes: seq<NodeConfig>, node: NodeConfig, unescape: Unescape)
    requires Create(s, nodes, node, true, unescape).result.Ok?
    ensures Create(s, nodes, node, true, unescape).result.value.name
         == if TrimSpace(node.name) != "" then TrimSpace(node.name)
            else DefaultName(TrimSpace(node.uri), "", |nodes| + 1, unescape)
  {
    hide TrimSpace, DefaultName;
  }

  /** The new node's own name is found last; any other name that is found, before it. */
  lemma NewNameIsLast(nodes: seq<NodeConfig>, n: NodeConfig, name: string)
    requires n.name !in Names(nodes)
    ensures IndexOf(Names(nodes + [n]), name) == |nodes| <==> name == n.name
  {
    var names := Names(nodes + [n]);
    assert names == Names(nodes) + [n.name];
    assert names[|nodes|] == n.name;
    assert forall i :: 0 <= i < |nodes| ==> Names(nodes)[i] in Names(nodes);
  }

  lemma RemovingLast(nodes: seq<NodeConfig>, n: NodeConfig)
    ensures (nodes + [n])[..|nodes|] + (nodes + [n])[|nodes| + 1..] == nodes
  {
  }

  lemma RemovingEarlier(nodes: seq<NodeConfig>, n: NodeConfig, at: nat)
    requires n.name !in Names(nodes) && at < |nodes|
    ensures (nodes + [n])[..at] + (nodes + [n])[at + 1..] != nodes
  {
    var r := (nodes + [n])[..at] + (nodes + [n])[at + 1..];
    assert r[|nodes| - 1] == n;
    assert Names(nodes)[|nodes| - 1] == nodes[|nodes| - 1].name;
  }

  /** Removing the first node called `name` from `nodes + [n]` restores `nodes` exactly when
      `name` is the new node's own. */
  lemma RemovingRestoresIff(nodes: seq<NodeConfig>, n: NodeConfig, name: string)
    requires n.name !in Names(nodes)
    ensures var created := nodes + [n];
      var at := IndexOf(Names(created), name);
      && (at == -1 ==> name != n.name)
      && (at != -1 ==> (created[..at] + created[at + 1..] == nodes <==> name == n.name))
  {
    hide Names;
    var at := IndexOf(Names(nodes + [n]), name);
    NewNameIsLast(nodes, n, name);
    if at == |nodes| {
      RemovingLast(nodes, n);
    } else if at != -1 {
      RemovingEarlier(nodes, n, at);
    }
  }

  /** Deleting a node just created, by its name, restores the list exactly when the request
      brought a name or the default one is trimmed: a name decoded from the URI fragment may
      not be, and then the deletion looks for another name. */
  lemma DeleteUndoesCreateIff(s: Settings, nodes: seq<NodeConfig>, node: NodeConfig, unescape: Unescape)
    requires "" !in Names(nodes)
    requires Create(s, nodes, node, true, unescape).result.Ok?
    ensures var created := Create(s, nodes, node, true, unescape);
      Delete(created.nodes, created.result.value.name, true).nodes == nodes
      <==> TrimSpace(node.name) != "" || IsTrimmed(DefaultName(TrimSpace(node.uri), "", |nodes| + 1, unescape))
  {
    hide Prepare, TrimSpace, Names, DefaultName;
    var n := Create(s, nodes, node, true, unescape).result.value;
    StoredName(s, nodes, node, unescape);
    TrimSpaceTrims(node.name);
    PrepareIsSound(s, nodes, node, "", unescape);
    TrimSpaceTrims(n.name);
    RemovingRestoresIff(nodes, n, TrimSpace(n.name));
    assert |nodes + [n]| != |nodes|;
  }
}
