/** What creating, updating and deleting a node do to the list, node by node and field by
    field. */
module RegistryTheorems {
  import opened Types
  import opened Text
  import opened Ports
  import opened Allocation
  import opened Config
  import opened Registry

  // The name of a node that comes without one.

  lemma {:induction false} NoHash(s: string, c: char)
    requires c !in s
    ensures LastIndexOf(s, c) == -1
    decreases |s|
  {
    if s != "" {
      NoHash(s[..|s| - 1], c);
    }
  }

  lemma {:induction false} LastHash(front: string, c: char, rest: string)
    requires c !in rest
    ensures LastIndexOf(front + [c] + rest, c) == |front|
    decreases |rest|
  {
    var s := front + [c] + rest;
    if rest == "" {
      assert s[|s| - 1] == c;
    } else {
      assert s[|s| - 1] == rest[|rest| - 1];
      assert s[..|s| - 1] == front + [c] + rest[..|rest| - 1];
      LastHash(front, c, rest[..|rest| - 1]);
    }
  }

  /** A new node without a name is called by what follows the last `#` of its URI, decoded,
      or by its number if nothing does. */
  lemma FragmentNames(front: string, fragment: string, index: nat, unescape: Unescape)
    requires '#' !in fragment
    ensures DefaultName(front + "#" + fragment, "", index, unescape) ==
      if fragment != "" && unescape(fragment).Some? && unescape(fragment).value != "" then unescape(fragment).value
      else "node-" + Itoa(index)
    ensures DefaultName(fragment, "", index, unescape) == "node-" + Itoa(index)
  {
    hide LastIndexOf, Itoa;
    var uri := front + "#" + fragment;
    LastHash(front, '#', fragment);
    NoHash(fragment, '#');
    assert uri == front + ['#'] + fragment;
    assert uri[|front| + 1..] == fragment;
  }

  // One operation.

  /** From the request `node` to the stored node `n`, apart from its name: the trimmed URI, the
      port asked for or, in multi-port mode and asking for none, the nearest unused one, and
      the multi-port credentials where it brings none. */
  ghost predicate StoredAs(s: Settings, nodes: seq<NodeConfig>, node: NodeConfig, n: NodeConfig) {
    && n.uri == TrimSpace(node.uri)
    && (!s.mode.MultiPort? || node.port != 0 ==> n.port == node.port)
    && (s.mode.MultiPort? && node.port == 0 ==>
          && n.port != 0
          && var base := if s.basePort == 0 then 24000 else s.basePort;
             forall q: Port :: 0 < q && q !in PortsOf(nodes) ==>
               n.port !in PortsOf(nodes) && Distance(base, n.port) <= Distance(base, q))
    && (if s.mode.MultiPort? && node.username == "" then n.username == s.username && n.password == s.password
        else n.username == node.username && n.password == node.password)
  }

  lemma UnusedIsUnused(nodes: seq<NodeConfig>, q: Port)
    requires 0 < q && q !in PortsOf(nodes)
    ensures q in UnusedPorts(nodes)
  {
    PortsUpToSize(PORT_COUNT - 1);
  }

  lemma PrepareFields(s: Settings, nodes: seq<NodeConfig>, node: NodeConfig, currentName: string, unescape: Unescape)
    requires Prepare(s, nodes, node, currentName, unescape).Ok?
    ensures StoredAs(s, nodes, node, Prepare(s, nodes, node, currentName, unescape).value)
  {
    hide TrimSpace, DefaultName, UnusedPorts, NextAvailable, Distance;
    NextAvailableIsNearestUnused(s, nodes);
    forall q: Port | 0 < q && q !in PortsOf(nodes)
      ensures q in UnusedPorts(nodes)
    {
      UnusedIsUnused(nodes, q);
    }
  }

  lemma NamesAt(nodes: seq<NodeConfig>)
    ensures forall i :: 0 <= i < |nodes| ==> Names(nodes)[i] == nodes[i].name && nodes[i].name in Names(nodes)
  {
    forall i | 0 <= i < |nodes|
      ensures Names(nodes)[i] == nodes[i].name && nodes[i].name in Names(nodes)
    {
      assert Names(nodes)[i] in Names(nodes);
    }
  }

  lemma NamedIff(nodes: seq<NodeConfig>, name: string)
    ensures name in Names(nodes) <==> exists i :: 0 <= i < |nodes| && nodes[i].name == name
  {
    NamesAt(nodes);
  }

  lemma PrepareResult(s: Settings, nodes: seq<NodeConfig>, node: NodeConfig, currentName: string, unescape: Unescape)
    requires "" !in Names(nodes)
    ensures var name := if TrimSpace(node.name) != "" then TrimSpace(node.name)
                        else DefaultName(TrimSpace(node.uri), currentName, |nodes| + 1, unescape);
      var taken := exists i :: 0 <= i < |nodes| && nodes[i].name == name && name != currentName;
      var inUse := exists i :: 0 <= i < |nodes| && nodes[i].port == node.port && nodes[i].name != currentName;
      match Prepare(s, nodes, node, currentName, unescape)
      case Err(e) =>
        || (e == InvalidNode && TrimSpace(node.uri) == "")
        || (e == NameTaken && TrimSpace(node.uri) != "" && taken)
        || (e == PortTaken && TrimSpace(node.uri) != "" && !taken && s.mode.MultiPort? && node.port != 0 && inUse)
      case Ok(n) =>
        && n.name == name
        && TrimSpace(node.uri) != "" && !taken && !(s.mode.MultiPort? && node.port != 0 && inUse)
  {
    hide TrimSpace, DefaultName, NextAvailable;
    NamesAt(nodes);
  }

  lemma SourceIsNotAField(s: Settings, nodes: seq<NodeConfig>, node: NodeConfig, n: NodeConfig, source: NodeSource)
    ensures StoredAs(s, nodes, node, n) <==> StoredAs(s, nodes, node, n.(source := source))
  {
    hide TrimSpace, Distance;
  }

  lemma SurvivorsAreOthers(nodes: seq<NodeConfig>, at: nat, rest: seq<NodeConfig>, m: NodeConfig)
    requires NamesSound(nodes) && at < |nodes| && rest == nodes[..at] + nodes[at + 1..]
    ensures m in rest <==> m in nodes && m.name != nodes[at].name
  {
    forall i | 0 <= i < |nodes|
      ensures nodes[i].name == nodes[at].name <==> i == at
    {
      assert Names(nodes)[i] == nodes[i].name && Names(nodes)[at] == nodes[at].name;
      assert if i < at then Names(nodes)[i] != Names(nodes)[at] else i > at ==> Names(nodes)[at] != Names(nodes)[i];
    }
    if m in rest {
      var k :| 0 <= k < |rest| && rest[k] == m;
      assert m == nodes[if k < at then k else k + 1];
    }
    if m in nodes && m.name != nodes[at].name {
      var i :| 0 <= i < |nodes| && nodes[i] == m;
      assert m == rest[if i < at then i else i - 1];
    }
  }

  /** Creating a node.  It succeeds exactly when the save works, the request has a URI, nobody
      has the name and, in multi-port mode, nobody has the port asked for.  Then the node comes
      last and the others stay as they are; otherwise the list stays as it is. */
  lemma CreateOutcome(s: Settings, nodes: seq<NodeConfig>, node: NodeConfig, saved: bool, unescape: Unescape)
    requires "" !in Names(nodes)
    ensures var name := if TrimSpace(node.name) != "" then TrimSpace(node.name)
                        else DefaultName(TrimSpace(node.uri), "", |nodes| + 1, unescape);
      var nameTaken := exists i :: 0 <= i < |nodes| && nodes[i].name == name;
      var portTaken := s.mode.MultiPort? && node.port != 0 &&
        exists i :: 0 <= i < |nodes| && nodes[i].port == node.port;
      var o := Create(s, nodes, node, saved, unescape);
      match o.result
      case Ok(n) =>
        && TrimSpace(node.uri) != "" && !nameTaken && !portTaken && saved
        && o.nodes == nodes + [n] && n.name == name && StoredAs(s, nodes, node, n)
        && n.source == (if s.subscriptions == [] && s.nodesFile != "" then NodesFile else Inline)
      case Err(e) =>
        && o.nodes == nodes
        && match e
           case InvalidNode => TrimSpace(node.uri) == ""
           case NameTaken => TrimSpace(node.uri) != "" && nameTaken
           case PortTaken => TrimSpace(node.uri) != "" && !nameTaken && portTaken
           case SaveFailed => TrimSpace(node.uri) != "" && !nameTaken && !portTaken && !saved
           case NodeNotFound => false
  {
    hide TrimSpace, DefaultName, Prepare, StoredAs;
    PrepareResult(s, nodes, node, "", unescape);
    NamesAt(nodes);
    if Prepare(s, nodes, node, "", unescape).Ok? {
      PrepareFields(s, nodes, node, "", unescape);
      SourceIsNotAField(s, nodes, node, Prepare(s, nodes, node, "", unescape).value, NewSource(s));
    }
  }

  /** Updating the node called `name`.  It succeeds exactly when there is one, the save works,
      the request has a URI, no other node has the new name and, in multi-port mode, none has
      the port asked for.  Then that node is replaced, keeping its source, and every other one
      stays as it is, in its place; otherwise the list stays as it is. */
  lemma UpdateOutcome(s: Settings, nodes: seq<NodeConfig>, name: string, node: NodeConfig, saved: bool,
                      unescape: Unescape) returns (at: int)
    requires NamesSound(nodes)
    ensures -1 <= at < |nodes| && (at >= 0 <==> exists i :: 0 <= i < |nodes| && nodes[i].name == TrimSpace(name))
    ensures at >= 0 ==> nodes[at].name == TrimSpace(name)
    ensures var newName := if TrimSpace(node.name) != "" then TrimSpace(node.name) else TrimSpace(name);
      var nameTaken := exists i :: 0 <= i < |nodes| && i != at && nodes[i].name == newName;
      var portTaken := s.mode.MultiPort? && node.port != 0 &&
        exists i :: 0 <= i < |nodes| && i != at && nodes[i].port == node.port;
      var o := Update(s, nodes, name, node, saved, unescape);
      match o.result
      case Ok(n) =>
        && at >= 0 && TrimSpace(node.uri) != "" && !nameTaken && !portTaken && saved
        && |o.nodes| == |nodes| && (forall i :: 0 <= i < |nodes| && i != at ==> o.nodes[i] == nodes[i])
        && o.nodes[at] == n && n.name == newName && n.source == nodes[at].source && StoredAs(s, nodes, node, n)
      case Err(e) =>
        && o.nodes == nodes
        && match e
           case NodeNotFound => at == -1
           case InvalidNode => at >= 0 && TrimSpace(node.uri) == ""
           case NameTaken => at >= 0 && TrimSpace(node.uri) != "" && nameTaken
           case PortTaken => at >= 0 && TrimSpace(node.uri) != "" && !nameTaken && portTaken
           case SaveFailed => at >= 0 && TrimSpace(node.uri) != "" && !nameTaken && !portTaken && !saved
  {
    hide TrimSpace, Prepare, StoredAs;
    at := IndexOf(Names(nodes), TrimSpace(name));
    NamesAt(nodes);
    if at >= 0 {
      PrepareResult(s, nodes, node, TrimSpace(name), unescape);
      forall i | 0 <= i < |nodes|
        ensures nodes[i].name == TrimSpace(name) <==> i == at
      {
        assert if i < at then Names(nodes)[i] != Names(nodes)[at] else i > at ==> Names(nodes)[at] != Names(nodes)[i];
      }
      if Prepare(s, nodes, node, TrimSpace(name), unescape).Ok? {
        PrepareFields(s, nodes, node, TrimSpace(name), unescape);
        SourceIsNotAField(s, nodes, node, Prepare(s, nodes, node, TrimSpace(name), unescape).value, nodes[at].source);
      }
    }
  }

  /** Cutting out position `at` takes away that node alone. */
  lemma OneIsGone(nodes: seq<NodeConfig>, at: nat)
    requires NamesSound(nodes) && at < |nodes|
    ensures var rest := nodes[..at] + nodes[at + 1..];
      && |rest| == |nodes| - 1
      && (forall i :: 0 <= i < |rest| ==> rest[i] == nodes[if i < at then i else i + 1])
      && (forall m :: m in rest <==> m in nodes && m.name != nodes[at].name)
  {
    hide NamesSound;
    var rest := nodes[..at] + nodes[at + 1..];
    forall m
      ensures m in rest <==> m in nodes && m.name != nodes[at].name
    {
      SurvivorsAreOthers(nodes, at, rest, m);
    }
  }

  /** Where the node called `name` is, or -1. */
  lemma Position(nodes: seq<NodeConfig>, name: string) returns (at: int)
    ensures -1 <= at < |nodes| && at == IndexOf(Names(nodes), name)
    ensures at >= 0 <==> exists i :: 0 <= i < |nodes| && nodes[i].name == name
    ensures at >= 0 ==> nodes[at].name == name
  {
    at := IndexOf(Names(nodes), name);
    NamedIff(nodes, name);
  }

  lemma DeleteAt(nodes: seq<NodeConfig>, name: string, saved: bool, at: int)
    requires -1 <= at < |nodes| && at == IndexOf(Names(nodes), TrimSpace(name))
    ensures Delete(nodes, name, saved) ==
      if at == -1 then Outcome(Err(NodeNotFound), nodes)
      else if saved then Outcome(Ok(nodes[at]), nodes[..at] + nodes[at + 1..])
      else Outcome(Err(SaveFailed), nodes)
  {
    hide TrimSpace, Names;
  }

  /** Deleting the node called `name`.  It succeeds exactly when there is one and the save
      works.  Then that node alone is gone, those before it stay in their places and those
      behind it move down by one; otherwise the list stays as it is. */
  lemma DeleteOutcome(nodes: seq<NodeConfig>, name: string, saved: bool) returns (at: int)
    requires NamesSound(nodes)
    ensures -1 <= at < |nodes| && (at >= 0 <==> exists i :: 0 <= i < |nodes| && nodes[i].name == TrimSpace(name))
    ensures at >= 0 ==> nodes[at].name == TrimSpace(name)
    ensures var o := Delete(nodes, name, saved);
      match o.result
      case Ok(n) =>
        && at >= 0 && saved && n == nodes[at] && |o.nodes| == |nodes| - 1
        && (forall i :: 0 <= i < |o.nodes| ==> o.nodes[i] == nodes[if i < at then i else i + 1])
        && (forall m :: m in o.nodes <==> m in nodes && m.name != TrimSpace(name))
      case Err(e) => o.nodes == nodes && e == (if at == -1 then NodeNotFound else SaveFailed) && (at >= 0 ==> !saved)
  {
    hide TrimSpace, Names, NamesSound, Delete, IndexOf;
    at := Position(nodes, TrimSpace(name));
    DeleteAt(nodes, name, saved, at);
    if at >= 0 {
      OneIsGone(nodes, at);
    }
  }

  // A run.

  /** The name an operation is aimed at; creating a node is aimed at none. */
  function Target(op: Op): Option<string> {
    match op
    case OpCreate(_, _) => None
    case OpUpdate(name, _, _) => Some(TrimSpace(name))
    case OpDelete(name, _) => Some(TrimSpace(name))
  }

  lemma ApplyKeepsOthers(s: Settings, nodes: seq<NodeConfig>, op: Op, unescape: Unescape, n: NodeConfig)
    requires NamesSound(nodes) && n in nodes && Target(op) != Some(n.name)
    ensures n in Apply(s, nodes, op, unescape).nodes
  {
    hide TrimSpace, Create, Update, Delete;
    match op
    case OpCreate(node, saved) =>
      CreateOutcome(s, nodes, node, saved, unescape);
    case OpUpdate(name, node, saved) =>
      var at := UpdateOutcome(s, nodes, name, node, saved, unescape);
      var i :| 0 <= i < |nodes| && nodes[i] == n;
      assert i != at;
    case OpDelete(name, saved) =>
      var at := DeleteOutcome(nodes, name, saved);
  }

  /** Over any run, a node that no operation is aimed at stays in the list, unchanged. */
  lemma {:induction false} RunKeepsOthers(s: Settings, nodes: seq<NodeConfig>, ops: seq<Op>, unescape: Unescape,
                                          n: NodeConfig)
    requires NamesSound(nodes) && n in nodes && forall k :: 0 <= k < |ops| ==> Target(ops[k]) != Some(n.name)
    ensures n in Run(s, nodes, ops, unescape)
    decreases |ops|
  {
    hide NamesSound, Apply, Target;
    if ops != [] {
      ApplyKeepsNames(s, nodes, ops[0], unescape);
      ApplyKeepsOthers(s, nodes, ops[0], unescape, n);
      RunKeepsOthers(s, Apply(s, nodes, ops[0], unescape).nodes, ops[1..], unescape, n);
    }
  }
}
