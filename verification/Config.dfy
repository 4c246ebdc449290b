/** The configuration object and the three places where it assigns ports. */
module Config {
  import opened Types
  import opened Text
  import opened Ports
  import opened Allocation

  /** The `mode` setting: empty, a supported name, the legacy spelling, anything else. */
  datatype Mode = Unset | Pool | MultiPort | MultiPortLegacy | Hybrid | Unsupported(text: string)

  /** The settings the modelled code reads; `username` and `password` are the multi-port
      defaults. */
  datatype Settings = Settings(
    mode: Mode,
    listenerPort: Port,
    basePort: Port,
    username: string,
    password: string,
    nodesFile: string,
    subscriptions: seq<string>)

  datatype NormalizeError = UnsupportedMode(mode: Mode) | MissingUri(index: nat)

  type PortMap = map<string, Port>

  function CanonicalMode(mode: Mode): Mode {
    if mode.Unset? then Pool else if mode.MultiPortLegacy? then MultiPort else mode
  }

  predicate KnownMode(mode: Mode) {
    mode.Pool? || mode.MultiPort? || mode.Hybrid?
  }

  /** Every node listens on a port of its own. */
  predicate PerNodePorts(mode: Mode) {
    mode.MultiPort? || mode.Hybrid?
  }

  /** The defaults filled in once the mode is accepted. */
  function WithDefaults(s: Settings): Settings {
    s.(mode := CanonicalMode(s.mode),
       listenerPort := if s.listenerPort == 0 then 2323 else s.listenerPort,
       basePort := if s.basePort == 0 then 28000 else s.basePort)
  }

  function MappedPort(portMap: PortMap, uri: string): Port {
    if uri in portMap then portMap[uri] else 0
  }

  function Trimmed(n: NodeConfig): NodeConfig {
    n.(name := TrimSpace(n.name), uri := TrimSpace(n.uri))
  }

  /** The name in the URI fragment, or `node-<index>`. */
  function Named(n: NodeConfig, index: nat, fragmentName: string -> string): NodeConfig {
    if n.name != "" then n
    else if fragmentName(n.uri) != "" then n.(name := fragmentName(n.uri))
    else n.(name := "node-" + Itoa(index))
  }

  /** A node after the first pass: trimmed, named, on its mapped port if it has one. */
  function Prepared(mode: Mode, n: NodeConfig, index: nat, portMap: PortMap,
                    fragmentName: string -> string): NodeConfig {
    var n := Named(Trimmed(n), index, fragmentName);
    if PerNodePorts(mode) && MappedPort(portMap, n.uri) > 0 then n.(port := MappedPort(portMap, n.uri)) else n
  }

  function PrepareAll(mode: Mode, nodes: seq<NodeConfig>, portMap: PortMap,
                      fragmentName: string -> string): (r: seq<NodeConfig>)
    ensures |r| == |nodes|
  {
    seq(|nodes|, i requires 0 <= i < |nodes| => Prepared(mode, nodes[i], i, portMap, fragmentName))
  }

  /** The ports no fresh port may equal: the mapped ones, and in hybrid mode the listener's. */
  function UsedPorts(s: Settings, uris: seq<string>, portMap: PortMap): set<Port> {
    (if s.mode.Hybrid? then {s.listenerPort} else {}) +
    (set u | u in uris && PerNodePorts(s.mode) && MappedPort(portMap, u) > 0 :: MappedPort(portMap, u))
  }

  /** `k` consecutive ports, free or not: pool mode does not listen on them. */
  function ConsecutivePorts(k: nat, cursor: Port): (r: seq<Port>)
    ensures |r| == k
  {
    seq(k, i requires 0 <= i < k => Advance(cursor, i))
  }

  function WithCredentials(s: Settings, n: NodeConfig): NodeConfig {
    if PerNodePorts(s.mode) && n.username == "" then
      n.(username := s.username, password := s.password)
    else n
  }

  function AllWithCredentials(s: Settings, nodes: seq<NodeConfig>): (r: seq<NodeConfig>)
    ensures |r| == |nodes|
  {
    seq(|nodes|, i requires 0 <= i < |nodes| => WithCredentials(s, nodes[i]))
  }

  /** The ports free for `NormalizeWithPortMap`. */
  ghost function FreeFor(s: Settings, prepared: seq<NodeConfig>, portMap: PortMap, bindable: set<Port>): set<Port> {
    bindable - UsedPorts(s, Uris(prepared), portMap)
  }

  ghost predicate EnoughFor(s: Settings, prepared: seq<NodeConfig>, free: set<Port>) {
    PerNodePorts(s.mode) ==> Holes(prepared, 0) <= |free|
  }

  /** The ports the second pass hands out. */
  ghost function FreshFor(s: Settings, prepared: seq<NodeConfig>, free: set<Port>): (ports: seq<Port>)
    requires EnoughFor(s, prepared, free)
    ensures |ports| == Holes(prepared, 0)
  {
    if PerNodePorts(s.mode) then FreshPorts(Holes(prepared, 0), s.basePort, free)
    else ConsecutivePorts(Holes(prepared, 0), s.basePort)
  }

  /** The nodes after the second pass. */
  ghost function Assigned(s: Settings, prepared: seq<NodeConfig>, free: set<Port>): (r: seq<NodeConfig>)
    requires EnoughFor(s, prepared, free)
    ensures |r| == |prepared|
  {
    AllWithCredentials(s, Fill(prepared, 0, FreshFor(s, prepared, free)))
  }

  /** The walks of the second pass all find a port.  Without this the code never
      returns: its only exit from a walk is the unreachable `> 65535`. */
  ghost predicate EnoughPorts(s: Settings, nodes: seq<NodeConfig>, portMap: PortMap, bindable: set<Port>,
                              fragmentName: string -> string) {
    var prepared := PrepareAll(s.mode, nodes, portMap, fragmentName);
    EnoughFor(s, prepared, FreeFor(s, prepared, portMap, bindable))
  }

  /** The nodes after both passes, `s` being the settings with their defaults. */
  ghost function Normalized(s: Settings, nodes: seq<NodeConfig>, portMap: PortMap, bindable: set<Port>,
                            fragmentName: string -> string): (r: seq<NodeConfig>)
    requires EnoughPorts(s, nodes, portMap, bindable, fragmentName)
    ensures |r| == |nodes|
  {
    var prepared := PrepareAll(s.mode, nodes, portMap, fragmentName);
    Assigned(s, prepared, FreeFor(s, prepared, portMap, bindable))
  }

  predicate AllHaveUri(nodes: seq<NodeConfig>) {
    forall i :: 0 <= i < |nodes| ==> Trimmed(nodes[i]).uri != ""
  }

  /** The first pass stopped at node `i`, the first without a URI. */
  ghost predicate StoppedAt(i: nat, mode: Mode, before: seq<NodeConfig>, after: seq<NodeConfig>, portMap: PortMap,
                            fragmentName: string -> string) {
    && i < |before|
    && AllHaveUri(before[..i]) && Trimmed(before[i]).uri == ""
    && after == PrepareAll(mode, before, portMap, fragmentName)[..i] + [Trimmed(before[i])] + before[i + 1..]
  }

  /** Why a normalisation fails: an unknown mode, or the first node without a URI. */
  ghost predicate Objects(s: Settings, nodes: seq<NodeConfig>, e: NormalizeError) {
    match e
    case UnsupportedMode(mode) => mode == s.mode && !KnownMode(CanonicalMode(mode))
    case MissingUri(i) =>
      && KnownMode(CanonicalMode(s.mode)) && i < |nodes| && TrimSpace(nodes[i].uri) == ""
      && forall j :: 0 <= j < i ==> TrimSpace(nodes[j].uri) != ""
  }

  lemma StoppedObjects(i: nat, s: Settings, before: seq<NodeConfig>, after: seq<NodeConfig>, portMap: PortMap,
                       fragmentName: string -> string)
    requires KnownMode(CanonicalMode(s.mode))
    requires StoppedAt(i, CanonicalMode(s.mode), before, after, portMap, fragmentName)
    ensures Objects(s, before, MissingUri(i))
  {
    hide TrimSpace, PrepareAll;
    assert forall j :: 0 <= j < i ==> before[..i][j] == before[j];
  }

  /** No two nodes have one port, and none has the listener's in hybrid mode.  Port 0, "not
      assigned", does not count. */
  predicate PortsSound(s: Settings, nodes: seq<NodeConfig>) {
    && (forall i, j :: 0 <= i < j < |nodes| && nodes[i].port != 0 ==> nodes[i].port != nodes[j].port)
    && (s.mode.Hybrid? ==>
          forall i :: 0 <= i < |nodes| && nodes[i].port != 0 ==> nodes[i].port != s.listenerPort)
  }

  /** `BuildPortMap` as a function: a later node with the same URI wins. */
  function PortMapOf(nodes: seq<NodeConfig>): PortMap {
    if nodes == [] then map[]
    else
      var m := PortMapOf(nodes[..|nodes| - 1]);
      var n := nodes[|nodes| - 1];
      if n.port > 0 then m[n.uri := n.port] else m
  }

  lemma HolesSnoc(nodes: seq<NodeConfig>, hole: Port, i: nat)
    requires i < |nodes|
    ensures Holes(nodes[..i + 1], hole) == Holes(nodes[..i], hole) + (if nodes[i].port == hole then 1 else 0)
  {
    assert nodes[..i + 1] == nodes[..i] + [nodes[i]];
    HolesConcat(nodes[..i], [nodes[i]], hole);
  }

  lemma StartsAtCursor(cursor: Port)
    ensures Advance(cursor, 0) == cursor
  {
  }

  lemma ConsecutivePortsStep(k: nat, cursor: Port, j: nat)
    requires j < k
    ensures ConsecutivePorts(k, cursor)[j] == Advance(cursor, j)
    ensures Advance(cursor, j + 1) == Next(Advance(cursor, j))
  {
  }

  lemma FilledNodeAt(nodes: seq<NodeConfig>, hole: Port, ports: seq<Port>, i: nat)
    requires |ports| == Holes(nodes, hole) && i < |nodes|
    ensures var j := Holes(nodes[..i], hole);
      && Holes(nodes[..i + 1], hole) == j + (if nodes[i].port == hole then 1 else 0) <= |ports|
      && Fill(nodes, hole, ports)[i] == if nodes[i].port == hole then nodes[i].(port := ports[j]) else nodes[i]
  {
    hide Holes, Fill;
    HolesSnoc(nodes, hole, i);
    FillAt(nodes, hole, ports, i);
  }

  /** What a pass over `nodes` with the ports `ports` makes of node `i`. */
  lemma FilledNode(s: Settings, nodes: seq<NodeConfig>, ports: seq<Port>, i: nat)
    requires |ports| == Holes(nodes, 0) && i < |nodes|
    ensures var j := Holes(nodes[..i], 0);
      && Holes(nodes[..i + 1], 0) == j + (if nodes[i].port == 0 then 1 else 0) <= |ports|
      && AllWithCredentials(s, Fill(nodes, 0, ports))[i]
         == WithCredentials(s, if nodes[i].port == 0 then nodes[i].(port := ports[j]) else nodes[i])
  {
    hide Holes, Fill, WithCredentials;
    FilledNodeAt(nodes, 0, ports, i);
  }

  lemma PreparedNode(mode: Mode, nodes: seq<NodeConfig>, portMap: PortMap, fragmentName: string -> string, i: nat)
    requires i < |nodes|
    ensures PrepareAll(mode, nodes, portMap, fragmentName)[i] == Prepared(mode, nodes[i], i, portMap, fragmentName)
    ensures Uris(PrepareAll(mode, nodes, portMap, fragmentName))[i]
         == PrepareAll(mode, nodes, portMap, fragmentName)[i].uri
  {
    hide Prepared;
  }

  /** The pass stops at node `i`, trimmed in place. */
  lemma PreparedPrefix(mode: Mode, nodes: seq<NodeConfig>, portMap: PortMap, fragmentName: string -> string, i: nat,
                       after: seq<NodeConfig>)
    requires i < |nodes| == |after| && Trimmed(nodes[i]).uri == ""
    requires forall k :: 0 <= k < i ==> Trimmed(nodes[k]).uri != ""
    requires forall k :: 0 <= k < i ==> after[k] == PrepareAll(mode, nodes, portMap, fragmentName)[k]
    requires after[i] == Trimmed(nodes[i])
    requires forall k :: i < k < |nodes| ==> after[k] == nodes[k]
    ensures StoppedAt(i, mode, nodes, after, portMap, fragmentName)
  {
    hide PrepareAll, Trimmed;
  }

  lemma UsedPortsEmpty(s: Settings, portMap: PortMap)
    ensures UsedPorts(s, [], portMap) == if s.mode.Hybrid? then {s.listenerPort} else {}
  {
  }

  lemma UsedPortsSnoc(s: Settings, uris: seq<string>, portMap: PortMap, i: nat)
    requires i < |uris|
    ensures UsedPorts(s, uris[..i + 1], portMap) == UsedPorts(s, uris[..i], portMap) +
      (if PerNodePorts(s.mode) && MappedPort(portMap, uris[i]) > 0 then {MappedPort(portMap, uris[i])} else {})
  {
    forall u
      ensures u in uris[..i + 1] <==> u in uris[..i] || u == uris[i]
    {
      assert uris[..i + 1] == uris[..i] + [uris[i]];
    }
  }

  /** The ports the fix-up may hand out. */
  ghost function FixUpPorts(s: Settings, nodes: seq<NodeConfig>, bindable: set<Port>): set<Port> {
    bindable - ({s.listenerPort} + Elements(PortsOf(nodes)))
  }

  class Config {
    var settings: Settings
    var nodes: array<NodeConfig>  // backing array of the node slice
    var count: nat                // its length
    var filePath: string

    constructor (settings: Settings, nodes: seq<NodeConfig>, filePath: string)
      ensures Valid() && fresh(this.nodes)
      ensures this.settings == settings && Nodes() == nodes && this.filePath == filePath
    {
      this.settings := settings;
      this.nodes := new NodeConfig[|nodes|](i requires 0 <= i < |nodes| => nodes[i]);
      this.count := |nodes|;
      this.filePath := filePath;
    }

    ghost predicate Valid()
      reads this
    {
      count <= nodes.Length
    }

    function Nodes(): (r: seq<NodeConfig>)
      requires Valid()
      reads this, nodes
      ensures |r| == count
    {
      nodes[..count]
    }

    /** `append(c.Nodes, n)`: in the backing array while it has room, else in a larger one. */
    method AppendNode(n: NodeConfig)
      requires Valid()
      modifies this`nodes, this`count, nodes
      ensures Valid() && Nodes() == old(Nodes()) + [n]
      ensures nodes == old(nodes) || fresh(nodes)
    {
      if count == nodes.Length {
        var grown := new NodeConfig[2 * count + 1];
        forall k | 0 <= k < count {
          grown[k] := nodes[k];
        }
        nodes := grown;
      }
      nodes[count] := n;
      count := count + 1;
    }

    /** `append(c.Nodes[:at], c.Nodes[at+1:]...)`: shifts the tail down in place. */
    method RemoveNode(at: nat)
      requires Valid() && at < count
      modifies this`count, nodes
      ensures Valid() && Nodes() == old(Nodes())[..at] + old(Nodes())[at + 1..]
    {
      ghost var before := Nodes();
      for k := at to count - 1
        invariant count == |before| <= nodes.Length
        invariant forall j :: 0 <= j < at ==> nodes[j] == before[j]
        invariant forall j :: at <= j < k ==> nodes[j] == before[j + 1]
        invariant forall j :: k <= j < count ==> nodes[j] == before[j]
      {
        nodes[k] := nodes[k + 1];
      }
      count := count - 1;
    }

    /** `*c = *other`: the slice header is copied, so both share the backing array. */
    method Assign(other: Config)
      requires other.Valid()
      modifies this
      ensures Valid() && nodes == old(other.nodes) && count == old(other.count)
      ensures settings == old(other.settings) && filePath == old(other.filePath)
    {
      settings, nodes, count, filePath := other.settings, other.nodes, other.count, other.filePath;
    }

    /** `cloneNodes`: a backing array of its own. */
    method CloneNodes() returns (copy: array<NodeConfig>)
      requires Valid()
      ensures fresh(copy) && copy[..] == Nodes()
    {
      copy := new NodeConfig[count](i requires 0 <= i < count && count <= nodes.Length reads this, nodes => nodes[i]);
    }

    method BuildPortMap() returns (portMap: PortMap)
      requires Valid()
      ensures portMap == PortMapOf(Nodes())
    {
      portMap := map[];
      for i := 0 to count
        invariant portMap == PortMapOf(Nodes()[..i])
      {
        assert Nodes()[..i + 1][..i] == Nodes()[..i];
        if nodes[i].port > 0 {
          portMap := portMap[nodes[i].uri := nodes[i].port];
        }
      }
      assert Nodes()[..count] == Nodes();
    }

    /** First pass: returns the used ports, and the first node without a URI
        (or `count`), at which the pass stops. */
    method PrepareNodes(portMap: PortMap, fragmentName: string -> string) returns (used: set<Port>, missing: nat)
      requires Valid()
      modifies nodes
      ensures missing <= count
      ensures missing < count ==>
        StoppedAt(missing, settings.mode, old(Nodes()), Nodes(), portMap, fragmentName)
      ensures missing == count ==>
        && AllHaveUri(old(Nodes()))
        && Nodes() == PrepareAll(settings.mode, old(Nodes()), portMap, fragmentName)
        && used == UsedPorts(settings, Uris(Nodes()), portMap)
    {
      hide TrimSpace, Trimmed, Named, MappedPort, UsedPorts, Uris, PrepareAll;
      ghost var before := Nodes();
      ghost var prepared := PrepareAll(settings.mode, before, portMap, fragmentName);
      used := if settings.mode.Hybrid? then {settings.listenerPort} else {};
      UsedPortsEmpty(settings, portMap);
      for i := 0 to count
        invariant forall k :: 0 <= k < i ==> Trimmed(before[k]).uri != ""
        invariant forall k :: 0 <= k < i ==> nodes[k] == prepared[k]
        invariant forall k :: i <= k < count ==> nodes[k] == before[k]
        invariant used == UsedPorts(settings, Uris(prepared)[..i], portMap)
      {
        UsedPortsSnoc(settings, Uris(prepared), portMap, i);
        PreparedNode(settings.mode, before, portMap, fragmentName, i);
        var n := Trimmed(nodes[i]);
        if n.uri == "" {
          nodes[i] := n;
          PreparedPrefix(settings.mode, before, portMap, fragmentName, i, Nodes());
          return used, i;
        }
        n := Named(n, i, fragmentName);
        if PerNodePorts(settings.mode) {
          var mapped := MappedPort(portMap, n.uri);
          if mapped > 0 {
            n := n.(port := mapped);
            used := used + {mapped};
          }
        }
        nodes[i] := n;
      }
      missing := count;
      assert Nodes() == prepared;
      assert |Uris(prepared)| == count;
      assert Uris(prepared)[..count] == Uris(prepared);
    }

    /** Second pass. */
    method AssignFreshPorts(used: set<Port>, bindable: set<Port>)
      requires Valid()
      requires EnoughFor(settings, Nodes(), bindable - used)
      modifies nodes
      ensures Nodes() == Assigned(settings, old(Nodes()), bindable - used)
    {
      hide Fill, Holes, FreshPorts, FirstFree, IsNearest, Distance;
      hide WithCredentials, AllWithCredentials, Advance, Next, ConsecutivePorts, Elements;
      ghost var before := Nodes();
      ghost var perNode := PerNodePorts(settings.mode);
      ghost var ports := FreshFor(settings, before, bindable - used);
      ghost var goal := AllWithCredentials(settings, Fill(before, 0, ports));
      var cursor := settings.basePort;
      StartsAtCursor(cursor);
      NoElements(ports);
      var taken := used;
      ghost var j := 0;
      for i := 0 to count
        invariant forall k :: 0 <= k < i ==> nodes[k] == goal[k]
        invariant forall k :: i <= k < count ==> nodes[k] == before[k]
        invariant j == Holes(before[..i], 0) <= |ports|
        invariant perNode ==> taken == used + Elements(ports[..j])
        invariant perNode ==> cursor == CursorAt(settings.basePort, ports, j)
        invariant !perNode ==> cursor == Advance(settings.basePort, j)
      {
        FilledNode(settings, before, ports, i);
        var n := nodes[i];
        if n.port == 0 && PerNodePorts(settings.mode) {
          NextFresh(|ports|, settings.basePort, used, bindable, j);
          var p := NextFreePort(cursor, taken, bindable);
          n := n.(port := p);
          taken := taken + {p};
          cursor := Next(p);
          j := j + 1;
        } else if n.port == 0 {
          ConsecutivePortsStep(|ports|, settings.basePort, j);
          n := n.(port := cursor);
          cursor := Next(cursor);
          j := j + 1;
        }
        nodes[i] := WithCredentials(settings, n);
      }
      assert Nodes() == goal;
    }

    /** Applies defaults and assigns ports, keeping those in `portMap`.  `bindable` is
        the outcome of `isPortAvailable`, fixed during the call; `fragmentName` decodes
        the URI fragment. */
    method NormalizeWithPortMap(portMap: PortMap, bindable: set<Port>, fragmentName: string -> string)
      returns (r: Result<(), NormalizeError>)
      requires Valid()
      requires KnownMode(CanonicalMode(settings.mode)) && AllHaveUri(Nodes()) ==>
        EnoughPorts(WithDefaults(settings), Nodes(), portMap, bindable, fragmentName)
      modifies this`settings, nodes
      ensures Valid()
      ensures !KnownMode(CanonicalMode(old(settings).mode)) ==>
        && r == Err(UnsupportedMode(old(settings).mode))
        && settings == old(settings) && Nodes() == old(Nodes())
      ensures KnownMode(CanonicalMode(old(settings).mode)) ==> settings == WithDefaults(old(settings))
      ensures KnownMode(CanonicalMode(old(settings).mode)) && AllHaveUri(old(Nodes())) ==>
        && r == Ok(())
        && Nodes() == Normalized(settings, old(Nodes()), portMap, bindable, fragmentName)
      ensures KnownMode(CanonicalMode(old(settings).mode)) && !AllHaveUri(old(Nodes())) ==>
        && r.Err? && r.error.MissingUri?
        && StoppedAt(r.error.index, settings.mode, old(Nodes()), Nodes(), portMap, fragmentName)
      ensures r.Err? ==> Objects(old(settings), old(Nodes()), r.error)
    {
      hide Holes, Fill, FreshPorts, PrepareAll, UsedPorts, Uris, FreshFor, AllWithCredentials, Prepared, Trimmed;
      if !KnownMode(CanonicalMode(settings.mode)) {
        return Err(UnsupportedMode(settings.mode));
      }
      settings := WithDefaults(settings);
      var used, missing := PrepareNodes(portMap, fragmentName);
      if missing < count {
        StoppedObjects(missing, old(settings), old(Nodes()), Nodes(), portMap, fragmentName);
        return Err(MissingUri(missing));
      }
      AssignFreshPorts(used, bindable);
      return Ok(());
    }

    /** The port part of `normalize`, run at load time: explicit ports are neither
        checked nor avoided here. */
    method AssignLoadPorts(bindable: set<Port>)
      requires Valid()
      requires PerNodePorts(settings.mode) && Holes(Nodes(), 0) > 0 ==> bindable != {}
      modifies nodes
      ensures Nodes() == AllWithCredentials(settings, Fill(old(Nodes()), 0,
        if PerNodePorts(settings.mode) then UntrackedPorts(Holes(old(Nodes()), 0), settings.basePort, bindable)
        else ConsecutivePorts(Holes(old(Nodes()), 0), settings.basePort)))
    {
      hide Fill, Holes, FirstFree, UntrackedPorts, IsNearest, Distance;
      hide WithCredentials, AllWithCredentials, Advance, Next, ConsecutivePorts;
      ghost var before := Nodes();
      ghost var perNode := PerNodePorts(settings.mode);
      ghost var ports := if perNode
        then UntrackedPorts(Holes(before, 0), settings.basePort, bindable)
        else ConsecutivePorts(Holes(before, 0), settings.basePort);
      ghost var goal := AllWithCredentials(settings, Fill(before, 0, ports));
      var cursor := settings.basePort;
      StartsAtCursor(cursor);
      ghost var j := 0;
      for i := 0 to count
        invariant forall k :: 0 <= k < i ==> nodes[k] == goal[k]
        invariant forall k :: i <= k < count ==> nodes[k] == before[k]
        invariant j == Holes(before[..i], 0) <= |ports|
        invariant perNode ==> cursor == CursorAt(settings.basePort, ports, j)
        invariant !perNode ==> cursor == Advance(settings.basePort, j)
      {
        FilledNode(settings, before, ports, i);
        var n := nodes[i];
        if n.port == 0 && PerNodePorts(settings.mode) {
          UntrackedPortsAt(|ports|, settings.basePort, bindable, j);
          assert bindable - {} == bindable;
          cursor := NextFreePort(cursor, {}, bindable);
          n := n.(port := cursor);
          cursor := Next(cursor);
          j := j + 1;
        } else if n.port == 0 {
          ConsecutivePortsStep(|ports|, settings.basePort, j);
          n := n.(port := cursor);
          cursor := Next(cursor);
          j := j + 1;
        }
        nodes[i] := WithCredentials(settings, n);
      }
      assert Nodes() == goal;
    }

    method MoveFrom(poolPort: Port, occupied: set<Port>, bindable: set<Port>)
      requires Valid()
      requires Holes(Nodes(), poolPort) <= |bindable - occupied|
      modifies nodes
      ensures Nodes() == Fill(old(Nodes()), poolPort,
        RestartedPorts(Holes(old(Nodes()), poolPort), Next(poolPort), bindable - occupied))
    {
      hide Fill, Holes, FirstFree, RestartedPorts, IsNearest, Distance, Advance, Elements;
      ghost var before := Nodes();
      ghost var ports := RestartedPorts(Holes(before, poolPort), Next(poolPort), bindable - occupied);
      ghost var goal := Fill(before, poolPort, ports);
      NoElements(ports);
      var used := occupied;
      ghost var j := 0;
      for i := 0 to count
        invariant forall k :: 0 <= k < i ==> nodes[k] == goal[k]
        invariant forall k :: i <= k < count ==> nodes[k] == before[k]
        invariant j == Holes(before[..i], poolPort) <= |ports|
        invariant used == occupied + Elements(ports[..j])
      {
        FilledNodeAt(before, poolPort, ports, i);
        if nodes[i].port == poolPort {
          NextRestarted(|ports|, Next(poolPort), occupied, bindable, j);
          var newPort := NextFreePort(Next(nodes[i].port), used, bindable);
          used := used + {newPort};
          nodes[i] := nodes[i].(port := newPort);
          j := j + 1;
        }
      }
      assert Nodes() == goal;
    }

    method CollectPorts(poolPort: Port) returns (used: set<Port>)
      requires Valid()
      ensures used == {poolPort} + Elements(PortsOf(Nodes()))
    {
      used := {poolPort};
      for i := 0 to count
        invariant used == {poolPort} + Elements(PortsOf(Nodes())[..i])
      {
        assert PortsOf(Nodes())[..i + 1] == PortsOf(Nodes())[..i] + [nodes[i].port];
        used := used + {nodes[i].port};
      }
      assert PortsOf(Nodes())[..count] == PortsOf(Nodes());
    }

    /** The hybrid fix-up at the end of `normalize`: nodes on the listener's port move. */
    method FixPoolPortConflicts(bindable: set<Port>)
      requires Valid()
      requires settings.mode.Hybrid? ==>
        Holes(Nodes(), settings.listenerPort) <= |FixUpPorts(settings, Nodes(), bindable)|
      modifies nodes
      ensures !settings.mode.Hybrid? ==> Nodes() == old(Nodes())
      ensures settings.mode.Hybrid? ==>
        var hole := settings.listenerPort;
        Nodes() == Fill(old(Nodes()), hole,
          RestartedPorts(Holes(old(Nodes()), hole), Next(hole), FixUpPorts(settings, old(Nodes()), bindable)))
    {
      if !settings.mode.Hybrid? {
        return;
      }
      var used := CollectPorts(settings.listenerPort);
      MoveFrom(settings.listenerPort, used, bindable);
    }
  }
}
