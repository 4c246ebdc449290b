/** One subscription refresh: the new configuration it builds and the ports that result. */
module SubscriptionRefresh {
  import opened Types
  import opened Text
  import opened Ports
  import opened Allocation
  import opened C = Config
  import T = PortTheorems

  /** A fetched node as `createNewConfig` leaves it; only multi-port mode pre-assigns ports,
      counting up from the base without looking at the ports in use. */
  function Fetched(s: Settings, n: NodeConfig, index: nat, uriName: string -> string): NodeConfig {
    var n := if s.mode.MultiPort? then WithCredentials(s, n.(port := Advance(s.basePort, index))) else n;
    Named(Trimmed(n), index, uriName)
  }

  function AllFetched(s: Settings, nodes: seq<NodeConfig>, uriName: string -> string): (r: seq<NodeConfig>)
    ensures |r| == |nodes|
  {
    seq(|nodes|, i requires 0 <= i < |nodes| => Fetched(s, nodes[i], i, uriName))
  }

  /** `createNewConfig`: edits the fetched slice in place and hangs it under a copy of the
      base settings.  `uriName` finds a display name in the URI. */
  method CreateNewConfig(base: Config, nodes: array<NodeConfig>, uriName: string -> string) returns (newCfg: Config)
    requires base.Valid() && base.nodes != nodes
    modifies nodes
    ensures newCfg.Valid() && fresh(newCfg)
    ensures newCfg.settings == base.settings && newCfg.filePath == base.filePath
    ensures newCfg.nodes == nodes && newCfg.Nodes() == AllFetched(base.settings, old(nodes[..]), uriName)
    ensures base.Nodes() == old(base.Nodes())
  {
    hide Trimmed, Named, WithCredentials;
    ghost var before := nodes[..];
    var s := base.settings;
    if s.mode.MultiPort? {
      var cursor := s.basePort;
      for i := 0 to nodes.Length
        invariant cursor == Advance(s.basePort, i)
        invariant forall k :: 0 <= k < i ==> nodes[k] == WithCredentials(s, before[k].(port := Advance(s.basePort, k)))
        invariant forall k :: i <= k < nodes.Length ==> nodes[k] == before[k]
      {
        nodes[i] := WithCredentials(s, nodes[i].(port := cursor));
        cursor := Next(cursor);
      }
    }
    ghost var numbered := nodes[..];
    for i := 0 to nodes.Length
      invariant forall k :: 0 <= k < i ==> nodes[k] == Named(Trimmed(numbered[k]), k, uriName)
      invariant forall k :: i <= k < nodes.Length ==> nodes[k] == numbered[k]
    {
      nodes[i] := Named(Trimmed(nodes[i]), i, uriName);
    }
    newCfg := new Config(s, [], base.filePath);
    newCfg.nodes, newCfg.count := nodes, nodes.Length;
    assert newCfg.Nodes() == AllFetched(s, before, uriName);
  }

  /** Where a refreshed multi-port node is put: on its mapped port, else base + index. */
  function RefreshedPort(s: Settings, nodes: seq<NodeConfig>, portMap: PortMap, i: nat): Port
    requires i < |nodes|
  {
    var mapped := MappedPort(portMap, TrimSpace(nodes[i].uri));
    if mapped > 0 then mapped else Advance(s.basePort, i)
  }

  lemma FetchedAt(s: Settings, nodes: seq<NodeConfig>, uriName: string -> string, i: nat)
    requires i < |nodes|
    ensures var n := AllFetched(s, nodes, uriName)[i];
      && n.uri == TrimSpace(nodes[i].uri) && TrimSpace(n.uri) == n.uri
      && n.port == if s.mode.MultiPort? then Advance(s.basePort, i) else nodes[i].port
  {
    hide TrimSpace, Itoa;
    TrimSpaceTrims(nodes[i].uri);
    TrimSpaceTrims(TrimSpace(nodes[i].uri));
  }

  /** The rest of a fetched node: named after itself, its URI or its number, with the default
      credentials in multi-port mode if it brings none. */
  lemma FetchedFields(s: Settings, nodes: seq<NodeConfig>, uriName: string -> string, i: nat)
    requires i < |nodes|
    ensures var n := AllFetched(s, nodes, uriName)[i];
      var uri, name := TrimSpace(nodes[i].uri), TrimSpace(nodes[i].name);
      && n.name == (if name != "" then name else if uriName(uri) != "" then uriName(uri) else "node-" + Itoa(i))
      && n.source == nodes[i].source
      && (if s.mode.MultiPort? && nodes[i].username == "" then n.username == s.username && n.password == s.password
          else n.username == nodes[i].username && n.password == nodes[i].password)
  {
    hide TrimSpace, Itoa;
  }

  /** In multi-port mode, the first pass puts each fetched node on its mapped port or on the
      counter's value, which is 0 where the counter wraps. */
  lemma PreparedRefresh(s: Settings, nodes: seq<NodeConfig>, portMap: PortMap, uriName: string -> string,
                        fragmentName: string -> string, i: nat)
    requires s.mode.MultiPort? && i < |nodes|
    ensures PrepareAll(s.mode, AllFetched(s, nodes, uriName), portMap, fragmentName)[i].port
         == RefreshedPort(s, nodes, portMap, i)
  {
    hide TrimSpace, AllFetched, PrepareAll;
    FetchedAt(s, nodes, uriName, i);
    T.PreparedAt(s.mode, AllFetched(s, nodes, uriName), portMap, fragmentName, i);
  }

  /** The nodes a refresh puts in force, under settings that have their defaults: normalised
      against the current port map, unless that map is empty.  Fetched nodes have URIs. */
  ghost function InForce(s: Settings, current: seq<NodeConfig>, fetched: seq<NodeConfig>, bindable: set<Port>,
                         uriName: string -> string, fragmentName: string -> string): (r: seq<NodeConfig>)
    requires |PortMapOf(current)| > 0 ==>
      EnoughPorts(s, AllFetched(s, fetched, uriName), PortMapOf(current), bindable, fragmentName)
    ensures |r| == |fetched|
  {
    if |PortMapOf(current)| > 0 then
      Normalized(s, AllFetched(s, fetched, uriName), PortMapOf(current), bindable, fragmentName)
    else AllFetched(s, fetched, uriName)
  }

  /** With an empty port map every node keeps the counter's value, 0 included.  Otherwise
      normalisation keeps the mapped ports and counter values, and finds a fresh port only
      where the counter is 0. */
  lemma RefreshedPorts(s: Settings, current: seq<NodeConfig>, nodes: seq<NodeConfig>, bindable: set<Port>,
                       uriName: string -> string, fragmentName: string -> string, i: nat)
    requires s.mode.MultiPort? && i < |nodes|
    requires |PortMapOf(current)| > 0 ==>
      EnoughPorts(s, AllFetched(s, nodes, uriName), PortMapOf(current), bindable, fragmentName)
    ensures var portMap := PortMapOf(current);
      var port := InForce(s, current, nodes, bindable, uriName, fragmentName)[i].port;
      if |portMap| == 0 then port == Advance(s.basePort, i)
      else if RefreshedPort(s, nodes, portMap, i) > 0 then port == RefreshedPort(s, nodes, portMap, i)
      else
        port in FreeFor(s, PrepareAll(s.mode, AllFetched(s, nodes, uriName), portMap, fragmentName), portMap,
                  bindable)
  {
    hide TrimSpace, AllFetched, PrepareAll, Normalized, EnoughPorts, FreeFor;
    var fetched, portMap := AllFetched(s, nodes, uriName), PortMapOf(current);
    FetchedAt(s, nodes, uriName, i);
    if |portMap| > 0 {
      PreparedRefresh(s, nodes, portMap, uriName, fragmentName, i);
      T.NormalizedPortAt(s, fetched, portMap, bindable, fragmentName, i);
      if RefreshedPort(s, nodes, portMap, i) == 0 {
        T.FreshAssignmentIsExact(s, fetched, portMap, bindable, fragmentName,
                                 Normalized(s, fetched, portMap, bindable, fragmentName)[i].port);
      }
    }
  }

  /** The mapped ports and counter values do not repeat, 0 aside, and any of them that counts
      as free lies beyond the ports found for the nodes on 0. */
  ghost predicate RefreshFits(s: Settings, nodes: seq<NodeConfig>, portMap: PortMap, free: set<Port>, holes: nat) {
    && (forall i, j :: 0 <= i < j < |nodes| ==>
          var port := RefreshedPort(s, nodes, portMap, i);
          port == RefreshedPort(s, nodes, portMap, j) ==> port == 0)
    && (forall i :: 0 <= i < |nodes| ==>
          var port := RefreshedPort(s, nodes, portMap, i);
          port != 0 && port in free ==> holes <= |Before(s.basePort, free, port)|)
  }

  lemma CountersDistinctIff(s: Settings, nodes: seq<NodeConfig>, uriName: string -> string)
    requires s.mode.MultiPort?
    ensures Distinct(PortsOf(AllFetched(s, nodes, uriName))) <==> |nodes| <= PORT_COUNT
  {
    hide AllFetched;
    var ports := PortsOf(AllFetched(s, nodes, uriName));
    forall i | 0 <= i < |nodes|
      ensures ports[i] == Advance(s.basePort, i)
    {
      FetchedAt(s, nodes, uriName, i);
    }
    if |nodes| > PORT_COUNT {
      assert ports[0] == ports[PORT_COUNT];
    }
  }

  /** A multi-port refresh leaves all ports distinct exactly when, with an empty port map, the
      counter does not come round, and otherwise the mapped ports and counter values fit. */
  lemma RefreshDistinctIff(s: Settings, current: seq<NodeConfig>, nodes: seq<NodeConfig>, bindable: set<Port>,
                           uriName: string -> string, fragmentName: string -> string)
    requires s.mode.MultiPort?
    requires |PortMapOf(current)| > 0 ==>
      EnoughPorts(s, AllFetched(s, nodes, uriName), PortMapOf(current), bindable, fragmentName)
    ensures var portMap := PortMapOf(current);
      var prepared := PrepareAll(s.mode, AllFetched(s, nodes, uriName), portMap, fragmentName);
      Distinct(PortsOf(InForce(s, current, nodes, bindable, uriName, fragmentName))) <==>
        if |portMap| == 0 then |nodes| <= PORT_COUNT
        else RefreshFits(s, nodes, portMap, FreeFor(s, prepared, portMap, bindable), Holes(prepared, 0))
  {
    hide AllFetched, PrepareAll, Normalized, EnoughPorts, FreeFor, RefreshedPort, Holes, Before, Advance;
    var portMap := PortMapOf(current);
    if |portMap| == 0 {
      CountersDistinctIff(s, nodes, uriName);
    } else {
      forall i | 0 <= i < |nodes|
        ensures PrepareAll(s.mode, AllFetched(s, nodes, uriName), portMap, fragmentName)[i].port
             == RefreshedPort(s, nodes, portMap, i)
      {
        PreparedRefresh(s, nodes, portMap, uriName, fragmentName, i);
      }
      T.NormalizedDistinctIff(s, AllFetched(s, nodes, uriName), portMap, bindable, fragmentName);
    }
  }

  /** A multi-port refresh leaves a node on port 0, which always binds, exactly when, with an
      empty port map, the counter passes 65535, and otherwise too few free ports lie at or
      above the base for the nodes on 0. */
  lemma RefreshOnZeroIff(s: Settings, current: seq<NodeConfig>, nodes: seq<NodeConfig>, bindable: set<Port>,
                         uriName: string -> string, fragmentName: string -> string)
    requires s.mode.MultiPort? && s.basePort > 0 && s.listenerPort > 0 && 0 in bindable
    requires |PortMapOf(current)| > 0 ==>
      EnoughPorts(s, AllFetched(s, nodes, uriName), PortMapOf(current), bindable, fragmentName)
    ensures var portMap := PortMapOf(current);
      var prepared := PrepareAll(s.mode, AllFetched(s, nodes, uriName), portMap, fragmentName);
      0 in PortsOf(InForce(s, current, nodes, bindable, uriName, fragmentName)) <==>
        if |portMap| == 0 then s.basePort + |nodes| > PORT_COUNT
        else |AtOrAbove(s.basePort, FreeFor(s, prepared, portMap, bindable))| < Holes(prepared, 0)
  {
    hide AllFetched, PrepareAll, Normalized, EnoughPorts, FreeFor, Holes, AtOrAbove;
    var portMap := PortMapOf(current);
    var ports := PortsOf(InForce(s, current, nodes, bindable, uriName, fragmentName));
    if |portMap| == 0 {
      forall i | 0 <= i < |nodes|
        ensures ports[i] == Advance(s.basePort, i)
      {
        FetchedAt(s, nodes, uriName, i);
      }
      if s.basePort + |nodes| > PORT_COUNT {
        assert ports[PORT_COUNT - s.basePort] == 0;
      }
    } else {
      T.PortZeroIsAssignedIff(s, AllFetched(s, nodes, uriName), portMap, bindable, fragmentName);
      var r := Normalized(s, AllFetched(s, nodes, uriName), portMap, bindable, fragmentName);
      assert forall i :: 0 <= i < |ports| ==> ports[i] == r[i].port;
    }
  }

  /** While the counter does not wrap, no fresh port is needed. */
  lemma NoWrapNoFreshPorts(s: Settings, nodes: seq<NodeConfig>, portMap: PortMap, bindable: set<Port>,
                           uriName: string -> string, fragmentName: string -> string)
    requires s.mode.MultiPort? && s.basePort > 0 && s.basePort + |nodes| <= PORT_COUNT
    ensures var fetched := AllFetched(s, nodes, uriName);
      && Holes(PrepareAll(s.mode, fetched, portMap, fragmentName), 0) == 0
      && EnoughPorts(s, fetched, portMap, bindable, fragmentName)
    ensures forall i :: 0 <= i < |nodes| ==> RefreshedPort(s, nodes, portMap, i) > 0
  {
    hide TrimSpace, AllFetched, PrepareAll, MappedPort;
    var prepared := PrepareAll(s.mode, AllFetched(s, nodes, uriName), portMap, fragmentName);
    forall i | 0 <= i < |nodes|
      ensures 0 < prepared[i].port == RefreshedPort(s, nodes, portMap, i)
    {
      PreparedRefresh(s, nodes, portMap, uriName, fragmentName, i);
    }
    T.NoHoles(prepared, 0);
  }

  /** The port the map has for each node, 0 for none. */
  function MappedPorts(nodes: seq<NodeConfig>, portMap: PortMap): (r: seq<Port>)
    ensures |r| == |nodes|
  {
    seq(|nodes|, i requires 0 <= i < |nodes| => MappedPort(portMap, TrimSpace(nodes[i].uri)))
  }

  /** The mapped port, else the counter. */
  function Counted(mapped: seq<Port>, base: Port, i: nat): int
    requires i < |mapped|
  {
    if mapped[i] > 0 then mapped[i] else base + i
  }

  lemma RefreshedIsCounted(s: Settings, nodes: seq<NodeConfig>, portMap: PortMap, i: nat)
    requires i < |nodes| && s.basePort + |nodes| <= PORT_COUNT
    ensures RefreshedPort(s, nodes, portMap, i) == Counted(MappedPorts(nodes, portMap), s.basePort, i)
  {
    hide TrimSpace, MappedPort;
  }

  lemma RepeatsIff(mapped: seq<Port>, base: Port)
    requires base > 0 && base + |mapped| <= PORT_COUNT
    ensures (forall i, j :: 0 <= i < j < |mapped| ==> Counted(mapped, base, i) != Counted(mapped, base, j)) <==>
      && (forall i, j :: 0 <= i < j < |mapped| && mapped[i] > 0 ==> mapped[i] != mapped[j])
      && (forall i, j :: 0 <= i < |mapped| && 0 <= j < |mapped| && mapped[i] == 0 ==> base + i != mapped[j])
  {
    if forall i, j :: 0 <= i < j < |mapped| ==> Counted(mapped, base, i) != Counted(mapped, base, j) {
      forall i, j | 0 <= i < |mapped| && 0 <= j < |mapped| && mapped[i] == 0
        ensures base + i != mapped[j]
      {
        if i < j {
          assert Counted(mapped, base, i) != Counted(mapped, base, j);
        } else if j < i {
          assert Counted(mapped, base, j) != Counted(mapped, base, i);
        }
      }
      forall i, j | 0 <= i < j < |mapped| && mapped[i] > 0
        ensures mapped[i] != mapped[j]
      {
        assert Counted(mapped, base, i) != Counted(mapped, base, j);
      }
    }
  }

  lemma NothingMapped(nodes: seq<NodeConfig>, portMap: PortMap)
    requires |portMap| == 0
    ensures forall i :: 0 <= i < |nodes| ==> MappedPorts(nodes, portMap)[i] == 0
  {
    hide TrimSpace;
  }

  /** Then all ports are distinct exactly when the map sends different positions to
      different ports and no unmapped position's counter value is the mapped port of
      another node. */
  lemma NoWrapDistinctIff(s: Settings, current: seq<NodeConfig>, nodes: seq<NodeConfig>, bindable: set<Port>,
                          uriName: string -> string, fragmentName: string -> string)
    requires s.mode.MultiPort? && s.basePort > 0 && s.basePort + |nodes| <= PORT_COUNT
    ensures EnoughPorts(s, AllFetched(s, nodes, uriName), PortMapOf(current), bindable, fragmentName)
    ensures var mapped := MappedPorts(nodes, PortMapOf(current));
      Distinct(PortsOf(InForce(s, current, nodes, bindable, uriName, fragmentName))) <==>
        && (forall i, j :: 0 <= i < j < |nodes| && mapped[i] > 0 ==> mapped[i] != mapped[j])
        && (forall i, j :: 0 <= i < |nodes| && 0 <= j < |nodes| && mapped[i] == 0 ==> s.basePort + i != mapped[j])
  {
    hide AllFetched, EnoughPorts, InForce, MappedPorts, PortMapOf, PrepareAll, FreeFor, Holes, Before;
    hide RefreshedPort, Counted;
    var portMap := PortMapOf(current);
    NoWrapNoFreshPorts(s, nodes, portMap, bindable, uriName, fragmentName);
    RefreshDistinctIff(s, current, nodes, bindable, uriName, fragmentName);
    if |portMap| == 0 {
      NothingMapped(nodes, portMap);
    } else {
      forall i | 0 <= i < |nodes|
        ensures RefreshedPort(s, nodes, portMap, i) == Counted(MappedPorts(nodes, portMap), s.basePort, i)
      {
        RefreshedIsCounted(s, nodes, portMap, i);
      }
      RepeatsIff(MappedPorts(nodes, portMap), s.basePort);
    }
  }

  /** Some node has a port. */
  predicate HasPort(nodes: seq<NodeConfig>) {
    exists i :: 0 <= i < |nodes| && nodes[i].port > 0
  }

  /** A reload is normalised exactly when some node had a port before. */
  lemma {:induction false} PortMapEmptyIff(nodes: seq<NodeConfig>)
    ensures |PortMapOf(nodes)| == 0 <==> !HasPort(nodes)
    decreases |nodes|
  {
    if nodes != [] {
      var n := nodes[|nodes| - 1];
      PortMapEmptyIff(nodes[..|nodes| - 1]);
      if n.port > 0 {
        assert n.uri in PortMapOf(nodes);
      }
    }
  }

  lemma DifferentUrisDifferentPorts(s: Settings, current: seq<NodeConfig>, a: string, b: string)
    requires PortsSound(s, current) && a != b && MappedPort(PortMapOf(current), a) > 0
    ensures MappedPort(PortMapOf(current), a) != MappedPort(PortMapOf(current), b)
  {
    hide MappedPort, PortMapOf;
    var i := T.PortMapOrigin(current, a);
    if MappedPort(PortMapOf(current), b) > 0 {
      var j := T.PortMapOrigin(current, b);
      assert i != j && (i < j || j < i);
    }
  }

  /** The port map of nodes whose ports do not clash is usable for any fetched nodes with
      different URIs. */
  lemma CurrentMapIsGood(s: Settings, current: seq<NodeConfig>, fetched: seq<NodeConfig>, uriName: string -> string)
    requires s.listenerPort > 0 && PortsSound(s, current)
    requires forall i, j :: 0 <= i < j < |fetched| ==> TrimSpace(fetched[i].uri) != TrimSpace(fetched[j].uri)
    ensures T.GoodPortMap(s, AllFetched(s, fetched, uriName), PortMapOf(current))
  {
    hide TrimSpace, AllFetched, MappedPort, PortMapOf;
    var nodes, portMap := AllFetched(s, fetched, uriName), PortMapOf(current);
    forall i | 0 <= i < |nodes|
      ensures TrimSpace(nodes[i].uri) == TrimSpace(fetched[i].uri)
      ensures s.mode.Hybrid? ==> MappedPort(portMap, TrimSpace(nodes[i].uri)) != s.listenerPort
    {
      FetchedAt(s, fetched, uriName, i);
      if MappedPort(portMap, TrimSpace(nodes[i].uri)) > 0 {
        var a := T.PortMapOrigin(current, TrimSpace(nodes[i].uri));
      }
    }
    forall i, j | 0 <= i < j < |nodes| && MappedPort(portMap, TrimSpace(nodes[i].uri)) > 0
      ensures MappedPort(portMap, TrimSpace(nodes[i].uri)) != MappedPort(portMap, TrimSpace(nodes[j].uri))
    {
      DifferentUrisDifferentPorts(s, current, TrimSpace(nodes[i].uri), TrimSpace(nodes[j].uri));
    }
  }

  lemma MappedIsNonEmpty(portMap: PortMap, uri: string)
    requires MappedPort(portMap, uri) > 0
    ensures |portMap| > 0
  {
  }

  /** Across a refresh with a port for every node, a known URI keeps its port, as long as its
      nodes agree on it. */
  lemma RefreshKeepsPorts(s: Settings, current: seq<NodeConfig>, fetched: seq<NodeConfig>, bindable: set<Port>,
                          uriName: string -> string, fragmentName: string -> string, i: nat, j: nat)
    requires PerNodePorts(s.mode)
    requires |PortMapOf(current)| > 0 ==>
      EnoughPorts(s, AllFetched(s, fetched, uriName), PortMapOf(current), bindable, fragmentName)
    requires i < |fetched| && j < |current| && TrimSpace(fetched[i].uri) == current[j].uri && current[j].port > 0
    requires forall k :: 0 <= k < |current| && current[k].uri == current[j].uri && current[k].port > 0 ==>
      current[k].port == current[j].port
    ensures InForce(s, current, fetched, bindable, uriName, fragmentName)[i].port == current[j].port
  {
    hide TrimSpace, AllFetched, MappedPort, PortMapOf, Normalized;
    var k := T.PortMapLookup(current, j);
    MappedIsNonEmpty(PortMapOf(current), current[j].uri);
    FetchedAt(s, fetched, uriName, i);
    T.MappedPortsAreKept(s, AllFetched(s, fetched, uriName), PortMapOf(current), bindable, fragmentName, i);
  }

  /** With every port a node's own, the mapped ports do not repeat and none is the
      listener's. */
  lemma SafeMapIsGood(s: Settings, nodes: seq<NodeConfig>, portMap: PortMap, bindable: set<Port>,
                      fragmentName: string -> string)
    requires PerNodePorts(s.mode) && s.listenerPort > 0 && EnoughPorts(s, nodes, portMap, bindable, fragmentName)
    requires var ports := PortsOf(Normalized(s, nodes, portMap, bindable, fragmentName));
      Distinct(ports) && s.listenerPort !in ports
    ensures T.GoodPortMap(s, nodes, portMap)
  {
    hide TrimSpace, MappedPort, Normalized, EnoughPorts;
    var ports := PortsOf(Normalized(s, nodes, portMap, bindable, fragmentName));
    forall i | 0 <= i < |nodes| && MappedPort(portMap, TrimSpace(nodes[i].uri)) > 0
      ensures ports[i] == MappedPort(portMap, TrimSpace(nodes[i].uri))
    {
      T.MappedPortsAreKept(s, nodes, portMap, bindable, fragmentName, i);
    }
    forall i | 0 <= i < |nodes|
      ensures MappedPort(portMap, TrimSpace(nodes[i].uri)) != s.listenerPort
    {
      assert ports[i] in ports;
    }
  }

  /** A hybrid refresh, fetching bare nodes, leaves every node on a port of its own, neither 0
      nor the listener's, exactly when nothing is fetched, or some node had a port before, the
      mapped ports do not repeat and avoid the listener's, and the base has enough free ports
      at or above it for the rest.  With an empty port map nothing is normalised, and every
      fetched node stays on port 0. */
  lemma HybridRefreshSafeIff(s: Settings, current: seq<NodeConfig>, fetched: seq<NodeConfig>, bindable: set<Port>,
                             uriName: string -> string, fragmentName: string -> string)
    requires s.mode.Hybrid? && s.basePort > 0 && s.listenerPort > 0 && 0 in bindable
    requires forall i :: 0 <= i < |fetched| ==> fetched[i].port == 0
    requires |PortMapOf(current)| > 0 ==>
      EnoughPorts(s, AllFetched(s, fetched, uriName), PortMapOf(current), bindable, fragmentName)
    ensures var ports := PortsOf(InForce(s, current, fetched, bindable, uriName, fragmentName));
      var nodes, portMap := AllFetched(s, fetched, uriName), PortMapOf(current);
      var prepared := PrepareAll(s.mode, nodes, portMap, fragmentName);
      Distinct(ports) && s.listenerPort !in ports && 0 !in ports <==>
        || fetched == []
        || (HasPort(current) && T.GoodPortMap(s, nodes, portMap) &&
            Holes(prepared, 0) <= |AtOrAbove(s.basePort, FreeFor(s, prepared, portMap, bindable))|)
  {
    hide TrimSpace, AllFetched, MappedPort, Normalized, EnoughPorts, T.GoodPortMap, PrepareAll, FreeFor, AtOrAbove;
    hide HasPort, PortMapOf;
    var nodes := AllFetched(s, fetched, uriName);
    var ports := PortsOf(InForce(s, current, fetched, bindable, uriName, fragmentName));
    forall i | 0 <= i < |nodes|
      ensures nodes[i].port == 0
    {
      FetchedAt(s, fetched, uriName, i);
    }
    PortMapEmptyIff(current);
    if fetched != [] && HasPort(current) {
      if T.GoodPortMap(s, nodes, PortMapOf(current)) {
        T.ReloadAllocatesSafely(s, nodes, PortMapOf(current), bindable, fragmentName);
      } else if Distinct(ports) && s.listenerPort !in ports {
        SafeMapIsGood(s, nodes, PortMapOf(current), bindable, fragmentName);
      }
      T.PortZeroIsAssignedIff(s, nodes, PortMapOf(current), bindable, fragmentName);
      ghost var r := Normalized(s, nodes, PortMapOf(current), bindable, fragmentName);
      assert forall i :: 0 <= i < |ports| ==> ports[i] == r[i].port;
    } else if fetched != [] {
      assert ports[0] == 0;
    }
  }

  /** With different URIs and the room there is in practice, from nodes whose ports do not
      clash, the condition is just that some node had a port. */
  lemma HybridRefreshWithRoomIff(s: Settings, current: seq<NodeConfig>, fetched: seq<NodeConfig>, bindable: set<Port>,
                                 uriName: string -> string, fragmentName: string -> string)
    requires s.mode.Hybrid? && s.basePort > 0 && s.listenerPort > 0 && PortsSound(s, current) && 0 in bindable
    requires forall i :: 0 <= i < |fetched| ==> fetched[i].port == 0
    requires forall i, j :: 0 <= i < j < |fetched| ==> TrimSpace(fetched[i].uri) != TrimSpace(fetched[j].uri)
    requires var prepared := PrepareAll(s.mode, AllFetched(s, fetched, uriName), PortMapOf(current), fragmentName);
      Holes(prepared, 0) <= |AtOrAbove(s.basePort, FreeFor(s, prepared, PortMapOf(current), bindable))|
    ensures EnoughPorts(s, AllFetched(s, fetched, uriName), PortMapOf(current), bindable, fragmentName)
    ensures var ports := PortsOf(InForce(s, current, fetched, bindable, uriName, fragmentName));
      Distinct(ports) && s.listenerPort !in ports && 0 !in ports <==> fetched == [] || HasPort(current)
  {
    hide TrimSpace, AllFetched, MappedPort, Normalized, PrepareAll, FreeFor, HasPort, T.GoodPortMap;
    var free := FreeFor(s, PrepareAll(s.mode, AllFetched(s, fetched, uriName), PortMapOf(current), fragmentName),
                        PortMapOf(current), bindable);
    SubsetSize(AtOrAbove(s.basePort, free), free);
    CurrentMapIsGood(s, current, fetched, uriName);
    HybridRefreshSafeIff(s, current, fetched, bindable, uriName, fragmentName);
  }

  /** Once no node has a port, no number of hybrid refreshes of bare nodes gives any a port:
      `inForce(k + 1)` is what the refresh after `inForce(k)` puts in force. */
  lemma {:induction false} RefreshesStayOnZero(s: Settings, inForce: nat -> seq<NodeConfig>,
                                               fetched: nat -> seq<NodeConfig>, bindable: set<Port>,
                                               uriName: string -> string, fragmentName: string -> string, n: nat)
    requires s.mode.Hybrid? && !HasPort(inForce(0))
    requires forall k: nat :: !HasPort(fetched(k))
    requires forall k: nat :: |PortMapOf(inForce(k))| == 0 ==>
      inForce(k + 1) == InForce(s, inForce(k), fetched(k), bindable, uriName, fragmentName)
    ensures !HasPort(inForce(n))
    decreases n
  {
    hide AllFetched, PortMapOf;
    if n > 0 {
      RefreshesStayOnZero(s, inForce, fetched, bindable, uriName, fragmentName, n - 1);
      PortMapEmptyIff(inForce(n - 1));
      assert inForce(n - 1 + 1) == AllFetched(s, fetched(n - 1), uriName);
      forall i | 0 <= i < |inForce(n)|
        ensures inForce(n)[i].port == 0
      {
        FetchedAt(s, fetched(n - 1), uriName, i);
        assert fetched(n - 1)[i].port <= 0;
      }
    }
  }

  lemma SolePortMap(n: NodeConfig)
    requires n.port > 0
    ensures PortMapOf([n]) == map[n.uri := n.port]
  {
    assert [n][..0] == [];
  }

  /** A refresh that only puts one new node behind a known one on the second port: both
      end up on that port. */
  lemma ReorderedRefreshCollides(s: Settings, known: NodeConfig, added: NodeConfig, bindable: set<Port>,
                                 uriName: string -> string, fragmentName: string -> string)
    requires s.mode.MultiPort? && 0 < s.basePort < PORT_COUNT - 1
    requires known.port == s.basePort + 1 && IsTrimmed(known.uri) && known.uri != TrimSpace(added.uri)
    ensures EnoughPorts(s, AllFetched(s, [known, added], uriName), PortMapOf([known]), bindable, fragmentName)
    ensures PortsOf(InForce(s, [known], [known, added], bindable, uriName, fragmentName))
         == [s.basePort + 1, s.basePort + 1]
  {
    hide TrimSpace, AllFetched, EnoughPorts, Normalized, PrepareAll, FreeFor, PortMapOf;
    SolePortMap(known);
    TrimSpaceTrims(known.uri);
    var nodes, portMap := [known, added], PortMapOf([known]);
    NoWrapNoFreshPorts(s, nodes, portMap, bindable, uriName, fragmentName);
    RefreshedPorts(s, [known], nodes, bindable, uriName, fragmentName, 0);
    RefreshedPorts(s, [known], nodes, bindable, uriName, fragmentName, 1);
  }
}
