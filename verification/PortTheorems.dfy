/** What `NormalizeWithPortMap`, `normalize` and `BuildPortMap` guarantee about ports. */
module PortTheorems {
  import opened Types
  import opened Text
  import opened Ports
  import opened Allocation
  import opened Config

  lemma PreparedAt(mode: Mode, nodes: seq<NodeConfig>, portMap: PortMap, fragmentName: string -> string, i: nat)
    requires i < |nodes|
    ensures var n := PrepareAll(mode, nodes, portMap, fragmentName)[i];
      var mapped := MappedPort(portMap, TrimSpace(nodes[i].uri));
      && n.uri == TrimSpace(nodes[i].uri) == Trimmed(nodes[i]).uri
      && n.port == if PerNodePorts(mode) && mapped > 0 then mapped else nodes[i].port
  {
    hide TrimSpace, MappedPort, Itoa;
  }

  lemma NormalizedPortAt(s: Settings, nodes: seq<NodeConfig>, portMap: PortMap, bindable: set<Port>,
                         fragmentName: string -> string, i: nat)
    requires EnoughPorts(s, nodes, portMap, bindable, fragmentName) && i < |nodes|
    ensures var prepared := PrepareAll(s.mode, nodes, portMap, fragmentName);
      var ports := FreshFor(s, prepared, FreeFor(s, prepared, portMap, bindable));
      var r := Normalized(s, nodes, portMap, bindable, fragmentName);
      && r[i].uri == TrimSpace(nodes[i].uri)
      && (prepared[i].port != 0 ==> r[i].port == prepared[i].port)
      && (prepared[i].port == 0 ==>
            && Holes(prepared[..i], 0) < |ports|
            && r[i].port == ports[Holes(prepared[..i], 0)])
  {
    hide Prepared;
    PreparedAt(s.mode, nodes, portMap, fragmentName, i);
    var prepared := PrepareAll(s.mode, nodes, portMap, fragmentName);
    FillAt(prepared, 0, FreshFor(s, prepared, FreeFor(s, prepared, portMap, bindable)), i);
  }

  lemma NormalizedPorts(s: Settings, nodes: seq<NodeConfig>, portMap: PortMap, bindable: set<Port>,
                        fragmentName: string -> string)
    requires EnoughPorts(s, nodes, portMap, bindable, fragmentName)
    ensures var prepared := PrepareAll(s.mode, nodes, portMap, fragmentName);
      PortsOf(Normalized(s, nodes, portMap, bindable, fragmentName))
      == PortsOf(Fill(prepared, 0, FreshFor(s, prepared, FreeFor(s, prepared, portMap, bindable))))
  {
  }

  /** A mapped URI keeps its port, whatever the node's own port field says. */
  lemma MappedPortsAreKept(s: Settings, nodes: seq<NodeConfig>, portMap: PortMap, bindable: set<Port>,
                           fragmentName: string -> string, i: nat)
    requires PerNodePorts(s.mode)
    requires EnoughPorts(s, nodes, portMap, bindable, fragmentName) && i < |nodes|
    requires MappedPort(portMap, TrimSpace(nodes[i].uri)) > 0
    ensures Normalized(s, nodes, portMap, bindable, fragmentName)[i].port
         == MappedPort(portMap, TrimSpace(nodes[i].uri))
  {
    hide PrepareAll, Normalized;
    PreparedAt(s.mode, nodes, portMap, fragmentName, i);
    NormalizedPortAt(s, nodes, portMap, bindable, fragmentName, i);
  }

  /** The nodes still without a port after the first pass receive exactly the nearest
      free ports above the base port: a port is handed out if and only if it is free and
      fewer free ports precede it than nodes need one. */
  lemma FreshAssignmentIsExact(s: Settings, nodes: seq<NodeConfig>, portMap: PortMap, bindable: set<Port>,
                               fragmentName: string -> string, p: Port)
    requires PerNodePorts(s.mode)
    requires EnoughPorts(s, nodes, portMap, bindable, fragmentName)
    ensures var prepared := PrepareAll(s.mode, nodes, portMap, fragmentName);
      var free := FreeFor(s, prepared, portMap, bindable);
      var r := Normalized(s, nodes, portMap, bindable, fragmentName);
      (exists i :: 0 <= i < |nodes| && prepared[i].port == 0 && r[i].port == p)
      <==> p in free && |Before(s.basePort, free, p)| < Holes(prepared, 0)
  {
    var prepared := PrepareAll(s.mode, nodes, portMap, fragmentName);
    var free := FreeFor(s, prepared, portMap, bindable);
    var ports := FreshFor(s, prepared, free);
    var r := Normalized(s, nodes, portMap, bindable, fragmentName);
    FreshPortsAreTheNearest(Holes(prepared, 0), s.basePort, free, p);
    if p in ports {
      var n :| 0 <= n < |ports| && ports[n] == p;
      var i := FillUsesAll(prepared, 0, ports, n);
      NormalizedPortAt(s, nodes, portMap, bindable, fragmentName, i);
      assert r[i].port == p;
    }
    forall i | 0 <= i < |nodes| && prepared[i].port == 0
      ensures r[i].port in ports
    {
      NormalizedPortAt(s, nodes, portMap, bindable, fragmentName, i);
    }
  }

  /** Fresh ports go further up the walk in node order; with enough free ports at or
      above the base they simply increase. */
  lemma FreshPortsFollowNodeOrder(s: Settings, nodes: seq<NodeConfig>, portMap: PortMap, bindable: set<Port>,
                                  fragmentName: string -> string, i: nat, j: nat)
    requires PerNodePorts(s.mode)
    requires EnoughPorts(s, nodes, portMap, bindable, fragmentName) && i < j < |nodes|
    ensures var prepared := PrepareAll(s.mode, nodes, portMap, fragmentName);
      var free := FreeFor(s, prepared, portMap, bindable);
      var r := Normalized(s, nodes, portMap, bindable, fragmentName);
      prepared[i].port == 0 && prepared[j].port == 0 ==>
        && Distance(s.basePort, r[i].port) < Distance(s.basePort, r[j].port)
        && (Holes(prepared, 0) <= |AtOrAbove(s.basePort, free)| ==> s.basePort <= r[i].port < r[j].port)
  {
    var prepared := PrepareAll(s.mode, nodes, portMap, fragmentName);
    var free := FreeFor(s, prepared, portMap, bindable);
    if prepared[i].port == 0 && prepared[j].port == 0 {
      NormalizedPortAt(s, nodes, portMap, bindable, fragmentName, i);
      NormalizedPortAt(s, nodes, portMap, bindable, fragmentName, j);
      HolesStrictlyGrow(prepared, 0, i, j);
      FreshPortsAdvance(Holes(prepared, 0), s.basePort, free);
      FreshPortsWrapIff(Holes(prepared, 0), s.basePort, free);
    }
  }

  /** When normalisation leaves no two nodes on one port: the ports kept from the map or
      the node itself must differ, and a kept port that counts as free (a pre-assigned
      port the first pass does not record) must lie beyond those handed out. */
  lemma NormalizedDistinctIff(s: Settings, nodes: seq<NodeConfig>, portMap: PortMap, bindable: set<Port>,
                              fragmentName: string -> string)
    requires PerNodePorts(s.mode)
    requires EnoughPorts(s, nodes, portMap, bindable, fragmentName)
    ensures var prepared := PrepareAll(s.mode, nodes, portMap, fragmentName);
      var free := FreeFor(s, prepared, portMap, bindable);
      Distinct(PortsOf(Normalized(s, nodes, portMap, bindable, fragmentName))) <==>
        && KeptDistinct(prepared, 0)
        && forall i :: 0 <= i < |nodes| && prepared[i].port != 0 && prepared[i].port in free ==>
             Holes(prepared, 0) <= |Before(s.basePort, free, prepared[i].port)|
  {
    var prepared := PrepareAll(s.mode, nodes, portMap, fragmentName);
    var free := FreeFor(s, prepared, portMap, bindable);
    var ports := FreshFor(s, prepared, free);
    NormalizedPorts(s, nodes, portMap, bindable, fragmentName);
    FreshPortsDistinct(Holes(prepared, 0), s.basePort, free);
    FillDistinctIff(prepared, 0, ports);
    forall i | 0 <= i < |nodes|
      ensures prepared[i].port in ports <==>
        prepared[i].port in free && |Before(s.basePort, free, prepared[i].port)| < Holes(prepared, 0)
    {
      FreshPortsAreTheNearest(Holes(prepared, 0), s.basePort, free, prepared[i].port);
    }
  }

  lemma AtOrAboveIsBeforeZero(cursor: Port, free: set<Port>)
    requires cursor > 0
    ensures Before(cursor, free, 0) == AtOrAbove(cursor, free)
  {
  }

  /** Some node ends up on port 0 exactly when too few free ports lie at or above the
      base port: the walk then wraps, and port 0 always binds. */
  lemma PortZeroIsAssignedIff(s: Settings, nodes: seq<NodeConfig>, portMap: PortMap, bindable: set<Port>,
                              fragmentName: string -> string)
    requires PerNodePorts(s.mode) && s.basePort > 0 && s.listenerPort > 0 && 0 in bindable
    requires EnoughPorts(s, nodes, portMap, bindable, fragmentName)
    ensures var prepared := PrepareAll(s.mode, nodes, portMap, fragmentName);
      var r := Normalized(s, nodes, portMap, bindable, fragmentName);
      (exists i :: 0 <= i < |nodes| && r[i].port == 0)
      <==> |AtOrAbove(s.basePort, FreeFor(s, prepared, portMap, bindable))| < Holes(prepared, 0)
  {
    var prepared := PrepareAll(s.mode, nodes, portMap, fragmentName);
    var free := FreeFor(s, prepared, portMap, bindable);
    var r := Normalized(s, nodes, portMap, bindable, fragmentName);
    hide PrepareAll, Normalized, Holes, Fill, Before, AtOrAbove;
    FreshAssignmentIsExact(s, nodes, portMap, bindable, fragmentName, 0);
    AtOrAboveIsBeforeZero(s.basePort, free);
    forall i | 0 <= i < |nodes| && prepared[i].port != 0
      ensures r[i].port != 0
    {
      NormalizedPortAt(s, nodes, portMap, bindable, fragmentName, i);
    }
  }

  /** In hybrid mode a node sits on the listener's port only if it was put there. */
  lemma ListenerPortIsAvoidedIff(s: Settings, nodes: seq<NodeConfig>, portMap: PortMap, bindable: set<Port>,
                                 fragmentName: string -> string, i: nat)
    requires s.mode.Hybrid? && s.listenerPort > 0
    requires EnoughPorts(s, nodes, portMap, bindable, fragmentName) && i < |nodes|
    ensures Normalized(s, nodes, portMap, bindable, fragmentName)[i].port == s.listenerPort
       <==> PrepareAll(s.mode, nodes, portMap, fragmentName)[i].port == s.listenerPort
  {
    var prepared := PrepareAll(s.mode, nodes, portMap, fragmentName);
    var free := FreeFor(s, prepared, portMap, bindable);
    NormalizedPortAt(s, nodes, portMap, bindable, fragmentName, i);
    FreshPortsAdvance(Holes(prepared, 0), s.basePort, free);
  }

  /** The port map is usable for these nodes: it sends different URIs to different ports
      and, in hybrid mode, none to the listener's. */
  ghost predicate GoodPortMap(s: Settings, nodes: seq<NodeConfig>, portMap: PortMap) {
    && (forall i, j :: 0 <= i < j < |nodes| && MappedPort(portMap, TrimSpace(nodes[i].uri)) > 0 ==>
          MappedPort(portMap, TrimSpace(nodes[i].uri)) != MappedPort(portMap, TrimSpace(nodes[j].uri)))
    && (s.mode.Hybrid? ==>
          forall i :: 0 <= i < |nodes| ==> MappedPort(portMap, TrimSpace(nodes[i].uri)) != s.listenerPort)
  }

  lemma PreparedIsMapped(s: Settings, nodes: seq<NodeConfig>, portMap: PortMap, bindable: set<Port>,
                         fragmentName: string -> string, i: nat)
    requires PerNodePorts(s.mode) && i < |nodes|
    requires MappedPort(portMap, TrimSpace(nodes[i].uri)) == 0 ==> nodes[i].port == 0
    ensures var prepared := PrepareAll(s.mode, nodes, portMap, fragmentName);
      && prepared[i].port == MappedPort(portMap, TrimSpace(nodes[i].uri))
      && (prepared[i].port != 0 ==> prepared[i].port !in FreeFor(s, prepared, portMap, bindable))
  {
    hide PrepareAll, TrimSpace, MappedPort;
    var prepared := PrepareAll(s.mode, nodes, portMap, fragmentName);
    PreparedAt(s.mode, nodes, portMap, fragmentName, i);
    assert Uris(prepared)[i] in Uris(prepared);
  }

  /** A reload in which every unmapped node arrives without a port leaves no conflict. */
  lemma ReloadAllocatesSafely(s: Settings, nodes: seq<NodeConfig>, portMap: PortMap, bindable: set<Port>,
                              fragmentName: string -> string)
    requires PerNodePorts(s.mode) && s.basePort > 0 && s.listenerPort > 0
    requires GoodPortMap(s, nodes, portMap)
    requires forall i :: 0 <= i < |nodes| && MappedPort(portMap, TrimSpace(nodes[i].uri)) == 0 ==> nodes[i].port == 0
    requires EnoughPorts(s, nodes, portMap, bindable, fragmentName)
    ensures var r := Normalized(s, nodes, portMap, bindable, fragmentName);
      && Distinct(PortsOf(r))
      && (s.mode.Hybrid? ==> s.listenerPort !in PortsOf(r))
  {
    hide PrepareAll, Normalized, TrimSpace, MappedPort, Holes, Before, FreeFor;
    var prepared := PrepareAll(s.mode, nodes, portMap, fragmentName);
    forall i | 0 <= i < |nodes|
      ensures prepared[i].port == MappedPort(portMap, TrimSpace(nodes[i].uri))
      ensures prepared[i].port != 0 ==> prepared[i].port !in FreeFor(s, prepared, portMap, bindable)
    {
      PreparedIsMapped(s, nodes, portMap, bindable, fragmentName, i);
    }
    NormalizedDistinctIff(s, nodes, portMap, bindable, fragmentName);
    if s.mode.Hybrid? {
      forall i | 0 <= i < |nodes|
        ensures Normalized(s, nodes, portMap, bindable, fragmentName)[i].port != s.listenerPort
      {
        ListenerPortIsAvoidedIff(s, nodes, portMap, bindable, fragmentName, i);
      }
    }
  }

  // BuildPortMap followed by NormalizeWithPortMap.

  /** The map holds, for each node with a port, the port of a node with the same URI. */
  lemma {:induction false} PortMapLookup(nodes: seq<NodeConfig>, i: nat) returns (j: nat)
    requires i < |nodes| && nodes[i].port > 0
    ensures i <= j < |nodes| && nodes[j].uri == nodes[i].uri
    ensures MappedPort(PortMapOf(nodes), nodes[i].uri) == nodes[j].port > 0
    decreases |nodes|
  {
    var last := |nodes| - 1;
    if i == last || (nodes[last].uri == nodes[i].uri && nodes[last].port > 0) {
      j := last;
    } else {
      j := PortMapLookup(nodes[..last], i);
    }
  }

  /** Every port in the map belongs to a node with that URI. */
  lemma {:induction false} PortMapOrigin(nodes: seq<NodeConfig>, uri: string) returns (j: nat)
    requires MappedPort(PortMapOf(nodes), uri) > 0
    ensures j < |nodes| && nodes[j].uri == uri && nodes[j].port == MappedPort(PortMapOf(nodes), uri)
    decreases |nodes|
  {
    var last := |nodes| - 1;
    if nodes[last].uri == uri && nodes[last].port > 0 {
      j := last;
    } else {
      j := PortMapOrigin(nodes[..last], uri);
    }
  }

  /** For any URI the map has the port of the last node with that URI and a port, and nothing
      if there is none. */
  lemma {:induction false} LastNodeWins(nodes: seq<NodeConfig>, uri: string)
    ensures uri in PortMapOf(nodes) <==> exists i :: 0 <= i < |nodes| && nodes[i].uri == uri && nodes[i].port > 0
    ensures uri in PortMapOf(nodes) ==> exists i ::
      && 0 <= i < |nodes| && nodes[i].uri == uri && nodes[i].port == PortMapOf(nodes)[uri] > 0
      && forall k :: i < k < |nodes| && nodes[k].uri == uri ==> nodes[k].port == 0
    decreases |nodes|
  {
    if nodes != [] {
      var n := |nodes| - 1;
      LastNodeWins(nodes[..n], uri);
      if nodes[n].uri != uri || nodes[n].port == 0 {
        if i :| 0 <= i < n && nodes[..n][i].uri == uri && nodes[..n][i].port > 0 {
          assert nodes[i] == nodes[..n][i];
        }
      } else {
        assert nodes[n].uri == uri && nodes[n].port > 0;
      }
    }
  }

  /** Every node has a clean, non-empty URI and a port. */
  predicate IsSettled(nodes: seq<NodeConfig>) {
    forall i :: 0 <= i < |nodes| ==> IsTrimmed(nodes[i].uri) && nodes[i].uri != "" && nodes[i].port > 0
  }

  lemma {:induction false} NoHoles(nodes: seq<NodeConfig>, hole: Port)
    requires forall i :: 0 <= i < |nodes| ==> nodes[i].port != hole
    ensures Holes(nodes, hole) == 0
    decreases |nodes|
  {
    if nodes != [] {
      NoHoles(nodes[1..], hole);
    }
  }

  lemma SettledPorts(s: Settings, nodes: seq<NodeConfig>, fragmentName: string -> string)
    requires PerNodePorts(s.mode) && IsSettled(nodes)
    ensures AllHaveUri(nodes)
    ensures var prepared := PrepareAll(s.mode, nodes, PortMapOf(nodes), fragmentName);
      && Holes(prepared, 0) == 0
      && forall i :: 0 <= i < |nodes| ==>
           0 < prepared[i].port == MappedPort(PortMapOf(nodes), nodes[i].uri)
  {
    hide PrepareAll, TrimSpace, Trimmed, MappedPort;
    var prepared := PrepareAll(s.mode, nodes, PortMapOf(nodes), fragmentName);
    forall i | 0 <= i < |nodes|
      ensures Trimmed(nodes[i]).uri == nodes[i].uri
      ensures 0 < prepared[i].port == MappedPort(PortMapOf(nodes), nodes[i].uri)
    {
      TrimSpaceTrims(nodes[i].uri);
      PreparedAt(s.mode, nodes, PortMapOf(nodes), fragmentName, i);
      var j := PortMapLookup(nodes, i);
    }
    NoHoles(prepared, 0);
  }

  lemma OwnPortMapPorts(s: Settings, nodes: seq<NodeConfig>, bindable: set<Port>, fragmentName: string -> string)
    requires PerNodePorts(s.mode) && IsSettled(nodes)
    ensures AllHaveUri(nodes)
    ensures EnoughPorts(s, nodes, PortMapOf(nodes), bindable, fragmentName)
    ensures forall i :: 0 <= i < |nodes| ==>
      Normalized(s, nodes, PortMapOf(nodes), bindable, fragmentName)[i].port
      == MappedPort(PortMapOf(nodes), nodes[i].uri)
  {
    hide PrepareAll, Normalized, TrimSpace, Trimmed, MappedPort, PortMapOf;
    SettledPorts(s, nodes, fragmentName);
    assert EnoughPorts(s, nodes, PortMapOf(nodes), bindable, fragmentName);
    forall i | 0 <= i < |nodes|
      ensures Normalized(s, nodes, PortMapOf(nodes), bindable, fragmentName)[i].port
           == MappedPort(PortMapOf(nodes), nodes[i].uri)
    {
      NormalizedPortAt(s, nodes, PortMapOf(nodes), bindable, fragmentName, i);
    }
  }

  /** Nodes sharing a URI share a port. */
  ghost predicate OnePortPerUri(nodes: seq<NodeConfig>) {
    forall i, j :: 0 <= i < |nodes| && 0 <= j < |nodes| && nodes[i].uri == nodes[j].uri ==>
      nodes[i].port == nodes[j].port
  }

  /** Reloading a settled configuration with its own port map needs no free port, and
      leaves every port unchanged exactly when nodes sharing a URI share a port. */
  lemma OwnPortMapRoundTrip(s: Settings, nodes: seq<NodeConfig>, bindable: set<Port>, fragmentName: string -> string)
    requires PerNodePorts(s.mode) && IsSettled(nodes)
    ensures AllHaveUri(nodes)
    ensures EnoughPorts(s, nodes, PortMapOf(nodes), bindable, fragmentName)
    ensures PortsOf(Normalized(s, nodes, PortMapOf(nodes), bindable, fragmentName)) == PortsOf(nodes) <==>
      OnePortPerUri(nodes)
  {
    hide PrepareAll, Normalized, TrimSpace, Trimmed, MappedPort, PortMapOf, EnoughPorts, IsTrimmed;
    OwnPortMapPorts(s, nodes, bindable, fragmentName);
    var ports := PortsOf(Normalized(s, nodes, PortMapOf(nodes), bindable, fragmentName));
    if OnePortPerUri(nodes) {
      forall i | 0 <= i < |nodes|
        ensures ports[i] == nodes[i].port
      {
        var j := PortMapLookup(nodes, i);
      }
      assert ports == PortsOf(nodes);
    }
    if ports == PortsOf(nodes) {
      forall i, j | 0 <= i < |nodes| && 0 <= j < |nodes| && nodes[i].uri == nodes[j].uri
        ensures nodes[i].port == nodes[j].port
      {
        assert ports[i] == PortsOf(nodes)[i] && ports[j] == PortsOf(nodes)[j];
      }
    }
  }

  // Load time.

  lemma LoadWithEnough(s: Settings, nodes: seq<NodeConfig>, bindable: set<Port>)
    requires Holes(nodes, 0) <= |bindable|
    ensures Holes(nodes, 0) > 0 ==> bindable != {}
    ensures Distinct(PortsOf(Fill(nodes, 0, UntrackedPorts(Holes(nodes, 0), s.basePort, bindable)))) <==>
      && KeptDistinct(nodes, 0)
      && forall i :: 0 <= i < |nodes| && nodes[i].port != 0 && nodes[i].port in bindable ==>
           Holes(nodes, 0) <= |Before(s.basePort, bindable, nodes[i].port)|
  {
    var k := Holes(nodes, 0);
    NotTrackingIsHarmless(k, s.basePort, bindable, {});
    assert bindable + {} == bindable;
    var ports := UntrackedPorts(k, s.basePort, bindable);
    FreshPortsDistinct(k, s.basePort, bindable);
    FillDistinctIff(nodes, 0, ports);
    forall i | 0 <= i < |nodes|
      ensures nodes[i].port in ports <==> nodes[i].port in bindable && |Before(s.basePort, bindable, nodes[i].port)| < k
    {
      FreshPortsAreTheNearest(k, s.basePort, bindable, nodes[i].port);
    }
  }

  /** At load time explicit ports are not looked at, so there is no conflict exactly when the
      bindable ports are enough, no two explicit ports are equal, and none of them is near
      enough the base to be handed out. */
  lemma LoadDistinctIff(s: Settings, nodes: seq<NodeConfig>, bindable: set<Port>)
    requires PerNodePorts(s.mode) && (Holes(nodes, 0) > 0 ==> bindable != {})
    ensures Distinct(PortsOf(Fill(nodes, 0, UntrackedPorts(Holes(nodes, 0), s.basePort, bindable)))) <==>
      && Holes(nodes, 0) <= |bindable|
      && KeptDistinct(nodes, 0)
      && forall i :: 0 <= i < |nodes| && nodes[i].port != 0 && nodes[i].port in bindable ==>
           Holes(nodes, 0) <= |Before(s.basePort, bindable, nodes[i].port)|
  {
    hide Fill, Holes, Distinct, UntrackedPorts, FreshPorts, Before, KeptDistinct;
    var k := Holes(nodes, 0);
    var ports := UntrackedPorts(k, s.basePort, bindable);
    if k <= |bindable| {
      LoadWithEnough(s, nodes, bindable);
    } else if Distinct(PortsOf(Fill(nodes, 0, ports))) {
      FillNeedsDistinct(nodes, 0, ports);
      DistinctSize(ports);
      UntrackedPortsAreBindable(k, s.basePort, bindable);
      SubsetSize(Elements(ports), bindable);
    }
  }

  /** The nodes after the hybrid fix-up. */
  ghost function FixedUp(s: Settings, nodes: seq<NodeConfig>, bindable: set<Port>): (r: seq<NodeConfig>)
    requires Holes(nodes, s.listenerPort) <= |FixUpPorts(s, nodes, bindable)|
    ensures |r| == |nodes|
  {
    Fill(nodes, s.listenerPort,
      RestartedPorts(Holes(nodes, s.listenerPort), Next(s.listenerPort), FixUpPorts(s, nodes, bindable)))
  }

  /** The fix-up touches only the nodes on the listener's port and moves every one of them
      to a bindable port nobody uses; afterwards all ports are distinct exactly when
      those of the other nodes were. */
  lemma FixUpResolvesConflicts(s: Settings, nodes: seq<NodeConfig>, bindable: set<Port>)
    requires Holes(nodes, s.listenerPort) <= |FixUpPorts(s, nodes, bindable)|
    ensures var r := FixedUp(s, nodes, bindable);
      && (forall i :: 0 <= i < |nodes| && nodes[i].port != s.listenerPort ==> r[i] == nodes[i])
      && (forall i :: 0 <= i < |nodes| && nodes[i].port == s.listenerPort ==>
            && r[i] == nodes[i].(port := r[i].port)
            && r[i].port in bindable && r[i].port != s.listenerPort && r[i].port !in PortsOf(nodes))
      && (Distinct(PortsOf(r)) <==> KeptDistinct(nodes, s.listenerPort))
  {
    var hole := s.listenerPort;
    var free := FixUpPorts(s, nodes, bindable);
    var k := Holes(nodes, hole);
    var ports := RestartedPorts(k, Next(hole), free);
    RestartingIsHarmless(k, Next(hole), Next(hole), free);
    FreshPortsAdvance(k, Next(hole), free);
    FreshPortsDistinct(k, Next(hole), free);
    forall i | 0 <= i < |nodes|
      ensures Fill(nodes, hole, ports)[i]
           == if nodes[i].port == hole then nodes[i].(port := Fill(nodes, hole, ports)[i].port) else nodes[i]
      ensures nodes[i].port == hole ==> Fill(nodes, hole, ports)[i].port in free
      ensures nodes[i].port !in ports
    {
      FillAt(nodes, hole, ports, i);
      assert PortsOf(nodes)[i] in Elements(PortsOf(nodes));
    }
    FillDistinctIff(nodes, hole, ports);
  }

  /** After the fix-up nobody is on the listener's port. */
  lemma FixUpClearsListener(s: Settings, nodes: seq<NodeConfig>, bindable: set<Port>)
    requires Holes(nodes, s.listenerPort) <= |FixUpPorts(s, nodes, bindable)|
    ensures s.listenerPort !in PortsOf(FixedUp(s, nodes, bindable))
  {
    hide FixedUp;
    FixUpResolvesConflicts(s, nodes, bindable);
    var r := FixedUp(s, nodes, bindable);
    forall i | 0 <= i < |r|
      ensures PortsOf(r)[i] != s.listenerPort
    {
      assert nodes[i].port == s.listenerPort || r[i] == nodes[i];
    }
  }

  lemma RestartingFromStart(k: nat, start: Port, free: set<Port>)
    requires k <= |free|
    ensures RestartedPorts(k, start, free) == FreshPorts(k, start, free)
  {
    RestartingIsHarmless(k, start, start, free);
  }

  /** The fix-up moves nodes to exactly the nearest unused bindable ports above the
      listener's, as many as there are nodes on it. */
  lemma FixUpIsExact(s: Settings, nodes: seq<NodeConfig>, bindable: set<Port>, p: Port)
    requires Holes(nodes, s.listenerPort) <= |FixUpPorts(s, nodes, bindable)|
    ensures var free := FixUpPorts(s, nodes, bindable);
      (exists i :: 0 <= i < |nodes| && nodes[i].port == s.listenerPort && FixedUp(s, nodes, bindable)[i].port == p)
      <==> p in free && |Before(Next(s.listenerPort), free, p)| < Holes(nodes, s.listenerPort)
  {
    hide Fill, Holes, RestartedPorts, FreshPorts, Before, FixUpPorts, Distance;
    var hole, free := s.listenerPort, FixUpPorts(s, nodes, bindable);
    var k := Holes(nodes, hole);
    var ports := RestartedPorts(k, Next(hole), free);
    RestartingFromStart(k, Next(hole), free);
    FreshPortsAreTheNearest(k, Next(hole), free, p);
    if p in ports {
      var n :| 0 <= n < |ports| && ports[n] == p;
      var i := FillUsesAll(nodes, hole, ports, n);
      assert FixedUp(s, nodes, bindable)[i].port == p;
    }
    forall i | 0 <= i < |nodes| && nodes[i].port == hole
      ensures FixedUp(s, nodes, bindable)[i].port in ports
    {
      FillAt(nodes, hole, ports, i);
    }
  }

  /** The ports of `free` above `p`. */
  ghost function Above(p: Port, free: set<Port>): set<Port> {
    set q | q in free && q > p
  }

  lemma AboveIsBeforeZero(p: Port, free: set<Port>)
    requires p > 0
    ensures Before(Next(p), free, 0) == Above(p, free)
  {
  }

  /** The fix-up puts a node on port 0, which always binds, exactly when no node is there yet
      and fewer unused bindable ports lie above the listener's than nodes are on it. */
  lemma FixUpHandsOutZeroIff(s: Settings, nodes: seq<NodeConfig>, bindable: set<Port>)
    requires Holes(nodes, s.listenerPort) <= |FixUpPorts(s, nodes, bindable)|
    requires s.listenerPort > 0 && 0 in bindable
    ensures var free := FixUpPorts(s, nodes, bindable);
      (exists i :: 0 <= i < |nodes| && nodes[i].port == s.listenerPort && FixedUp(s, nodes, bindable)[i].port == 0)
      <==> 0 !in PortsOf(nodes) && |Above(s.listenerPort, free)| < Holes(nodes, s.listenerPort)
  {
    hide Holes, FixedUp, Above, Before;
    var free := FixUpPorts(s, nodes, bindable);
    FixUpIsExact(s, nodes, bindable, 0);
    AboveIsBeforeZero(s.listenerPort, free);
    assert 0 in free <==> 0 !in PortsOf(nodes);
  }

  /** Normalisation returns, every walk of its second pass ending, exactly when no node needs a
      port of its own or there are enough free ones; otherwise it never returns. */
  lemma NormalizationEndsIff(s: Settings, nodes: seq<NodeConfig>, portMap: PortMap, bindable: set<Port>,
                             fragmentName: string -> string)
    ensures var prepared := PrepareAll(s.mode, nodes, portMap, fragmentName);
      EnoughPorts(s, nodes, portMap, bindable, fragmentName) <==>
      (PerNodePorts(s.mode) ==>
         FreshWalksEnd(Holes(prepared, 0), s.basePort, FreeFor(s, prepared, portMap, bindable)))
  {
    hide PrepareAll, FreeFor, Holes;
    var prepared := PrepareAll(s.mode, nodes, portMap, fragmentName);
    FreshWalksEndIff(Holes(prepared, 0), s.basePort, FreeFor(s, prepared, portMap, bindable));
  }

  // The rest of a node.

  /** Which modes a normalisation accepts, and the settings it then goes on with. */
  lemma DefaultsAre(s: Settings)
    ensures KnownMode(CanonicalMode(s.mode)) <==> !s.mode.Unsupported?
    ensures var d := WithDefaults(s);
      && (s.mode.Unset? || s.mode.Pool? ==> d.mode == Pool)
      && (s.mode.MultiPort? || s.mode.MultiPortLegacy? ==> d.mode == MultiPort)
      && (s.mode.Hybrid? ==> d.mode == Hybrid)
      && d.listenerPort > 0 && (s.listenerPort > 0 ==> d.listenerPort == s.listenerPort)
      && d.basePort > 0 && (s.basePort > 0 ==> d.basePort == s.basePort)
      && (s.listenerPort == 0 ==> d.listenerPort == 2323) && (s.basePort == 0 ==> d.basePort == 28000)
      && d == s.(mode := d.mode, listenerPort := d.listenerPort, basePort := d.basePort)
    ensures WithDefaults(WithDefaults(s)) == WithDefaults(s)
  {
  }

  lemma {:induction false} SameHoles(a: seq<NodeConfig>, b: seq<NodeConfig>)
    requires |a| == |b| && forall i :: 0 <= i < |a| ==> a[i].port == b[i].port
    ensures Holes(a, 0) == Holes(b, 0)
    decreases |a|
  {
    if a != [] {
      SameHoles(a[1..], b[1..]);
    }
  }

  lemma PreparedFields(mode: Mode, nodes: seq<NodeConfig>, portMap: PortMap, fragmentName: string -> string, i: nat)
    requires i < |nodes|
    ensures var n := PrepareAll(mode, nodes, portMap, fragmentName)[i];
      var uri, name := TrimSpace(nodes[i].uri), TrimSpace(nodes[i].name);
      && n.name == (if name != "" then name else if fragmentName(uri) != "" then fragmentName(uri)
                    else "node-" + Itoa(i))
      && n == nodes[i].(name := n.name, uri := uri, port := n.port)
  {
    hide TrimSpace, Itoa, MappedPort;
  }

  /** What normalisation makes of node `i`, besides its port: its trimmed URI; its own trimmed
      name if it has one, else the name in its URI, else its number; the default credentials
      if it listens on a port of its own and brings none. */
  lemma NormalizedFields(s: Settings, nodes: seq<NodeConfig>, portMap: PortMap, bindable: set<Port>,
                         fragmentName: string -> string, i: nat)
    requires EnoughPorts(s, nodes, portMap, bindable, fragmentName) && i < |nodes|
    ensures var n := Normalized(s, nodes, portMap, bindable, fragmentName)[i];
      var uri, name := TrimSpace(nodes[i].uri), TrimSpace(nodes[i].name);
      && n.uri == uri
      && n.name == (if name != "" then name else if fragmentName(uri) != "" then fragmentName(uri)
                    else "node-" + Itoa(i))
      && n.source == nodes[i].source
      && (if (s.mode.MultiPort? || s.mode.Hybrid?) && nodes[i].username == "" then
            n.username == s.username && n.password == s.password
          else n.username == nodes[i].username && n.password == nodes[i].password)
  {
    hide TrimSpace, Itoa, PrepareAll, FreeFor;
    PreparedFields(s.mode, nodes, portMap, fragmentName, i);
    var prepared := PrepareAll(s.mode, nodes, portMap, fragmentName);
    FilledNode(s, prepared, FreshFor(s, prepared, FreeFor(s, prepared, portMap, bindable)), i);
  }

  /** And its port, in terms of the inputs: the mapped one, else its own, else a fresh one that
      can be bound and is not the listener's; in pool mode, where nobody listens on it, the map
      is ignored and fresh ports count up from the base. */
  lemma NormalizedPort(s: Settings, nodes: seq<NodeConfig>, portMap: PortMap, bindable: set<Port>,
                       fragmentName: string -> string, i: nat)
    requires EnoughPorts(s, nodes, portMap, bindable, fragmentName) && i < |nodes|
    ensures var port := Normalized(s, nodes, portMap, bindable, fragmentName)[i].port;
      var uri := TrimSpace(nodes[i].uri);
      if s.mode.MultiPort? || s.mode.Hybrid? then
        if uri in portMap && portMap[uri] > 0 then port == portMap[uri]
        else if nodes[i].port > 0 then port == nodes[i].port
        else
          && port in bindable && (s.mode.Hybrid? ==> port != s.listenerPort)
          && (forall j :: 0 <= j < |nodes| ==>
                var u := TrimSpace(nodes[j].uri);
                u in portMap && portMap[u] > 0 ==> port != portMap[u])
      else if nodes[i].port > 0 then port == nodes[i].port
      else port == (s.basePort + Holes(nodes[..i], 0)) % 65536
  {
    hide TrimSpace, Normalized, Holes, PrepareAll;
    var prepared := PrepareAll(s.mode, nodes, portMap, fragmentName);
    NormalizedPortAt(s, nodes, portMap, bindable, fragmentName, i);
    forall j | 0 <= j < |nodes|
      ensures prepared[j].uri == TrimSpace(nodes[j].uri) && Uris(prepared)[j] == prepared[j].uri
      ensures prepared[j].port == if PerNodePorts(s.mode) && MappedPort(portMap, TrimSpace(nodes[j].uri)) > 0
        then MappedPort(portMap, TrimSpace(nodes[j].uri)) else nodes[j].port
    {
      PreparedAt(s.mode, nodes, portMap, fragmentName, j);
    }
    if PerNodePorts(s.mode) {
      if prepared[i].port == 0 {
        FreshAssignmentIsExact(s, nodes, portMap, bindable, fragmentName,
                               Normalized(s, nodes, portMap, bindable, fragmentName)[i].port);
      }
    } else {
      SameHoles(prepared[..i], nodes[..i]);
    }
  }

  /** The ports that count as free for a normalisation, and for the hybrid fix-up. */
  lemma FreeIff(s: Settings, nodes: seq<NodeConfig>, portMap: PortMap, bindable: set<Port>,
                fragmentName: string -> string, p: Port)
    ensures p in FreeFor(s, PrepareAll(s.mode, nodes, portMap, fragmentName), portMap, bindable) <==>
      && p in bindable && (s.mode.Hybrid? ==> p != s.listenerPort)
      && (s.mode.MultiPort? || s.mode.Hybrid? ==>
            forall i :: 0 <= i < |nodes| ==>
              var uri := TrimSpace(nodes[i].uri);
              uri in portMap && portMap[uri] > 0 ==> p != portMap[uri])
    ensures p in FixUpPorts(s, nodes, bindable) <==>
      p in bindable && p != s.listenerPort && forall i :: 0 <= i < |nodes| ==> nodes[i].port != p
  {
    hide TrimSpace, PrepareAll;
    var prepared := PrepareAll(s.mode, nodes, portMap, fragmentName);
    forall i | 0 <= i < |nodes|
      ensures Uris(prepared)[i] == TrimSpace(nodes[i].uri) && TrimSpace(nodes[i].uri) in Uris(prepared)
    {
      PreparedAt(s.mode, nodes, portMap, fragmentName, i);
      assert Uris(prepared)[i] in Uris(prepared);
    }
    forall i | 0 <= i < |nodes|
      ensures nodes[i].port in PortsOf(nodes)
    {
      assert PortsOf(nodes)[i] in PortsOf(nodes);
    }
  }

  /** What loading makes of node `i`: an explicit port stays, a missing one becomes bindable or,
      in pool mode, counts up from the base; default credentials where it listens and brings
      none; everything else as it was. */
  lemma LoadedFields(s: Settings, nodes: seq<NodeConfig>, bindable: set<Port>, i: nat)
    requires PerNodePorts(s.mode) && Holes(nodes, 0) > 0 ==> bindable != {}
    requires i < |nodes|
    ensures var n := AllWithCredentials(s, Fill(nodes, 0,
        if PerNodePorts(s.mode) then UntrackedPorts(Holes(nodes, 0), s.basePort, bindable)
        else ConsecutivePorts(Holes(nodes, 0), s.basePort)))[i];
      && n == nodes[i].(port := n.port, username := n.username, password := n.password)
      && (nodes[i].port > 0 ==> n.port == nodes[i].port)
      && (nodes[i].port == 0 ==>
            if s.mode.MultiPort? || s.mode.Hybrid? then n.port in bindable
            else n.port == (s.basePort + Holes(nodes[..i], 0)) % 65536)
      && (if (s.mode.MultiPort? || s.mode.Hybrid?) && nodes[i].username == "" then
            n.username == s.username && n.password == s.password
          else n.username == nodes[i].username && n.password == nodes[i].password)
  {
    hide Holes, Fill, UntrackedPorts;
    var ports := if PerNodePorts(s.mode) then UntrackedPorts(Holes(nodes, 0), s.basePort, bindable)
                 else ConsecutivePorts(Holes(nodes, 0), s.basePort);
    FilledNode(s, nodes, ports, i);
    if PerNodePorts(s.mode) && nodes[i].port == 0 {
      UntrackedPortsAreBindable(Holes(nodes, 0), s.basePort, bindable);
      assert ports[Holes(nodes[..i], 0)] in Elements(ports);
    }
  }
}
