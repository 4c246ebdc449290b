/** The box manager: node registry operations on the shared configuration, and the life
    cycle of the one running box instance. */
module BoxManager {
  import opened Types
  import opened Text
  import opened Ports
  import opened Allocation
  import opened C = Config
  import R = Registry
  import T = PortTheorems

  // Repairing a port conflict.

  ghost function TakenPorts(s: Settings, nodes: seq<NodeConfig>): set<Port> {
    (if s.mode.Hybrid? then {s.listenerPort} else {}) + Elements(PortsOf(nodes))
  }

  /** The first node on the conflicting port moves to the next port that is neither taken
      nor unbindable; None if no node is on it. */
  ghost function Reassigned(s: Settings, nodes: seq<NodeConfig>, conflict: Port,
                            bindable: set<Port>): (r: Option<seq<NodeConfig>>)
    requires conflict in PortsOf(nodes) ==> bindable - TakenPorts(s, nodes) != {}
    ensures r.Some? <==> conflict in PortsOf(nodes)
    ensures r.Some? ==> |r.value| == |nodes|
  {
    var at := IndexOf(PortsOf(nodes), conflict);
    if at == -1 then None
    else Some(nodes[at := nodes[at].(port := FirstFree(Next(conflict), bindable - TakenPorts(s, nodes)))])
  }

  /** A repair changes the port of one node on the conflicting port and nothing else; the
      new port was used by no node and, in hybrid mode, is not the listener's.  Hence it
      never creates a conflict. */
  lemma RepairIsLocal(s: Settings, nodes: seq<NodeConfig>, conflict: Port, bindable: set<Port>)
    requires conflict in PortsOf(nodes) && bindable - TakenPorts(s, nodes) != {}
    ensures var r := Reassigned(s, nodes, conflict, bindable);
      && r.Some?
      && exists at, p: Port :: 0 <= at < |nodes| && r.value == nodes[at := nodes[at].(port := p)]
           && nodes[at].port == conflict && (forall i :: 0 <= i < at ==> nodes[i].port != conflict)
           && p in bindable && p !in PortsOf(nodes) && (s.mode.Hybrid? ==> p != s.listenerPort)
           && (forall q :: q in bindable && q !in PortsOf(nodes) && (s.mode.Hybrid? ==> q != s.listenerPort) ==>
                 Distance(Next(conflict), p) <= Distance(Next(conflict), q))
  {
    var at := IndexOf(PortsOf(nodes), conflict);
    var p := FirstFree(Next(conflict), bindable - TakenPorts(s, nodes));
    assert nodes[at].port == conflict;
    assert forall i :: 0 <= i < at ==> PortsOf(nodes)[i] == nodes[i].port;
  }

  lemma RepairKeepsDistinct(s: Settings, nodes: seq<NodeConfig>, conflict: Port, bindable: set<Port>)
    requires conflict in PortsOf(nodes) && bindable - TakenPorts(s, nodes) != {}
    ensures var r := Reassigned(s, nodes, conflict, bindable);
      && r.Some?
      && (Distinct(PortsOf(nodes)) ==> Distinct(PortsOf(r.value)) && conflict !in PortsOf(r.value))
      && (s.mode.Hybrid? && s.listenerPort !in PortsOf(nodes) ==> s.listenerPort !in PortsOf(r.value))
      && R.Names(r.value) == R.Names(nodes) && Uris(r.value) == Uris(nodes)
  {
    var at := IndexOf(PortsOf(nodes), conflict);
    var p := FirstFree(Next(conflict), bindable - TakenPorts(s, nodes));
    var r := Reassigned(s, nodes, conflict, bindable).value;
    assert PortsOf(r) == PortsOf(nodes)[at := p];
    if Distinct(PortsOf(nodes)) {
      forall i | 0 <= i < |nodes| && i != at
        ensures PortsOf(r)[i] != p && PortsOf(r)[i] != conflict
      {
        assert PortsOf(nodes)[i] in PortsOf(nodes) && PortsOf(nodes)[i] != PortsOf(nodes)[at];
      }
    }
  }

  lemma ZeroIsFree(s: Settings, nodes: seq<NodeConfig>, bindable: set<Port>)
    requires 0 in bindable && s.listenerPort > 0 && 0 !in PortsOf(nodes)
    ensures 0 in bindable - TakenPorts(s, nodes)
  {
  }

  /** A repair puts its node on port 0, which always binds, exactly when no node is there yet
      and no unused bindable port lies above the conflicting one. */
  lemma RepairHandsOutZeroIff(s: Settings, nodes: seq<NodeConfig>, conflict: Port, bindable: set<Port>)
    requires conflict in PortsOf(nodes) && conflict > 0 && 0 in bindable && s.listenerPort > 0
    requires bindable - TakenPorts(s, nodes) != {}
    ensures var r := Reassigned(s, nodes, conflict, bindable).value;
      0 in PortsOf(r) && 0 !in PortsOf(nodes) <==>
      0 !in PortsOf(nodes) && T.Above(conflict, bindable - TakenPorts(s, nodes)) == {}
  {
    hide TakenPorts;
    var at := IndexOf(PortsOf(nodes), conflict);
    var free := bindable - TakenPorts(s, nodes);
    var p := FirstFree(Next(conflict), free);
    var r := Reassigned(s, nodes, conflict, bindable).value;
    assert PortsOf(r) == PortsOf(nodes)[at := p];
    if 0 !in PortsOf(nodes) {
      ZeroIsFree(s, nodes, bindable);
      if T.Above(conflict, free) == {} {
        assert forall q :: q in free ==> q !in T.Above(conflict, free);
        NearestIsUnique(Next(conflict), free, 0);
        assert PortsOf(r)[at] == 0;
      } else {
        var q :| q in T.Above(conflict, free);
        assert Distance(Next(conflict), q) < Distance(Next(conflict), 0);
      }
    }
  }

  method ReassignConflictingPort(cfg: Config, conflict: Port, bindable: set<Port>) returns (reassigned: bool)
    requires cfg.Valid()
    requires conflict in PortsOf(cfg.Nodes()) ==> bindable - TakenPorts(cfg.settings, cfg.Nodes()) != {}
    modifies cfg.nodes
    ensures var r := Reassigned(cfg.settings, old(cfg.Nodes()), conflict, bindable);
      && reassigned == r.Some?
      && cfg.Nodes() == if r.Some? then r.value else old(cfg.Nodes())
  {
    var used := {};
    if cfg.settings.mode.Hybrid? {
      used := {cfg.settings.listenerPort};
    }
    ghost var before, ports := cfg.Nodes(), PortsOf(cfg.Nodes());
    ghost var reserved := used;
    for i := 0 to cfg.count
      invariant used == reserved + Elements(ports[..i])
      invariant cfg.Nodes() == before
    {
      ElementsSnoc(ports, i);
      used := used + {cfg.nodes[i].port};
    }
    assert ports[..cfg.count] == ports;
    for i := 0 to cfg.count
      invariant forall k :: 0 <= k < i ==> ports[k] != conflict
      invariant cfg.Nodes() == before
    {
      if cfg.nodes[i].port == conflict {
        assert ports[i] == conflict;
        assert used == TakenPorts(cfg.settings, before);
        var newPort := NextFreePort(Next(conflict), used, bindable);
        cfg.nodes[i] := cfg.nodes[i].(port := newPort);
        assert cfg.Nodes() == before[i := before[i].(port := newPort)];
        return true;
      }
    }
    return false;
  }

  // Starting a box, repairing port conflicts on the way.

  datatype BoxState = Created | Running | Closed

  /** A sing-box instance, built from a snapshot of the nodes. */
  class Box {
    const built: seq<NodeConfig>
    var state: BoxState

    constructor (built: seq<NodeConfig>)
      ensures this.built == built && state == Created
    {
      this.built := built;
      state := Created;
    }
  }

  datatype BuildOutcome = Built | NoValidNodes | BuildFailed

  /** `conflictPort` is the port named by a bind error, 0 for any other error. */
  datatype StartOutcome = Started | StartFailed(conflictPort: Port)

  /** What the outside decides: for each attempt, whether the box builds, how a box of given
      nodes starts, and which ports can be bound; and whether the rollback works. */
  datatype World = World(
    builds: nat -> BuildOutcome,
    starts: (nat, seq<NodeConfig>) -> StartOutcome,
    bindable: nat -> set<Port>,
    rollbackBuilds: bool,
    rollbackStarts: bool)

  const MAX_RETRIES := 10

  /** Attempt number `retry` built, hit a bind conflict on a node's port, and so repairs it. */
  ghost predicate Repairs(nodes: seq<NodeConfig>, retry: nat, w: World) {
    && w.builds(retry).Built?
    && w.starts(retry, nodes).StartFailed?
    && w.starts(retry, nodes).conflictPort > 0
    && w.starts(retry, nodes).conflictPort in PortsOf(nodes)
  }

  /** The nodes after the repair. */
  ghost function Repaired(s: Settings, nodes: seq<NodeConfig>, retry: nat, w: World): (r: seq<NodeConfig>)
    requires Repairs(nodes, retry, w) && w.bindable(retry) - TakenPorts(s, nodes) != {}
    ensures |r| == |nodes|
  {
    Reassigned(s, nodes, w.starts(retry, nodes).conflictPort, w.bindable(retry)).value
  }

  /** Every repair that comes about finds a free port.  The search has no other end. */
  ghost predicate SearchesEnd(s: Settings, nodes: seq<NodeConfig>, retry: nat, w: World)
    requires retry <= MAX_RETRIES
    decreases MAX_RETRIES - retry
  {
    retry < MAX_RETRIES && Repairs(nodes, retry, w) ==>
      w.bindable(retry) - TakenPorts(s, nodes) != {} && SearchesEnd(s, Repaired(s, nodes, retry, w), retry + 1, w)
  }

  /** It is enough that at every attempt the bindable ports outnumber the nodes by two. */
  lemma {:induction false} SparePortsSuffice(s: Settings, nodes: seq<NodeConfig>, retry: nat, w: World)
    requires retry <= MAX_RETRIES && forall i: nat :: i < MAX_RETRIES ==> |nodes| + 1 < |w.bindable(i)|
    ensures SearchesEnd(s, nodes, retry, w)
    decreases MAX_RETRIES - retry
  {
    if retry < MAX_RETRIES && Repairs(nodes, retry, w) {
      R.ElementsSize(PortsOf(nodes));
      if w.bindable(retry) - TakenPorts(s, nodes) == {} {
        SubsetSize(w.bindable(retry), {s.listenerPort} + Elements(PortsOf(nodes)));
      }
      SparePortsSuffice(s, Repaired(s, nodes, retry, w), retry + 1, w);
    }
  }

  datatype Ending = Up | NotBuilt(outcome: BuildOutcome) | NotStarted | Exhausted

  /** How the attempts end, the nodes as repaired, and the nodes the last box was built from. */
  datatype Attempted = Attempted(ending: Ending, nodes: seq<NodeConfig>, built: seq<NodeConfig>)

  /** The attempts from number `retry` on. */
  ghost function Attempts(s: Settings, nodes: seq<NodeConfig>, built: seq<NodeConfig>, retry: nat,
                          w: World): (a: Attempted)
    requires retry <= MAX_RETRIES && SearchesEnd(s, nodes, retry, w)
    ensures |a.nodes| == |nodes|
    decreases MAX_RETRIES - retry
  {
    if retry == MAX_RETRIES then Attempted(Exhausted, nodes, built)
    else if !w.builds(retry).Built? then Attempted(NotBuilt(w.builds(retry)), nodes, built)
    else if w.starts(retry, nodes).Started? then Attempted(Up, nodes, nodes)
    else if Repairs(nodes, retry, w) then Attempts(s, Repaired(s, nodes, retry, w), nodes, retry + 1, w)
    else Attempted(NotStarted, nodes, nodes)
  }

  /** Repairs over a whole series of attempts change ports only, and no series ever puts
      two nodes on one port or a hybrid node on the listener's. */
  lemma {:induction false} AttemptsKeepPortsSound(s: Settings, nodes: seq<NodeConfig>, built: seq<NodeConfig>,
                                                  retry: nat, w: World)
    requires retry <= MAX_RETRIES && SearchesEnd(s, nodes, retry, w)
    ensures var a := Attempts(s, nodes, built, retry, w);
      && (Distinct(PortsOf(nodes)) ==> Distinct(PortsOf(a.nodes)))
      && (s.mode.Hybrid? && s.listenerPort !in PortsOf(nodes) ==> s.listenerPort !in PortsOf(a.nodes))
      && R.Names(a.nodes) == R.Names(nodes) && Uris(a.nodes) == Uris(nodes)
      && (a.ending.Up? ==> a.built == a.nodes)
    decreases MAX_RETRIES - retry
  {
    hide Uris, PortsOf, R.Names, Reassigned, TakenPorts, Distinct;
    if retry < MAX_RETRIES && Repairs(nodes, retry, w) {
      RepairKeepsDistinct(s, nodes, w.starts(retry, nodes).conflictPort, w.bindable(retry));
      AttemptsKeepPortsSound(s, Repaired(s, nodes, retry, w), nodes, retry + 1, w);
    }
  }

  /** From one attempt to the next, a repair moved the first node on the port that the error
      named to one that no node had. */
  ghost predicate RepairedBy(s: Settings, before: seq<NodeConfig>, p: Port, after: seq<NodeConfig>) {
    exists at, q: Port ::
      && 0 <= at < |before| && after == before[at := before[at].(port := q)]
      && before[at].port == p && (forall i :: 0 <= i < at ==> before[i].port != p)
      && (forall i :: 0 <= i < |before| ==> before[i].port != q) && (s.mode.Hybrid? ==> q != s.listenerPort)
  }

  lemma RepairedIsRepair(s: Settings, nodes: seq<NodeConfig>, conflict: Port, bindable: set<Port>)
    requires conflict in PortsOf(nodes) && bindable - TakenPorts(s, nodes) != {}
    ensures var r := Reassigned(s, nodes, conflict, bindable); r.Some? && RepairedBy(s, nodes, conflict, r.value)
  {
    hide TakenPorts, Reassigned;
    RepairIsLocal(s, nodes, conflict, bindable);
    var r := Reassigned(s, nodes, conflict, bindable).value;
    var at, q: Port :|
      && 0 <= at < |nodes| && r == nodes[at := nodes[at].(port := q)]
      && nodes[at].port == conflict && (forall i :: 0 <= i < at ==> nodes[i].port != conflict)
      && q !in PortsOf(nodes) && (s.mode.Hybrid? ==> q != s.listenerPort);
    forall i | 0 <= i < |nodes|
      ensures nodes[i].port != q
    {
      assert PortsOf(nodes)[i] in PortsOf(nodes);
    }
  }

  /** Attempt number `retry` built its box and failed to start it on a port that some node
      had, and a repair followed. */
  ghost predicate Retried(s: Settings, before: seq<NodeConfig>, after: seq<NodeConfig>, retry: nat, w: World) {
    && w.builds(retry).Built? && w.starts(retry, before).StartFailed? && w.starts(retry, before).conflictPort > 0
    && RepairedBy(s, before, w.starts(retry, before).conflictPort, after)
  }

  /** The node lists of successive attempts, from number `retry` on. */
  ghost predicate IsTrace(s: Settings, steps: seq<seq<NodeConfig>>, retry: nat, w: World)
    decreases |steps|
  {
    && steps != []
    && (|steps| > 1 ==> Retried(s, steps[0], steps[1], retry, w) && IsTrace(s, steps[1..], retry + 1, w))
  }

  /** How the attempts go, in any world: each one but the last built its box, failed to start
      it on a port that some node had, and was followed by a repair; the last one says how it
      ends, the tenth repair being the last. */
  lemma {:induction false} AttemptsTrace(s: Settings, nodes: seq<NodeConfig>, built: seq<NodeConfig>, retry: nat,
                                         w: World) returns (steps: seq<seq<NodeConfig>>)
    requires retry <= 10 && SearchesEnd(s, nodes, retry, w)
    ensures IsTrace(s, steps, retry, w) && steps[0] == nodes && retry + |steps| - 1 <= 10
    ensures var a := Attempts(s, nodes, built, retry, w);
      var last := retry + |steps| - 1;
      && steps[|steps| - 1] == a.nodes
      && if last == 10 then a.ending.Exhausted? && a.built == if |steps| == 1 then built else steps[|steps| - 2]
         else if !w.builds(last).Built? then a.ending == NotBuilt(w.builds(last))
         else if w.starts(last, a.nodes).Started? then a.ending.Up? && a.built == a.nodes
         else
           && a.ending.NotStarted? && a.built == a.nodes
           && var p := w.starts(last, a.nodes).conflictPort;
              p > 0 ==> forall i :: 0 <= i < |a.nodes| ==> a.nodes[i].port != p
    decreases 10 - retry
  {
    hide TakenPorts, Reassigned, RepairedBy;
    if retry < 10 && Repairs(nodes, retry, w) {
      var after := Repaired(s, nodes, retry, w);
      RepairedIsRepair(s, nodes, w.starts(retry, nodes).conflictPort, w.bindable(retry));
      var rest := AttemptsTrace(s, after, nodes, retry + 1, w);
      steps := [nodes] + rest;
      assert steps[1..] == rest;
    } else {
      steps := [nodes];
      assert forall i :: 0 <= i < |nodes| ==> PortsOf(nodes)[i] == nodes[i].port;
    }
  }

  // Ports that cannot be bound.

  /** Which nodes get an inbound of their own: none in pool mode, else those that the filter
      enables and whose URI translates. */
  type Listens = NodeConfig -> bool

  /** How many nodes listen on `p`. */
  function Listeners(nodes: seq<NodeConfig>, listens: Listens, p: Port): nat {
    if nodes == [] then 0
    else (if nodes[0].port == p && listens(nodes[0]) then 1 else 0) + Listeners(nodes[1..], listens, p)
  }

  /** A box of these nodes cannot bind `p` once for each that listens on it: something else
      holds it, as the listener does in hybrid mode, or two nodes want it. */
  predicate Clashes(s: Settings, nodes: seq<NodeConfig>, held: set<Port>, listens: Listens, p: Port) {
    p != 0 &&
    Listeners(nodes, listens, p) >= (if p in held || (s.mode.Hybrid? && p == s.listenerPort) then 1 else 2)
  }

  /** At how many positions a node stands on a port that clashes from there on. */
  function Moves(s: Settings, nodes: seq<NodeConfig>, held: set<Port>, listens: Listens): (k: nat)
    ensures k <= |nodes|
  {
    if nodes == [] then 0
    else (if Clashes(s, nodes, held, listens, nodes[0].port) then 1 else 0) + Moves(s, nodes[1..], held, listens)
  }

  /** Every box builds, and starts unless some port clashes; the error then names one that
      does.  Held ports cannot be bound by the repair either. */
  ghost predicate Blocking(s: Settings, held: set<Port>, listens: Listens, w: World) {
    && (forall i: nat :: w.builds(i).Built? && w.bindable(i) !! held)
    && (forall i: nat, nodes: seq<NodeConfig> ::
          match w.starts(i, nodes)
          case Started => forall p: Port :: !Clashes(s, nodes, held, listens, p)
          case StartFailed(p) => Clashes(s, nodes, held, listens, p))
  }

  lemma {:induction false} ListenersOfUnused(nodes: seq<NodeConfig>, listens: Listens, p: Port)
    requires p !in PortsOf(nodes)
    ensures Listeners(nodes, listens, p) == 0
    decreases |nodes|
  {
    if nodes != [] {
      assert PortsOf(nodes)[0] == nodes[0].port && PortsOf(nodes[1..]) == PortsOf(nodes)[1..];
      ListenersOfUnused(nodes[1..], listens, p);
    }
  }

  /** A move between two other ports leaves the listeners on `p` alone. */
  lemma {:induction false} ListenersElsewhere(nodes: seq<NodeConfig>, listens: Listens, at: nat, to: Port, p: Port)
    requires at < |nodes| && nodes[at].port != p && to != p
    ensures Listeners(nodes[at := nodes[at].(port := to)], listens, p) == Listeners(nodes, listens, p)
    decreases |nodes|
  {
    var moved := nodes[at := nodes[at].(port := to)];
    if at == 0 {
      assert moved[1..] == nodes[1..];
    } else {
      assert moved[1..] == nodes[1..][at - 1 := nodes[at].(port := to)];
      ListenersElsewhere(nodes[1..], listens, at - 1, to, p);
    }
  }

  /** Moving the first node on a port that clashes to an unused one leaves one move less. */
  lemma {:induction false} MoveSavesOne(s: Settings, nodes: seq<NodeConfig>, held: set<Port>, listens: Listens,
                                        at: nat, to: Port)
    requires at < |nodes| && Clashes(s, nodes, held, listens, nodes[at].port)
    requires forall i :: 0 <= i < at ==> nodes[i].port != nodes[at].port
    requires to !in PortsOf(nodes) && to !in held && (s.mode.Hybrid? ==> to != s.listenerPort)
    ensures Moves(s, nodes[at := nodes[at].(port := to)], held, listens) == Moves(s, nodes, held, listens) - 1
    decreases |nodes|
  {
    var moved := nodes[at := nodes[at].(port := to)];
    assert PortsOf(nodes)[0] == nodes[0].port && PortsOf(nodes[1..]) == PortsOf(nodes)[1..];
    if at == 0 {
      assert moved[1..] == nodes[1..];
      ListenersOfUnused(nodes[1..], listens, to);
    } else {
      assert moved[1..] == nodes[1..][at - 1 := nodes[at].(port := to)];
      ListenersElsewhere(nodes, listens, at, to, nodes[0].port);
      MoveSavesOne(s, nodes[1..], held, listens, at - 1, to);
    }
  }

  lemma SomeListener(nodes: seq<NodeConfig>, listens: Listens, p: Port)
    requires Listeners(nodes, listens, p) > 0
    ensures p in PortsOf(nodes)
  {
    if p !in PortsOf(nodes) {
      ListenersOfUnused(nodes, listens, p);
    }
  }

  lemma {:induction false} ListenerOf(nodes: seq<NodeConfig>, listens: Listens, p: Port)
    requires p in PortsOf(nodes) && forall i :: 0 <= i < |nodes| ==> listens(nodes[i])
    ensures Listeners(nodes, listens, p) > 0
    decreases |nodes|
  {
    if nodes[0].port != p {
      assert PortsOf(nodes) == [nodes[0].port] + PortsOf(nodes[1..]);
      ListenerOf(nodes[1..], listens, p);
    }
  }

  /** A repair of a port that clashes leaves exactly one move less, whichever port it is. */
  lemma RepairSavesOne(s: Settings, nodes: seq<NodeConfig>, held: set<Port>, listens: Listens, conflict: Port,
                       bindable: set<Port>)
    requires Clashes(s, nodes, held, listens, conflict)
    requires bindable !! held && (conflict in PortsOf(nodes) ==> bindable - TakenPorts(s, nodes) != {})
    ensures var r := Reassigned(s, nodes, conflict, bindable);
      r.Some? && Moves(s, r.value, held, listens) == Moves(s, nodes, held, listens) - 1
  {
    hide TakenPorts, Moves, Listeners, Reassigned;
    SomeListener(nodes, listens, conflict);
    RepairIsLocal(s, nodes, conflict, bindable);
    var r := Reassigned(s, nodes, conflict, bindable).value;
    var at, p: Port :| 0 <= at < |nodes| && r == nodes[at := nodes[at].(port := p)]
      && nodes[at].port == conflict && (forall i :: 0 <= i < at ==> nodes[i].port != conflict)
      && p in bindable && p !in PortsOf(nodes) && (s.mode.Hybrid? ==> p != s.listenerPort);
    MoveSavesOne(s, nodes, held, listens, at, p);
  }

  /** Without a clash there is nothing to move. */
  lemma {:induction false} NoClashNoMoves(s: Settings, nodes: seq<NodeConfig>, held: set<Port>, listens: Listens)
    requires forall p: Port :: !Clashes(s, nodes, held, listens, p)
    ensures Moves(s, nodes, held, listens) == 0
    decreases |nodes|
  {
    if nodes != [] {
      forall p: Port
        ensures !Clashes(s, nodes[1..], held, listens, p)
      {
        assert !Clashes(s, nodes, held, listens, p);
      }
      NoClashNoMoves(s, nodes[1..], held, listens);
    }
  }

  /** How many listening nodes are on held ports. */
  function OnHeld(nodes: seq<NodeConfig>, held: set<Port>, listens: Listens): nat {
    if nodes == [] then 0
    else
      (if nodes[0].port != 0 && nodes[0].port in held && listens(nodes[0]) then 1 else 0) +
      OnHeld(nodes[1..], held, listens)
  }

  /** While the nodes have ports of their own, the moves are those off the held ports. */
  lemma {:induction false} MovesOfSound(s: Settings, nodes: seq<NodeConfig>, held: set<Port>, listens: Listens)
    requires PortsSound(s, nodes)
    ensures Moves(s, nodes, held, listens) == OnHeld(nodes, held, listens)
    decreases |nodes|
  {
    if nodes != [] {
      MovesOfSound(s, nodes[1..], held, listens);
      if nodes[0].port != 0 {
        assert nodes[0].port !in PortsOf(nodes[1..]);
        ListenersOfUnused(nodes[1..], listens, nodes[0].port);
      }
    }
  }

  /** While nothing is held and every node listens on a real port that is not the listener's,
      the moves are those of all but one node on each port. */
  lemma {:induction false} MovesOfSharing(s: Settings, nodes: seq<NodeConfig>, listens: Listens)
    requires forall i :: 0 <= i < |nodes| ==> listens(nodes[i]) && nodes[i].port != 0
    requires s.mode.Hybrid? ==> s.listenerPort !in PortsOf(nodes)
    ensures Moves(s, nodes, {}, listens) == |nodes| - |Elements(PortsOf(nodes))|
    decreases |nodes|
  {
    if nodes != [] {
      var p, rest := nodes[0].port, nodes[1..];
      assert PortsOf(nodes) == [p] + PortsOf(rest);
      MovesOfSharing(s, rest, listens);
      assert Elements(PortsOf(nodes)) == {p} + Elements(PortsOf(rest));
      if p in PortsOf(rest) {
        ListenerOf(rest, listens, p);
      } else {
        ListenersOfUnused(rest, listens, p);
      }
    }
  }

  /** The attempts run out, leaving a closed box in hand, exactly when there are at least as
      many moves to make as attempts left; with fewer, a box comes up and no port clashes. */
  lemma {:induction false} BlockedAttempts(s: Settings, nodes: seq<NodeConfig>, built: seq<NodeConfig>, retry: nat,
                                           held: set<Port>, listens: Listens, w: World)
    requires retry <= MAX_RETRIES && SearchesEnd(s, nodes, retry, w) && Blocking(s, held, listens, w)
    ensures var a := Attempts(s, nodes, built, retry, w);
      if Moves(s, nodes, held, listens) >= MAX_RETRIES - retry then a.ending.Exhausted?
      else a.ending.Up? && Moves(s, a.nodes, held, listens) == 0
    decreases MAX_RETRIES - retry
  {
    hide PortsOf, Reassigned, TakenPorts, Moves, Listeners;
    if retry < MAX_RETRIES {
      match w.starts(retry, nodes) {
        case Started =>
          NoClashNoMoves(s, nodes, held, listens);
        case StartFailed(p) =>
          SomeListener(nodes, listens, p);
          assert Repairs(nodes, retry, w);
          RepairSavesOne(s, nodes, held, listens, p, w.bindable(retry));
          BlockedAttempts(s, Repaired(s, nodes, retry, w), nodes, retry + 1, held, listens, w);
      }
    }
  }

  /** Whatever the nodes, a reload or start ends holding a closed box exactly when there are
      at least ten moves to make, and with a running one otherwise. */
  lemma ExhaustedIff(s: Settings, nodes: seq<NodeConfig>, held: set<Port>, listens: Listens, w: World)
    requires SearchesEnd(s, nodes, 0, w) && Blocking(s, held, listens, w)
    ensures var ending := Attempts(s, nodes, [], 0, w).ending;
      && (ending.Exhausted? <==> Moves(s, nodes, held, listens) >= 10)
      && (ending.Up? <==> Moves(s, nodes, held, listens) < 10)
  {
    BlockedAttempts(s, nodes, [], 0, held, listens, w);
  }

  datatype ReloadError =
    | NilConfig
    | NormalizeFailed(error: NormalizeError)
    | BoxNotCreated
    | BoxNotStarted
    | AlreadyRunning

  /** Registry errors, plus the two the manager itself raises. */
  datatype CrudError = Cancelled | ConfigUnavailable | Rejected(error: R.NodeError)

  /** A reload with this port map gets as far as assigning ports. */
  ghost predicate Normalizes(s: Settings, nodes: seq<NodeConfig>, portMap: PortMap) {
    |portMap| > 0 && KnownMode(CanonicalMode(s.mode)) && AllHaveUri(nodes)
  }

  /** Every port search of a reload with this port map ends. */
  ghost predicate MayReload(s: Settings, nodes: seq<NodeConfig>, portMap: PortMap, bindable: set<Port>,
                            fragmentName: string -> string, w: World) {
    if |portMap| == 0 then SearchesEnd(s, nodes, 0, w)
    else
      Normalizes(s, nodes, portMap) ==>
        && EnoughPorts(WithDefaults(s), nodes, portMap, bindable, fragmentName)
        && SearchesEnd(WithDefaults(s), Normalized(WithDefaults(s), nodes, portMap, bindable, fragmentName), 0, w)
  }

  /** A per-node-port configuration whose nodes are settled, one port per URI. */
  ghost predicate StableNodes(s: Settings, nodes: seq<NodeConfig>) {
    && PerNodePorts(CanonicalMode(s.mode))
    && T.IsSettled(nodes)
    && nodes != []
    && T.OnePortPerUri(nodes)
  }

  lemma StableNodesKeepPorts(s: Settings, nodes: seq<NodeConfig>, bindable: set<Port>, fragmentName: string -> string)
    requires PerNodePorts(s.mode) && T.IsSettled(nodes) && nodes != []
    requires T.OnePortPerUri(nodes)
    ensures |PortMapOf(nodes)| > 0 && AllHaveUri(nodes)
    ensures EnoughPorts(s, nodes, PortMapOf(nodes), bindable, fragmentName)
    ensures PortsOf(Normalized(s, nodes, PortMapOf(nodes), bindable, fragmentName)) == PortsOf(nodes)
  {
    hide Normalized, EnoughPorts, AllHaveUri, PortMapOf;
    T.OwnPortMapRoundTrip(s, nodes, bindable, fragmentName);
    var j := T.PortMapLookup(nodes, 0);
    assert nodes[0].uri in PortMapOf(nodes);
  }

  /** Such nodes after a reload with their own port map. */
  ghost function Reloaded(s: Settings, nodes: seq<NodeConfig>, bindable: set<Port>,
                          fragmentName: string -> string): (r: seq<NodeConfig>)
    requires StableNodes(s, nodes)
    ensures PortsOf(r) == PortsOf(nodes)
  {
    StableNodesKeepPorts(WithDefaults(s), nodes, bindable, fragmentName);
    Normalized(WithDefaults(s), nodes, PortMapOf(nodes), bindable, fragmentName)
  }

  lemma AttemptUnfolds(s: Settings, nodes: seq<NodeConfig>, built: seq<NodeConfig>, retry: nat, w: World)
    requires retry < MAX_RETRIES && SearchesEnd(s, nodes, retry, w)
    ensures !w.builds(retry).Built? ==>
      Attempts(s, nodes, built, retry, w) == Attempted(NotBuilt(w.builds(retry)), nodes, built)
    ensures w.builds(retry).Built? && w.starts(retry, nodes).Started? ==>
      Attempts(s, nodes, built, retry, w) == Attempted(Up, nodes, nodes)
    ensures w.builds(retry).Built? && w.starts(retry, nodes).StartFailed? ==>
      var conflict := w.starts(retry, nodes).conflictPort;
      if conflict > 0 && conflict in PortsOf(nodes) then
        && w.bindable(retry) - TakenPorts(s, nodes) != {}
        && var repaired := Reassigned(s, nodes, conflict, w.bindable(retry));
        && repaired.Some? && SearchesEnd(s, repaired.value, retry + 1, w)
        && Attempts(s, nodes, built, retry, w) == Attempts(s, repaired.value, nodes, retry + 1, w)
      else Attempts(s, nodes, built, retry, w) == Attempted(NotStarted, nodes, nodes)
  {
  }

  lemma AttemptsEnd(s: Settings, nodes: seq<NodeConfig>, built: seq<NodeConfig>, w: World)
    requires SearchesEnd(s, nodes, MAX_RETRIES, w)
    ensures Attempts(s, nodes, built, MAX_RETRIES, w) == Attempted(Exhausted, nodes, built)
  {
  }

  class BoxManager {
    var cfg: Config?
    var currentBox: Box?
    ghost var boxes: set<Box>  // every box ever created

    constructor (cfg: Config?)
      requires cfg != null ==> cfg.Valid()
      ensures Valid() && this.cfg == cfg && currentBox == null && boxes == {}
    {
      this.cfg := cfg;
      currentBox := null;
      boxes := {};
    }

    /** At most one box is unclosed, and it is the current one. */
    ghost predicate Valid()
      reads this, cfg, boxes
    {
      && (cfg != null ==> cfg.Valid())
      && (currentBox != null ==> currentBox in boxes)
      && forall b :: b in boxes && b.state != Closed ==> b == currentBox
    }

    // Node registry.

    /** `c.Save()`: fails without a file path, or when writing does. */
    predicate Saves(written: bool)
      requires cfg != null
      reads this, cfg
    {
      cfg.filePath != "" && written
    }

    method NodeIndex(name: string) returns (at: int)
      requires cfg != null && cfg.Valid()
      ensures at == IndexOf(R.Names(cfg.Nodes()), name)
    {
      for i := 0 to cfg.count
        invariant forall k :: 0 <= k < i ==> R.Names(cfg.Nodes())[k] != name
      {
        if cfg.nodes[i].name == name {
          assert R.Names(cfg.Nodes())[i] == name;
          return i;
        }
      }
      at := -1;
    }

    method PortInUse(port: Port, currentName: string) returns (inUse: bool)
      requires cfg != null && cfg.Valid()
      ensures inUse == R.PortInUse(cfg.Nodes(), port, currentName)
    {
      if port == 0 {
        return false;
      }
      for i := 0 to cfg.count
        invariant forall k :: 0 <= k < i ==> cfg.nodes[k].name == currentName || cfg.nodes[k].port != port
      {
        if cfg.nodes[i].name == currentName {
          continue;
        }
        if cfg.nodes[i].port == port {
          assert cfg.Nodes()[i] == cfg.nodes[i];
          return true;
        }
      }
      inUse := false;
    }

    /** The bounded search: 65536 steps up from the base, never stopping at 0. */
    method FirstUnused(base: Port, used: set<Port>, ghost unused: set<Port>) returns (port: Port)
      requires base > 0
      requires forall p: Port :: p in unused <==> p > 0 && p !in used
      ensures port == if unused == {} then base else FirstFree(base, unused)
    {
      port := base;
      for i := 0 to PORT_COUNT
        invariant port > 0
        invariant unused != {} ==>
          && i <= Distance(base, port)
          && Distance(base, port) + Distance(port, FirstFree(base, unused)) == Distance(base, FirstFree(base, unused))
      {
        if port !in used && port != 0 {
          return port;
        }
        port := Next(port);
        if port == 0 {
          port := 1;
        }
      }
      return base;
    }

    method NextAvailablePort() returns (port: Port)
      requires cfg != null && cfg.Valid()
      ensures port == R.NextAvailable(cfg.settings, cfg.Nodes())
    {
      var base := cfg.settings.basePort;
      if base == 0 {
        base := 24000;
      }
      var used := {};
      ghost var ports := PortsOf(cfg.Nodes());
      for i := 0 to cfg.count
        invariant used == Elements(ports[..i]) - {0}
      {
        ElementsSnoc(ports, i);
        if cfg.nodes[i].port > 0 {
          used := used + {cfg.nodes[i].port};
        }
      }
      assert ports[..cfg.count] == ports;
      R.PortsUpToSize(PORT_COUNT - 1);
      port := FirstUnused(base, used, R.UnusedPorts(cfg.Nodes()));
    }

    method PrepareNode(node: NodeConfig, currentName: string,
                       unescape: R.Unescape) returns (r: Result<NodeConfig, R.NodeError>)
      requires cfg != null && cfg.Valid()
      ensures r == R.Prepare(cfg.settings, cfg.Nodes(), node, currentName, unescape)
    {
      hide TrimSpace, Itoa, R.LastIndexOf, R.NextAvailable, R.PortInUse;
      var n := Trimmed(node);
      if n.uri == "" {
        return Err(R.InvalidNode);
      }
      if n.name == "" {
        n := n.(name := R.DefaultName(n.uri, currentName, cfg.count + 1, unescape));
      }
      var at := NodeIndex(n.name);
      if at != -1 {
        if currentName == "" || cfg.nodes[at].name != currentName {
          return Err(R.NameTaken);
        }
      }
      if cfg.settings.mode.MultiPort? {
        if n.port == 0 {
          var port := NextAvailablePort();
          n := n.(port := port);
        } else {
          var inUse := PortInUse(n.port, currentName);
          if inUse {
            return Err(R.PortTaken);
          }
        }
        if n.username == "" {
          n := n.(username := cfg.settings.username, password := cfg.settings.password);
        }
      }
      r := Ok(n);
    }

    /** The outcome `o` is what the caller gets and what the configuration holds. */
    ghost predicate Reports(r: Result<NodeConfig, CrudError>, o: R.Outcome)
      requires cfg != null && cfg.Valid()
      reads this, cfg, cfg.nodes
    {
      && cfg.Nodes() == o.nodes
      && (o.result.Ok? ==> r == Ok(o.result.value))
      && (o.result.Err? ==> r == Err(Rejected(o.result.error)))
    }

    method CreateNode(node: NodeConfig, live: bool, written: bool,
                      unescape: R.Unescape) returns (r: Result<NodeConfig, CrudError>)
      requires Valid()
      modifies cfg, if cfg != null then {cfg.nodes} else {}
      ensures Valid()
      ensures !live ==> r == Err(Cancelled)
      ensures live && cfg == null ==> r == Err(ConfigUnavailable)
      ensures live && cfg != null ==> Reports(r,
        R.Create(old(cfg.settings), old(cfg.Nodes()), node, old(cfg.filePath) != "" && written, unescape))
      ensures cfg != null ==> cfg.settings == old(cfg.settings) && cfg.filePath == old(cfg.filePath)
      ensures r.Err? && cfg != null ==> cfg.Nodes() == old(cfg.Nodes())
    {
      hide R.Prepare;
      if !live {
        return Err(Cancelled);
      }
      if cfg == null {
        return Err(ConfigUnavailable);
      }
      var prepared := PrepareNode(node, "", unescape);
      if prepared.Err? {
        return Err(Rejected(prepared.error));
      }
      var n := prepared.value;
      if |cfg.settings.subscriptions| == 0 && cfg.settings.nodesFile != "" {
        n := n.(source := NodesFile);
      } else {
        n := n.(source := Inline);
      }
      var saves := Saves(written);
      cfg.AppendNode(n);
      if !saves {
        cfg.count := cfg.count - 1;
        assert cfg.Nodes() == old(cfg.Nodes());
        return Err(Rejected(R.SaveFailed));
      }
      r := Ok(n);
    }

    method UpdateNode(name: string, node: NodeConfig, live: bool, written: bool,
                      unescape: R.Unescape) returns (r: Result<NodeConfig, CrudError>)
      requires Valid()
      modifies if cfg != null then {cfg.nodes} else {}
      ensures Valid()
      ensures !live ==> r == Err(Cancelled)
      ensures live && cfg == null ==> r == Err(ConfigUnavailable)
      ensures live && cfg != null ==> Reports(r,
        R.Update(cfg.settings, old(cfg.Nodes()), name, node, cfg.filePath != "" && written, unescape))
      ensures r.Err? && cfg != null ==> cfg.Nodes() == old(cfg.Nodes())
    {
      hide R.Prepare, TrimSpace;
      if !live {
        return Err(Cancelled);
      }
      var name := TrimSpace(name);
      if cfg == null {
        return Err(ConfigUnavailable);
      }
      var at := NodeIndex(name);
      if at == -1 {
        return Err(Rejected(R.NodeNotFound));
      }
      var prepared := PrepareNode(node, name, unescape);
      if prepared.Err? {
        return Err(Rejected(prepared.error));
      }
      var n := prepared.value.(source := cfg.nodes[at].source);
      var prev := cfg.nodes[at];
      cfg.nodes[at] := n;
      if !Saves(written) {
        cfg.nodes[at] := prev;
        return Err(Rejected(R.SaveFailed));
      }
      assert cfg.Nodes() == old(cfg.Nodes())[at := n];
      r := Ok(n);
    }

    /** On success returns the deleted node; the source returns nothing but the error. */
    method DeleteNode(name: string, live: bool, written: bool) returns (r: Result<NodeConfig, CrudError>)
      requires Valid()
      modifies cfg, if cfg != null then {cfg.nodes} else {}
      ensures Valid()
      ensures !live ==> r == Err(Cancelled)
      ensures live && cfg == null ==> r == Err(ConfigUnavailable)
      ensures live && cfg != null ==> Reports(r,
        R.Delete(old(cfg.Nodes()), name, old(cfg.filePath) != "" && written))
      ensures cfg != null ==> cfg.settings == old(cfg.settings) && cfg.filePath == old(cfg.filePath)
      ensures r.Err? && cfg != null ==> cfg.Nodes() == old(cfg.Nodes())
    {
      hide TrimSpace, R.Names, IndexOf;
      if !live {
        return Err(Cancelled);
      }
      var name := TrimSpace(name);
      if cfg == null {
        return Err(ConfigUnavailable);
      }
      var at := NodeIndex(name);
      if at == -1 {
        return Err(Rejected(R.NodeNotFound));
      }
      var deleted := cfg.nodes[at];
      var backup := cfg.CloneNodes();
      var saves := Saves(written);
      cfg.RemoveNode(at);
      if !saves {
        cfg.nodes, cfg.count := backup, backup.Length;
        return Err(Rejected(R.SaveFailed));
      }
      r := Ok(deleted);
    }

    // Life cycle.

    /** The attempts to build and start a box for `c`, shared by `Start` and `Reload`;
        returns the last box built.  Every other box created here is closed again. */
    method StartWithRetries(c: Config, w: World) returns (instance: Box?, ending: Ending)
      requires c.Valid() && SearchesEnd(c.settings, c.Nodes(), 0, w)
      modifies this`boxes, c.nodes
      ensures var a := Attempts(c.settings, old(c.Nodes()), [], 0, w);
        && ending == a.ending
        && c.Nodes() == a.nodes
        && (instance != null ==> instance.built == a.built)
      ensures old(boxes) <= boxes && fresh(boxes - old(boxes))
      ensures forall b :: b in boxes - old(boxes) && b.state != Closed ==> b == instance
      ensures instance != null ==> instance in boxes - old(boxes)
      ensures ending.Up? ==> instance != null && instance.state == Running
      ensures ending.Exhausted? ==> instance != null
      ensures !ending.Up? && instance != null ==> instance.state == Closed
    {
      hide Attempts, Reassigned, TakenPorts;
      instance := null;
      ghost var before, built := c.Nodes(), [];
      for retry := 0 to MAX_RETRIES
        invariant SearchesEnd(c.settings, before, 0, w) && SearchesEnd(c.settings, c.Nodes(), retry, w)
        invariant Attempts(c.settings, before, [], 0, w) == Attempts(c.settings, c.Nodes(), built, retry, w)
        invariant old(boxes) <= boxes && fresh(boxes - old(boxes))
        invariant forall b :: b in boxes - old(boxes) ==> b.state == Closed
        invariant instance != null ==> instance in boxes - old(boxes) && instance.built == built
        invariant retry > 0 ==> instance != null
      {
        AttemptUnfolds(c.settings, c.Nodes(), built, retry, w);
        if !w.builds(retry).Built? {
          return null, NotBuilt(w.builds(retry));
        }
        instance := new Box(c.Nodes());
        boxes := boxes + {instance};
        built := c.Nodes();
        var outcome := w.starts(retry, c.Nodes());
        if outcome.Started? {
          instance.state := Running;
          return instance, Up;
        }
        instance.state := Closed;
        var conflict := outcome.conflictPort;
        var repaired := false;
        if conflict > 0 {
          repaired := ReassignConflictingPort(c, conflict, w.bindable(retry));
        }
        if !repaired {
          return instance, NotStarted;
        }
      }
      AttemptsEnd(c.settings, c.Nodes(), built, w);
      ending := Exhausted;
    }

    /** The last box built is current and the shared configuration holds the new contents.
        The box runs, unless the attempts ran out. */
    ghost predicate Switched(a: Attempted, s: Settings)
      requires cfg != null ==> cfg.Valid()
      reads this, currentBox, cfg, if cfg != null then {cfg.nodes} else {}
    {
      && currentBox != null && currentBox.built == a.built
      && currentBox.state == (if a.ending.Up? then Running else Closed)
      && cfg != null && cfg.settings == s && cfg.Nodes() == a.nodes
    }

    method Start(w: World) returns (r: Result<(), ReloadError>)
      requires Valid() && (cfg != null ==> SearchesEnd(cfg.settings, cfg.Nodes(), 0, w))
      modifies this`currentBox, this`boxes, if cfg != null then {cfg.nodes} else {}
      ensures Valid() && old(boxes) <= boxes
      ensures cfg == null ==> r == Err(NilConfig) && currentBox == old(currentBox)
      ensures cfg != null && old(currentBox) != null ==> r == Err(AlreadyRunning) && currentBox == old(currentBox)
      ensures cfg != null && old(currentBox) == null ==>
        var a := Attempts(cfg.settings, old(cfg.Nodes()), [], 0, w);
        && cfg.Nodes() == a.nodes
        && (r.Ok? <==> a.ending.Up? || a.ending.Exhausted? || a.ending == NotBuilt(NoValidNodes))
        && (r.Err? ==> r == Err(if a.ending.NotBuilt? then BoxNotCreated else BoxNotStarted))
        && (currentBox != null <==> a.ending.Up? || a.ending.Exhausted?)
        && (currentBox != null ==> Switched(a, cfg.settings))
    {
      if cfg == null {
        return Err(NilConfig);
      }
      if currentBox != null {
        return Err(AlreadyRunning);
      }
      var instance, ending := StartWithRetries(cfg, w);
      match ending {
        case NotBuilt(NoValidNodes) => return Ok(());
        case NotBuilt(_) => return Err(BoxNotCreated);
        case NotStarted => return Err(BoxNotStarted);
        case _ =>
      }
      currentBox := instance;
      return Ok(());
    }

    /** A box for the configuration is running again, or none is. */
    ghost predicate RolledBack(w: World)
      requires cfg != null ==> cfg.Valid()
      reads this, currentBox, cfg, if cfg != null then {cfg.nodes} else {}
    {
      && (currentBox != null <==> cfg != null && w.rollbackBuilds && w.rollbackStarts)
      && (currentBox != null ==> currentBox.state == Running && currentBox.built == cfg.Nodes())
    }

    method Rollback(w: World)
      requires Valid() && currentBox == null
      modifies this`currentBox, this`boxes
      ensures Valid() && old(boxes) <= boxes
      ensures RolledBack(w)
    {
      if cfg == null || !w.rollbackBuilds {
        return;
      }
      var instance := new Box(cfg.Nodes());
      boxes := boxes + {instance};
      if !w.rollbackStarts {
        instance.state := Closed;
        return;
      }
      instance.state := Running;
      currentBox := instance;
    }

    /** The end of a reload: the shared configuration takes over the contents of the new one,
        keeping its file path if that has none. */
    method Adopt(newCfg: Config)
      requires Valid() && newCfg.Valid()
      modifies this`cfg, cfg
      ensures Valid()
      ensures cfg == (if old(cfg) != null then old(cfg) else newCfg)
      ensures cfg.filePath == if old(newCfg.filePath) == "" && old(cfg) != null then old(cfg.filePath)
                              else old(newCfg.filePath)
      ensures cfg.settings == old(newCfg.settings) && cfg.Nodes() == old(newCfg.Nodes())
    {
      if cfg == null {
        cfg := newCfg;
      } else {
        var prevFilePath := cfg.filePath;
        cfg.Assign(newCfg);
        if cfg.filePath == "" && prevFilePath != "" {
          cfg.filePath := prevFilePath;
        }
      }
    }

    /** Stops the current box, then brings up one for `newCfg`; on failure restarts the old
        configuration.  On success the shared configuration object takes over the contents
        of `newCfg`, keeping a file path it knows. */
    method Reload(newCfg: Config?, w: World) returns (r: Result<(), ReloadError>)
      requires Valid()
      requires newCfg != null ==> newCfg.Valid() && SearchesEnd(newCfg.settings, newCfg.Nodes(), 0, w)
      modifies this, boxes, cfg, if newCfg != null then {newCfg.nodes} else {}
      ensures Valid() && old(boxes) <= boxes
      ensures newCfg == null ==> r == Err(NilConfig) && cfg == old(cfg) && currentBox == old(currentBox)
      ensures newCfg != null ==>
        var a := Attempts(old(newCfg.settings), old(newCfg.Nodes()), [], 0, w);
        && (r.Ok? <==> a.ending.Up? || a.ending.Exhausted?)
        && (r.Ok? ==> Switched(a, old(newCfg.settings)))
        && (r.Err? ==> r == Err(if a.ending.NotBuilt? then BoxNotCreated else BoxNotStarted))
      ensures newCfg != null && r.Ok? ==>
        && cfg == (if old(cfg) != null then old(cfg) else newCfg)
        && cfg.filePath == (if old(newCfg.filePath) == "" && old(cfg) != null then old(cfg.filePath)
                            else old(newCfg.filePath))
      ensures newCfg != null && r.Err? ==> cfg == old(cfg) && RolledBack(w)
      ensures newCfg != null && r.Err? && cfg != null ==>
        cfg.settings == old(cfg.settings) && cfg.filePath == old(cfg.filePath) && cfg.nodes == old(cfg.nodes)
      ensures newCfg != null && r.Err? && cfg != null && old(cfg.nodes != newCfg.nodes) ==>
        cfg.Nodes() == old(cfg.Nodes())
    {
      hide Attempts, SearchesEnd;
      if newCfg == null {
        return Err(NilConfig);
      }
      var oldBox := currentBox;
      currentBox := null;
      if oldBox != null {
        oldBox.state := Closed;
      }
      assert newCfg.Nodes() == old(newCfg.Nodes());
      var instance, ending := StartWithRetries(newCfg, w);
      if ending.NotBuilt? || ending.NotStarted? {
        Rollback(w);
        return Err(if ending.NotBuilt? then BoxNotCreated else BoxNotStarted);
      }
      currentBox := instance;
      Adopt(newCfg);
      return Ok(());
    }

    method Close()
      requires Valid()
      modifies this`currentBox, boxes
      ensures Valid() && currentBox == null
      ensures forall b :: b in boxes ==> b.state == Closed
    {
      if currentBox != null {
        currentBox.state := Closed;
        currentBox := null;
      }
    }

    /** Normalises the new configuration against a port map, then reloads. */
    method ReloadWithPortMap(newCfg: Config?, portMap: PortMap, bindable: set<Port>, fragmentName: string -> string,
                             w: World) returns (r: Result<(), ReloadError>)
      requires Valid()
      requires newCfg != null ==>
        newCfg.Valid() && MayReload(newCfg.settings, newCfg.Nodes(), portMap, bindable, fragmentName, w)
      modifies this, boxes, cfg, newCfg, if newCfg != null then {newCfg.nodes} else {}
      ensures Valid() && old(boxes) <= boxes
      ensures r.Ok? && old(cfg) != null ==> cfg == old(cfg)
      ensures r.Err? ==> cfg == old(cfg)
      ensures r.Err? && newCfg != null && newCfg != old(cfg) && cfg != null && old(cfg.nodes != newCfg.nodes) ==>
        cfg.settings == old(cfg.settings) && cfg.Nodes() == old(cfg.Nodes()) && cfg.filePath == old(cfg.filePath)
      ensures newCfg != null && r.Ok? ==>
        && cfg == (if old(cfg) != null then old(cfg) else newCfg)
        && cfg.filePath == (if old(newCfg.filePath) == "" && old(cfg) != null then old(cfg.filePath)
                            else old(newCfg.filePath))
      ensures r.Err? && r.error.NormalizeFailed? ==> currentBox == old(currentBox)
      ensures r.Err? && !r.error.NormalizeFailed? && newCfg != null ==> RolledBack(w)
      ensures newCfg == null ==> r == Err(NilConfig) && currentBox == old(currentBox)
      ensures newCfg != null && |portMap| > 0 && !Normalizes(old(newCfg.settings), old(newCfg.Nodes()), portMap) ==>
        r.Err? && r.error.NormalizeFailed? && Objects(old(newCfg.settings), old(newCfg.Nodes()), r.error.error)
      ensures newCfg != null && |portMap| == 0 ==>
        var a := Attempts(old(newCfg.settings), old(newCfg.Nodes()), [], 0, w);
        && (r.Ok? <==> a.ending.Up? || a.ending.Exhausted?)
        && (r.Ok? ==> Switched(a, old(newCfg.settings)))
        && (r.Err? ==> r == Err(if a.ending.NotBuilt? then BoxNotCreated else BoxNotStarted))
      ensures newCfg != null && Normalizes(old(newCfg.settings), old(newCfg.Nodes()), portMap) ==>
        var s := WithDefaults(old(newCfg.settings));
        var a := Attempts(s, Normalized(s, old(newCfg.Nodes()), portMap, bindable, fragmentName), [], 0, w);
        && (r.Ok? <==> a.ending.Up? || a.ending.Exhausted?)
        && (r.Ok? ==> Switched(a, s))
        && (r.Err? ==> r == Err(if a.ending.NotBuilt? then BoxNotCreated else BoxNotStarted))
    {
      hide Attempts, SearchesEnd, Normalized, EnoughPorts, AllHaveUri;
      if newCfg == null {
        return Err(NilConfig);
      }
      if |portMap| > 0 {
        var normalized := newCfg.NormalizeWithPortMap(portMap, bindable, fragmentName);
        if normalized.Err? {
          return Err(NormalizeFailed(normalized.error));
        }
      }
      r := Reload(newCfg, w);
    }

    /** Reloads a copy of the current configuration with its own port map.  The source
        dereferences the configuration before checking that there is one. */
    method TriggerReload(bindable: set<Port>, fragmentName: string -> string, w: World)
      returns (r: Result<(), ReloadError>)
      requires Valid() && cfg != null
      requires MayReload(cfg.settings, cfg.Nodes(), PortMapOf(cfg.Nodes()), bindable, fragmentName, w)
      modifies this, boxes, cfg
      ensures Valid() && cfg == old(cfg) && cfg.filePath == old(cfg.filePath)
      ensures r.Err? ==> cfg.settings == old(cfg.settings) && cfg.Nodes() == old(cfg.Nodes())
      ensures r.Err? && r.error.NormalizeFailed? ==> currentBox == old(currentBox)
      ensures r.Err? && !r.error.NormalizeFailed? ==> RolledBack(w)
      // Whatever the mode and the world: normalisation fails, or the attempts decide.
      ensures var s, nodes, portMap := old(cfg.settings), old(cfg.Nodes()), PortMapOf(old(cfg.Nodes()));
        |portMap| > 0 && !Normalizes(s, nodes, portMap) ==>
          r.Err? && r.error.NormalizeFailed? && Objects(s, nodes, r.error.error)
      ensures var s, nodes := old(cfg.settings), old(cfg.Nodes());
        |PortMapOf(nodes)| == 0 ==>
          var a := Attempts(s, nodes, [], 0, w);
          && (r.Ok? <==> a.ending.Up? || a.ending.Exhausted?)
          && (r.Ok? ==> Switched(a, s))
          && (r.Err? ==> r == Err(if a.ending.NotBuilt? then BoxNotCreated else BoxNotStarted))
      ensures var s, nodes, portMap := old(cfg.settings), old(cfg.Nodes()), PortMapOf(old(cfg.Nodes()));
        Normalizes(s, nodes, portMap) ==>
          var s := WithDefaults(s);
          var a := Attempts(s, Normalized(s, nodes, portMap, bindable, fragmentName), [], 0, w);
          && (r.Ok? <==> a.ending.Up? || a.ending.Exhausted?)
          && (r.Ok? ==> Switched(a, s))
          && (r.Err? ==> r == Err(if a.ending.NotBuilt? then BoxNotCreated else BoxNotStarted))
      // With one port per URI and no bind conflict, every node keeps its port.
      ensures w.builds(0).Built? && StableNodes(old(cfg.settings), old(cfg.Nodes())) ==>
        var nodes := Reloaded(old(cfg.settings), old(cfg.Nodes()), bindable, fragmentName);
        w.starts(0, nodes).Started? ==>
          && r.Ok? && cfg.Nodes() == nodes && PortsOf(nodes) == PortsOf(old(cfg.Nodes()))
          && currentBox != null && currentBox.state == Running && currentBox.built == nodes
    {
      hide Attempts, SearchesEnd, Normalized, EnoughPorts, AllHaveUri, PortMapOf;
      var copy := new Config(cfg.settings, cfg.Nodes(), cfg.filePath);
      var portMap := cfg.BuildPortMap();
      assert cfg.Nodes() == old(cfg.Nodes()) == copy.Nodes();
      ghost var s, nodes := WithDefaults(cfg.settings), cfg.Nodes();
      if w.builds(0).Built? && StableNodes(cfg.settings, nodes) {
        StableNodesKeepPorts(s, nodes, bindable, fragmentName);
        AttemptUnfolds(s, Normalized(s, nodes, portMap, bindable, fragmentName), [], 0, w);
      }
      r := ReloadWithPortMap(copy, portMap, bindable, fragmentName, w);
    }
  }
}
