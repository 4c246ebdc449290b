/** Writing handed-out ports into a node list, and what that does to port conflicts. */
module Allocation {
  import opened Types
  import opened Ports

  function PortsOf(nodes: seq<NodeConfig>): (r: seq<Port>)
    ensures |r| == |nodes|
  {
    seq(|nodes|, i requires 0 <= i < |nodes| => nodes[i].port)
  }

  /** How many nodes sit on port `hole` (0 for the nodes that still need a port). */
  function Holes(nodes: seq<NodeConfig>, hole: Port): (k: nat)
    ensures k <= |nodes|
  {
    if nodes == [] then 0
    else (if nodes[0].port == hole then 1 else 0) + Holes(nodes[1..], hole)
  }

  /** The nodes on port `hole` receive `ports` in node order; the others are kept. */
  function Fill(nodes: seq<NodeConfig>, hole: Port, ports: seq<Port>): (r: seq<NodeConfig>)
    requires |ports| == Holes(nodes, hole)
    ensures |r| == |nodes|
  {
    if nodes == [] then []
    else if nodes[0].port == hole then
      [nodes[0].(port := ports[0])] + Fill(nodes[1..], hole, ports[1..])
    else
      [nodes[0]] + Fill(nodes[1..], hole, ports)
  }

  /** The ports in place that are not to be replaced are pairwise distinct. */
  ghost predicate KeptDistinct(nodes: seq<NodeConfig>, hole: Port) {
    forall i, j :: 0 <= i < j < |nodes| && nodes[i].port == nodes[j].port ==> nodes[i].port == hole
  }

  lemma {:induction false} HolesConcat(a: seq<NodeConfig>, b: seq<NodeConfig>, hole: Port)
    ensures Holes(a + b, hole) == Holes(a, hole) + Holes(b, hole)
    decreases |a|
  {
    if a == [] {
      assert a + b == b;
    } else {
      assert (a + b)[1..] == a[1..] + b;
      HolesConcat(a[1..], b, hole);
    }
  }

  lemma HolesUncons(nodes: seq<NodeConfig>, hole: Port, i: nat)
    requires 0 < i <= |nodes|
    ensures Holes(nodes[..i], hole) == (if nodes[0].port == hole then 1 else 0) + Holes(nodes[1..][..i - 1], hole)
    ensures Holes(nodes, hole) == (if nodes[0].port == hole then 1 else 0) + Holes(nodes[1..], hole)
  {
    assert nodes[..i][1..] == nodes[1..][..i - 1];
  }

  /** Node by node: the n-th node on the hole gets the n-th port. */
  lemma {:induction false} FillAt(nodes: seq<NodeConfig>, hole: Port, ports: seq<Port>, i: nat)
    requires |ports| == Holes(nodes, hole)
    requires i < |nodes|
    ensures Holes(nodes[..i], hole) <= |ports|
    ensures nodes[i].port == hole ==> Holes(nodes[..i], hole) < |ports|
    ensures Fill(nodes, hole, ports)[i]
         == if nodes[i].port == hole then nodes[i].(port := ports[Holes(nodes[..i], hole)]) else nodes[i]
    decreases |nodes|
  {
    if i > 0 {
      HolesUncons(nodes, hole, i);
      hide Holes;
      if nodes[0].port == hole {
        FillAt(nodes[1..], hole, ports[1..], i - 1);
      } else {
        FillAt(nodes[1..], hole, ports, i - 1);
      }
    }
  }

  /** Every handed-out port lands on a node that needed one, in order. */
  lemma {:induction false} FillUsesAll(nodes: seq<NodeConfig>, hole: Port, ports: seq<Port>, n: nat) returns (i: nat)
    requires |ports| == Holes(nodes, hole)
    requires n < |ports|
    ensures i < |nodes| && nodes[i].port == hole && Fill(nodes, hole, ports)[i].port == ports[n]
    ensures Holes(nodes[..i], hole) == n
    decreases |nodes|
  {
    if nodes[0].port == hole && n == 0 {
      i := 0;
    } else {
      if nodes[0].port == hole {
        i := FillUsesAll(nodes[1..], hole, ports[1..], n - 1);
      } else {
        i := FillUsesAll(nodes[1..], hole, ports, n);
      }
      i := i + 1;
      HolesUncons(nodes, hole, i);
    }
  }

  /** No conflict without distinct ports to hand out. */
  lemma FillNeedsDistinct(nodes: seq<NodeConfig>, hole: Port, ports: seq<Port>)
    requires |ports| == Holes(nodes, hole) && Distinct(PortsOf(Fill(nodes, hole, ports)))
    ensures Distinct(ports)
  {
    hide Fill, Holes;
    var filled := PortsOf(Fill(nodes, hole, ports));
    forall a, b | 0 <= a < b < |ports|
      ensures ports[a] != ports[b]
    {
      var i := FillUsesAll(nodes, hole, ports, a);
      var j := FillUsesAll(nodes, hole, ports, b);
      assert if i < j then filled[i] != filled[j] else filled[j] != filled[i];
    }
  }

  lemma HolesStrictlyGrow(nodes: seq<NodeConfig>, hole: Port, i: nat, j: nat)
    requires i < j < |nodes| && nodes[i].port == hole
    ensures Holes(nodes[..i], hole) < Holes(nodes[..j], hole)
  {
    assert nodes[..j] == nodes[..i] + nodes[i..j];
    HolesConcat(nodes[..i], nodes[i..j], hole);
    assert nodes[i..j][0].port == hole;
  }

  /** Filling with distinct ports leaves no conflict exactly when there was none among
      the kept ports and no kept port is handed out again. */
  lemma FillDistinctIff(nodes: seq<NodeConfig>, hole: Port, ports: seq<Port>)
    requires |ports| == Holes(nodes, hole)
    requires Distinct(ports)
    ensures Distinct(PortsOf(Fill(nodes, hole, ports))) <==>
      && KeptDistinct(nodes, hole)
      && forall i :: 0 <= i < |nodes| && nodes[i].port != hole ==> nodes[i].port !in ports
  {
    var filled := Fill(nodes, hole, ports);
    forall i | 0 <= i < |nodes|
      ensures nodes[i].port != hole ==> filled[i] == nodes[i]
      ensures nodes[i].port == hole ==> filled[i].port in ports
    {
      FillAt(nodes, hole, ports, i);
    }
    if
      && KeptDistinct(nodes, hole)
      && forall i :: 0 <= i < |nodes| && nodes[i].port != hole ==> nodes[i].port !in ports
    {
      forall i, j | 0 <= i < j < |nodes|
        ensures filled[i].port != filled[j].port
      {
        if nodes[i].port == hole && nodes[j].port == hole {
          FillAt(nodes, hole, ports, i);
          FillAt(nodes, hole, ports, j);
          HolesStrictlyGrow(nodes, hole, i, j);
        }
      }
    }
    if Distinct(PortsOf(filled)) {
      forall i, n | 0 <= i < |nodes| && nodes[i].port != hole && 0 <= n < |ports|
        ensures nodes[i].port != ports[n]
      {
        var at := FillUsesAll(nodes, hole, ports, n);
        assert PortsOf(filled)[at] != PortsOf(filled)[i];
      }
      forall i, j | 0 <= i < j < |nodes| && nodes[i].port == nodes[j].port
        ensures nodes[i].port == hole
      {
        assert PortsOf(filled)[i] != PortsOf(filled)[j];
      }
    }
  }

  /** An untracked cursor: `normalize` only asks whether a port can be bound. */
  ghost function UntrackedPorts(k: nat, cursor: Port, bindable: set<Port>): (taken: seq<Port>)
    requires k > 0 ==> bindable != {}
    ensures |taken| == k
  {
    if k == 0 then []
    else
      var p := FirstFree(cursor, bindable);
      [p] + UntrackedPorts(k - 1, Next(p), bindable)
  }

  lemma {:induction false} UntrackedPortsAreBindable(k: nat, cursor: Port, bindable: set<Port>)
    requires k > 0 ==> bindable != {}
    ensures Elements(UntrackedPorts(k, cursor, bindable)) <= bindable
    decreases k
  {
    if k > 0 {
      UntrackedPortsAreBindable(k - 1, Next(FirstFree(cursor, bindable)), bindable);
    }
  }

  /** The hybrid fix-up restarts every walk at the same port, tracking what it took. */
  ghost function RestartedPorts(k: nat, start: Port, free: set<Port>): (taken: seq<Port>)
    requires k <= |free|
    ensures |taken| == k
  {
    if k == 0 then []
    else
      var p := FirstFree(start, free);
      [p] + RestartedPorts(k - 1, start, free - {p})
  }

  lemma NearestIsUnique(start: Port, free: set<Port>, p: Port)
    requires IsNearest(start, free, p)
    ensures free != {} && p == FirstFree(start, free)
  {
    assert Distance(start, p) == Distance(start, FirstFree(start, free));
  }

  /** Restarting costs time, not quality: the walk finds the same ports. */
  lemma {:induction false} RestartingIsHarmless(k: nat, start: Port, cursor: Port, free: set<Port>)
    requires k <= |free|
    requires forall q :: q in free ==> Distance(start, cursor) <= Distance(start, q)
    ensures RestartedPorts(k, start, free) == FreshPorts(k, cursor, free)
    decreases k
  {
    if k > 0 {
      var p := FirstFree(start, free);
      forall q | q in free
        ensures Distance(cursor, q) == Distance(start, q) - Distance(start, cursor)
      {
      }
      NearestIsUnique(cursor, free, p);
      if k > 1 {
        forall q | q in free - {p}
          ensures Distance(start, Next(p)) <= Distance(start, q)
        {
        }
        RestartingIsHarmless(k - 1, start, Next(p), free - {p});
      }
    }
  }

  /** The walk meets every port of `behind` after every free one. */
  ghost predicate AllBehind(cursor: Port, free: set<Port>, behind: set<Port>) {
    forall q, r :: q in free && r in behind ==> Distance(cursor, q) < Distance(cursor, r)
  }

  lemma AllBehindStep(cursor: Port, free: set<Port>, behind: set<Port>)
    requires free != {} && AllBehind(cursor, free, behind)
    ensures var p := FirstFree(cursor, free); AllBehind(Next(p), free - {p}, behind + {p})
  {
    var p := FirstFree(cursor, free);
    forall q, r | q in free - {p} && r in behind + {p}
      ensures Distance(Next(p), q) < Distance(Next(p), r)
    {
      assert Distance(cursor, p) < Distance(cursor, q);
      if r != p {
        assert Distance(cursor, q) < Distance(cursor, r);
      }
    }
  }

  lemma NearestStaysNearest(cursor: Port, free: set<Port>, behind: set<Port>)
    requires free != {} && AllBehind(cursor, free, behind)
    ensures FirstFree(cursor, free + behind) == FirstFree(cursor, free)
  {
    assert IsNearest(cursor, free + behind, FirstFree(cursor, free));
    NearestIsUnique(cursor, free + behind, FirstFree(cursor, free));
  }

  lemma TakenStaysBindable(free: set<Port>, behind: set<Port>, p: Port)
    requires p in free
    ensures free - {p} + (behind + {p}) == free + behind
  {
  }

  lemma UntrackedNext(k: nat, cursor: Port, bindable: set<Port>, p: Port)
    requires k > 0 && bindable != {} && p == FirstFree(cursor, bindable)
    ensures UntrackedPorts(k, cursor, bindable) == [p] + UntrackedPorts(k - 1, Next(p), bindable)
  {
  }

  lemma FreshNext(k: nat, cursor: Port, free: set<Port>)
    requires 0 < k <= |free|
    ensures var p := FirstFree(cursor, free);
      FreshPorts(k, cursor, free) == [p] + FreshPorts(k - 1, Next(p), free - {p})
  {
  }

  /** Not tracking is harmless too, as long as the bindable ports outnumber the nodes:
      `behind` are the ports already taken, which the cursor meets last. */
  lemma {:induction false} NotTrackingIsHarmless(k: nat, cursor: Port, free: set<Port>, behind: set<Port>)
    requires k <= |free|
    requires AllBehind(cursor, free, behind)
    ensures UntrackedPorts(k, cursor, free + behind) == FreshPorts(k, cursor, free)
    decreases k
  {
    if k > 0 {
      hide AllBehind, IsNearest, FirstFree, Next, UntrackedPorts, FreshPorts;
      var p := FirstFree(cursor, free);
      NearestStaysNearest(cursor, free, behind);
      AllBehindStep(cursor, free, behind);
      NotTrackingIsHarmless(k - 1, Next(p), free - {p}, behind + {p});
      TakenStaysBindable(free, behind, p);
      UntrackedNext(k, cursor, free + behind, p);
      FreshNext(k, cursor, free);
    }
  }

  // Where each allocator's loop stands once it has handed out `ports[..j]`.

  /** The cursor after `ports[..j]` has been handed out. */
  function CursorAt(start: Port, ports: seq<Port>, j: nat): Port
    requires j <= |ports|
  {
    if j == 0 then start else Next(ports[j - 1])
  }

  lemma NoElements(ports: seq<Port>)
    ensures Elements(ports[..0]) == {}
  {
  }

  lemma WithoutFirst(free: set<Port>, p: Port, rest: seq<Port>, j: nat)
    requires j < |rest|
    ensures free - Elements(([p] + rest)[..j + 1]) == free - {p} - Elements(rest[..j])
  {
    assert ([p] + rest)[..j + 1] == [p] + rest[..j];
  }

  lemma {:induction false} FreshPortsAt(k: nat, cursor: Port, free: set<Port>, j: nat)
    requires j < k <= |free|
    ensures var ports := FreshPorts(k, cursor, free);
      IsNearest(CursorAt(cursor, ports, j), free - Elements(ports[..j]), ports[j])
    decreases k
  {
    hide IsNearest, Next, Elements;
    var p := FirstFree(cursor, free);
    var rest := FreshPorts(k - 1, Next(p), free - {p});
    if j == 0 {
      NoElements(FreshPorts(k, cursor, free));
      assert free - {} == free;
    } else {
      FreshPortsAt(k - 1, Next(p), free - {p}, j - 1);
      WithoutFirst(free, p, rest, j - 1);
    }
  }

  lemma {:induction false} UntrackedPortsAt(k: nat, cursor: Port, bindable: set<Port>, j: nat)
    requires j < k && bindable != {}
    ensures var ports := UntrackedPorts(k, cursor, bindable);
      ports[j] == FirstFree(CursorAt(cursor, ports, j), bindable)
    decreases k
  {
    if j > 0 {
      UntrackedPortsAt(k - 1, Next(FirstFree(cursor, bindable)), bindable, j - 1);
    }
  }

  lemma RestartedPortsStep(k: nat, start: Port, free: set<Port>)
    requires 0 < k <= |free|
    ensures var p := FirstFree(start, free);
      RestartedPorts(k, start, free) == [p] + RestartedPorts(k - 1, start, free - {p})
  {
  }

  lemma {:induction false} RestartedPortsAt(k: nat, start: Port, free: set<Port>, j: nat)
    requires j < k <= |free|
    ensures var ports := RestartedPorts(k, start, free);
      IsNearest(start, free - Elements(ports[..j]), ports[j])
    decreases k
  {
    hide IsNearest, FirstFree, RestartedPorts;
    var p := FirstFree(start, free);
    var rest := RestartedPorts(k - 1, start, free - {p});
    var ports := RestartedPorts(k, start, free);
    RestartedPortsStep(k, start, free);
    if j == 0 {
      assert free - Elements(ports[..0]) == free;
    } else {
      RestartedPortsAt(k - 1, start, free - {p}, j - 1);
      assert ports[..j] == [p] + rest[..j - 1];
      assert free - Elements(ports[..j]) == free - {p} - Elements(rest[..j - 1]);
    }
  }

  lemma ElementsSnoc(ports: seq<Port>, j: nat)
    requires j < |ports|
    ensures Elements(ports[..j + 1]) == Elements(ports[..j]) + {ports[j]}
  {
    assert ports[..j + 1] == ports[..j] + [ports[j]];
  }

  /** What the next tracked walk finds, once `ports[..j]` are taken. */
  lemma NextFresh(k: nat, start: Port, used: set<Port>, bindable: set<Port>, j: nat)
    requires j < k <= |bindable - used|
    ensures var ports := FreshPorts(k, start, bindable - used);
      var taken := used + Elements(ports[..j]);
      && bindable - taken != {}
      && ports[j] == FirstFree(CursorAt(start, ports, j), bindable - taken)
      && taken + {ports[j]} == used + Elements(ports[..j + 1])
  {
    hide FreshPorts, FirstFree, IsNearest, Elements;
    var ports := FreshPorts(k, start, bindable - used);
    FreshPortsAt(k, start, bindable - used, j);
    ElementsSnoc(ports, j);
    assert bindable - (used + Elements(ports[..j])) == bindable - used - Elements(ports[..j]);
    NearestIsUnique(CursorAt(start, ports, j), bindable - used - Elements(ports[..j]), ports[j]);
  }

  /** The same for walks that restart. */
  lemma NextRestarted(k: nat, start: Port, used: set<Port>, bindable: set<Port>, j: nat)
    requires j < k <= |bindable - used|
    ensures var ports := RestartedPorts(k, start, bindable - used);
      var taken := used + Elements(ports[..j]);
      && bindable - taken != {}
      && ports[j] == FirstFree(start, bindable - taken)
      && taken + {ports[j]} == used + Elements(ports[..j + 1])
  {
    hide RestartedPorts, FirstFree, IsNearest, Elements;
    var ports := RestartedPorts(k, start, bindable - used);
    RestartedPortsAt(k, start, bindable - used, j);
    ElementsSnoc(ports, j);
    assert bindable - (used + Elements(ports[..j])) == bindable - used - Elements(ports[..j]);
    NearestIsUnique(start, bindable - used - Elements(ports[..j]), ports[j]);
  }

  // When the searches of a pass end.

  /** The walk from `start` comes to a free port sooner or later. */
  ghost predicate WalkEnds(start: Port, free: set<Port>) {
    exists n: nat :: Advance(start, n) in free
  }

  lemma WalkEndsIff(start: Port, free: set<Port>)
    ensures WalkEnds(start, free) <==> free != {}
  {
    WalkStopsIffSomePortIsFree(start, free);
  }

  /** `k` tracked walks in a row, each starting above the port the last one took, all end. */
  ghost predicate FreshWalksEnd(k: nat, cursor: Port, free: set<Port>)
    decreases k
  {
    k == 0 ||
    (WalkEnds(cursor, free) && free != {} &&
     var p := FirstFree(cursor, free); FreshWalksEnd(k - 1, Next(p), free - {p}))
  }

  /** They do exactly when there are enough free ports: one too few, and the last walk goes
      round for ever. */
  lemma {:induction false} FreshWalksEndIff(k: nat, cursor: Port, free: set<Port>)
    ensures FreshWalksEnd(k, cursor, free) <==> k <= |free|
    decreases k
  {
    hide WalkEnds, FirstFree;
    if k > 0 {
      WalkEndsIff(cursor, free);
      if free != {} {
        var p := FirstFree(cursor, free);
        FreshWalksEndIff(k - 1, Next(p), free - {p});
      }
    }
  }

  /** The same for tracked walks that all start at one port. */
  ghost predicate RestartedWalksEnd(k: nat, start: Port, free: set<Port>)
    decreases k
  {
    k == 0 ||
    (WalkEnds(start, free) && free != {} &&
     var p := FirstFree(start, free); RestartedWalksEnd(k - 1, start, free - {p}))
  }

  lemma {:induction false} RestartedWalksEndIff(k: nat, start: Port, free: set<Port>)
    ensures RestartedWalksEnd(k, start, free) <==> k <= |free|
    decreases k
  {
    hide WalkEnds, FirstFree;
    if k > 0 {
      WalkEndsIff(start, free);
      if free != {} {
        var p := FirstFree(start, free);
        RestartedWalksEndIff(k - 1, start, free - {p});
      }
    }
  }

  /** The same for walks that take no note of what they took. */
  ghost predicate UntrackedWalksEnd(k: nat, cursor: Port, bindable: set<Port>)
    decreases k
  {
    k == 0 ||
    (WalkEnds(cursor, bindable) && bindable != {} &&
     UntrackedWalksEnd(k - 1, Next(FirstFree(cursor, bindable)), bindable))
  }

  lemma {:induction false} UntrackedWalksEndIff(k: nat, cursor: Port, bindable: set<Port>)
    ensures UntrackedWalksEnd(k, cursor, bindable) <==> k == 0 || bindable != {}
    decreases k
  {
    hide WalkEnds, FirstFree;
    if k > 0 {
      WalkEndsIff(cursor, bindable);
      if bindable != {} {
        UntrackedWalksEndIff(k - 1, Next(FirstFree(cursor, bindable)), bindable);
      }
    }
  }
}
