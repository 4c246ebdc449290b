/** The search shared by the port allocators: walk up the `uint16` ports, wrapping
    from 65535 to 0, until one is free.  The source guards each walk with
    `port > 65535`, which a `uint16` never satisfies: the walk ends at a free port
    or not at all. */
module Ports {
  import opened Types

  const PORT_COUNT := 0x1_0000

  /** `port++` on a `uint16`. */
  function Next(p: Port): Port {
    if p == PORT_COUNT - 1 then 0 else p + 1
  }

  /** How many increments lead from one port to another. */
  function Distance(from: Port, to: Port): nat {
    if from <= to then to - from else to - from + PORT_COUNT
  }

  /** `port++`, n times. */
  function Advance(p: Port, n: nat): Port {
    (p + n) % PORT_COUNT
  }

  ghost predicate IsNearest(start: Port, free: set<Port>, p: Port) {
    p in free && forall q :: q in free ==> Distance(start, p) <= Distance(start, q)
  }

  lemma {:induction false} NearestExists(start: Port, free: set<Port>)
    requires free != {}
    ensures exists p :: IsNearest(start, free, p)
    decreases |free|
  {
    var p :| p in free;
    if free == {p} {
      assert IsNearest(start, free, p);
    } else {
      NearestExists(start, free - {p});
      var q :| IsNearest(start, free - {p}, q);
      assert IsNearest(start, free, if Distance(start, p) <= Distance(start, q) then p else q);
    }
  }

  /** The free port a walk from `start` stops at: the one fewest increments away. */
  ghost function FirstFree(start: Port, free: set<Port>): (p: Port)
    requires free != {}
    ensures IsNearest(start, free, p)
  {
    NearestExists(start, free);
    var p :| IsNearest(start, free, p);
    p
  }

  /** A walk that visits `start`, `start + 1`, ... stops exactly when some port is free. */
  lemma WalkStopsIffSomePortIsFree(start: Port, free: set<Port>)
    ensures (exists n: nat :: Advance(start, n) in free) <==> free != {}
  {
    if free != {} {
      var p :| p in free;
      assert Advance(start, Distance(start, p)) == p;
    }
  }

  /** The walk itself. */
  method NextFreePort(start: Port, used: set<Port>, bindable: set<Port>) returns (port: Port)
    requires bindable - used != {}
    ensures port == FirstFree(start, bindable - used)
  {
    ghost var goal := FirstFree(start, bindable - used);
    port := start;
    while port in used || port !in bindable
      invariant Distance(start, port) + Distance(port, goal) == Distance(start, goal)
      decreases Distance(port, goal)
    {
      port := Next(port);
    }
  }

  /** The ports a cursor hands out in `k` walks: each walk starts one above the port
      the previous one took. */
  ghost function FreshPorts(k: nat, cursor: Port, free: set<Port>): (taken: seq<Port>)
    requires k <= |free|
    ensures |taken| == k
    decreases k
  {
    if k == 0 then []
    else
      var p := FirstFree(cursor, free);
      [p] + FreshPorts(k - 1, Next(p), free - {p})
  }

  /** The free ports met before `p` on the walk up from `cursor`. */
  ghost function Before(cursor: Port, free: set<Port>, p: Port): set<Port> {
    set q | q in free && Distance(cursor, q) < Distance(cursor, p)
  }

  ghost function AtOrAbove(cursor: Port, free: set<Port>): set<Port> {
    set q | q in free && cursor <= q
  }

  lemma {:induction false} BeforeNext(cursor: Port, free: set<Port>, p: Port)
    requires p in free && p != FirstFree(cursor, free)
    ensures var first := FirstFree(cursor, free);
      Before(cursor, free, p) == {first} + Before(Next(first), free - {first}, p)
  {
    var first := FirstFree(cursor, free);
    forall q | q in free && q != first
      ensures Distance(cursor, q) == Distance(cursor, first) + 1 + Distance(Next(first), q)
    {
    }
  }

  /** A free port is handed out exactly when fewer than `k` free ports come before it:
      the allocator takes the `k` nearest free ports and no others. */
  lemma {:induction false} FreshPortsAreTheNearest(k: nat, cursor: Port, free: set<Port>, p: Port)
    requires k <= |free|
    ensures p in FreshPorts(k, cursor, free) <==> p in free && |Before(cursor, free, p)| < k
    decreases k
  {
    if k > 0 {
      var first := FirstFree(cursor, free);
      var rest := FreshPorts(k - 1, Next(first), free - {first});
      assert FreshPorts(k, cursor, free) == [first] + rest;
      FreshPortsAreTheNearest(k - 1, Next(first), free - {first}, p);
      if p == first {
        assert Before(cursor, free, p) == {};
      } else if p in free {
        BeforeNext(cursor, free, p);
        assert first !in Before(Next(first), free - {first}, p);
      }
    }
  }

  ghost predicate IsAscendingWalk(taken: seq<Port>, cursor: Port, free: set<Port>) {
    && (forall i :: 0 <= i < |taken| ==> taken[i] in free)
    && (forall i, j :: 0 <= i < j < |taken| ==> Distance(cursor, taken[i]) < Distance(cursor, taken[j]))
  }

  lemma PastTheFirst(cursor: Port, free: set<Port>, q: Port)
    requires q in free && q != FirstFree(cursor, free)
    ensures var first := FirstFree(cursor, free);
      Distance(cursor, q) == Distance(cursor, first) + 1 + Distance(Next(first), q)
  {
  }

  /** Successive ports lie ever further up the walk; in particular they are distinct. */
  lemma {:induction false} FreshPortsAdvance(k: nat, cursor: Port, free: set<Port>)
    requires k <= |free|
    ensures IsAscendingWalk(FreshPorts(k, cursor, free), cursor, free)
    decreases k
  {
    if k > 0 {
      var first := FirstFree(cursor, free);
      var rest := FreshPorts(k - 1, Next(first), free - {first});
      FreshPortsAdvance(k - 1, Next(first), free - {first});
      forall i | 0 <= i < |rest|
        ensures rest[i] in free
        ensures Distance(cursor, rest[i]) == Distance(cursor, first) + 1 + Distance(Next(first), rest[i])
      {
        PastTheFirst(cursor, free, rest[i]);
      }
    }
  }

  lemma FreshPortsDistinct(k: nat, cursor: Port, free: set<Port>)
    requires k <= |free|
    ensures Distinct(FreshPorts(k, cursor, free))
  {
    FreshPortsAdvance(k, cursor, free);
  }

  ghost predicate StaysAbove(taken: seq<Port>, cursor: Port) {
    forall i :: 0 <= i < |taken| ==> cursor <= taken[i]
  }

  ghost predicate IsIncreasing(taken: seq<Port>) {
    forall i, j :: 0 <= i < j < |taken| ==> taken[i] < taken[j]
  }

  ghost function Elements<T>(xs: seq<T>): set<T> {
    set x | x in xs
  }

  lemma {:induction false} SubsetSize<T>(a: set<T>, b: set<T>)
    requires a <= b
    ensures |a| <= |b|
    ensures a != b ==> |a| < |b|
  {
    assert b == a + (b - a);
  }

  lemma {:induction false} DistinctSize<T>(xs: seq<T>)
    requires Distinct(xs)
    ensures |Elements(xs)| == |xs|
    decreases |xs|
  {
    if xs != [] {
      var n := |xs| - 1;
      DistinctSize(xs[..n]);
      assert Elements(xs) == Elements(xs[..n]) + {xs[n]};
    }
  }

  /** With enough room above the cursor nothing wraps: the ports increase and stay at
      or above the cursor.  Without it the walk passes 0. */
  lemma FreshPortsWrapIff(k: nat, cursor: Port, free: set<Port>)
    requires k <= |free|
    ensures StaysAbove(FreshPorts(k, cursor, free), cursor) <==> k <= |AtOrAbove(cursor, free)|
    ensures k <= |AtOrAbove(cursor, free)| ==> IsIncreasing(FreshPorts(k, cursor, free))
  {
    var taken := FreshPorts(k, cursor, free);
    var above := AtOrAbove(cursor, free);
    FreshPortsAdvance(k, cursor, free);
    if k <= |above| {
      forall i | 0 <= i < k
        ensures cursor <= taken[i]
      {
        FreshPortsAreTheNearest(k, cursor, free, taken[i]);
        if taken[i] < cursor {
          SubsetSize(above, Before(cursor, free, taken[i]));
        }
      }
    } else if StaysAbove(taken, cursor) {
      DistinctSize(taken);
      assert Elements(taken) <= above;
      SubsetSize(Elements(taken), above);
    }
  }

  /** Port 0 counts as bindable (binding it asks the system for any port), so a walk
      that runs past 65535 hands it out: port 0 is assigned exactly when too few free
      ports lie at or above the cursor. */
  lemma ZeroIsHandedOutIff(k: nat, cursor: Port, free: set<Port>)
    requires k <= |free| && cursor > 0 && 0 in free
    ensures 0 in FreshPorts(k, cursor, free) <==> |AtOrAbove(cursor, free)| < k
  {
    FreshPortsAreTheNearest(k, cursor, free, 0);
    assert Before(cursor, free, 0) == AtOrAbove(cursor, free);
  }
}
