/** The load of a member, in its shared state and in its monitor entry, over any sequence of
    whole dials and closes. */
module Loads {
  import opened Types
  import opened SharedState
  import opened PoolSpec

  /** A dial with its outcome, or the first close of a connection through a member. */
  datatype Event =
    | Dials(now: nat, network: string, mode: Mode, counter: nat, order: seq<nat>, dialer: Dialer, result: DialResult)
    | Closes(member: nat)

  ghost predicate IsStep(before: seq<MemberView>, e: Event, after: seq<MemberView>, nets: Networks, policy: Policy) {
    && |before| == |nets|
    && match e
       case Dials(now, network, mode, counter, order, d, result) =>
         && IsDial(before, nets, now, network, order, d, policy, Dialled(after, result))
         && var p := Pick(before, nets, now, network);
            p.candidates != [] ==> IsOrder(mode, counter, p.candidates, p.views, order)
       case Closes(m) => m < |before| && after == before[m := before[m].Active(-1)]
  }

  /** How many connections through `m` the events opened. */
  function Opened(events: seq<Event>, m: nat): nat {
    if events == [] then 0
    else
      var e := events[|events| - 1];
      Opened(events[..|events| - 1], m) + (if e.Dials? && e.result == Connected(m) then 1 else 0)
  }

  /** How many they closed. */
  function Closed(events: seq<Event>, m: nat): nat {
    if events == [] then 0
    else
      var e := events[|events| - 1];
      Closed(events[..|events| - 1], m) + (if e == Closes(m) then 1 else 0)
  }

  /** Moving the load by `delta` moves it in both places and changes nothing else. */
  lemma ActiveOnFields(v: MemberView, delta: int)
    ensures v.Active(delta) ==
      MemberView(Health(v.health.failures, v.health.blacklisted, v.health.until, v.health.active + delta),
        if v.entry.None? then None else Some(v.entry.value.(active := v.entry.value.active + delta)))
  {
  }

  /** From `v` to `w` the load moved by `delta`, in both places. */
  ghost predicate MovedBy(v: MemberView, w: MemberView, delta: int) {
    && w.health.active == v.health.active + delta
    && (w.entry.None? <==> v.entry.None?)
    && (v.entry.Some? ==> w.entry.value.active == v.entry.value.active + delta)
  }

  lemma PickingMovesNothing(views: seq<MemberView>, nets: Networks, now: nat, network: string, m: nat)
    requires |views| == |nets| && m < |views|
    ensures |Pick(views, nets, now, network).views| == |views|
    ensures MovedBy(views[m], Pick(views, nets, now, network).views[m], 0)
  {
    hide Available;
  }

  lemma DialMoves(before: seq<MemberView>, nets: Networks, now: nat, network: string, mode: Mode, counter: nat,
                  order: seq<nat>, d: Dialer, policy: Policy, t: Dialled, m: nat)
    requires |before| == |nets| && IsDial(before, nets, now, network, order, d, policy, t) && m < |nets|
    requires var p := Pick(before, nets, now, network);
      p.candidates != [] ==> IsOrder(mode, counter, p.candidates, p.views, order)
    ensures |t.views| == |nets| && |Pick(before, nets, now, network).views| == |nets|
    ensures MovedBy(Pick(before, nets, now, network).views[m], t.views[m], if t.result == Connected(m) then 1 else 0)
  {
    hide Pick, IsOrder, Try;
    var p := Pick(before, nets, now, network);
    if p.candidates == [] {
      DialFindsNobody(before, nets, now, network, order, d, policy, t);
    } else {
      TriedAreUsable(before, nets, now, network, mode, counter, order);
      DialEffects(before, nets, now, network, order, d, policy, t);
      var attempts := if |order| < 3 then |order| else 3;
      var w := FirstSuccess(d, 0, attempts);
      if k :| 0 <= k <= w && k < attempts && order[k] == m {
        assert w < attempts && k < w ==> order[k] != order[w];
      }
    }
  }

  lemma StepMoves(before: seq<MemberView>, e: Event, after: seq<MemberView>, nets: Networks, policy: Policy, m: nat)
    requires IsStep(before, e, after, nets, policy) && m < |nets|
    ensures |after| == |nets|
    ensures MovedBy(before[m], after[m],
              (if e.Dials? && e.result == Connected(m) then 1 else 0) - (if e == Closes(m) then 1 else 0))
  {
    match e {
      case Closes(c) =>
        ActiveOnFields(before[c], -1);
      case Dials(now, network, mode, counter, order, d, result) =>
        hide Pick, IsDial, IsOrder;
        PickingMovesNothing(before, nets, now, network, m);
        DialMoves(before, nets, now, network, mode, counter, order, d, policy, Dialled(after, result), m);
    }
  }

  /** The accounting law of a pool: from any views, over any sequence of whole dials, in any
      modes, and closes, a member's load is what it was, plus the dials that connected through
      it, minus the closes of such connections, in the shared state and in the monitor alike.
      So the two are equal whenever they were equal at first. */
  lemma {:induction false} LoadsAreConnections(states: seq<seq<MemberView>>, events: seq<Event>, nets: Networks,
                                               policy: Policy, m: nat)
    requires |states| == |events| + 1 && |states[0]| == |nets| && m < |nets|
    requires forall t :: 0 <= t < |events| ==> IsStep(states[t], events[t], states[t + 1], nets, policy)
    ensures var first, last := states[0], states[|events|];
      && |last| == |nets|
      && last[m].health.active == first[m].health.active + Opened(events, m) - Closed(events, m)
      && (last[m].entry.None? <==> first[m].entry.None?)
      && (first[m].entry.Some? ==>
            last[m].entry.value.active == first[m].entry.value.active + Opened(events, m) - Closed(events, m))
    decreases |events|
  {
    hide IsStep;
    if events != [] {
      var n := |events| - 1;
      LoadsAreConnections(states[..|events|], events[..n], nets, policy, m);
      assert IsStep(states[n], events[n], states[n + 1], nets, policy);
      StepMoves(states[n], events[n], states[n + 1], nets, policy, m);
    }
  }
}
