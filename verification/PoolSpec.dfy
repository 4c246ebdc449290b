/** What a pool does to the views of its members, as functions; members are named by their
    position in the pool. */
module PoolSpec {
  import opened Types
  import opened Monitor
  import opened SharedState

  datatype Mode = Sequential | Random | Balance

  const DIAL_ATTEMPTS := 3

  /** The networks each member supports, by position. */
  type Networks = seq<set<string>>

  predicate Supports(networks: set<string>, network: string) {
    network == "" || network in networks
  }

  /** Fit to be dialled at `now`. */
  predicate Usable(v: MemberView, networks: set<string>, now: nat, network: string) {
    !v.KnownBad() && !v.health.Blacklisted(now) && Supports(networks, network)
  }

  /** A scan asks the members that are not known bad whether they are blacklisted. */
  function Seen(v: MemberView, now: nat): MemberView {
    if v.KnownBad() then v else v.Checked(now)
  }

  function Scanned(views: seq<MemberView>, now: nat): (r: seq<MemberView>)
    ensures |r| == |views|
  {
    seq(|views|, i requires 0 <= i < |views| => Seen(views[i], now))
  }

  /** The usable members among the first `n`, in member order. */
  function AvailableUpTo(views: seq<MemberView>, nets: Networks, now: nat, network: string, n: nat): seq<nat>
    requires n <= |views| == |nets|
  {
    if n == 0 then []
    else
      AvailableUpTo(views, nets, now, network, n - 1) +
      (if Usable(views[n - 1], nets[n - 1], now, network) then [n - 1] else [])
  }

  function Available(views: seq<MemberView>, nets: Networks, now: nat, network: string): seq<nat>
    requires |views| == |nets|
  {
    AvailableUpTo(views, nets, now, network, |views|)
  }

  predicate AllBlacklisted(views: seq<MemberView>, now: nat) {
    forall i :: 0 <= i < |views| ==> views[i].health.Blacklisted(now)
  }

  function AllReleased(views: seq<MemberView>): (r: seq<MemberView>)
    ensures |r| == |views|
  {
    seq(|views|, i requires 0 <= i < |views| => views[i].Released())
  }

  /** The first member from `i` on that is not blacklisted, or the number of members. */
  function FirstOpen(views: seq<MemberView>, now: nat, i: nat): (j: nat)
    requires i <= |views|
    ensures i <= j <= |views|
    ensures forall k :: i <= k < j ==> views[k].health.Blacklisted(now)
    ensures j < |views| ==> !views[j].health.Blacklisted(now)
    decreases |views| - i
  {
    if i < |views| && views[i].health.Blacklisted(now) then FirstOpen(views, now, i + 1) else i
  }

  /** The search for a member that is not blacklisted asks the members up to it. */
  function AskedUpTo(views: seq<MemberView>, now: nat, j: nat): (r: seq<MemberView>)
    ensures |r| == |views|
  {
    seq(|views|, i requires 0 <= i < |views| => if i <= j then views[i].Checked(now) else views[i])
  }

  datatype Picked = Picked(views: seq<MemberView>, candidates: seq<nat>)

  /** `pickCandidates`; no candidates stands for "no healthy proxy available". */
  function Pick(views: seq<MemberView>, nets: Networks, now: nat, network: string): Picked
    requires |views| == |nets|
  {
    var first := Available(views, nets, now, network);
    var scanned := Scanned(views, now);
    if first != [] then Picked(scanned, first)
    else if views != [] && AllBlacklisted(scanned, now) then
      var released := AllReleased(scanned);
      Picked(Scanned(released, now), Available(released, nets, now, network))
    else if views == [] then Picked([], [])
    else Picked(AskedUpTo(scanned, now, FirstOpen(scanned, now, 0)), [])
  }

  lemma {:induction false} AvailableIsExact(views: seq<MemberView>, nets: Networks, now: nat, network: string, n: nat)
    requires n <= |views| == |nets|
    ensures var c := AvailableUpTo(views, nets, now, network, n);
      && (forall i: nat :: i in c <==> i < n && Usable(views[i], nets[i], now, network))
      && (forall a, b :: 0 <= a < b < |c| ==> c[a] < c[b])
    decreases n
  {
    if n > 0 {
      AvailableIsExact(views, nets, now, network, n - 1);
      var before := AvailableUpTo(views, nets, now, network, n - 1);
      forall a | 0 <= a < |before|
        ensures before[a] < n - 1
      {
        assert before[a] in before;
      }
    }
  }

  /** Checking changes nothing a later check could see. */
  lemma CheckingIsInvisible(h: Health, now: nat, later: nat)
    requires now <= later
    ensures h.Checked(now).Blacklisted(later) == h.Blacklisted(later)
    ensures h.Checked(now).failures == h.failures && h.Checked(now).active == h.active
    ensures h.Checked(now).Checked(later) == h.Checked(later)
  {
  }

  ghost predicate SomeUsable(views: seq<MemberView>, nets: Networks, now: nat, network: string)
    requires |views| == |nets|
  {
    exists i :: 0 <= i < |views| && Usable(views[i], nets[i], now, network)
  }

  ghost predicate SomeOpen(views: seq<MemberView>, now: nat) {
    exists i :: 0 <= i < |views| && !views[i].health.Blacklisted(now)
  }

  /** Some member is held back by its blacklist alone, if at all. */
  ghost predicate SomeFit(views: seq<MemberView>, nets: Networks, network: string)
    requires |views| == |nets|
  {
    exists i :: 0 <= i < |views| && !views[i].KnownBad() && Supports(nets[i], network)
  }

  /** `c` lists, in member order, exactly the members satisfying `Usable`. */
  ghost predicate ListsUsable(c: seq<nat>, views: seq<MemberView>, nets: Networks, now: nat, network: string)
    requires |views| == |nets|
  {
    && (forall i: nat :: i in c <==> i < |views| && Usable(views[i], nets[i], now, network))
    && (forall a, b :: 0 <= a < b < |c| ==> c[a] < c[b])
  }

  lemma AvailableLists(views: seq<MemberView>, nets: Networks, now: nat, network: string)
    requires |views| == |nets|
    ensures var c := Available(views, nets, now, network);
      ListsUsable(c, views, nets, now, network) && (c == [] <==> !SomeUsable(views, nets, now, network))
  {
    hide Usable;
    var c := Available(views, nets, now, network);
    AvailableIsExact(views, nets, now, network, |views|);
    if c != [] {
      assert c[0] in c;
    }
  }

  lemma ScanKeepsBlacklists(views: seq<MemberView>, now: nat)
    ensures AllBlacklisted(Scanned(views, now), now) <==> AllBlacklisted(views, now)
    ensures AllBlacklisted(views, now) <==> !SomeOpen(views, now)
  {
    forall i | 0 <= i < |views|
      ensures Scanned(views, now)[i].health.Blacklisted(now) == views[i].health.Blacklisted(now)
    {
    }
  }

  lemma ReleaseFreesTheFit(views: seq<MemberView>, nets: Networks, now: nat, network: string)
    requires |views| == |nets|
    ensures SomeUsable(AllReleased(Scanned(views, now)), nets, now, network) <==> SomeFit(views, nets, network)
  {
    var released := AllReleased(Scanned(views, now));
    forall i | 0 <= i < |views|
      ensures Usable(released[i], nets[i], now, network) <==> !views[i].KnownBad() && Supports(nets[i], network)
    {
    }
  }

  /** What makes members usable, field by field. */
  lemma AllUsableIff(views: seq<MemberView>, nets: Networks, now: nat, network: string)
    requires |views| == |nets|
    ensures forall i :: 0 <= i < |views| ==>
      (Usable(views[i], nets[i], now, network) <==>
        && (views[i].entry.None? || !views[i].entry.value.checked || views[i].entry.value.available)
        && !(views[i].health.blacklisted && now <= views[i].health.until)
        && (network == "" || network in nets[i]))
    ensures forall i :: 0 <= i < |views| ==>
      (!views[i].KnownBad() && Supports(nets[i], network) <==>
        && (views[i].entry.None? || !views[i].entry.value.checked || views[i].entry.value.available)
        && (network == "" || network in nets[i]))
  {
  }

  lemma PickFailsUnless(views: seq<MemberView>, nets: Networks, now: nat, network: string)
    requires |views| == |nets|
    ensures Pick(views, nets, now, network).candidates == [] <==>
      && !SomeUsable(views, nets, now, network)
      && (SomeOpen(views, now) || !SomeFit(views, nets, network))
  {
    hide Usable, Available, Scanned, AllReleased, SomeUsable, SomeOpen, AllBlacklisted;
    AvailableLists(views, nets, now, network);
    AvailableLists(AllReleased(Scanned(views, now)), nets, now, network);
    ScanKeepsBlacklists(views, now);
    ReleaseFreesTheFit(views, nets, now, network);
  }

  /** Picking fails exactly when every member was found dead by its check, or is blacklisted,
      or lacks the network, and either some member is not blacklisted, or each was found dead
      or lacks the network. */
  lemma PickFailsIff(views: seq<MemberView>, nets: Networks, now: nat, network: string)
    requires |views| == |nets|
    ensures Pick(views, nets, now, network).candidates == [] <==>
      && (forall i :: 0 <= i < |views| ==>
            || (views[i].entry.Some? && views[i].entry.value.checked && !views[i].entry.value.available)
            || (views[i].health.blacklisted && now <= views[i].health.until)
            || (network != "" && network !in nets[i]))
      && (|| (exists i :: 0 <= i < |views| && !(views[i].health.blacklisted && now <= views[i].health.until))
          || (forall i :: 0 <= i < |views| ==>
                || (views[i].entry.Some? && views[i].entry.value.checked && !views[i].entry.value.available)
                || (network != "" && network !in nets[i])))
  {
    PickFailsUnless(views, nets, now, network);
    AllUsableIff(views, nets, now, network);
  }

  /** As soon as some member was not found dead by its check, is not blacklisted and has the
      network, the candidates are exactly the members like that, in member order.  Picking does
      no more than clear, in both places, the blacklists that have run out of members that were
      not found dead. */
  lemma PickListsUsable(views: seq<MemberView>, nets: Networks, now: nat, network: string)
    requires |views| == |nets|
    requires exists i ::
      && 0 <= i < |views|
      && (views[i].entry.None? || !views[i].entry.value.checked || views[i].entry.value.available)
      && !(views[i].health.blacklisted && now <= views[i].health.until)
      && (network == "" || network in nets[i])
    ensures var p := Pick(views, nets, now, network);
      && |p.views| == |views|
      && (forall i: nat :: i in p.candidates <==>
            && i < |views|
            && (views[i].entry.None? || !views[i].entry.value.checked || views[i].entry.value.available)
            && !(views[i].health.blacklisted && now <= views[i].health.until)
            && (network == "" || network in nets[i]))
      && (forall a, b :: 0 <= a < b < |p.candidates| ==> p.candidates[a] < p.candidates[b])
      && (forall i :: 0 <= i < |views| ==>
            p.views[i] ==
            if (views[i].entry.Some? && views[i].entry.value.checked && !views[i].entry.value.available)
              || !views[i].health.blacklisted || now <= views[i].health.until then views[i]
            else
              MemberView(views[i].health.(blacklisted := false, until := 0),
                if views[i].entry.None? then None
                else Some(views[i].entry.value.(blacklist := false, until := 0))))
  {
    hide Usable;
    AllUsableIff(views, nets, now, network);
    AvailableLists(views, nets, now, network);
  }

  /** With every member blacklisted, each is released, in both places, with no failures and its
      load kept, and the candidates are exactly the members that were not found dead and have
      the network. */
  lemma PickReleasesAll(views: seq<MemberView>, nets: Networks, now: nat, network: string)
    requires |views| == |nets| && views != []
    requires forall i :: 0 <= i < |views| ==> views[i].health.blacklisted && now <= views[i].health.until
    ensures var p := Pick(views, nets, now, network);
      && |p.views| == |views|
      && (forall i :: 0 <= i < |views| ==>
            p.views[i] ==
            MemberView(Health(0, false, 0, views[i].health.active),
              if views[i].entry.None? then None
              else Some(views[i].entry.value.(blacklist := false, until := 0))))
      && (forall i: nat :: i in p.candidates <==>
            && i < |views|
            && (views[i].entry.None? || !views[i].entry.value.checked || views[i].entry.value.available)
            && (network == "" || network in nets[i]))
      && (forall a, b :: 0 <= a < b < |p.candidates| ==> p.candidates[a] < p.candidates[b])
  {
    hide Available, AvailableUpTo;
    var released := AllReleased(Scanned(views, now));
    AvailableLists(views, nets, now, network);
    AvailableLists(released, nets, now, network);
    ScanKeepsBlacklists(views, now);
    assert Scanned(released, now) == released;
  }

  /** With no usable member but one that is not blacklisted, nothing is released: all that
      changes is that blacklists which have run out are cleared, of members that were not found
      dead and of the first member that is not blacklisted. */
  lemma PickReleasesNone(views: seq<MemberView>, nets: Networks, now: nat, network: string)
    requires |views| == |nets|
    requires exists i :: 0 <= i < |views| && !(views[i].health.blacklisted && now <= views[i].health.until)
    requires forall i :: 0 <= i < |views| ==>
      || (views[i].entry.Some? && views[i].entry.value.checked && !views[i].entry.value.available)
      || (views[i].health.blacklisted && now <= views[i].health.until)
      || (network != "" && network !in nets[i])
    ensures var p := Pick(views, nets, now, network);
      && p.candidates == []
      && |p.views| == |views|
      && forall i :: 0 <= i < |views| ==>
           var dead := views[i].entry.Some? && views[i].entry.value.checked && !views[i].entry.value.available;
           var first := forall j :: 0 <= j < i ==> views[j].health.blacklisted && now <= views[j].health.until;
           p.views[i] ==
           if views[i].health.blacklisted && now > views[i].health.until && (!dead || first) then
             MemberView(views[i].health.(blacklisted := false, until := 0),
               if views[i].entry.None? then None
               else Some(views[i].entry.value.(blacklist := false, until := 0)))
           else views[i]
  {
    hide Usable, Available, AvailableUpTo;
    AllUsableIff(views, nets, now, network);
    AvailableLists(views, nets, now, network);
    ScanKeepsBlacklists(views, now);
  }

  ghost predicate AreMembers(order: seq<nat>, count: nat) {
    forall i :: 0 <= i < |order| ==> order[i] < count
  }

  /** Candidates are members, each listed once. */
  lemma PickedAreMembers(views: seq<MemberView>, nets: Networks, now: nat, network: string)
    requires |views| == |nets|
    ensures var p := Pick(views, nets, now, network);
      |p.views| == |views| && AreMembers(p.candidates, |views|) && Distinct(p.candidates)
  {
    hide Usable, AvailableUpTo;
    var released := AllReleased(Scanned(views, now));
    AvailableLists(views, nets, now, network);
    AvailableLists(released, nets, now, network);
    var c := Pick(views, nets, now, network).candidates;
    forall k | 0 <= k < |c|
      ensures c[k] < |views|
    {
      assert c[k] in c;
    }
  }

  // Dialling.

  /** What the outside answers: the error of each attempt, if it fails, and the time at
      which its outcome is recorded. */
  datatype Dialer = Dialer(error: nat -> Option<string>, clock: nat -> nat)

  datatype Policy = Policy(threshold: int, duration: nat)

  datatype DialResult = Connected(member: nat) | NoHealthyProxy | AllFailed(error: string)

  datatype Dialled = Dialled(views: seq<MemberView>, result: DialResult)

  function AttemptCount(candidates: nat): nat {
    if DIAL_ATTEMPTS > candidates then candidates else DIAL_ATTEMPTS
  }

  /** Attempts `i`, `i + 1`, ... up to `attempts`, in `order`. */
  function Try(views: seq<MemberView>, order: seq<nat>, attempts: nat, i: nat, d: Dialer, policy: Policy,
               lastError: string): (t: Dialled)
    requires i <= attempts <= |order| && AreMembers(order, |views|)
    ensures |t.views| == |views|
    decreases attempts - i
  {
    if i == attempts then Dialled(views, AllFailed(lastError))
    else
      var m := order[i];
      var dialling := views[m].Active(1);
      match d.error(i)
      case None => Dialled(views[m := dialling.Succeeded(d.clock(i))], Connected(m))
      case Some(error) =>
        var failed := dialling.Active(-1).Failed(error, d.clock(i), policy.threshold, policy.duration);
        Try(views[m := failed], order, attempts, i + 1, d, policy, error)
  }

  /** The first attempt from `i` on that succeeds, or `attempts`. */
  function FirstSuccess(d: Dialer, i: nat, attempts: nat): (w: nat)
    requires i <= attempts
    ensures i <= w <= attempts
    ensures forall k :: i <= k < w ==> d.error(k).Some?
    ensures w < attempts ==> d.error(w).None?
    decreases attempts - i
  {
    if i < attempts && d.error(i).Some? then FirstSuccess(d, i + 1, attempts) else i
  }

  /** A member that was tried and failed: load unchanged, one more failure. */
  function FailedOnce(v: MemberView, error: string, now: nat, policy: Policy): MemberView {
    v.Failed(error, now, policy.threshold, policy.duration)
  }

  /** A member that was tried and connected: one more connection, no failures. */
  function ConnectedOnce(v: MemberView, now: nat): MemberView {
    v.Active(1).Succeeded(now)
  }

  /** From `v` to `f`, an attempt failed: one more failure or, at the threshold, a blacklist
      and a count that restarts; the entry records the failure and mirrors the blacklist; the
      loads are as before. */
  ghost predicate FailedAs(v: MemberView, f: MemberView, error: string, now: nat, policy: Policy) {
    var triggers := v.health.failures + 1 >= policy.threshold;
    && f.health == (if triggers then Health(0, true, now + policy.duration, v.health.active)
                    else v.health.(failures := v.health.failures + 1))
    && (f.entry.None? <==> v.entry.None?)
    && (v.entry.Some? ==>
          && f.entry.value.timeline != []
          && f.entry.value.timeline[|f.entry.value.timeline| - 1] == TimelineEvent(now, false, 0, error)
          && f.entry.value == v.entry.value.(
               failure := v.entry.value.failure + 1, lastError := error, lastFail := now,
               timeline := f.entry.value.timeline,
               blacklist := if triggers then true else v.entry.value.blacklist,
               until := if triggers then now + policy.duration else v.entry.value.until))
  }

  lemma FailedOnFields(v: MemberView, error: string, now: nat, policy: Policy)
    ensures FailedAs(v, FailedOnce(v, error, now, policy), error, now, policy)
  {
  }

  /** From `v` to `c`, an attempt connected: no failures, and one more connection in both
      places. */
  ghost predicate ConnectedAs(v: MemberView, c: MemberView, now: nat) {
    && c.health == v.health.(failures := 0, active := v.health.active + 1)
    && (c.entry.None? <==> v.entry.None?)
    && (v.entry.Some? ==>
          && c.entry.value.timeline != []
          && c.entry.value.timeline[|c.entry.value.timeline| - 1] == TimelineEvent(now, true, 0, "")
          && c.entry.value == v.entry.value.(
               success := v.entry.value.success + 1, lastOK := now, active := v.entry.value.active + 1,
               timeline := c.entry.value.timeline))
  }

  lemma ConnectedOnFields(v: MemberView, now: nat)
    ensures ConnectedAs(v, ConnectedOnce(v, now), now)
  {
  }

  lemma ActiveCancels(v: MemberView)
    ensures v.Active(1).Active(-1) == v
  {
  }

  lemma TryStep(views: seq<MemberView>, order: seq<nat>, attempts: nat, i: nat, d: Dialer, policy: Policy,
                lastError: string)
    requires i < attempts <= |order| && AreMembers(order, |views|)
    ensures order[i] < |views|
    ensures var m := order[i];
      Try(views, order, attempts, i, d, policy, lastError) ==
      match d.error(i)
      case None => Dialled(views[m := ConnectedOnce(views[m], d.clock(i))], Connected(m))
      case Some(error) =>
        Try(views[m := FailedOnce(views[m], error, d.clock(i), policy)], order, attempts, i + 1, d, policy, error)
  {
    ActiveCancels(views[order[i]]);
  }

  lemma {:induction false} TryResult(views: seq<MemberView>, order: seq<nat>, attempts: nat, i: nat, d: Dialer,
                                     policy: Policy, lastError: string)
    requires i <= attempts <= |order| && AreMembers(order, |views|)
    ensures var w := FirstSuccess(d, i, attempts);
      Try(views, order, attempts, i, d, policy, lastError).result ==
        if w < attempts then Connected(order[w])
        else AllFailed(if i < attempts then d.error(attempts - 1).value else lastError)
    decreases attempts - i
  {
    if i < attempts {
      hide Try, FailedOnce, ConnectedOnce;
      TryStep(views, order, attempts, i, d, policy, lastError);
      match d.error(i) {
        case None =>
        case Some(error) =>
          var m := order[i];
          TryResult(views[m := FailedOnce(views[m], error, d.clock(i), policy)], order, attempts, i + 1, d, policy,
                    error);
      }
    }
  }

  /** A member that is not tried. */
  lemma {:induction false} TryUntried(views: seq<MemberView>, order: seq<nat>, attempts: nat, i: nat, d: Dialer,
                                      policy: Policy, lastError: string, m: nat)
    requires i <= attempts <= |order| && AreMembers(order, |views|) && m < |views|
    requires forall k :: i <= k <= FirstSuccess(d, i, attempts) && k < attempts ==> order[k] != m
    ensures Try(views, order, attempts, i, d, policy, lastError).views[m] == views[m]
    decreases attempts - i
  {
    if i < attempts {
      hide Try, FailedOnce, ConnectedOnce;
      TryStep(views, order, attempts, i, d, policy, lastError);
      match d.error(i) {
        case None =>
        case Some(error) =>
          var failed := FailedOnce(views[order[i]], error, d.clock(i), policy);
          TryUntried(views[order[i] := failed], order, attempts, i + 1, d, policy, error, m);
      }
    }
  }

  /** A member tried before the first success, or there. */
  lemma {:induction false} TryTried(views: seq<MemberView>, order: seq<nat>, attempts: nat, i: nat, d: Dialer,
                                    policy: Policy, lastError: string, k: nat)
    requires i <= k < attempts <= |order| && AreMembers(order, |views|) && Distinct(order)
    ensures order[k] < |views|
    ensures var v := Try(views, order, attempts, i, d, policy, lastError).views[order[k]];
      var w := FirstSuccess(d, i, attempts);
      && (k < w ==> v == FailedOnce(views[order[k]], d.error(k).value, d.clock(k), policy))
      && (k == w ==> v == ConnectedOnce(views[order[k]], d.clock(k)))
    decreases attempts - i
  {
    hide Try, FailedOnce, ConnectedOnce;
    TryStep(views, order, attempts, i, d, policy, lastError);
    match d.error(i) {
      case None =>
      case Some(error) =>
        var failed := views[order[i] := FailedOnce(views[order[i]], error, d.clock(i), policy)];
        if i < k {
          TryTried(failed, order, attempts, i + 1, d, policy, error, k);
        } else {
          TryUntried(failed, order, attempts, i + 1, d, policy, error, order[i]);
        }
    }
  }

  /** The failover contract.  The attempts stop at the first success `w`; each member tried
      before it has exactly one failure recorded and its load unchanged; the winner has one
      more connection and no failures; nobody else changes; and an error, that of the last
      attempt, means every attempt failed. */
  lemma FailoverContract(views: seq<MemberView>, order: seq<nat>, attempts: nat, i: nat, d: Dialer, policy: Policy,
                         lastError: string)
    requires i <= attempts <= |order| && AreMembers(order, |views|) && Distinct(order)
    ensures var t := Try(views, order, attempts, i, d, policy, lastError);
      var w := FirstSuccess(d, i, attempts);
      && |t.views| == |views|
      && t.result == (if w < attempts then Connected(order[w])
                      else AllFailed(if i < attempts then d.error(attempts - 1).value else lastError))
      && (forall k :: i <= k < w ==>
            t.views[order[k]] == FailedOnce(views[order[k]], d.error(k).value, d.clock(k), policy))
      && (w < attempts ==> t.views[order[w]] == ConnectedOnce(views[order[w]], d.clock(w)))
      && (forall m :: 0 <= m < |views| && (forall k :: i <= k <= w && k < attempts ==> order[k] != m) ==>
            t.views[m] == views[m])
  {
    hide Try, FailedOnce, ConnectedOnce;
    TryResult(views, order, attempts, i, d, policy, lastError);
    var w := FirstSuccess(d, i, attempts);
    forall k | i <= k < attempts
      ensures order[k] < |views|
      ensures var v := Try(views, order, attempts, i, d, policy, lastError).views[order[k]];
        && (k < w ==> v == FailedOnce(views[order[k]], d.error(k).value, d.clock(k), policy))
        && (k == w ==> v == ConnectedOnce(views[order[k]], d.clock(k)))
    {
      TryTried(views, order, attempts, i, d, policy, lastError, k);
    }
    forall m | 0 <= m < |views| && (forall k :: i <= k <= w && k < attempts ==> order[k] != m)
      ensures Try(views, order, attempts, i, d, policy, lastError).views[m] == views[m]
    {
      TryUntried(views, order, attempts, i, d, policy, lastError, m);
    }
  }

  // Orders.

  function Rotated(candidates: seq<nat>, start: nat): seq<nat>
    requires start <= |candidates|
  {
    candidates[start..] + candidates[..start]
  }

  ghost predicate IsPermutation(order: seq<nat>, candidates: seq<nat>) {
    multiset(order) == multiset(candidates)
  }

  function Load(views: seq<MemberView>, m: nat): int {
    if m < |views| then views[m].health.active else 0
  }

  ghost predicate SortedByLoad(order: seq<nat>, views: seq<MemberView>) {
    forall a, b :: 0 <= a < b < |order| ==> Load(views, order[a]) <= Load(views, order[b])
  }

  /** The orders in which a pool may try its candidates: round robin from the counter, any
      shuffle, or any arrangement by increasing load. */
  ghost predicate IsOrder(mode: Mode, counter: nat, candidates: seq<nat>, views: seq<MemberView>, order: seq<nat>) {
    candidates != [] &&
    match mode
    case Sequential => order == Rotated(candidates, counter % |candidates|)
    case Random => IsPermutation(order, candidates)
    case Balance => IsPermutation(order, candidates) && SortedByLoad(order, views)
  }

  /** The first of the least loaded candidates. */
  ghost predicate IsFirstLeast(candidates: seq<nat>, views: seq<MemberView>, k: nat) {
    && k < |candidates|
    && (forall j :: 0 <= j < k ==> Load(views, candidates[j]) > Load(views, candidates[k]))
    && (forall j :: 0 <= j < |candidates| ==> Load(views, candidates[j]) >= Load(views, candidates[k]))
  }

  /** The one member to use, by mode. */
  ghost predicate IsSelected(mode: Mode, counter: nat, random: nat, candidates: seq<nat>, views: seq<MemberView>,
                             m: nat) {
    candidates != [] &&
    match mode
    case Sequential => m == candidates[counter % |candidates|]
    case Random => m == candidates[random % |candidates|]
    case Balance => exists k: nat :: IsFirstLeast(candidates, views, k) && m == candidates[k]
  }

  lemma RotationIsPermutation(candidates: seq<nat>, start: nat)
    requires start <= |candidates|
    ensures IsPermutation(Rotated(candidates, start), candidates)
  {
    assert candidates == candidates[..start] + candidates[start..];
  }

  lemma {:induction false} OccursOnce(xs: seq<nat>, x: nat)
    requires Distinct(xs)
    ensures multiset(xs)[x] <= 1
    decreases |xs|
  {
    if xs != [] {
      var n := |xs| - 1;
      OccursOnce(xs[..n], x);
      assert xs == xs[..n] + [xs[n]];
      if xs[n] == x {
        assert x !in xs[..n];
        assert multiset(xs[..n])[x] == 0;
      }
    }
  }

  lemma OccursTwice(xs: seq<nat>, i: nat, j: nat)
    requires i < j < |xs|
    ensures xs[i] == xs[j] ==> multiset(xs)[xs[i]] >= 2
  {
    assert xs == xs[..i] + [xs[i]] + xs[i + 1..j] + [xs[j]] + xs[j + 1..];
  }

  lemma PermutationKeeps(order: seq<nat>, candidates: seq<nat>)
    requires IsPermutation(order, candidates)
    ensures |order| == |candidates|
    ensures forall x :: x in order <==> x in candidates
    ensures Distinct(candidates) ==> Distinct(order)
  {
    assert |multiset(order)| == |multiset(candidates)|;
    forall x
      ensures x in order <==> x in candidates
    {
      assert x in order <==> x in multiset(order);
      assert x in candidates <==> x in multiset(candidates);
    }
    if Distinct(candidates) {
      forall i, j | 0 <= i < j < |order|
        ensures order[i] != order[j]
      {
        OccursOnce(candidates, order[i]);
        OccursTwice(order, i, j);
      }
    }
  }

  lemma PermutationKeepsMembers(order: seq<nat>, candidates: seq<nat>, count: nat)
    requires IsPermutation(order, candidates) && AreMembers(candidates, count)
    ensures AreMembers(order, count)
  {
    PermutationKeeps(order, candidates);
    forall i | 0 <= i < |order|
      ensures order[i] < count
    {
      assert order[i] in order;
    }
  }

  /** In every mode the candidates are tried in an order without repetition that covers
      exactly the candidates. */
  lemma OrdersCoverCandidates(mode: Mode, counter: nat, candidates: seq<nat>, views: seq<MemberView>, order: seq<nat>)
    requires IsOrder(mode, counter, candidates, views, order)
    requires forall a, b :: 0 <= a < b < |candidates| ==> candidates[a] < candidates[b]
    ensures |order| == |candidates| && Distinct(order)
    ensures forall x :: x in order <==> x in candidates
  {
    if mode.Sequential? {
      RotationIsPermutation(candidates, counter % |candidates|);
    }
    PermutationKeeps(order, candidates);
  }

  /** In balance mode no candidate left untried, after three attempts, carries fewer
      connections than one that was tried. */
  lemma TriedAreLeastLoaded(counter: nat, candidates: seq<nat>, views: seq<MemberView>, order: seq<nat>, tried: nat,
                            untried: nat)
    requires IsOrder(Balance, counter, candidates, views, order) && AreMembers(order, |views|)
    requires tried < 3 <= untried < |order|
    ensures views[order[tried]].health.active <= views[order[untried]].health.active
  {
    assert Load(views, order[tried]) <= Load(views, order[untried]);
  }

  /** Selecting one member and dialling agree on where to begin: the selected member is as
      little loaded as the first one tried, and in sequential mode it is the same. */
  lemma SelectedIsTriedFirst(mode: Mode, counter: nat, random: nat, candidates: seq<nat>, views: seq<MemberView>,
                             order: seq<nat>, m: nat)
    requires IsSelected(mode, counter, random, candidates, views, m)
    requires IsOrder(mode, counter, candidates, views, order)
    ensures order != [] && m in candidates
    ensures mode.Sequential? ==> order[0] == m
    ensures mode.Balance? && AreMembers(candidates, |views|) ==>
      order[0] < |views| && m < |views| && views[order[0]].health.active == views[m].health.active
  {
    hide IsPermutation;
    if mode.Sequential? {
      RotationIsPermutation(candidates, counter % |candidates|);
    }
    PermutationKeeps(order, candidates);
    assert order[0] in order;
    if mode.Balance? {
      var b: nat :| IsFirstLeast(candidates, views, b) && m == candidates[b];
      assert m in candidates && m in order;
      var a :| 0 <= a < |order| && order[a] == m;
      var k :| 0 <= k < |candidates| && candidates[k] == order[0];
      assert Load(views, candidates[k]) >= Load(views, m);
    }
  }

  /** `t` is the outcome of one whole dial whose candidates were lined up in `order`. */
  ghost predicate IsDial(views: seq<MemberView>, nets: Networks, now: nat, network: string, order: seq<nat>, d: Dialer,
                         policy: Policy, t: Dialled)
    requires |views| == |nets|
  {
    var p := Pick(views, nets, now, network);
    if p.candidates == [] then t == Dialled(p.views, NoHealthyProxy)
    else AreMembers(order, |p.views|) && t == Try(p.views, order, AttemptCount(|order|), 0, d, policy, "")
  }

  /** The candidates are exactly the members usable once picking is over. */
  lemma PickedAreUsable(views: seq<MemberView>, nets: Networks, now: nat, network: string)
    requires |views| == |nets|
    ensures var p := Pick(views, nets, now, network);
      && |p.views| == |views|
      && (p.candidates != [] ==>
            && ListsUsable(p.candidates, p.views, nets, now, network)
            && forall i: nat :: i in p.candidates <==>
                 && i < |views|
                 && (p.views[i].entry.None? || !p.views[i].entry.value.checked || p.views[i].entry.value.available)
                 && !(p.views[i].health.blacklisted && now <= p.views[i].health.until)
                 && (network == "" || network in nets[i]))
  {
    AllUsableIff(Pick(views, nets, now, network).views, nets, now, network);
    hide Available, AvailableUpTo;
    var scanned := Scanned(views, now);
    var released := AllReleased(scanned);
    AvailableLists(views, nets, now, network);
    AvailableLists(released, nets, now, network);
    assert forall i :: 0 <= i < |views| ==>
      Usable(scanned[i], nets[i], now, network) == Usable(views[i], nets[i], now, network);
    assert Scanned(released, now) == released;
  }

  lemma DialFindsNobody(views: seq<MemberView>, nets: Networks, now: nat, network: string, order: seq<nat>, d: Dialer,
                        policy: Policy, t: Dialled)
    requires |views| == |nets| && IsDial(views, nets, now, network, order, d, policy, t)
    requires Pick(views, nets, now, network).candidates == []
    ensures |Pick(views, nets, now, network).views| == |views|
    ensures t == Dialled(Pick(views, nets, now, network).views, NoHealthyProxy)
  {
    hide Pick;
    PickedAreMembers(views, nets, now, network);
  }

  lemma TriedAreUsable(views: seq<MemberView>, nets: Networks, now: nat, network: string, mode: Mode, counter: nat,
                       order: seq<nat>)
    requires |views| == |nets| && Pick(views, nets, now, network).candidates != []
    requires var p := Pick(views, nets, now, network); IsOrder(mode, counter, p.candidates, p.views, order)
    ensures var p := Pick(views, nets, now, network);
      && |p.views| == |views| && |order| == |p.candidates| && Distinct(order)
      && (forall m: nat :: m in order <==> m in p.candidates)
      && (forall k :: 0 <= k < |order| ==>
            && order[k] < |views|
            && (p.views[order[k]].entry.None? || !p.views[order[k]].entry.value.checked ||
                p.views[order[k]].entry.value.available)
            && !(p.views[order[k]].health.blacklisted && now <= p.views[order[k]].health.until)
            && (network == "" || network in nets[order[k]]))
  {
    hide Usable, Pick, IsOrder;
    var p := Pick(views, nets, now, network);
    PickedAreMembers(views, nets, now, network);
    PickedAreUsable(views, nets, now, network);
    OrdersCoverCandidates(mode, counter, p.candidates, p.views, order);
    assert forall k :: 0 <= k < |order| ==> order[k] in p.candidates;
  }

  /** What the attempts of a dial leave behind. */
  lemma DialEffects(views: seq<MemberView>, nets: Networks, now: nat, network: string, order: seq<nat>, d: Dialer,
                    policy: Policy, t: Dialled)
    requires |views| == |nets| && IsDial(views, nets, now, network, order, d, policy, t)
    requires Pick(views, nets, now, network).candidates != [] && order != [] && Distinct(order)
    ensures var p := Pick(views, nets, now, network);
      var attempts := if |order| < 3 then |order| else 3;
      var w := FirstSuccess(d, 0, attempts);
      && |t.views| == |p.views| && (forall k :: 0 <= k < |order| ==> order[k] < |p.views|)
      && t.result == (if w < attempts then Connected(order[w]) else AllFailed(d.error(attempts - 1).value))
      && (forall k :: 0 <= k < w ==>
            FailedAs(p.views[order[k]], t.views[order[k]], d.error(k).value, d.clock(k), policy))
      && (w < attempts ==> ConnectedAs(p.views[order[w]], t.views[order[w]], d.clock(w)))
      && (forall m :: 0 <= m < |p.views| && (forall k :: 0 <= k <= w && k < attempts ==> order[k] != m) ==>
            t.views[m] == p.views[m])
  {
    hide Pick, Try, FirstSuccess, FailedOnce, ConnectedOnce, FailedAs, ConnectedAs;
    var p := Pick(views, nets, now, network);
    var attempts := AttemptCount(|order|);
    FailoverContract(p.views, order, attempts, 0, d, policy, "");
    forall k | 0 <= k < FirstSuccess(d, 0, attempts)
      ensures FailedAs(p.views[order[k]], t.views[order[k]], d.error(k).value, d.clock(k), policy)
    {
      FailedOnFields(p.views[order[k]], d.error(k).value, d.clock(k), policy);
    }
    if FirstSuccess(d, 0, attempts) < attempts {
      var w := FirstSuccess(d, 0, attempts);
      ConnectedOnFields(p.views[order[w]], d.clock(w));
    }
  }

  /** A dial that finds no candidates changes what picking changed and nothing else.
      Otherwise, whatever the mode, it tries at most three different candidates, each not found
      dead, not blacklisted and on the network, up to the first success `w`.  Those before it
      get one more failure, or at the threshold a blacklist; the one that connected gets one
      more connection and no failures; nobody else changes.  An error means that all the
      attempts failed, and is the last one. */
  lemma DialContract(views: seq<MemberView>, nets: Networks, now: nat, network: string, mode: Mode, counter: nat,
                     order: seq<nat>, d: Dialer, policy: Policy, t: Dialled)
    requires |views| == |nets| && IsDial(views, nets, now, network, order, d, policy, t)
    requires var p := Pick(views, nets, now, network);
      p.candidates != [] ==> IsOrder(mode, counter, p.candidates, p.views, order)
    ensures var p := Pick(views, nets, now, network);
      var attempts := if |p.candidates| < 3 then |p.candidates| else 3;
      var w := FirstSuccess(d, 0, attempts);
      && |t.views| == |p.views| == |views|
      && if p.candidates == [] then t == Dialled(p.views, NoHealthyProxy)
         else
           && |order| == |p.candidates|
           && (forall a, b :: 0 <= a < b < |order| ==> order[a] != order[b])
           && (forall m: nat :: m in order <==> m in p.candidates)
           && (forall k :: 0 <= k < |order| ==>
                 && order[k] < |views|
                 && (p.views[order[k]].entry.None? || !p.views[order[k]].entry.value.checked ||
                     p.views[order[k]].entry.value.available)
                 && !(p.views[order[k]].health.blacklisted && now <= p.views[order[k]].health.until)
                 && (network == "" || network in nets[order[k]]))
           && t.result == (if w < attempts then Connected(order[w]) else AllFailed(d.error(attempts - 1).value))
           && (forall k :: 0 <= k < w ==>
                 FailedAs(p.views[order[k]], t.views[order[k]], d.error(k).value, d.clock(k), policy))
           && (w < attempts ==> ConnectedAs(p.views[order[w]], t.views[order[w]], d.clock(w)))
           && (forall m :: 0 <= m < |views| && (forall k :: 0 <= k <= w && k < attempts ==> order[k] != m) ==>
                 t.views[m] == p.views[m])
  {
    hide Usable, Pick, IsOrder, IsDial, FailedAs, ConnectedAs;
    var p := Pick(views, nets, now, network);
    if p.candidates == [] {
      DialFindsNobody(views, nets, now, network, order, d, policy, t);
    } else {
      TriedAreUsable(views, nets, now, network, mode, counter, order);
      DialEffects(views, nets, now, network, order, d, policy, t);
    }
  }
}
