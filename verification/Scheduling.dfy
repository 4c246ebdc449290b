/** Fairness of the two deterministic schedulers over many dials: round robin by counter,
    and least loaded first. */
module Scheduling {
  import opened Types
  import opened SharedState
  import opened PoolSpec

  const UINT32_COUNT := 0x1_0000_0000

  // Round robin.

  /** The counter is a `uint32`; a dial starts at its value before the increment. */
  function NextCounter(counter: nat): nat {
    (counter + 1) % UINT32_COUNT
  }

  /** The candidate, among `n`, that attempt `i` of a dial with this counter tries. */
  function Tried(counter: nat, i: nat, n: nat): nat
    requires n > 0
  {
    (counter + i) % n
  }

  lemma RemainderOf(c: nat, t: nat, n: nat)
    requires n > 0 && t < n
    ensures (c + t) % n == if c % n + t < n then c % n + t else c % n + t - n
  {
    var q, r := c / n, c % n;
    assert c == q * n + r;
    if r + t < n {
      RemainderIsUnique(q, r + t, n, c + t);
    } else {
      assert c + t == (q + 1) * n + (r + t - n);
      RemainderIsUnique(q + 1, r + t - n, n, c + t);
    }
  }

  /** Attempt `i` of a sequential dial goes to the candidate `i` places past the start. */
  lemma SequentialOrder(counter: nat, candidates: seq<nat>, i: nat)
    requires i < |candidates|
    ensures Rotated(candidates, counter % |candidates|)[i] == candidates[Tried(counter, i, |candidates|)]
  {
    RemainderOf(counter, i, |candidates|);
  }

  lemma NextRemainder(counter: nat, n: nat)
    requires n > 0
    ensures (counter % n + 1) % n == (counter + 1) % n
  {
    if n > 1 {
      RemainderOf(counter, 1, n);
      if counter % n + 1 == n {
        RemainderIsUnique(1, 0, n, n);
      } else {
        RemainderIsUnique(0, counter % n + 1, n, counter % n + 1);
      }
    }
  }

  /** Successive dials start on successive candidates, except that the counter's wrap from
      4294967295 to 0 jumps unless the number of candidates divides 2^32. */
  lemma SuccessiveStartsIff(counter: nat, n: nat)
    requires n > 0 && counter < UINT32_COUNT
    ensures NextCounter(counter) % n == (counter % n + 1) % n <==>
      counter < UINT32_COUNT - 1 || UINT32_COUNT % n == 0
  {
    NextRemainder(counter, n);
    if counter == UINT32_COUNT - 1 {
      assert NextCounter(counter) == 0;
    } else {
      assert NextCounter(counter) == counter + 1;
    }
  }

  /** How many of `m` consecutive numbers from `c` leave remainder `j`. */
  function Hits(c: nat, m: nat, n: nat, j: nat): nat
    requires n > 0
  {
    if m == 0 then 0 else Hits(c, m - 1, n, j) + (if (c + m - 1) % n == j then 1 else 0)
  }

  /** How often `dials` dials from counter `c`, all attempts failing, try candidate `j`. */
  function TriesOf(c: nat, dials: nat, n: nat, j: nat): nat
    requires n > 0
  {
    if dials == 0 then 0 else TriesOf(c, dials - 1, n, j) + Hits(c + dials - 1, AttemptCount(n), n, j)
  }

  lemma {:induction false} HitsConcat(c: nat, a: nat, b: nat, n: nat, j: nat)
    requires n > 0
    ensures Hits(c, a + b, n, j) == Hits(c, a, n, j) + Hits(c + a, b, n, j)
    decreases b
  {
    if b > 0 {
      HitsConcat(c, a, b - 1, n, j);
    }
  }

  /** Within one period, remainder `j` occurs once, at a fixed offset. */
  lemma {:induction false} HitsInPeriod(c: nat, m: nat, n: nat, j: nat)
    requires m <= n && j < n
    ensures var offset := if c % n <= j then j - c % n else j + n - c % n;
      Hits(c, m, n, j) == if offset < m then 1 else 0
    decreases m
  {
    if m > 0 {
      HitsInPeriod(c, m - 1, n, j);
      RemainderOf(c, m - 1, n);
    }
  }

  lemma {:induction false} HitsInPeriods(c: nat, k: nat, n: nat, j: nat)
    requires j < n
    ensures Hits(c, k * n, n, j) == k
    decreases k
  {
    if k == 0 {
      assert k * n == 0;
    } else {
      HitsInPeriods(c, k - 1, n, j);
      assert k * n == (k - 1) * n + n;
      HitsConcat(c, (k - 1) * n, n, n, j);
      HitsInPeriod(c + (k - 1) * n, n, n, j);
    }
  }

  /** Counting attempt by attempt instead of dial by dial. */
  function TriesByAttempt(c: nat, dials: nat, attempts: nat, n: nat, j: nat): nat
    requires n > 0
  {
    if attempts == 0 then 0
    else TriesByAttempt(c, dials, attempts - 1, n, j) + Hits(c + attempts - 1, dials, n, j)
  }

  lemma {:induction false} OneMoreDial(c: nat, dials: nat, attempts: nat, n: nat, j: nat)
    requires n > 0
    ensures TriesByAttempt(c, dials + 1, attempts, n, j)
         == TriesByAttempt(c, dials, attempts, n, j) + Hits(c + dials, attempts, n, j)
    decreases attempts
  {
    if attempts > 0 {
      OneMoreDial(c, dials, attempts - 1, n, j);
    }
  }

  lemma {:induction false} NoDials(c: nat, attempts: nat, n: nat, j: nat)
    requires n > 0
    ensures TriesByAttempt(c, 0, attempts, n, j) == 0
    decreases attempts
  {
    if attempts > 0 {
      NoDials(c, attempts - 1, n, j);
    }
  }

  lemma {:induction false} CountEitherWay(c: nat, dials: nat, n: nat, j: nat)
    requires n > 0
    ensures TriesOf(c, dials, n, j) == TriesByAttempt(c, dials, AttemptCount(n), n, j)
    decreases dials
  {
    if dials == 0 {
      NoDials(c, AttemptCount(n), n, j);
    } else {
      CountEitherWay(c, dials - 1, n, j);
      OneMoreDial(c, dials - 1, AttemptCount(n), n, j);
    }
  }

  lemma {:induction false} AttemptsInPeriods(c: nat, k: nat, attempts: nat, n: nat, j: nat)
    requires j < n
    ensures TriesByAttempt(c, k * n, attempts, n, j) == k * attempts
    decreases attempts
  {
    if attempts > 0 {
      AttemptsInPeriods(c, k, attempts - 1, n, j);
      HitsInPeriods(c + attempts - 1, k, n, j);
      assert k * attempts == k * (attempts - 1) + k;
    }
  }

  /** The counter after `t` dials. */
  function CounterAfter(c: nat, t: nat): nat {
    if t == 0 then c else NextCounter(CounterAfter(c, t - 1))
  }

  lemma {:induction false} CounterCounts(c: nat, t: nat)
    requires c + t < UINT32_COUNT
    ensures CounterAfter(c, t) == c + t
    decreases t
  {
    if t > 0 {
      CounterCounts(c, t - 1);
    }
  }

  // The same over dials.

  /** The order in which dial number `t` tries the candidates. */
  function OrderOf(candidates: seq<nat>, c: nat, t: nat): (order: seq<nat>)
    requires candidates != []
    ensures |order| == |candidates|
  {
    Rotated(candidates, CounterAfter(c, t) % |candidates|)
  }

  function Occurs(order: seq<nat>, attempts: nat, m: nat): nat
    requires attempts <= |order|
  {
    if attempts == 0 then 0 else Occurs(order, attempts - 1, m) + (if order[attempts - 1] == m then 1 else 0)
  }

  /** In how many of `dials` dials member `m` comes first. */
  function StartsWith(candidates: seq<nat>, c: nat, dials: nat, m: nat): nat
    requires candidates != []
  {
    if dials == 0 then 0
    else StartsWith(candidates, c, dials - 1, m) + (if OrderOf(candidates, c, dials - 1)[0] == m then 1 else 0)
  }

  /** How often `dials` dials, every attempt failing, try member `m`. */
  function TriesMember(candidates: seq<nat>, c: nat, dials: nat, m: nat): nat
    requires candidates != []
  {
    if dials == 0 then 0
    else
      TriesMember(candidates, c, dials - 1, m) +
      Occurs(OrderOf(candidates, c, dials - 1), AttemptCount(|candidates|), m)
  }

  lemma {:induction false} OccursIsHits(candidates: seq<nat>, counter: nat, attempts: nat, j: nat)
    requires Distinct(candidates) && j < |candidates| && attempts <= |candidates|
    ensures |Rotated(candidates, counter % |candidates|)| == |candidates|
    ensures Occurs(Rotated(candidates, counter % |candidates|), attempts, candidates[j])
         == Hits(counter, attempts, |candidates|, j)
    decreases attempts
  {
    if attempts > 0 {
      hide Rotated;
      OccursIsHits(candidates, counter, attempts - 1, j);
      SequentialOrder(counter, candidates, attempts - 1);
      var at := Tried(counter, attempts - 1, |candidates|);
      assert at < j ==> candidates[at] != candidates[j];
      assert j < at ==> candidates[j] != candidates[at];
    }
  }

  lemma FirstIsHit(candidates: seq<nat>, counter: nat, j: nat)
    requires Distinct(candidates) && j < |candidates|
    ensures |Rotated(candidates, counter % |candidates|)| == |candidates|
    ensures Rotated(candidates, counter % |candidates|)[0] == candidates[j] <==> counter % |candidates| == j
  {
    var at := counter % |candidates|;
    assert Rotated(candidates, at)[0] == candidates[at];
    assert at < j ==> candidates[at] != candidates[j];
    assert j < at ==> candidates[j] != candidates[at];
  }

  lemma {:induction false} StartsAreHits(candidates: seq<nat>, c: nat, dials: nat, j: nat)
    requires Distinct(candidates) && j < |candidates| && c + dials <= UINT32_COUNT
    ensures StartsWith(candidates, c, dials, candidates[j]) == Hits(c, dials, |candidates|, j)
    decreases dials
  {
    if dials > 0 {
      hide Rotated, CounterAfter;
      StartsAreHits(candidates, c, dials - 1, j);
      CounterCounts(c, dials - 1);
      FirstIsHit(candidates, c + dials - 1, j);
    }
  }

  lemma OrderOccurs(candidates: seq<nat>, c: nat, t: nat, j: nat)
    requires Distinct(candidates) && j < |candidates| && c + t < UINT32_COUNT
    ensures Occurs(OrderOf(candidates, c, t), AttemptCount(|candidates|), candidates[j])
         == Hits(c + t, AttemptCount(|candidates|), |candidates|, j)
  {
    hide Rotated, Hits, Occurs, CounterAfter;
    CounterCounts(c, t);
    OccursIsHits(candidates, c + t, AttemptCount(|candidates|), j);
  }

  lemma {:induction false} TriesAreHits(candidates: seq<nat>, c: nat, dials: nat, j: nat)
    requires Distinct(candidates) && j < |candidates| && c + dials <= UINT32_COUNT
    ensures TriesMember(candidates, c, dials, candidates[j]) == TriesOf(c, dials, |candidates|, j)
    decreases dials
  {
    if dials > 0 {
      hide OrderOf, Hits, Occurs, AttemptCount, Distinct;
      TriesAreHits(candidates, c, dials - 1, j);
      OrderOccurs(candidates, c, dials - 1, j);
    }
  }

  /** Over `k * n` dials on the same `n` candidates in which the counter does not wrap, each
      candidate is the start exactly `k` times, and when every attempt fails each is tried
      exactly `k * min(3, n)` times. */
  lemma RoundRobinIsFair(candidates: seq<nat>, c: nat, k: nat, m: nat)
    requires Distinct(candidates) && m in candidates && c + k * |candidates| <= UINT32_COUNT
    ensures StartsWith(candidates, c, k * |candidates|, m) == k
    ensures TriesMember(candidates, c, k * |candidates|, m) == k * AttemptCount(|candidates|)
  {
    var n := |candidates|;
    var j :| 0 <= j < n && candidates[j] == m;
    StartsAreHits(candidates, c, k * n, j);
    TriesAreHits(candidates, c, k * n, j);
    HitsInPeriods(c, k, n, j);
    CountEitherWay(c, k * n, n, j);
    AttemptsInPeriods(c, k, AttemptCount(n), n, j);
  }

  lemma OrderIsSound(candidates: seq<nat>, c: nat, t: nat, count: nat)
    requires candidates != [] && AreMembers(candidates, count) && Distinct(candidates)
    ensures AreMembers(OrderOf(candidates, c, t), count) && Distinct(OrderOf(candidates, c, t))
    ensures forall m :: m in OrderOf(candidates, c, t) <==> m in candidates
  {
    hide Rotated, CounterAfter;
    var start := CounterAfter(c, t) % |candidates|;
    RotationIsPermutation(candidates, start);
    PermutationKeeps(Rotated(candidates, start), candidates);
    PermutationKeepsMembers(Rotated(candidates, start), candidates, count);
  }

  /** What dials change in a pool. */
  datatype Dialling = Dialling(views: seq<MemberView>, counter: nat)

  /** One dial in sequential mode. */
  function SequentialDial(p: Dialling, nets: Networks, network: string, now: nat, d: Dialer,
                          policy: Policy): (r: Dialling)
    requires |p.views| == |nets|
    ensures |r.views| == |nets|
  {
    PickedAreMembers(p.views, nets, now, network);
    var picked := Pick(p.views, nets, now, network);
    var n := |picked.candidates|;
    if n == 0 then Dialling(picked.views, p.counter)
    else
      OrderIsSound(picked.candidates, p.counter, 0, |nets|);
      var order := OrderOf(picked.candidates, p.counter, 0);
      Dialling(Try(picked.views, order, AttemptCount(n), 0, d, policy, "").views, NextCounter(p.counter))
  }

  /** It is what the pool does in that mode. */
  lemma SequentialDialIsDial(p: Dialling, nets: Networks, network: string, now: nat, order: seq<nat>, d: Dialer,
                             policy: Policy, t: Dialled)
    requires |p.views| == |nets| && IsDial(p.views, nets, now, network, order, d, policy, t)
    requires var picked := Pick(p.views, nets, now, network);
      picked.candidates != [] ==> IsOrder(Sequential, p.counter, picked.candidates, picked.views, order)
    ensures SequentialDial(p, nets, network, now, d, policy).views == t.views
  {
    hide Pick, Try;
  }

  /** The pool after `dials` dials, number `t` at time `times(t)`. */
  function AfterDials(p: Dialling, nets: Networks, network: string, dials: nat, times: nat -> nat,
                      outside: nat -> Dialer, policy: Policy): (r: Dialling)
    requires |p.views| == |nets|
    ensures |r.views| == |nets|
  {
    if dials == 0 then p
    else
      SequentialDial(AfterDials(p, nets, network, dials - 1, times, outside, policy), nets, network,
        times(dials - 1), outside(dials - 1), policy)
  }

  /** The failures the monitor has recorded for a member. */
  function Recorded(v: MemberView): int {
    if v.entry.None? then 0 else v.entry.value.failure
  }

  lemma {:induction false} OccursAtMostOnce(order: seq<nat>, attempts: nat, m: nat)
    requires attempts <= |order| && Distinct(order)
    ensures Occurs(order, attempts, m) == if exists i :: 0 <= i < attempts && order[i] == m then 1 else 0
    decreases attempts
  {
    if attempts > 0 {
      OccursAtMostOnce(order, attempts - 1, m);
      if order[attempts - 1] == m {
        assert forall i :: 0 <= i < attempts - 1 ==> order[i] != order[attempts - 1];
      }
    }
  }

  /** What attempts that all fail do to a member. */
  lemma AttemptsFail(views: seq<MemberView>, order: seq<nat>, attempts: nat, d: Dialer, policy: Policy, m: nat)
    requires attempts <= |order| && AreMembers(order, |views|) && Distinct(order) && m < |views|
    requires forall i :: d.error(i).Some?
    ensures var after := Try(views, order, attempts, 0, d, policy, "").views[m];
      if Occurs(order, attempts, m) == 0 then after == views[m]
      else Occurs(order, attempts, m) == 1 && exists e, now :: after == FailedOnce(views[m], e, now, policy)
  {
    hide Try, FailedOnce;
    FailoverContract(views, order, attempts, 0, d, policy, "");
    assert FirstSuccess(d, 0, attempts) == attempts;
    OccursAtMostOnce(order, attempts, m);
  }

  lemma FailingCounts(v: MemberView, error: string, now: nat, policy: Policy)
    requires v.health.failures + 1 < policy.threshold
    ensures var f := FailedOnce(v, error, now, policy);
      && f.health.blacklisted == v.health.blacklisted && f.KnownBad() == v.KnownBad()
      && f.health.failures == v.health.failures + 1
      && (v.entry.Some? ==> f.entry.Some? && Recorded(f) == Recorded(v) + 1)
  {
  }

  /** One dial whose attempts all fail, on candidates that stay below the threshold: each
      counts and records a failure if it was tried, and nobody is blacklisted by it. */
  lemma FailingDial(p: Dialling, nets: Networks, network: string, now: nat, d: Dialer, policy: Policy,
                    candidates: seq<nat>, m: nat)
    requires |p.views| == |nets| && candidates == Available(p.views, nets, now, network) && candidates != []
    requires forall i :: d.error(i).Some?
    requires m < |nets|
    requires m in candidates ==>
      p.views[m].health.failures + Occurs(OrderOf(candidates, p.counter, 0), AttemptCount(|candidates|), m)
        < policy.threshold
    ensures var r := SequentialDial(p, nets, network, now, d, policy);
      var tries := Occurs(OrderOf(candidates, p.counter, 0), AttemptCount(|candidates|), m);
      && r.counter == NextCounter(p.counter)
      && (m !in candidates ==> r.views[m] == Seen(p.views[m], now))
      && (m in candidates ==>
            && !r.views[m].health.blacklisted && !r.views[m].KnownBad()
            && r.views[m].health.failures == p.views[m].health.failures + tries
            && (p.views[m].entry.Some? ==>
                  r.views[m].entry.Some? && Recorded(r.views[m]) == Recorded(p.views[m]) + tries))
  {
    hide Try, OrderOf, Available, Occurs, FailedOnce;
    PickedAreMembers(p.views, nets, now, network);
    OrderIsSound(candidates, p.counter, 0, |nets|);
    var order := OrderOf(candidates, p.counter, 0);
    var attempts := AttemptCount(|candidates|);
    var seen := Seen(p.views[m], now);
    AttemptsFail(Scanned(p.views, now), order, attempts, d, policy, m);
    AvailableLists(p.views, nets, now, network);
    if m in candidates {
      assert Usable(p.views[m], nets[m], now, network);
      if Occurs(order, attempts, m) > 0 {
        var e, at :| SequentialDial(p, nets, network, now, d, policy).views[m] == FailedOnce(seen, e, at, policy);
        FailingCounts(seen, e, at, policy);
      }
    } else {
      OccursAtMostOnce(order, attempts, m);
    }
  }

  lemma {:induction false} SameUsable(views: seq<MemberView>, after: seq<MemberView>, nets: Networks, network: string,
                                      now: nat, later: nat, n: nat)
    requires |views| == |after| == |nets| && n <= |nets|
    requires forall i :: 0 <= i < n ==>
      Usable(after[i], nets[i], later, network) == Usable(views[i], nets[i], now, network)
    ensures AvailableUpTo(after, nets, later, network, n) == AvailableUpTo(views, nets, now, network, n)
    decreases n
  {
    if n > 0 {
      SameUsable(views, after, nets, network, now, later, n - 1);
    }
  }

  /** No blacklist runs out between the first dial and the last. */
  ghost predicate NoReturns(views: seq<MemberView>, nets: Networks, network: string, dials: nat, times: nat -> nat)
    requires |views| == |nets|
  {
    forall i, t :: 0 <= i < |nets| && 0 <= t < dials && Usable(views[i], nets[i], times(t), network) ==>
      Usable(views[i], nets[i], times(0), network)
  }

  lemma {:induction false} TriesGrow(candidates: seq<nat>, c: nat, t: nat, dials: nat, m: nat)
    requires candidates != [] && t <= dials
    ensures TriesMember(candidates, c, t, m) <= TriesMember(candidates, c, dials, m)
    decreases dials
  {
    if t < dials {
      TriesGrow(candidates, c, t, dials - 1, m);
    }
  }

  /** A candidate of the first dial is fit and free before dial `t`; no other member is usable
      then or later. */
  ghost predicate Stays(v: MemberView, nets: Networks, network: string, dials: nat, times: nat -> nat, t: nat,
                        was: MemberView, m: nat, candidates: seq<nat>)
    requires m < |nets|
  {
    if m in candidates then (if t == 0 then v == was else !v.health.blacklisted && !v.KnownBad())
    else forall u: nat :: t <= u < dials ==> !Usable(v, nets[m], times(u), network)
  }

  lemma AllStayAtFirst(views: seq<MemberView>, nets: Networks, network: string, dials: nat, times: nat -> nat,
                       candidates: seq<nat>)
    requires |views| == |nets| && candidates == Available(views, nets, times(0), network)
    requires NoReturns(views, nets, network, dials, times)
    ensures forall m :: 0 <= m < |nets| ==>
      Stays(views[m], nets, network, dials, times, 0, views[m], m, candidates)
  {
    hide Usable;
    AvailableLists(views, nets, times(0), network);
  }

  lemma CandidatesStay(views: seq<MemberView>, nets: Networks, network: string, dials: nat, times: nat -> nat,
                       candidates: seq<nat>, t: nat, after: seq<MemberView>)
    requires |views| == |nets| == |after| && t < dials
    requires candidates == Available(views, nets, times(0), network)
    requires NoReturns(views, nets, network, dials, times)
    requires forall m :: 0 <= m < |nets| ==>
      Stays(after[m], nets, network, dials, times, t, views[m], m, candidates)
    ensures Available(after, nets, times(t), network) == candidates
  {
    AvailableLists(views, nets, times(0), network);
    SameUsable(views, after, nets, network, times(0), times(t), |nets|);
  }

  /** Where a member stands before dial `t`, when all attempts fail. */
  ghost predicate Stands(v: MemberView, nets: Networks, network: string, dials: nat, times: nat -> nat, t: nat,
                         was: MemberView, m: nat, candidates: seq<nat>, tries: nat)
    requires m < |nets|
  {
    && Stays(v, nets, network, dials, times, t, was, m, candidates)
    && (m in candidates ==>
          && v.health.failures == was.health.failures + tries
          && (was.entry.Some? ==> v.entry.Some? && Recorded(v) == Recorded(was) + tries))
  }

  /** The candidates of the first dial stay the candidates: they have failures to spare and
      nobody joins them. */
  ghost predicate IsSteady(p: Dialling, nets: Networks, network: string, dials: nat, times: nat -> nat,
                           policy: Policy, candidates: seq<nat>)
    requires |p.views| == |nets|
  {
    && candidates == Available(p.views, nets, times(0), network) && candidates != []
    && AreMembers(candidates, |nets|)
    && NoReturns(p.views, nets, network, dials, times)
    && forall m :: m in candidates && m < |nets| ==>
         p.views[m].health.failures + TriesMember(candidates, p.counter, dials, m) < policy.threshold
  }

  lemma StandsNext(p: Dialling, nets: Networks, network: string, dials: nat, times: nat -> nat, d: Dialer,
                   policy: Policy, candidates: seq<nat>, t: nat, before: Dialling, m: nat)
    requires |p.views| == |nets| == |before.views| && m < |nets| && t < dials
    requires IsSteady(p, nets, network, dials, times, policy, candidates)
    requires Stands(before.views[m], nets, network, dials, times, t, p.views[m], m, candidates,
               TriesMember(candidates, p.counter, t, m))
    requires Available(before.views, nets, times(t), network) == candidates
    requires before.counter == CounterAfter(p.counter, t)
    requires forall i :: d.error(i).Some?
    ensures var after := SequentialDial(before, nets, network, times(t), d, policy);
      && after.counter == CounterAfter(p.counter, t + 1)
      && Stands(after.views[m], nets, network, dials, times, t + 1, p.views[m], m, candidates,
           TriesMember(candidates, p.counter, t + 1, m))
  {
    hide SequentialDial, Available, Occurs, NoReturns;
    assert OrderOf(candidates, before.counter, 0) == OrderOf(candidates, p.counter, t);
    TriesGrow(candidates, p.counter, t + 1, dials, m);
    FailingDial(before, nets, network, times(t), d, policy, candidates, m);
  }

  lemma StandingCandidates(p: Dialling, nets: Networks, network: string, dials: nat, times: nat -> nat, policy: Policy,
                           candidates: seq<nat>, t: nat, after: seq<MemberView>)
    requires |p.views| == |nets| == |after| && t < dials
    requires IsSteady(p, nets, network, dials, times, policy, candidates)
    requires forall m :: 0 <= m < |nets| ==>
      Stands(after[m], nets, network, dials, times, t, p.views[m], m, candidates,
        TriesMember(candidates, p.counter, t, m))
    ensures Available(after, nets, times(t), network) == candidates
  {
    hide Stays, TriesMember;
    CandidatesStay(p.views, nets, network, dials, times, candidates, t, after);
  }

  /** Every member stands where it should before dial `t`. */
  ghost predicate AllStand(p: Dialling, nets: Networks, network: string, dials: nat, times: nat -> nat,
                           candidates: seq<nat>, t: nat, after: Dialling)
    requires |p.views| == |nets| && candidates != []
  {
    && |after.views| == |nets| && after.counter == CounterAfter(p.counter, t)
    && forall m :: 0 <= m < |nets| ==>
         Stands(after.views[m], nets, network, dials, times, t, p.views[m], m, candidates,
           TriesMember(candidates, p.counter, t, m))
  }

  lemma AllStandNext(p: Dialling, nets: Networks, network: string, dials: nat, times: nat -> nat, d: Dialer,
                     policy: Policy, candidates: seq<nat>, t: nat, before: Dialling)
    requires |p.views| == |nets| && t < dials && IsSteady(p, nets, network, dials, times, policy, candidates)
    requires AllStand(p, nets, network, dials, times, candidates, t, before)
    requires forall i :: d.error(i).Some?
    ensures AllStand(p, nets, network, dials, times, candidates, t + 1,
              SequentialDial(before, nets, network, times(t), d, policy))
  {
    hide SequentialDial, Available, TriesMember, Stands;
    StandingCandidates(p, nets, network, dials, times, policy, candidates, t, before.views);
    StandsNext(p, nets, network, dials, times, d, policy, candidates, t, before, candidates[0]);
    forall m | 0 <= m < |nets|
      ensures Stands(SequentialDial(before, nets, network, times(t), d, policy).views[m], nets, network, dials, times,
                t + 1, p.views[m], m, candidates, TriesMember(candidates, p.counter, t + 1, m))
    {
      StandsNext(p, nets, network, dials, times, d, policy, candidates, t, before, m);
    }
  }

  lemma AllStandAtFirst(p: Dialling, nets: Networks, network: string, dials: nat, times: nat -> nat, policy: Policy,
                        candidates: seq<nat>)
    requires |p.views| == |nets| && IsSteady(p, nets, network, dials, times, policy, candidates)
    ensures AllStand(p, nets, network, dials, times, candidates, 0, p)
  {
    hide Stays, Available;
    AllStayAtFirst(p.views, nets, network, dials, times, candidates);
  }

  lemma {:induction false} MembersStand(p: Dialling, nets: Networks, network: string, dials: nat, times: nat -> nat,
                                        outside: nat -> Dialer, policy: Policy, candidates: seq<nat>, t: nat)
    requires |p.views| == |nets| && t <= dials && candidates != []
    requires IsSteady(p, nets, network, dials, times, policy, candidates)
    requires forall u: nat, i: nat :: outside(u).error(i).Some?
    ensures AllStand(p, nets, network, dials, times, candidates, t,
              AfterDials(p, nets, network, t, times, outside, policy))
    decreases t
  {
    hide AllStand, IsSteady, SequentialDial;
    if t == 0 {
      AllStandAtFirst(p, nets, network, dials, times, policy, candidates);
    } else {
      MembersStand(p, nets, network, dials, times, outside, policy, candidates, t - 1);
      AllStandNext(p, nets, network, dials, times, outside(t - 1), policy, candidates, t - 1,
                   AfterDials(p, nets, network, t - 1, times, outside, policy));
    }
  }

  lemma SparedAreSteady(p: Dialling, nets: Networks, network: string, k: nat, times: nat -> nat, policy: Policy,
                        candidates: seq<nat>)
    requires |p.views| == |nets| && Distinct(candidates) && candidates != []
    requires candidates == Available(p.views, nets, times(0), network)
    requires AreMembers(candidates, |nets|)
    requires p.counter + k * |candidates| <= UINT32_COUNT
    requires NoReturns(p.views, nets, network, k * |candidates|, times)
    requires forall m :: m in candidates && m < |nets| ==>
      p.views[m].health.failures + k * AttemptCount(|candidates|) < policy.threshold
    ensures IsSteady(p, nets, network, k * |candidates|, times, policy, candidates)
  {
    hide Available, NoReturns, TriesMember, StartsWith, Distinct;
    forall m | m in candidates && m < |nets|
      ensures p.views[m].health.failures + TriesMember(candidates, p.counter, k * |candidates|, m) < policy.threshold
    {
      RoundRobinIsFair(candidates, p.counter, k, m);
    }
  }

  /** Fairness over whole dials.  When `n` members are usable at first, no other one's
      blacklist runs out in between, and each of the `n` is more than `k * min(3, n)` failures
      away from the threshold, then `k * n` sequential dials, every attempt failing, count
      exactly `k * min(3, n)` more failures for each of them, in the shared state and in the
      monitor, and blacklist none. */
  lemma FailuresAreShared(p: Dialling, nets: Networks, network: string, k: nat, times: nat -> nat,
                          outside: nat -> Dialer, policy: Policy, m: nat)
    requires |p.views| == |nets|
    requires var candidates := Available(p.views, nets, times(0), network);
      && p.counter + k * |candidates| <= UINT32_COUNT
      && NoReturns(p.views, nets, network, k * |candidates|, times)
      && m in candidates
      && forall i :: i in candidates && i < |nets| ==>
           p.views[i].health.failures + k * AttemptCount(|candidates|) < policy.threshold
    requires forall t: nat, i: nat :: outside(t).error(i).Some?
    ensures var n := |Available(p.views, nets, times(0), network)|;
      var after := AfterDials(p, nets, network, k * n, times, outside, policy);
      && m < |nets|
      && (k > 0 ==> !after.views[m].health.blacklisted)
      && after.views[m].health.failures == p.views[m].health.failures + k * AttemptCount(n)
      && (p.views[m].entry.Some? ==>
            && after.views[m].entry.Some?
            && Recorded(after.views[m]) == Recorded(p.views[m]) + k * AttemptCount(n))
  {
    hide AvailableUpTo, Usable, NoReturns, TriesMember, StartsWith, AfterDials;
    var candidates := Available(p.views, nets, times(0), network);
    AvailableLists(p.views, nets, times(0), network);
    forall i | 0 <= i < |candidates|
      ensures candidates[i] < |nets|
    {
      assert candidates[i] in candidates;
    }
    SparedAreSteady(p, nets, network, k, times, policy, candidates);
    MembersStand(p, nets, network, k * |candidates|, times, outside, policy, candidates, k * |candidates|);
    RoundRobinIsFair(candidates, p.counter, k, m);
  }

  // Least loaded first.

  /** A dial whose first attempt succeeds, candidates in `order`. */
  function DialFirst(views: seq<MemberView>, order: seq<nat>, now: nat): (r: seq<MemberView>)
    requires order != [] && order[0] < |views|
    ensures |r| == |views|
  {
    views[order[0] := ConnectedOnce(views[order[0]], now)]
  }

  /** That is what `Try` does when the first attempt succeeds. */
  lemma DialFirstIsTry(views: seq<MemberView>, order: seq<nat>, d: Dialer, policy: Policy)
    requires order != [] && AreMembers(order, |views|) && d.error(0).None?
    ensures Try(views, order, AttemptCount(|order|), 0, d, policy, "")
         == Dialled(DialFirst(views, order, d.clock(0)), Connected(order[0]))
  {
  }

  ghost predicate Spread(views: seq<MemberView>, candidates: seq<nat>, d: int) {
    forall a, b :: a in candidates && b in candidates ==> Load(views, a) - Load(views, b) <= d
  }

  function TotalLoad(views: seq<MemberView>): int {
    if views == [] then 0 else TotalLoad(views[..|views| - 1]) + views[|views| - 1].health.active
  }

  lemma {:induction false} TotalLoadUpdate(views: seq<MemberView>, m: nat, v: MemberView)
    requires m < |views|
    ensures TotalLoad(views[m := v]) == TotalLoad(views) + v.health.active - views[m].health.active
    decreases |views|
  {
    var n := |views| - 1;
    if m < n {
      TotalLoadUpdate(views[..n], m, v);
      assert views[m := v][..n] == views[..n][m := v];
    } else {
      assert views[m := v][..n] == views[..n];
    }
  }

  lemma ConnectedLoad(v: MemberView, now: nat)
    ensures ConnectedOnce(v, now).health.active == v.health.active + 1
  {
  }

  lemma FirstIsLeastLoaded(views: seq<MemberView>, candidates: seq<nat>, order: seq<nat>)
    requires AreMembers(candidates, |views|) && IsOrder(Balance, 0, candidates, views, order)
    ensures order != [] && order[0] < |views| && order[0] in candidates
    ensures forall c :: c in candidates ==> Load(views, order[0]) <= Load(views, c)
  {
    hide IsPermutation, Load;
    PermutationKeeps(order, candidates);
    assert order[0] in order;
    forall c | c in candidates
      ensures Load(views, order[0]) <= Load(views, c)
    {
      var k :| 0 <= k < |order| && order[k] == c;
    }
  }

  /** One dial in balance mode goes to a least loaded candidate, so it does not widen a
      spread of at least 1. */
  lemma BalancedDialKeepsSpread(views: seq<MemberView>, candidates: seq<nat>, order: seq<nat>, now: nat, d: int)
    requires AreMembers(candidates, |views|) && IsOrder(Balance, 0, candidates, views, order)
    requires d >= 1 && Spread(views, candidates, d)
    ensures order != [] && order[0] < |views| && order[0] in candidates
    ensures forall c :: c in candidates ==> Load(views, order[0]) <= Load(views, c)
    ensures Spread(DialFirst(views, order, now), candidates, d)
    ensures TotalLoad(DialFirst(views, order, now)) == TotalLoad(views) + 1
  {
    hide IsPermutation, TotalLoad, ConnectedOnce;
    FirstIsLeastLoaded(views, candidates, order);
    var m := order[0];
    ConnectedLoad(views[m], now);
    TotalLoadUpdate(views, m, ConnectedOnce(views[m], now));
    assert forall c :: c in candidates ==>
      Load(DialFirst(views, order, now), c) == Load(views, c) + (if c == m then 1 else 0);
  }

  lemma {:induction false} ScanKeepsLoads(views: seq<MemberView>, now: nat)
    ensures forall m: nat :: Load(Scanned(views, now), m) == Load(views, m)
    ensures TotalLoad(Scanned(views, now)) == TotalLoad(views)
    decreases |views|
  {
    if views != [] {
      var n := |views| - 1;
      ScanKeepsLoads(views[..n], now);
      assert Scanned(views, now)[..n] == Scanned(views[..n], now);
    }
  }

  /** One whole dial in balance mode whose first attempt succeeds. */
  ghost predicate IsBalancedDial(before: seq<MemberView>, after: seq<MemberView>, nets: Networks, network: string,
                                 now: nat, order: seq<nat>, d: Dialer, policy: Policy) {
    && |before| == |nets| && d.error(0).None?
    && (exists r :: IsDial(before, nets, now, network, order, d, policy, Dialled(after, r)))
    && var picked := Pick(before, nets, now, network);
       picked.candidates != [] ==> IsOrder(Balance, 0, picked.candidates, picked.views, order)
  }

  lemma BalancedDial(before: seq<MemberView>, after: seq<MemberView>, nets: Networks, network: string, now: nat,
                     order: seq<nat>, d: Dialer, policy: Policy, candidates: seq<nat>, spread: int)
    requires IsBalancedDial(before, after, nets, network, now, order, d, policy)
    requires candidates == Available(before, nets, now, network) && candidates != []
    requires spread >= 1 && Spread(before, candidates, spread)
    ensures |after| == |nets|
    ensures Spread(after, candidates, spread) && TotalLoad(after) == TotalLoad(before) + 1
    ensures forall m :: 0 <= m < |nets| ==>
      if m in candidates then !after[m].health.blacklisted && !after[m].KnownBad()
      else after[m] == Seen(before[m], now)
  {
    hide Available, Try, TotalLoad, IsOrder, Load, IsPermutation;
    var scanned := Scanned(before, now);
    ScanKeepsLoads(before, now);
    PickedAreMembers(before, nets, now, network);
    BalancedDialKeepsSpread(scanned, candidates, order, d.clock(0), spread);
    DialFirstIsTry(scanned, order, d, policy);
    AvailableLists(before, nets, now, network);
  }

  lemma {:induction false} LoadsStayTight(views: nat -> seq<MemberView>, nets: Networks, network: string,
                                          times: nat -> nat, orders: nat -> seq<nat>, outside: nat -> Dialer,
                                          policy: Policy, dials: nat, t: nat, spread: int)
    requires |views(0)| == |nets| && NoReturns(views(0), nets, network, dials, times) && t <= dials
    requires forall u: nat :: u < dials ==>
      IsBalancedDial(views(u), views(u + 1), nets, network, times(u), orders(u), outside(u), policy)
    requires Available(views(0), nets, times(0), network) != []
    requires spread >= 1 && Spread(views(0), Available(views(0), nets, times(0), network), spread)
    ensures |views(t)| == |nets|
    ensures Spread(views(t), Available(views(0), nets, times(0), network), spread)
    ensures TotalLoad(views(t)) == TotalLoad(views(0)) + t
    ensures forall m :: 0 <= m < |nets| ==>
      Stays(views(t)[m], nets, network, dials, times, t, views(0)[m], m, Available(views(0), nets, times(0), network))
    decreases t
  {
    hide Available, TotalLoad, Spread, NoReturns, IsBalancedDial;
    var candidates := Available(views(0), nets, times(0), network);
    if t == 0 {
      AllStayAtFirst(views(0), nets, network, dials, times, candidates);
    } else {
      LoadsStayTight(views, nets, network, times, orders, outside, policy, dials, t - 1, spread);
      CandidatesStay(views(0), nets, network, dials, times, candidates, t - 1, views(t - 1));
      assert IsBalancedDial(views(t - 1), views(t - 1 + 1), nets, network, times(t - 1), orders(t - 1), outside(t - 1),
                            policy);
      BalancedDial(views(t - 1), views(t), nets, network, times(t - 1), orders(t - 1), outside(t - 1), policy,
                   candidates, spread);
    }
  }

  /** Any number of successful dials in balance mode, picking included, keeps the candidates'
      loads within the larger of 1 and their first spread (so within 1 when they start equal),
      and adds exactly one connection per dial; no blacklist may run out in between. */
  lemma BalanceStaysTight(views: nat -> seq<MemberView>, nets: Networks, network: string, times: nat -> nat,
                          orders: nat -> seq<nat>, outside: nat -> Dialer, policy: Policy, dials: nat, spread: int)
    requires |views(0)| == |nets| && NoReturns(views(0), nets, network, dials, times)
    requires forall t: nat :: t < dials ==>
      IsBalancedDial(views(t), views(t + 1), nets, network, times(t), orders(t), outside(t), policy)
    requires Available(views(0), nets, times(0), network) != []
    requires spread >= 1 && Spread(views(0), Available(views(0), nets, times(0), network), spread)
    ensures |views(dials)| == |nets|
    ensures Spread(views(dials), Available(views(0), nets, times(0), network), spread)
    ensures TotalLoad(views(dials)) == TotalLoad(views(0)) + dials
  {
    LoadsStayTight(views, nets, network, times, orders, outside, policy, dials, dials, spread);
  }
}
