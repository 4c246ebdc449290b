/** The pool outbound: picks candidates, orders them by its mode, and dials until one
    connects. */
module Pool {
  import opened Types
  import opened SharedState
  import opened PoolSpec
  import opened Scheduling

  const NETWORK_UDP := "udp"

  /** A member holds the state its tag shares with other pools. */
  datatype Member = Member(tag: string, networks: set<string>, shared: SharedMemberState)

  /** An open connection; its first `Close` gives back the member's load. */
  class TrackedConn {
    const shared: SharedMemberState
    var released: bool

    constructor (shared: SharedMemberState)
      ensures this.shared == shared && !released
    {
      this.shared := shared;
      released := false;
    }

    method Close()
      requires shared.Valid()
      modifies this, shared.Repr()
      ensures shared.Valid() && released && shared.entry == old(shared.entry)
      ensures shared.View() == if old(released) then old(shared.View()) else old(shared.View()).Active(-1)
      ensures shared.active == old(shared.active) - (if old(released) then 0 else 1)
      ensures shared.entry != null ==>
        shared.entry.active == old(shared.entry.active) - (if old(released) then 0 else 1)
    {
      if !released {
        released := true;
        shared.AddActive(-1);
      }
    }
  }

  lemma SwapIsPermutation(s: seq<nat>, i: nat, j: nat)
    requires i < |s| && j < |s|
    ensures IsPermutation(s[i := s[j]][j := s[i]], s)
  {
    assert multiset(s[i := s[j]]) == multiset(s) - multiset{s[i]} + multiset{s[j]};
  }

  method Swap(buf: array<nat>, i: nat, j: nat, n: nat)
    requires i < n <= buf.Length && j < n
    modifies buf
    ensures buf[..n] == old(buf[..n])[i := old(buf[j])][j := old(buf[i])]
    ensures IsPermutation(buf[..n], old(buf[..n]))
  {
    SwapIsPermutation(buf[..n], i, j);
    buf[i], buf[j] := buf[j], buf[i];
    assert buf[..n] == old(buf[..n])[i := old(buf[j])][j := old(buf[i])];
  }

  /** `rand.Shuffle`: `rand` supplies the random numbers. */
  method Shuffle(buf: array<nat>, n: nat, rand: nat -> nat)
    requires n <= buf.Length
    modifies buf
    ensures IsPermutation(buf[..n], old(buf[..n]))
  {
    var i := n;
    while i > 1
      invariant i <= n || n == 0
      invariant IsPermutation(buf[..n], old(buf[..n]))
    {
      i := i - 1;
      Swap(buf, i, rand(i) % (i + 1), n);
    }
  }

  /** The members' states are up to date, lie within `footprint`, and do not overlap. */
  ghost predicate Ready(members: seq<Member>, footprint: set<object>)
    reads footprint
  {
    && (forall i :: 0 <= i < |members| ==>
          members[i].shared in footprint && members[i].shared.Repr() <= footprint && members[i].shared.Valid())
    && (forall i, j :: 0 <= i < j < |members| ==> members[i].shared.Repr() !! members[j].shared.Repr())
  }

  ghost function SeenUpTo(views: seq<MemberView>, now: nat, n: nat): (r: seq<MemberView>)
    ensures |r| == |views|
  {
    seq(|views|, i requires 0 <= i < |views| => if i < n then Seen(views[i], now) else views[i])
  }

  lemma SeenNext(views: seq<MemberView>, now: nat, n: nat)
    requires n < |views|
    ensures SeenUpTo(views, now, n + 1) == SeenUpTo(views, now, n)[n := Seen(views[n], now)]
    ensures SeenUpTo(views, now, n)[n] == views[n]
    ensures views[n].KnownBad() ==> SeenUpTo(views, now, n + 1) == SeenUpTo(views, now, n)
  {
  }

  lemma SeenAll(views: seq<MemberView>, now: nat)
    ensures SeenUpTo(views, now, 0) == views && SeenUpTo(views, now, |views|) == Scanned(views, now)
  {
  }

  ghost function ReleasedUpTo(views: seq<MemberView>, n: nat): (r: seq<MemberView>)
    ensures |r| == |views|
  {
    seq(|views|, i requires 0 <= i < |views| => if i < n then views[i].Released() else views[i])
  }

  /** Asking the members up to the first open one changes at most that one. */
  lemma StopsAt(views: seq<MemberView>, now: nat, i: nat)
    requires i < |views| && !views[i].health.Blacklisted(now)
    requires forall k :: 0 <= k < i ==> views[k].health.Blacklisted(now)
    ensures FirstOpen(views, now, 0) == i
    ensures AskedUpTo(views, now, i) == views[i := views[i].Checked(now)]
  {
  }

  /** The first `i` positions are sorted. */
  ghost predicate SortedUpTo(s: seq<nat>, i: nat, views: seq<MemberView>) {
    forall a, b :: 0 <= a < b < i && b < |s| ==> Load(views, s[a]) <= Load(views, s[b])
  }

  /** Sorted up to position `i`, apart from what stands at `j`. */
  ghost predicate SortedExcept(s: seq<nat>, i: nat, j: nat, views: seq<MemberView>) {
    forall a, b :: 0 <= a < b <= i && b < |s| && b != j ==> Load(views, s[a]) <= Load(views, s[b])
  }

  lemma StartsSorted(s: seq<nat>, i: nat, views: seq<MemberView>)
    requires SortedUpTo(s, i, views)
    ensures SortedExcept(s, i, i, views)
  {
  }

  lemma SwapSorts(s: seq<nat>, i: nat, j: nat, views: seq<MemberView>)
    requires 0 < j <= i < |s| && SortedExcept(s, i, j, views)
    requires Load(views, s[j]) < Load(views, s[j - 1])
    ensures SortedExcept(s[j - 1 := s[j]][j := s[j - 1]], i, j - 1, views)
  {
    hide Load;
    var t := s[j - 1 := s[j]][j := s[j - 1]];
    forall a, b | 0 <= a < b <= i && b != j - 1
      ensures Load(views, t[a]) <= Load(views, t[b])
    {
      if b == j && a < j - 1 {
        assert Load(views, s[a]) <= Load(views, s[j - 1]);
      } else if b > j && a == j {
        assert Load(views, s[j - 1]) <= Load(views, s[b]);
      } else if b > j {
        assert Load(views, s[a]) <= Load(views, s[b]) && Load(views, s[j]) <= Load(views, s[b]);
      }
    }
  }

  lemma EndsSorted(s: seq<nat>, i: nat, j: nat, views: seq<MemberView>)
    requires j <= i < |s| && SortedExcept(s, i, j, views)
    requires j > 0 ==> Load(views, s[j - 1]) <= Load(views, s[j])
    ensures SortedUpTo(s, i + 1, views)
  {
    hide Load;
    forall a, b | 0 <= a < b <= i
      ensures Load(views, s[a]) <= Load(views, s[b])
    {
      if b == j && a < j - 1 {
        assert Load(views, s[a]) <= Load(views, s[j - 1]);
      }
    }
  }

  lemma PermutationIsReflexive(s: seq<nat>)
    ensures IsPermutation(s, s)
  {
  }

  lemma PermutationIsTransitive(a: seq<nat>, b: seq<nat>, c: seq<nat>)
    requires IsPermutation(a, b) && IsPermutation(b, c)
    ensures IsPermutation(a, c)
  {
  }

  /** Going round from `start` is following the rotated candidates. */
  lemma TurnOf(candidates: seq<nat>, start: nat, i: nat)
    requires start < |candidates| && i < |candidates|
    ensures |Rotated(candidates, start)| == |candidates|
    ensures Rotated(candidates, start)[i] == candidates[(start + i) % |candidates|]
  {
    var n := |candidates|;
    if start + i >= n {
      RemainderIsUnique(1, start + i - n, n, start + i);
    } else {
      RemainderIsUnique(0, start + i, n, start + i);
    }
  }

  lemma UnrotatedIsSame(candidates: seq<nat>)
    ensures Rotated(candidates, 0) == candidates
  {
  }

  /** What one attempt does to the views. */
  ghost function AfterAttempt(views: seq<MemberView>, m: nat, i: nat, d: Dialer, policy: Policy): (r: seq<MemberView>)
    requires m < |views|
    ensures |r| == |views|
  {
    match d.error(i)
    case None => views[m := views[m].Active(1).Succeeded(d.clock(i))]
    case Some(error) =>
      var released := views[m].Active(1).Active(-1);
      views[m := released.Failed(error, d.clock(i), policy.threshold, policy.duration)]
  }

  lemma TryUnfolds(views: seq<MemberView>, order: seq<nat>, attempts: nat, i: nat, d: Dialer, policy: Policy,
                   lastError: string)
    requires i < attempts <= |order| && AreMembers(order, |views|)
    ensures order[i] < |views|
    ensures var after := AfterAttempt(views, order[i], i, d, policy);
      Try(views, order, attempts, i, d, policy, lastError) ==
      match d.error(i)
      case None => Dialled(after, Connected(order[i]))
      case Some(error) => Try(after, order, attempts, i + 1, d, policy, error)
  {
  }

  lemma TryEnds(views: seq<MemberView>, order: seq<nat>, attempts: nat, d: Dialer, policy: Policy, lastError: string)
    requires attempts <= |order| && AreMembers(order, |views|)
    ensures Try(views, order, attempts, attempts, d, policy, lastError) == Dialled(views, AllFailed(lastError))
  {
  }

  lemma RotationKeepsMembers(candidates: seq<nat>, start: nat, count: nat)
    requires start <= |candidates| && AreMembers(candidates, count)
    ensures AreMembers(Rotated(candidates, start), count) && |Rotated(candidates, start)| == |candidates|
  {
  }

  class PoolOutbound {
    const mode: Mode
    const policy: Policy
    const members: seq<Member>
    var rrCounter: nat  // a uint32

    ghost const Repr: set<object>  // the members' states and their monitor entries

    constructor (mode: Mode, policy: Policy, members: seq<Member>, ghost footprint: set<object>)
      requires Ready(members, footprint)
      ensures this.mode == mode && this.policy == policy && this.members == members && Repr == footprint
      ensures rrCounter == 0 && Valid()
    {
      this.mode, this.policy, this.members := mode, policy, members;
      rrCounter := 0;
      Repr := footprint;
    }

    ghost predicate Valid()
      reads Repr
    {
      Ready(members, Repr)
    }

    ghost function Views(): (r: seq<MemberView>)
      requires Valid()
      reads Repr
      ensures |r| == |members|
    {
      seq(|members|, i requires 0 <= i < |members| && Valid() reads Repr => members[i].shared.View())
    }

    function Nets(): (r: Networks)
      ensures |r| == |members|
    {
      seq(|members|, i requires 0 <= i < |members| => members[i].networks)
    }

    // One member at a time.

    method AskBlacklisted(i: nat, now: nat) returns (r: bool)
      requires Valid() && i < |members|
      modifies members[i].shared.Repr()
      ensures Valid()
      ensures Views() == old(Views())[i := old(Views())[i].Checked(now)]
      ensures r == old(Views())[i].health.Blacklisted(now)
    {
      r := members[i].shared.IsBlacklisted(now);
      assert forall j :: 0 <= j < |members| && j != i ==> members[j].shared.View() == old(members[j].shared.View());
    }

    method ReleaseMember(i: nat)
      requires Valid() && i < |members|
      modifies members[i].shared.Repr()
      ensures Valid()
      ensures Views() == old(Views())[i := old(Views())[i].Released()]
    {
      members[i].shared.ForceRelease();
      assert forall j :: 0 <= j < |members| && j != i ==> members[j].shared.View() == old(members[j].shared.View());
    }

    method AddActive(i: nat, delta: int)
      requires Valid() && i < |members|
      modifies members[i].shared.Repr()
      ensures Valid()
      ensures Views() == old(Views())[i := old(Views())[i].Active(delta)]
    {
      members[i].shared.AddActive(delta);
      assert forall j :: 0 <= j < |members| && j != i ==> members[j].shared.View() == old(members[j].shared.View());
    }

    method RecordFailure(i: nat, error: string, now: nat)
      requires Valid() && i < |members|
      modifies members[i].shared.Repr()
      ensures Valid()
      ensures Views() == old(Views())[i := old(Views())[i].Failed(error, now, policy.threshold, policy.duration)]
    {
      var count, triggered := members[i].shared.RecordFailure(error, now, policy.threshold, policy.duration);
      assert forall j :: 0 <= j < |members| && j != i ==> members[j].shared.View() == old(members[j].shared.View());
    }

    method RecordSuccess(i: nat, now: nat)
      requires Valid() && i < |members|
      modifies members[i].shared.Repr()
      ensures Valid()
      ensures Views() == old(Views())[i := old(Views())[i].Succeeded(now)]
    {
      members[i].shared.RecordSuccess(now);
      assert forall j :: 0 <= j < |members| && j != i ==> members[j].shared.View() == old(members[j].shared.View());
    }

    // Picking.

    method IsKnownBad(i: nat) returns (r: bool)
      requires Valid() && i < |members|
      ensures r == Views()[i].KnownBad()
    {
      var entry := members[i].shared.entry;
      r := entry != null && entry.checked && !entry.available;
    }

    /** `availableMembersLocked`: fills `buf` from the front, overwriting what it held. */
    method AvailableMembers(now: nat, network: string, buf: array<nat>) returns (n: nat)
      requires Valid() && buf !in Repr && |members| <= buf.Length
      modifies Repr, buf
      ensures Valid() && n <= |members|
      ensures Views() == Scanned(old(Views()), now)
      ensures buf[..n] == Available(old(Views()), Nets(), now, network)
    {
      hide Views, SeenUpTo, Scanned;
      n := 0;
      ghost var views := Views();
      SeenAll(views, now);
      for i := 0 to |members|
        invariant Valid() && n <= i
        invariant Views() == SeenUpTo(views, now, i)
        invariant buf[..n] == AvailableUpTo(views, Nets(), now, network, i)
      {
        SeenNext(views, now, i);
        var bad := IsKnownBad(i);
        if !bad {
          var blacklisted := AskBlacklisted(i, now);
          if !blacklisted && Supports(members[i].networks, network) {
            buf[n] := i;
            n := n + 1;
          }
        }
      }
    }

    /** `releaseIfAllBlacklistedLocked`. */
    method ReleaseIfAllBlacklisted(now: nat) returns (released: bool)
      requires Valid()
      modifies Repr
      ensures Valid()
      ensures released == (members != [] && AllBlacklisted(old(Views()), now))
      ensures Views() == if released then AllReleased(old(Views()))
                         else if members == [] then []
                         else AskedUpTo(old(Views()), now, FirstOpen(old(Views()), now, 0))
    {
      if |members| == 0 {
        return false;
      }
      ghost var views := Views();
      for i := 0 to |members|
        invariant Valid() && Views() == views
        invariant forall k :: 0 <= k < i ==> views[k].health.Blacklisted(now)
      {
        var blacklisted := AskBlacklisted(i, now);
        if !blacklisted {
          StopsAt(views, now, i);
          return false;
        }
      }
      for i := 0 to |members|
        invariant Valid() && Views() == ReleasedUpTo(views, i)
      {
        ReleaseMember(i);
      }
      return true;
    }

    method PickCandidates(now: nat, network: string, buf: array<nat>) returns (n: nat)
      requires Valid() && buf !in Repr && |members| <= buf.Length
      modifies Repr, buf
      ensures Valid() && n <= |members|
      ensures Picked(Views(), buf[..n]) == Pick(old(Views()), Nets(), now, network)
    {
      n := AvailableMembers(now, network, buf);
      if n == 0 {
        var released := ReleaseIfAllBlacklisted(now);
        if released {
          n := AvailableMembers(now, network, buf);
        }
      }
    }

    // Dialling.

    function At(buf: array<nat>, j: nat, n: nat): (m: nat)
      requires j < n <= buf.Length && AreMembers(buf[..n], |members|)
      reads buf
      ensures m < |members| && m == buf[..n][j]
    {
      assert buf[..n][j] == buf[j];
      buf[j]
    }

    function ActiveCount(m: nat): (r: int)
      requires Valid() && m < |members|
      reads Repr
      ensures r == Load(Views(), m)
    {
      members[m].shared.active
    }

    /** Moves the candidate at `i` down to its place among the sorted ones before it. */
    method Insert(buf: array<nat>, i: nat, n: nat)
      requires Valid() && buf !in Repr && i < n <= buf.Length
      requires AreMembers(buf[..n], |members|) && SortedUpTo(buf[..n], i, Views())
      modifies buf
      ensures IsPermutation(buf[..n], old(buf[..n])) && SortedUpTo(buf[..n], i + 1, Views())
    {
      hide Valid, Views, Load, IsPermutation, SortedExcept, AreMembers;
      ghost var before, views := buf[..n], Views();
      PermutationIsReflexive(before);
      StartsSorted(buf[..n], i, views);
      var j := i;
      while j > 0 && ActiveCount(At(buf, j, n)) < ActiveCount(At(buf, j - 1, n))
        invariant 0 <= j <= i && Views() == views
        invariant IsPermutation(buf[..n], before) && AreMembers(buf[..n], |members|)
        invariant SortedExcept(buf[..n], i, j, views)
      {
        hide SortedUpTo;
        ghost var previous := buf[..n];
        Swap(buf, j - 1, j, n);
        SwapSorts(previous, i, j, views);
        PermutationIsTransitive(buf[..n], previous, before);
        PermutationKeepsMembers(buf[..n], before, |members|);
        j := j - 1;
      }
      EndsSorted(buf[..n], i, j, views);
    }

    /** Puts the least loaded candidates first. */
    method SortByLoad(buf: array<nat>, n: nat)
      requires Valid() && buf !in Repr && n <= buf.Length
      requires AreMembers(buf[..n], |members|)
      modifies buf
      ensures IsPermutation(buf[..n], old(buf[..n])) && SortedByLoad(buf[..n], Views())
    {
      ghost var before := buf[..n];
      for i := 0 to n
        invariant IsPermutation(buf[..n], before)
        invariant SortedUpTo(buf[..n], i, Views())
      {
        hide Valid, Views, IsPermutation;
        PermutationKeepsMembers(buf[..n], before, |members|);
        Insert(buf, i, n);
      }
    }

    /** One attempt, the `i`-th of its dial; the error if it fails. */
    method TryMember(m: nat, i: nat, d: Dialer) returns (error: Option<string>)
      requires Valid() && m < |members|
      modifies Repr
      ensures Valid() && error == d.error(i)
      ensures Views() == AfterAttempt(old(Views()), m, i, d, policy)
    {
      hide Views;
      AddActive(m, 1);
      error := d.error(i);
      match error
      case Some(e) =>
        AddActive(m, -1);
        RecordFailure(m, e, d.clock(i));
      case None =>
        RecordSuccess(m, d.clock(i));
    }

    /** The attempts, from position `start` of the candidates on, going round. */
    method TryInTurn(buf: array<nat>, n: nat, start: nat, d: Dialer) returns (r: DialResult)
      requires Valid() && buf !in Repr && start < n <= buf.Length
      requires AreMembers(buf[..n], |members|)
      modifies Repr
      ensures Valid() && AreMembers(Rotated(buf[..n], start), |members|)
      ensures Dialled(Views(), r)
           == Try(old(Views()), Rotated(buf[..n], start), AttemptCount(n), 0, d, policy, "")
      ensures r.Connected? ==> r.member < |members|
    {
      hide Views, Try, Rotated;
      var attempts := if DIAL_ATTEMPTS > n then n else DIAL_ATTEMPTS;
      ghost var order := Rotated(buf[..n], start);
      RotationKeepsMembers(buf[..n], start, |members|);
      ghost var views := Views();
      var lastError := "";
      for i := 0 to attempts
        invariant Valid() && buf[..n] == old(buf[..n])
        invariant Try(views, order, attempts, 0, d, policy, "")
               == Try(Views(), order, attempts, i, d, policy, lastError)
      {
        hide AreMembers;
        var m := buf[(start + i) % n];
        TurnOf(buf[..n], start, i);
        TryUnfolds(Views(), order, attempts, i, d, policy, lastError);
        var error := TryMember(m, i, d);
        match error
        case Some(e) =>
          lastError := e;
        case None =>
          return Connected(m);
      }
      TryEnds(Views(), order, attempts, d, policy, lastError);
      r := AllFailed(lastError);
    }

    /** Arranges the candidates by the pool's mode; they are then taken in turn from
        `start`. */
    method LineUp(buf: array<nat>, n: nat, rand: nat -> nat) returns (start: nat)
      requires Valid() && buf !in Repr && 0 < n <= buf.Length
      requires AreMembers(buf[..n], |members|)
      modifies this`rrCounter, buf
      ensures start < n && AreMembers(buf[..n], |members|)
      ensures IsOrder(mode, old(rrCounter), old(buf[..n]), Views(), Rotated(buf[..n], start))
      ensures rrCounter == if mode.Sequential? then NextCounter(old(rrCounter)) else old(rrCounter)
    {
      hide Valid, Views, IsPermutation, SortedByLoad, Rotated;
      ghost var candidates := buf[..n];
      start := 0;
      match mode {
        case Random =>
          Shuffle(buf, n, rand);
          PermutationKeepsMembers(buf[..n], candidates, |members|);
        case Balance =>
          SortByLoad(buf, n);
          PermutationKeepsMembers(buf[..n], candidates, |members|);
        case Sequential =>
          start := rrCounter % n;
          rrCounter := NextCounter(rrCounter);
      }
      UnrotatedIsSame(buf[..n]);
    }

    /** `DialContext`.  `rand` stands for the random source, `buf` for the reused candidate
        buffer; `order` is the order in which candidates were lined up. */
    method DialContext(network: string, now: nat, d: Dialer, rand: nat -> nat, buf: array<nat>)
      returns (r: DialResult, conn: TrackedConn?, ghost order: seq<nat>)
      requires Valid() && this !in Repr && buf !in Repr && |members| <= buf.Length
      modifies this`rrCounter, Repr, buf
      ensures Valid()
      ensures var p := Pick(old(Views()), Nets(), now, network);
        && (p.candidates != [] ==> IsOrder(mode, old(rrCounter), p.candidates, p.views, order))
        && rrCounter == if p.candidates != [] && mode.Sequential? then NextCounter(old(rrCounter)) else old(rrCounter)
      ensures IsDial(old(Views()), Nets(), now, network, order, d, policy, Dialled(Views(), r))
      ensures r.Connected? <==> conn != null
      ensures conn != null ==>
        fresh(conn) && r.member < |members| && conn.shared == members[r.member].shared && !conn.released
    {
      hide Pick, Valid, Views, Try, IsOrder, AreMembers;
      conn, order := null, [];
      PickedAreMembers(Views(), Nets(), now, network);
      var n := PickCandidates(now, network, buf);
      if n == 0 {
        return NoHealthyProxy, null, [];
      }
      var start := LineUp(buf, n, rand);
      order := Rotated(buf[..n], start);
      r := TryInTurn(buf, n, start, d);
      if r.Connected? {
        conn := new TrackedConn(members[r.member].shared);
      }
    }

    /** `ListenPacket`: the same over UDP. */
    method ListenPacket(now: nat, d: Dialer, rand: nat -> nat, buf: array<nat>)
      returns (r: DialResult, conn: TrackedConn?, ghost order: seq<nat>)
      requires Valid() && this !in Repr && buf !in Repr && |members| <= buf.Length
      modifies this`rrCounter, Repr, buf
      ensures Valid()
      ensures var p := Pick(old(Views()), Nets(), now, NETWORK_UDP);
        && (p.candidates != [] ==> IsOrder(mode, old(rrCounter), p.candidates, p.views, order))
        && rrCounter == if p.candidates != [] && mode.Sequential? then NextCounter(old(rrCounter)) else old(rrCounter)
      ensures IsDial(old(Views()), Nets(), now, NETWORK_UDP, order, d, policy, Dialled(Views(), r))
      ensures r.Connected? <==> conn != null
      ensures conn != null ==>
        fresh(conn) && r.member < |members| && conn.shared == members[r.member].shared && !conn.released
    {
      hide Pick, Valid, Views, IsDial, IsOrder;
      r, conn, order := DialContext(NETWORK_UDP, now, d, rand, buf);
    }

    /** `selectMember`: one candidate by the pool's mode; `random` is the random number. */
    method SelectMember(buf: array<nat>, n: nat, random: nat) returns (m: nat)
      requires Valid() && buf !in Repr && 0 < n <= buf.Length
      requires AreMembers(buf[..n], |members|)
      modifies this`rrCounter
      ensures IsSelected(mode, old(rrCounter), random, buf[..n], Views(), m)
      ensures rrCounter == if mode.Sequential? then NextCounter(old(rrCounter)) else old(rrCounter)
    {
      hide Valid, Views, Load, AreMembers;
      match mode
      case Random =>
        m := buf[random % n];
      case Balance =>
        var selected := 0;
        m := At(buf, 0, n);
        var minActive := ActiveCount(m);
        for i := 1 to n
          invariant 0 <= selected < n && m == buf[selected] && m < |members|
          invariant minActive == Load(Views(), m)
          invariant forall j :: 0 <= j < selected ==> Load(Views(), buf[j]) > minActive
          invariant forall j :: 0 <= j < i ==> Load(Views(), buf[j]) >= minActive
        {
          var active := ActiveCount(At(buf, i, n));
          if active < minActive {
            selected, m, minActive := i, At(buf, i, n), active;
          }
        }
        assert IsFirstLeast(buf[..n], Views(), selected);
      case Sequential =>
        m := buf[rrCounter % n];
        rrCounter := NextCounter(rrCounter);
    }
  }
}
