/** Failure, blacklist and load state of one tag, shared by every pool that has the tag as
    a member, and mirrored into the monitor entry attached to it. */
module SharedState {
  import opened Types
  import opened Monitor

  datatype Health = Health(failures: int, blacklisted: bool, until: nat, active: int)
  {
    /** One more failure; at the threshold the count restarts and the blacklist begins. */
    function Failed(now: nat, threshold: int, duration: nat): Health {
      if failures + 1 >= threshold then this.(failures := 0, blacklisted := true, until := now + duration)
      else this.(failures := failures + 1)
    }

    predicate Triggers(threshold: int) {
      failures + 1 >= threshold
    }

    function Succeeded(): Health {
      this.(failures := 0)
    }

    function Released(): Health {
      this.(failures := 0, blacklisted := false, until := 0)
    }

    predicate Expired(now: nat) {
      blacklisted && now > until
    }

    /** Asking clears a blacklist that has run out. */
    function Checked(now: nat): Health {
      if Expired(now) then this.(blacklisted := false, until := 0) else this
    }

    predicate Blacklisted(now: nat) {
      blacklisted && now <= until
    }
  }

  /** The state of a tag together with its mirror. */
  datatype MemberView = MemberView(health: Health, entry: Option<EntryView>)
  {
    function Failed(error: string, now: nat, threshold: int, duration: nat): MemberView {
      MemberView(health.Failed(now, threshold, duration),
        if entry.None? then None
        else if health.Triggers(threshold) then
          Some(entry.value.AfterFailure(error, now).AfterBlacklist(now + duration))
        else Some(entry.value.AfterFailure(error, now)))
    }

    function Succeeded(now: nat): MemberView {
      MemberView(health.Succeeded(), if entry.None? then None else Some(entry.value.AfterSuccess(now)))
    }

    function Released(): MemberView {
      MemberView(health.Released(), if entry.None? then None else Some(entry.value.AfterClear()))
    }

    function Checked(now: nat): MemberView {
      if health.Expired(now) then
        MemberView(health.Checked(now), if entry.None? then None else Some(entry.value.AfterClear()))
      else this
    }

    function Active(delta: int): MemberView {
      MemberView(health.(active := health.active + delta),
        if entry.None? then None else Some(entry.value.AfterActive(delta)))
    }

    /** Skipped by the pools: checked by a probe and found unusable. */
    predicate KnownBad() {
      entry.Some? && entry.value.KnownBad()
    }

    /** The mirror shows the shared blacklist. */
    predicate Mirrors() {
      entry.Some? ==> entry.value.blacklist == health.blacklisted && entry.value.until == health.until
    }
  }

  class SharedMemberState {
    var failures: int
    var blacklisted: bool
    var blacklistedUntil: nat
    var active: int
    var entry: Entry?

    constructor ()
      ensures Valid() && View() == MemberView(Health(0, false, 0, 0), None) && entry == null
    {
      failures, blacklisted, blacklistedUntil, active, entry := 0, false, 0, 0, null;
    }

    ghost function Repr(): set<object>
      reads this
    {
      {this} + (if entry == null then {} else {entry, entry.slots})
    }

    ghost predicate Valid()
      reads Repr()
    {
      entry != null ==> entry.Valid()
    }

    ghost function View(): MemberView
      requires Valid()
      reads Repr()
    {
      MemberView(Health(failures, blacklisted, blacklistedUntil, active),
                 if entry == null then None else Some(entry.View()))
    }

    method AttachEntry(e: Entry?)
      requires Valid() && (e != null ==> e.Valid())
      modifies this`entry
      ensures Valid() && entry == (if e == null then old(entry) else e)
      ensures View().health == old(View()).health
    {
      if e != null {
        entry := e;
      }
    }

    /** Returns the count reached and whether this failure started a blacklist. */
    method RecordFailure(error: string, now: nat, threshold: int, duration: nat) returns (count: int, triggered: bool)
      requires Valid()
      modifies Repr()
      ensures Valid() && entry == old(entry)
      ensures View() == old(View()).Failed(error, now, threshold, duration)
      ensures count == old(failures) + 1 && triggered == old(View()).health.Triggers(threshold)
    {
      failures := failures + 1;
      count := failures;
      triggered := false;
      var until := 0;
      if failures >= threshold {
        triggered := true;
        until := now + duration;
        failures := 0;
        blacklisted := true;
        blacklistedUntil := until;
      }
      if entry != null {
        entry.RecordFailure(error, now);
        if triggered {
          entry.Blacklist(until);
        }
      }
    }

    method RecordSuccess(now: nat)
      requires Valid()
      modifies Repr()
      ensures Valid() && entry == old(entry)
      ensures View() == old(View()).Succeeded(now)
    {
      failures := 0;
      if entry != null {
        entry.RecordSuccess(now);
      }
    }

    method IsBlacklisted(now: nat) returns (r: bool)
      requires Valid()
      modifies Repr()
      ensures Valid() && entry == old(entry)
      ensures View() == old(View()).Checked(now)
      ensures r == old(View()).health.Blacklisted(now)
    {
      var expired := blacklisted && now > blacklistedUntil;
      if expired {
        blacklisted := false;
        blacklistedUntil := 0;
      }
      r := blacklisted;
      if expired {
        if entry != null {
          entry.ClearBlacklist();
        }
      }
    }

    method ForceRelease()
      requires Valid()
      modifies Repr()
      ensures Valid() && entry == old(entry)
      ensures View() == old(View()).Released()
    {
      failures := 0;
      blacklisted := false;
      blacklistedUntil := 0;
      if entry != null {
        entry.ClearBlacklist();
      }
    }

    method AddActive(delta: int)
      requires Valid()
      modifies Repr()
      ensures Valid() && entry == old(entry)
      ensures View() == old(View()).Active(delta)
      ensures active == old(active) + delta && (entry != null ==> entry.active == old(entry.active) + delta)
    {
      active := active + delta;
      if entry != null {
        entry.AddActive(delta);
      }
    }
  }

  // The blacklist against the full history of a tag.

  datatype HealthEvent =
    | Failure(now: nat, duration: nat)
    | Success
    | Release
    | Check(now: nat)

  function Apply(h: Health, e: HealthEvent, threshold: int): Health {
    match e
    case Failure(now, duration) => h.Failed(now, threshold, duration)
    case Success => h.Succeeded()
    case Release => h.Released()
    case Check(now) => h.Checked(now)
  }

  function After(history: seq<HealthEvent>, threshold: int): Health {
    if history == [] then Health(0, false, 0, 0)
    else Apply(After(history[..|history| - 1], threshold), history[|history| - 1], threshold)
  }

  /** Failures since the last success or release. */
  function FailureRun(history: seq<HealthEvent>): nat {
    if history == [] then 0
    else
      match history[|history| - 1]
      case Failure(_, _) => FailureRun(history[..|history| - 1]) + 1
      case Check(_) => FailureRun(history[..|history| - 1])
      case _ => 0
  }

  /** The deadline set by the latest trigger since the last release: a trigger is a failure
      that makes the current run a multiple of the threshold. */
  function LatestDeadline(history: seq<HealthEvent>, threshold: nat): Option<nat>
    requires threshold >= 1
  {
    if history == [] then None
    else
      var before := history[..|history| - 1];
      match history[|history| - 1]
      case Release => None
      case Failure(now, duration) =>
        if FailureRun(history) % threshold == 0 then Some(now + duration) else LatestDeadline(before, threshold)
      case _ => LatestDeadline(before, threshold)
  }

  /** Every clock reading so far is at most `now`. */
  predicate NoLaterThan(e: HealthEvent, now: nat) {
    match e
    case Failure(t, _) => t <= now
    case Check(t) => t <= now
    case _ => true
  }

  /** The clock never runs backwards over the history, and stands at `now`. */
  predicate ClockAt(history: seq<HealthEvent>, now: nat) {
    history == [] ||
    var last := history[|history| - 1];
    && NoLaterThan(last, now)
    && ClockAt(history[..|history| - 1], if last.Failure? || last.Check? then last.now else now)
  }

  lemma {:induction false} MultiplesGrow(a: nat, b: nat, d: nat)
    requires a < b
    ensures a * d + d <= b * d
    decreases b
  {
    assert b * d == (b - 1) * d + d;
    if a < b - 1 {
      MultiplesGrow(a, b - 1, d);
    }
  }

  lemma RemainderIsUnique(q: nat, r: nat, d: nat, x: nat)
    requires x == q * d + r && r < d
    ensures x % d == r
  {
    var q', r' := x / d, x % d;
    assert x == q' * d + r' && 0 <= r' < d;
    if q < q' {
      MultiplesGrow(q, q', d);
    } else if q' < q {
      MultiplesGrow(q', q, d);
    }
  }

  lemma RunModulo(run: nat, threshold: nat)
    requires threshold >= 1
    ensures (run + 1) % threshold == if run % threshold + 1 >= threshold then 0 else run % threshold + 1
  {
    var q, r := run / threshold, run % threshold;
    assert run == q * threshold + r;
    if r + 1 == threshold {
      assert run + 1 == (q + 1) * threshold + 0;
      RemainderIsUnique(q + 1, 0, threshold, run + 1);
    } else {
      RemainderIsUnique(q, r + 1, threshold, run + 1);
    }
  }

  /** The counter is the failure run modulo the threshold, and the stored blacklist is the
      latest deadline, or none once that deadline has passed. */
  lemma {:induction false} BlacklistFollowsHistory(history: seq<HealthEvent>, threshold: nat, now: nat)
    requires threshold >= 1 && ClockAt(history, now)
    ensures var h := After(history, threshold);
      var deadline := LatestDeadline(history, threshold);
      && h.failures == FailureRun(history) % threshold
      && (h.blacklisted ==> deadline == Some(h.until))
      && (!h.blacklisted ==> h.until == 0 && (deadline.Some? ==> deadline.value < now))
    decreases |history|
  {
    if history != [] {
      var last := history[|history| - 1];
      var before := history[..|history| - 1];
      var previous := if last.Failure? || last.Check? then last.now else now;
      BlacklistFollowsHistory(before, threshold, previous);
      if last.Failure? {
        RunModulo(FailureRun(before), threshold);
      }
    }
  }

  /** Lazy and eager agree: a check at a time not before any earlier reading answers
      "blacklisted" exactly when the latest trigger since the last release has a deadline
      that has not passed. */
  lemma LazyExpiryIsExact(history: seq<HealthEvent>, threshold: nat, now: nat)
    requires threshold >= 1 && ClockAt(history, now)
    ensures var deadline := LatestDeadline(history, threshold);
      After(history, threshold).Blacklisted(now) <==> deadline.Some? && now <= deadline.value
  {
    BlacklistFollowsHistory(history, threshold, now);
  }

  // The mirror.

  /** An operation on a tag, with the error text and clock reading its mirror records. */
  datatype MemberOp = MemberOp(event: HealthEvent, error: string, now: nat)

  function ApplyOp(v: MemberView, op: MemberOp, threshold: int): MemberView {
    match op.event
    case Failure(t, duration) => v.Failed(op.error, t, threshold, duration)
    case Success => v.Succeeded(op.now)
    case Release => v.Released()
    case Check(t) => v.Checked(t)
  }

  function ApplyOps(v: MemberView, ops: seq<MemberOp>, threshold: int): MemberView {
    if ops == [] then v
    else ApplyOp(ApplyOps(v, ops[..|ops| - 1], threshold), ops[|ops| - 1], threshold)
  }

  function EventsOf(ops: seq<MemberOp>): (r: seq<HealthEvent>)
    ensures |r| == |ops|
  {
    seq(|ops|, i requires 0 <= i < |ops| => ops[i].event)
  }

  /** An operation leaves the mirror equal to the shared blacklist exactly when it was
      before, or the operation rewrites it: a release, a trigger, an expiry. */
  lemma OpMirrorsIff(v: MemberView, op: MemberOp, threshold: int)
    ensures ApplyOp(v, op, threshold).Mirrors() <==>
      || v.Mirrors()
      || op.event.Release?
      || (op.event.Failure? && v.health.Triggers(threshold))
      || (op.event.Check? && v.health.Expired(op.event.now))
  {
  }

  /** While operations on a tag do not overlap, its entry always shows the blacklist that
      the history of the tag dictates. */
  lemma {:induction false} MirrorFollowsHistory(ops: seq<MemberOp>, threshold: int)
    ensures var v := ApplyOps(MemberView(Health(0, false, 0, 0), Some(NEW_ENTRY)), ops, threshold);
      v.Mirrors() && v.entry.Some? && v.health == After(EventsOf(ops), threshold)
    decreases |ops|
  {
    if ops != [] {
      var n := |ops| - 1;
      MirrorFollowsHistory(ops[..n], threshold);
      assert EventsOf(ops)[..n] == EventsOf(ops[..n]);
    }
  }
}
