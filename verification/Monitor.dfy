/** The monitor's record of one node: counters, blacklist mirror and a bounded timeline. */
module Monitor {
  const MAX_TIMELINE := 20
  const NANOS_PER_MILLI := 1_000_000

  datatype TimelineEvent = TimelineEvent(time: nat, success: bool, latencyMs: int, error: string)

  /** `Duration.Milliseconds`, truncating toward zero; a positive duration counts as at
      least one. */
  function LatencyMs(latency: int): int {
    var ms := if latency >= 0 then latency / NANOS_PER_MILLI else -(-latency / NANOS_PER_MILLI);
    if ms == 0 && latency > 0 then 1 else ms
  }

  /** `appendTimelineLocked`: once full, the oldest event drops out. */
  function Appended(timeline: seq<TimelineEvent>, e: TimelineEvent): seq<TimelineEvent> {
    if |timeline| >= MAX_TIMELINE then timeline[1..] + [e] else timeline + [e]
  }

  /** The value of an entry. */
  datatype EntryView = EntryView(
    failure: int,
    success: int,
    timeline: seq<TimelineEvent>,
    blacklist: bool,
    until: nat,
    lastError: string,
    lastFail: nat,
    lastOK: nat,
    lastProbe: int,
    active: int,
    checked: bool,
    available: bool)
  {
    function AfterFailure(error: string, now: nat): EntryView {
      this.(failure := failure + 1, lastError := error, lastFail := now,
            timeline := Appended(timeline, TimelineEvent(now, false, 0, error)))
    }

    function AfterSuccess(now: nat): EntryView {
      this.(success := success + 1, lastOK := now,
            timeline := Appended(timeline, TimelineEvent(now, true, 0, "")))
    }

    function AfterSuccessWithLatency(now: nat, latency: int): EntryView {
      this.(success := success + 1, lastOK := now, lastProbe := latency,
            timeline := Appended(timeline, TimelineEvent(now, true, LatencyMs(latency), "")))
    }

    function AfterBlacklist(deadline: nat): EntryView {
      this.(blacklist := true, until := deadline)
    }

    function AfterClear(): EntryView {
      this.(blacklist := false, until := 0)
    }

    function AfterActive(delta: int): EntryView {
      this.(active := active + delta)
    }

    /** Checked by a probe and found unusable. */
    predicate KnownBad() {
      checked && !available
    }
  }

  const NEW_ENTRY := EntryView(0, 0, [], false, 0, "", 0, 0, 0, 0, false, false)

  class Entry {
    var failure: int
    var success: int
    const slots: array<TimelineEvent>  // the timeline's backing array, of capacity 20
    var length: nat
    var blacklist: bool
    var until: nat
    var lastError: string
    var lastFail: nat
    var lastOK: nat
    var lastProbe: int
    var active: int
    var checked: bool
    var available: bool

    constructor ()
      ensures Valid() && View() == NEW_ENTRY && fresh(slots)
    {
      failure, success, length, blacklist, until := 0, 0, 0, false, 0;
      lastError, lastFail, lastOK, lastProbe := "", 0, 0, 0;
      active, checked, available := 0, false, false;
      slots := new TimelineEvent[MAX_TIMELINE];
    }

    ghost predicate Valid()
      reads this
    {
      length <= slots.Length == MAX_TIMELINE
    }

    function View(): EntryView
      requires Valid()
      reads this, slots
    {
      EntryView(failure, success, slots[..length], blacklist, until, lastError, lastFail, lastOK,
                lastProbe, active, checked, available)
    }

    /** Shifts the full buffer down by one in place, or grows into it. */
    method AppendTimeline(e: TimelineEvent)
      requires Valid()
      modifies this`length, slots
      ensures Valid() && View() == old(View()).(timeline := Appended(old(View()).timeline, e))
    {
      ghost var before := slots[..length];
      if length >= MAX_TIMELINE {
        for k := 0 to length - 1
          invariant length == |before| == MAX_TIMELINE
          invariant forall j :: 0 <= j < k ==> slots[j] == before[j + 1]
          invariant forall j :: k <= j < length ==> slots[j] == before[j]
        {
          slots[k] := slots[k + 1];
        }
        slots[length - 1] := e;
      } else {
        slots[length] := e;
        length := length + 1;
      }
      assert slots[..length] == Appended(before, e);
    }

    method RecordFailure(error: string, now: nat)
      requires Valid()
      modifies this, slots
      ensures Valid() && View() == old(View()).AfterFailure(error, now)
    {
      failure := failure + 1;
      lastError := error;
      lastFail := now;
      AppendTimeline(TimelineEvent(now, false, 0, error));
    }

    method RecordSuccess(now: nat)
      requires Valid()
      modifies this, slots
      ensures Valid() && View() == old(View()).AfterSuccess(now)
    {
      success := success + 1;
      lastOK := now;
      AppendTimeline(TimelineEvent(now, true, 0, ""));
    }

    method RecordSuccessWithLatency(now: nat, latency: int)
      requires Valid()
      modifies this, slots
      ensures Valid() && View() == old(View()).AfterSuccessWithLatency(now, latency)
    {
      success := success + 1;
      lastOK := now;
      lastProbe := latency;
      AppendTimeline(TimelineEvent(now, true, LatencyMs(latency), ""));
    }

    method Blacklist(deadline: nat)
      requires Valid()
      modifies this`blacklist, this`until
      ensures Valid() && View() == old(View()).AfterBlacklist(deadline)
    {
      blacklist, until := true, deadline;
    }

    method ClearBlacklist()
      requires Valid()
      modifies this`blacklist, this`until
      ensures Valid() && View() == old(View()).AfterClear()
    {
      blacklist, until := false, 0;
    }

    method AddActive(delta: int)
      requires Valid()
      modifies this`active
      ensures Valid() && View() == old(View()).AfterActive(delta)
      ensures active == old(active) + delta
    {
      active := active + delta;
    }
  }

  // The timeline over a whole history.

  datatype Recording =
    | Failure(error: string, now: nat)
    | Success(now: nat)
    | SuccessWithLatency(now: nat, latency: int)

  function EventOf(r: Recording): TimelineEvent {
    match r
    case Failure(error, now) => TimelineEvent(now, false, 0, error)
    case Success(now) => TimelineEvent(now, true, 0, "")
    case SuccessWithLatency(now, latency) => TimelineEvent(now, true, LatencyMs(latency), "")
  }

  function Record(v: EntryView, r: Recording): EntryView {
    match r
    case Failure(error, now) => v.AfterFailure(error, now)
    case Success(now) => v.AfterSuccess(now)
    case SuccessWithLatency(now, latency) => v.AfterSuccessWithLatency(now, latency)
  }

  function RecordAll(v: EntryView, history: seq<Recording>): EntryView {
    if history == [] then v
    else Record(RecordAll(v, history[..|history| - 1]), history[|history| - 1])
  }

  function Events(history: seq<Recording>): (r: seq<TimelineEvent>)
    ensures |r| == |history|
  {
    seq(|history|, i requires 0 <= i < |history| => EventOf(history[i]))
  }

  function Last(n: nat, xs: seq<TimelineEvent>): seq<TimelineEvent> {
    if |xs| <= n then xs else xs[|xs| - n..]
  }

  function Failures(history: seq<Recording>): nat {
    if history == [] then 0
    else Failures(history[..|history| - 1]) + (if history[|history| - 1].Failure? then 1 else 0)
  }

  lemma LastOfFew(xs: seq<TimelineEvent>)
    requires |xs| <= MAX_TIMELINE
    ensures Last(MAX_TIMELINE, xs) == xs
  {
  }

  lemma LastAppended(xs: seq<TimelineEvent>, e: TimelineEvent)
    ensures Appended(Last(MAX_TIMELINE, xs), e) == Last(MAX_TIMELINE, xs + [e])
  {
  }

  lemma RecordEffect(v: EntryView, r: Recording)
    ensures var after := Record(v, r);
      && after.timeline == Appended(v.timeline, EventOf(r))
      && after.failure == v.failure + (if r.Failure? then 1 else 0)
      && after.failure + after.success == v.failure + v.success + 1
  {
    hide Appended, LatencyMs;
  }

  /** The latest failure of a history, its error and time. */
  function LatestFailure(history: seq<Recording>): (string, nat) {
    if history == [] then ("", 0)
    else
      match history[|history| - 1]
      case Failure(error, now) => (error, now)
      case _ => LatestFailure(history[..|history| - 1])
  }

  /** The time of its latest success, and the latency last measured. */
  function LatestSuccess(history: seq<Recording>): (nat, int) {
    if history == [] then (0, 0)
    else
      var before := LatestSuccess(history[..|history| - 1]);
      match history[|history| - 1]
      case Failure(_, _) => before
      case Success(now) => (now, before.1)
      case SuccessWithLatency(now, latency) => (now, latency)
  }

  /** The event that a recording leaves, a positive latency counting as at least one
      millisecond. */
  lemma EventFields(r: Recording)
    ensures var e := EventOf(r);
      match r
      case Failure(error, now) => e == TimelineEvent(now, false, 0, error)
      case Success(now) => e == TimelineEvent(now, true, 0, "")
      case SuccessWithLatency(now, latency) =>
        && e == TimelineEvent(now, true, e.latencyMs, "")
        && (latency <= 0 ==> (e.latencyMs - 1) * 1000000 < latency <= e.latencyMs * 1000000 <= 0)
        && (0 < latency < 1000000 ==> e.latencyMs == 1)
        && (latency >= 1000000 ==> e.latencyMs * 1000000 <= latency < (e.latencyMs + 1) * 1000000)
  {
  }

  /** What a new entry shows besides: the latest failure and success, and nothing of what only
      others write. */
  lemma {:induction false} EntryShowsLatest(history: seq<Recording>)
    ensures var v := RecordAll(NEW_ENTRY, history);
      && (v.lastError, v.lastFail) == LatestFailure(history)
      && (v.lastOK, v.lastProbe) == LatestSuccess(history)
      && v.active == 0 && !v.blacklist && v.until == 0 && !v.checked && !v.available
    decreases |history|
  {
    if history != [] {
      EntryShowsLatest(history[..|history| - 1]);
    }
  }

  /** A new entry's timeline is always the last 20 events of its full history, in order,
      and its two counters split that history. */
  lemma {:induction false} TimelineIsRecentHistory(history: seq<Recording>)
    ensures var v := RecordAll(NEW_ENTRY, history);
      && v.timeline == Last(20, Events(history))
      && v.failure == Failures(history)
      && v.failure + v.success == |history|
    decreases |history|
  {
    hide Appended, Last, Record, EventOf;
    if history == [] {
      LastOfFew(Events(history));
    } else {
      var n := |history| - 1;
      TimelineIsRecentHistory(history[..n]);
      RecordEffect(RecordAll(NEW_ENTRY, history[..n]), history[n]);
      LastAppended(Events(history[..n]), EventOf(history[n]));
      assert Events(history) == Events(history[..n]) + [EventOf(history[n])];
    }
  }
}
