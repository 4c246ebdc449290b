/** The subscription refresh protocol: one refresh loop, any number of `RefreshNow` and
    `UpdateSettings` callers, and two channels of capacity 1.  Each step is one atomic
    action of one goroutine; any interleaving of steps is a run. */
module RefreshProtocol {

  datatype SubSettings = SubSettings(subscriptions: seq<string>, enabled: bool)

  /** Where the refresh loop is; `auto` says whether its ticker is running. */
  datatype Loop =
    | Top
    | Waiting(auto: bool)
    | Entering(auto: bool)  // has received, about to try the lock
    | Locked(auto: bool)
    | Marked(auto: bool)    // IsRefreshing set, settings not read yet
    | Refreshing(auto: bool, version: nat, hasSubs: bool)
    | Recorded(auto: bool)  // LastError written, not counted yet
    | Counted(auto: bool)   // counted and unmarked, lock still held

  /** Where a caller is.  `request` is the position of its request in the log. */
  datatype Caller =
    | OfferingUpdate(version: nat)                    // UpdateSettings, before offering a refresh
    | OfferingConfig                                  // UpdateSettings, before offering configChanged
    | OfferingNow                                     // RefreshNow, before offering a refresh
    | ReadingBaseline(request: nat, busy: bool, counted: nat)  // busy: a refresh was under way at the offer
    | Polling(request: nat, start: nat, stale: bool)           // stale: it still was at the baseline read
    | Returned(request: nat, start: nat, stale: bool, count: nat, ok: bool, at: nat)

  /** Ghost log of what happened: requests and refreshes with the settings version they
      carry or read. */
  datatype Event = Requested(version: nat) | Started(version: nat) | Finished

  datatype State = State(
    settings: SubSettings,
    version: nat,          // number of UpdateSettings writes so far
    manual: bool,          // a token in manualRefresh
    config: bool,          // a token in configChanged
    locked: bool,          // refreshMu
    refreshing: bool,      // status.IsRefreshing
    count: nat,            // status.RefreshCount
    failed: bool,          // status.LastError != ""
    loop: Loop,
    callers: map<nat, Caller>,
    log: seq<Event>)

  datatype Step =
    | CallUpdate(id: nat, to: SubSettings)
    | CallNow(id: nat)
    | OfferManual(id: nat)
    | OfferConfig(id: nat)
    | Baseline(id: nat)
    | Poll(id: nat)
    | ReadLoopSettings
    | TakeManual
    | TakeConfig
    | Tick
    | TryLock
    | Mark
    | ReadSettings
    | Record(ok: bool)
    | Count
    | Unlock

  function Init(settings: SubSettings): State {
    State(settings, 0, false, false, false, false, 0, false, Top, map[], [])
  }

  /** `UpdateSettings` asks for a refresh when it changes the list or turns refreshing on,
      and the new list is not empty. */
  predicate WantsRefresh(from: SubSettings, to: SubSettings) {
    (from.subscriptions != to.subscriptions || (!from.enabled && to.enabled)) && to.subscriptions != []
  }

  /** The step's guard. */
  predicate Enabled(s: State, step: Step) {
    match step
    case CallUpdate(id, _) => id !in s.callers
    case CallNow(id) => id !in s.callers
    case OfferManual(id) => id in s.callers && (s.callers[id].OfferingUpdate? || s.callers[id].OfferingNow?)
    case OfferConfig(id) => id in s.callers && s.callers[id].OfferingConfig?
    case Baseline(id) => id in s.callers && s.callers[id].ReadingBaseline?
    case Poll(id) => id in s.callers && s.callers[id].Polling?
    case ReadLoopSettings => s.loop.Top?
    case TakeManual => s.loop.Waiting? && s.manual
    case TakeConfig => s.loop.Waiting? && s.config
    case Tick => s.loop.Waiting? && s.loop.auto
    case TryLock => s.loop.Entering?
    case Mark => s.loop.Locked?
    case ReadSettings => s.loop.Marked?
    case Record(_) => s.loop.Refreshing?
    case Count => s.loop.Recorded?
    case Unlock => s.loop.Counted?
  }

  /** Back to the select; without a ticker the loop re-reads its settings first. */
  function AfterRefresh(auto: bool): Loop {
    if auto then Waiting(true) else Top
  }

  /** A refresh has read its settings and is not counted yet. */
  predicate UnderWay(s: State) {
    s.loop.Refreshing? || s.loop.Recorded?
  }

  function Next(s: State, step: Step): State
    requires Enabled(s, step)
  {
    match step
    case CallUpdate(id, to) =>
      var caller := if WantsRefresh(s.settings, to) then OfferingUpdate(s.version + 1) else OfferingConfig;
      s.(settings := to, version := s.version + 1, callers := s.callers[id := caller])
    case CallNow(id) => s.(callers := s.callers[id := OfferingNow])
    case OfferManual(id) =>
      // A full channel makes the send a no-op: either way a token is in it afterwards.
      if s.callers[id].OfferingUpdate? then
        s.(manual := true, log := s.log + [Requested(s.callers[id].version)],
           callers := s.callers[id := OfferingConfig])
      else
        s.(manual := true, log := s.log + [Requested(s.version)],
           callers := s.callers[id := ReadingBaseline(|s.log|, UnderWay(s), s.count)])
    case OfferConfig(id) => s.(config := true, callers := s.callers - {id})
    case Baseline(id) =>
      var c := s.callers[id];
      var stale := c.busy && s.count == c.counted;
      s.(callers := s.callers[id := Polling(c.request, s.count, stale)])
    case Poll(id) =>
      var c := s.callers[id];
      if s.count > c.start then
        s.(callers := s.callers[id := Returned(c.request, c.start, c.stale, s.count, !s.failed, |s.log|)])
      else s
    case ReadLoopSettings => s.(loop := Waiting(s.settings.enabled && s.settings.subscriptions != []))
    case TakeManual => s.(manual := false, loop := Entering(s.loop.auto))
    case TakeConfig => s.(config := false, loop := Top)
    case Tick => s.(loop := Entering(true))
    case TryLock =>
      if s.locked then s.(loop := AfterRefresh(s.loop.auto))  // "already in progress, skipping"
      else s.(locked := true, loop := Locked(s.loop.auto))
    case Mark => s.(refreshing := true, loop := Marked(s.loop.auto))
    case ReadSettings =>
      s.(loop := Refreshing(s.loop.auto, s.version, s.settings.subscriptions != []),
         log := s.log + [Started(s.version)])
    case Record(ok) => s.(failed := !(ok && s.loop.hasSubs), loop := Recorded(s.loop.auto))
    case Count =>
      s.(refreshing := false, count := s.count + 1, loop := Counted(s.loop.auto), log := s.log + [Finished])
    case Unlock => s.(locked := false, loop := AfterRefresh(s.loop.auto))
  }

  function StartedIn(log: seq<Event>): nat {
    if log == [] then 0 else StartedIn(log[..|log| - 1]) + (if log[|log| - 1].Started? then 1 else 0)
  }

  function FinishedIn(log: seq<Event>): nat {
    if log == [] then 0 else FinishedIn(log[..|log| - 1]) + (if log[|log| - 1].Finished? then 1 else 0)
  }

  /** Refreshes do not overlap: starts and finishes alternate, beginning with a start. */
  ghost predicate Alternates(log: seq<Event>) {
    && (forall k :: 0 <= k <= |log| ==> FinishedIn(log[..k]) <= StartedIn(log[..k]) <= FinishedIn(log[..k]) + 1)
    && (forall k :: 0 <= k < |log| && log[k].Started? ==> StartedIn(log[..k]) == FinishedIn(log[..k]))
    && (forall k :: 0 <= k < |log| && log[k].Finished? ==> StartedIn(log[..k]) == FinishedIn(log[..k]) + 1)
  }

  /** A refresh reads settings at least as new as those of every earlier request. */
  ghost predicate ReadsNewest(log: seq<Event>) {
    forall i, j :: 0 <= i < j < |log| && log[i].Requested? && log[j].Started? ==> log[i].version <= log[j].version
  }

  /** A refresh started after position `i`. */
  ghost predicate StartedAfter(log: seq<Event>, i: nat) {
    exists j :: i < j < |log| && log[j].Started?
  }

  /** A refresh started after position `i` and finished before position `at`. */
  ghost predicate CompletedBetween(log: seq<Event>, i: nat, at: nat) {
    exists j, k :: i < j < k < at <= |log| && log[j].Started? && log[k].Finished?
  }

  /** The loop has received a token and will read the settings before anything else. */
  predicate AboutToRead(s: State) {
    s.loop.Entering? || s.loop.Locked? || s.loop.Marked?
  }

  /** No request is lost: a refresh has started since, or its token is waiting in the
      channel, or the loop is on its way to starting one. */
  ghost predicate NoRequestLost(s: State) {
    forall i :: 0 <= i < |s.log| && s.log[i].Requested? ==>
      StartedAfter(s.log, i) || s.manual || AboutToRead(s)
  }

  /** The status fields and the lock say what the loop is doing. */
  ghost predicate Accurate(s: State) {
    && (s.locked <==> s.loop.Locked? || s.loop.Marked? || UnderWay(s) || s.loop.Counted?)
    && (s.refreshing <==> s.loop.Marked? || UnderWay(s))
    && s.count == FinishedIn(s.log)
    && StartedIn(s.log) == s.count + (if UnderWay(s) then 1 else 0)
    && (forall i :: 0 <= i < |s.log| && s.log[i].Requested? ==> s.log[i].version <= s.version)
    && Alternates(s.log)
    && ReadsNewest(s.log)
  }

  /** How many refreshes had started before position `request`, against the count at the
      baseline read. */
  ghost predicate StaleMeans(log: seq<Event>, request: nat, start: nat, stale: bool) {
    && request < |log| && log[request].Requested?
    && if stale then StartedIn(log[..request]) == start + 1 else StartedIn(log[..request]) <= start
  }

  ghost predicate CallerAccurate(s: State, c: Caller) {
    match c
    case OfferingUpdate(version) => version <= s.version
    case ReadingBaseline(request, busy, counted) =>
      && request < |s.log| && s.log[request].Requested?
      && counted == FinishedIn(s.log[..request]) <= s.count
      && StartedIn(s.log[..request]) == counted + (if busy then 1 else 0)
    case Polling(request, start, stale) => start <= s.count && StaleMeans(s.log, request, start, stale)
    case Returned(request, start, stale, count, ok, at) =>
      && request < at <= |s.log|
      && start < count == FinishedIn(s.log[..at])
      && StaleMeans(s.log, request, start, stale)
    case _ => true
  }

  ghost predicate CallersAccurate(s: State) {
    forall id :: id in s.callers ==> CallerAccurate(s, s.callers[id])
  }

  ghost predicate Inv(s: State) {
    Accurate(s) && NoRequestLost(s) && CallersAccurate(s)
  }

  // The log grows by one event.

  lemma LogGrows(log: seq<Event>, e: Event)
    ensures (log + [e])[..|log|] == log
    ensures StartedIn(log + [e]) == StartedIn(log) + (if e.Started? then 1 else 0)
    ensures FinishedIn(log + [e]) == FinishedIn(log) + (if e.Finished? then 1 else 0)
    ensures forall k :: 0 <= k <= |log| ==> (log + [e])[..k] == log[..k]
  {
    assert (log + [e])[..|log|] == log;
  }

  lemma AlternatesGrows(log: seq<Event>, e: Event)
    requires Alternates(log)
    requires e.Started? ==> StartedIn(log) == FinishedIn(log)
    requires e.Finished? ==> StartedIn(log) == FinishedIn(log) + 1
    ensures Alternates(log + [e])
  {
    LogGrows(log, e);
    assert log[..|log|] == log;
    forall k | 0 <= k <= |log + [e]|
      ensures FinishedIn((log + [e])[..k]) <= StartedIn((log + [e])[..k]) <= FinishedIn((log + [e])[..k]) + 1
    {
      if k == |log| + 1 {
        assert (log + [e])[..k] == log + [e];
      }
    }
  }

  lemma ReadsNewestGrows(log: seq<Event>, e: Event)
    requires ReadsNewest(log)
    requires e.Started? ==> forall i :: 0 <= i < |log| && log[i].Requested? ==> log[i].version <= e.version
    ensures ReadsNewest(log + [e])
  {
  }

  // Each step keeps the invariant.

  lemma EventAdded(s: State, e: Event)
    requires Accurate(s)
    requires e.Requested? ==> e.version <= s.version
    requires e.Started? ==> s.loop.Marked? && e.version == s.version
    requires e.Finished? ==> s.loop.Recorded?
    ensures var log := s.log + [e];
      && Alternates(log) && ReadsNewest(log)
      && StartedIn(log) == StartedIn(s.log) + (if e.Started? then 1 else 0)
      && FinishedIn(log) == FinishedIn(s.log) + (if e.Finished? then 1 else 0)
  {
    hide Alternates, ReadsNewest;
    LogGrows(s.log, e);
    AlternatesGrows(s.log, e);
    ReadsNewestGrows(s.log, e);
  }

  lemma AccurateKept(s: State, step: Step)
    requires Accurate(s) && Enabled(s, step)
    requires step.OfferManual? && s.callers[step.id].OfferingUpdate? ==> s.callers[step.id].version <= s.version
    ensures Accurate(Next(s, step))
  {
    hide Alternates, ReadsNewest, StartedIn, FinishedIn;
    match step
    case OfferManual(id) =>
      EventAdded(s, Requested(if s.callers[id].OfferingUpdate? then s.callers[id].version else s.version));
    case ReadSettings =>
      EventAdded(s, Started(s.version));
    case Count =>
      EventAdded(s, Finished);
    case _ =>
  }

  lemma NoRequestLostKept(s: State, step: Step)
    requires Inv(s) && Enabled(s, step)
    ensures NoRequestLost(Next(s, step))
  {
    hide StartedIn, FinishedIn, Alternates, ReadsNewest, CallersAccurate;
    var t := Next(s, step);
    forall i | 0 <= i < |t.log| && t.log[i].Requested?
      ensures StartedAfter(t.log, i) || t.manual || AboutToRead(t)
    {
      if i < |s.log| {
        assert s.log[i] == t.log[i];
        if StartedAfter(s.log, i) {
          var j :| i < j < |s.log| && s.log[j].Started?;
          assert t.log[j] == s.log[j];
        } else if step.ReadSettings? {
          assert t.log[|s.log|].Started?;
        }
      }
    }
  }

  /** What a caller knows stays true while the log, the count and the version grow. */
  lemma CallerStaysAccurate(s: State, t: State, c: Caller)
    requires CallerAccurate(s, c)
    requires s.log <= t.log && s.count <= t.count && s.version <= t.version
    ensures CallerAccurate(t, c)
  {
    hide StartedIn, FinishedIn;
    assert forall k :: 0 <= k <= |s.log| ==> t.log[..k] == s.log[..k];
  }

  /** Whose program counter a step moves. */
  function Actor(step: Step): int {
    match step
    case CallUpdate(id, _) => id
    case CallNow(id) => id
    case OfferManual(id) => id
    case OfferConfig(id) => id
    case Baseline(id) => id
    case Poll(id) => id
    case _ => -1
  }

  lemma NextGrows(s: State, step: Step)
    requires Enabled(s, step)
    ensures var t := Next(s, step);
      s.log <= t.log && s.count <= t.count && s.version <= t.version
  {
    hide WantsRefresh;
    match step
    case OfferManual(id) =>
    case ReadSettings =>
    case Count =>
    case _ =>
      assert Next(s, step).log == s.log;
  }

  lemma OthersStay(s: State, step: Step, id: nat)
    requires Enabled(s, step) && id in Next(s, step).callers && id != Actor(step)
    ensures id in s.callers && Next(s, step).callers[id] == s.callers[id]
  {
    hide WantsRefresh;
    match step
    case CallUpdate(_, _) =>
    case CallNow(_) =>
    case OfferManual(_) =>
    case OfferConfig(_) =>
    case Baseline(_) =>
    case Poll(_) =>
    case _ =>
      assert Next(s, step).callers == s.callers;
  }

  lemma ActorAccurate(s: State, step: Step, id: nat)
    requires Accurate(s) && Enabled(s, step) && id == Actor(step) && id in Next(s, step).callers
    requires id in s.callers ==> CallerAccurate(s, s.callers[id])
    ensures CallerAccurate(Next(s, step), Next(s, step).callers[id])
  {
    hide StartedIn, FinishedIn, Alternates, ReadsNewest;
    var t := Next(s, step);
    assert s.log[..|s.log|] == s.log;
    if step.OfferManual? {
      assert t.log[..|s.log|] == s.log;
    }
  }

  lemma CallersAccurateKept(s: State, step: Step)
    requires Inv(s) && Enabled(s, step)
    ensures CallersAccurate(Next(s, step))
  {
    hide CallerAccurate, Accurate, NoRequestLost, Enabled, Next, Actor;
    var t := Next(s, step);
    NextGrows(s, step);
    forall id | id in t.callers
      ensures CallerAccurate(t, t.callers[id])
    {
      if id == Actor(step) {
        ActorAccurate(s, step, id);
      } else {
        OthersStay(s, step, id);
        assert CallerAccurate(s, s.callers[id]);
        CallerStaysAccurate(s, t, s.callers[id]);
      }
    }
  }

  lemma InitInv(settings: SubSettings)
    ensures Inv(Init(settings))
  {
  }

  lemma StepKeepsInv(s: State, step: Step)
    requires Inv(s) && Enabled(s, step)
    ensures Inv(Next(s, step))
  {
    if step.OfferManual? {
      assert CallerAccurate(s, s.callers[step.id]);
    }
    AccurateKept(s, step);
    NoRequestLostKept(s, step);
    CallersAccurateKept(s, step);
  }

  // Whole runs.

  ghost predicate Runs(s: State, steps: seq<Step>, t: State)
    decreases |steps|
  {
    if steps == [] then s == t
    else Enabled(s, steps[0]) && Runs(Next(s, steps[0]), steps[1..], t)
  }

  lemma {:induction false} RunsKeepInv(s: State, steps: seq<Step>, t: State)
    requires Inv(s) && Runs(s, steps, t)
    ensures Inv(t)
    decreases |steps|
  {
    if steps != [] {
      StepKeepsInv(s, steps[0]);
      RunsKeepInv(Next(s, steps[0]), steps[1..], t);
    }
  }

  /** In every reachable state each request has a later refresh that read settings at
      least as new, or its token is pending or has just been taken. */
  lemma RequestsAreServed(settings: SubSettings, steps: seq<Step>, t: State, i: nat)
    requires Runs(Init(settings), steps, t)
    requires i < |t.log| && t.log[i].Requested?
    ensures
      || (exists j :: i < j < |t.log| && t.log[j].Started? && t.log[j].version >= t.log[i].version)
      || t.manual
      || AboutToRead(t)
  {
    InitInv(settings);
    RunsKeepInv(Init(settings), steps, t);
    if StartedAfter(t.log, i) {
      var j :| i < j < |t.log| && t.log[j].Started?;
      assert t.log[j].version >= t.log[i].version;
    }
  }

  /** Refreshes never overlap, so the lock never turns a received token away, and the
      count is the number of finished refreshes. */
  lemma OneRefreshAtATime(settings: SubSettings, steps: seq<Step>, t: State)
    requires Runs(Init(settings), steps, t)
    ensures t.loop.Entering? ==> !t.locked
    ensures t.count == FinishedIn(t.log)
    ensures StartedIn(t.log) - FinishedIn(t.log) == if UnderWay(t) then 1 else 0
    ensures Alternates(t.log)
  {
    InitInv(settings);
    RunsKeepInv(Init(settings), steps, t);
  }

  // What a return from RefreshNow means.

  lemma {:induction false} StartedGrows(log: seq<Event>, i: nat, j: nat)
    requires i <= j <= |log|
    ensures StartedIn(log[..i]) <= StartedIn(log[..j])
    ensures StartedIn(log[..i]) < StartedIn(log[..j]) ==> exists n :: i <= n < j && log[n].Started?
    ensures FinishedIn(log[..i]) <= FinishedIn(log[..j])
    decreases j - i
  {
    if i < j {
      assert log[..j] == log[..j - 1] + [log[j - 1]];
      LogGrows(log[..j - 1], log[j - 1]);
      StartedGrows(log, i, j - 1);
    }
  }

  lemma {:induction false} LastFinish(log: seq<Event>, at: nat) returns (k: nat)
    requires at <= |log| && FinishedIn(log[..at]) > 0
    ensures k < at && log[k].Finished? && FinishedIn(log[..k]) == FinishedIn(log[..at]) - 1
    decreases at
  {
    assert log[..at] == log[..at - 1] + [log[at - 1]];
    LogGrows(log[..at - 1], log[at - 1]);
    if log[at - 1].Finished? {
      k := at - 1;
    } else {
      k := LastFinish(log, at - 1);
    }
  }

  lemma ManyFinishesComplete(log: seq<Event>, request: nat, at: nat)
    requires Alternates(log) && request < at <= |log| && log[request].Requested?
    requires FinishedIn(log[..at]) > StartedIn(log[..request])
    ensures CompletedBetween(log, request, at)
  {
    hide StartedIn, FinishedIn;
    var k := LastFinish(log, at);
    assert StartedIn(log[..k]) == FinishedIn(log[..k]) + 1;
    if k < request {
      StartedGrows(log, k, request);
    } else {
      StartedGrows(log, request, k);
      var j :| request <= j < k && log[j].Started?;
      assert request < j < k < at <= |log| && log[j].Started? && log[k].Finished?;
    }
  }

  lemma CompletedNeedsFinishes(log: seq<Event>, request: nat, at: nat, j: nat, k: nat)
    requires Alternates(log)
    requires request < j < k < at <= |log| && log[j].Started? && log[k].Finished?
    ensures FinishedIn(log[..at]) > StartedIn(log[..request])
  {
    hide StartedIn, FinishedIn;
    StartedGrows(log, request, j);
    StartedGrows(log, j + 1, k);
    StartedGrows(log, k + 1, at);
    assert log[..j + 1] == log[..j] + [log[j]];
    LogGrows(log[..j], log[j]);
    assert log[..k + 1] == log[..k] + [log[k]];
    LogGrows(log[..k], log[k]);
  }

  /** A refresh started after the request has finished exactly when more refreshes have
      finished than had started before the request. */
  lemma CompletedIff(log: seq<Event>, request: nat, at: nat)
    requires Alternates(log) && request < at <= |log| && log[request].Requested?
    ensures CompletedBetween(log, request, at) <==> FinishedIn(log[..at]) > StartedIn(log[..request])
  {
    if FinishedIn(log[..at]) > StartedIn(log[..request]) {
      ManyFinishesComplete(log, request, at);
    }
    if CompletedBetween(log, request, at) {
      var j, k :| request < j < k < at <= |log| && log[j].Started? && log[k].Finished?;
      CompletedNeedsFinishes(log, request, at, j, k);
    }
  }

  /** When `RefreshNow` returns, some refresh has finished since its baseline read.  A
      refresh that started after the request is among the finished ones unless one was
      already under way from the offer to the baseline read and only that one finished. */
  lemma RefreshNowReturn(settings: SubSettings, steps: seq<Step>, t: State, id: nat)
    requires Runs(Init(settings), steps, t)
    requires id in t.callers && t.callers[id].Returned?
    ensures var c := t.callers[id];
      && c.start < c.count
      && (CompletedBetween(t.log, c.request, c.at) <==> !(c.stale && c.count == c.start + 1))
  {
    InitInv(settings);
    RunsKeepInv(Init(settings), steps, t);
    var c := t.callers[id];
    assert CallerAccurate(t, c);
    CompletedIff(t.log, c.request, c.at);
  }

  // Building runs.

  lemma RunsNothing(s: State)
    ensures Runs(s, [], s)
  {
  }

  lemma {:induction false} RunsConcat(s: State, a: seq<Step>, m: State, b: seq<Step>, t: State)
    requires Runs(s, a, m) && Runs(m, b, t)
    ensures Runs(s, a + b, t)
    decreases |a|
  {
    if a == [] {
      assert a + b == b;
    } else {
      RunsConcat(Next(s, a[0]), a[1..], m, b, t);
      assert (a + b)[1..] == a[1..] + b;
    }
  }

  lemma RunsThen(s: State, steps: seq<Step>, m: State, step: Step)
    requires Runs(s, steps, m) && Enabled(m, step)
    ensures Runs(s, steps + [step], Next(m, step))
  {
    RunsNothing(Next(m, step));
    assert [step][1..] == [];
    RunsConcat(s, steps, m, [step], Next(m, step));
  }

  // When a call can return unserved.

  /** `RefreshNow` reported success although no refresh begun after its request has
      finished. */
  ghost predicate ReturnedUnserved(t: State, id: nat) {
    && id in t.callers && t.callers[id].Returned? && t.callers[id].ok
    && !CompletedBetween(t.log, t.callers[id].request, t.callers[id].at)
  }

  ghost predicate MayReturnUnserved(s: State, id: nat) {
    exists steps, t :: Runs(s, steps, t) && ReturnedUnserved(t, id)
  }

  /** The caller's request found no refresh under way. */
  predicate OfferedIdle(s: State, id: nat) {
    id in s.callers &&
    match s.callers[id]
    case ReadingBaseline(_, busy, _) => !busy
    case Polling(_, _, stale) => !stale
    case Returned(_, _, stale, _, _, _) => !stale
    case _ => false
  }

  lemma OfferedIdleKept(s: State, step: Step, id: nat)
    requires Enabled(s, step) && OfferedIdle(s, id)
    ensures OfferedIdle(Next(s, step), id)
  {
    hide WantsRefresh;
  }

  lemma {:induction false} RunsKeepOfferedIdle(s: State, steps: seq<Step>, t: State, id: nat)
    requires Runs(s, steps, t) && OfferedIdle(s, id)
    ensures OfferedIdle(t, id)
    decreases |steps|
  {
    hide OfferedIdle, Next, Enabled;
    if steps != [] {
      OfferedIdleKept(s, steps[0], id);
      RunsKeepOfferedIdle(Next(s, steps[0]), steps[1..], t, id);
    }
  }

  /** If no refresh is under way at the offer, every return of the call, successful or not,
      comes after a refresh begun since has finished. */
  lemma IdleOfferIsServed(settings: SubSettings, prefix: seq<Step>, s: State, id: nat, steps: seq<Step>, t: State)
    requires Runs(Init(settings), prefix, s) && id in s.callers && s.callers[id].OfferingNow? && !UnderWay(s)
    requires Runs(Next(s, OfferManual(id)), steps, t) && id in t.callers && t.callers[id].Returned?
    ensures CompletedBetween(t.log, t.callers[id].request, t.callers[id].at)
  {
    hide Runs, CompletedBetween;
    RunsKeepOfferedIdle(Next(s, OfferManual(id)), steps, t, id);
    RunsThen(Init(settings), prefix, s, OfferManual(id));
    RunsConcat(Init(settings), prefix + [OfferManual(id)], Next(s, OfferManual(id)), steps, t);
    RefreshNowReturn(settings, prefix + [OfferManual(id)] + steps, t, id);
  }

  lemma {:induction false} FreshId(ids: set<nat>) returns (id: nat)
    ensures forall i :: i in ids ==> i < id
    decreases |ids|
  {
    if ids == {} {
      id := 0;
    } else {
      var i :| i in ids;
      var rest := FreshId(ids - {i});
      id := if rest <= i then i + 1 else rest;
      assert forall j :: j in ids ==> j == i || j in ids - {i};
    }
  }

  /** The refresh under way runs to its end, counted once; nobody else moves. */
  lemma FinishUnderWay(s: State) returns (steps: seq<Step>, t: State)
    requires UnderWay(s)
    ensures Runs(s, steps, t)
    ensures t.callers == s.callers && t.manual == s.manual && t.count == s.count + 1
    ensures !t.locked && (t.loop.Top? || t.loop.Waiting?)
  {
    hide Runs;
    RunsNothing(s);
    steps, t := [], s;
    if s.loop.Refreshing? {
      RunsThen(s, steps, t, Record(true));
      steps, t := steps + [Record(true)], Next(t, Record(true));
    }
    RunsThen(s, steps, t, Count);
    steps, t := steps + [Count], Next(t, Count);
    RunsThen(s, steps, t, Unlock);
    steps, t := steps + [Unlock], Next(t, Unlock);
  }

  lemma TakenToRecorded(s: State) returns (steps: seq<Step>, t: State)
    requires s.manual && !s.locked && s.loop.Waiting? && s.settings.subscriptions != []
    ensures Runs(s, steps, t)
    ensures t.count == s.count && !t.failed && t.callers == s.callers
  {
    hide Runs;
    RunsNothing(s);
    RunsThen(s, [], s, TakeManual);
    steps, t := [] + [TakeManual], Next(s, TakeManual);
    RunsThen(s, steps, t, TryLock);
    steps, t := steps + [TryLock], Next(t, TryLock);
    RunsThen(s, steps, t, Mark);
    steps, t := steps + [Mark], Next(t, Mark);
    RunsThen(s, steps, t, ReadSettings);
    steps, t := steps + [ReadSettings], Next(t, ReadSettings);
    RunsThen(s, steps, t, Record(true));
    steps, t := steps + [Record(true)], Next(t, Record(true));
  }

  /** The next refresh, on settings someone writes meanwhile, gets as far as recording its
      success, not yet counted. */
  lemma NextSucceedsUncounted(s: State) returns (steps: seq<Step>, t: State)
    requires s.manual && !s.locked && (s.loop.Top? || s.loop.Waiting?)
    ensures Runs(s, steps, t)
    ensures t.count == s.count && !t.failed
    ensures forall id :: id in s.callers ==> id in t.callers && t.callers[id] == s.callers[id]
  {
    hide Runs, WantsRefresh;
    var id := FreshId(s.callers.Keys);
    var update := CallUpdate(id, SubSettings(["https://example.com"], true));
    RunsNothing(s);
    RunsThen(s, [], s, update);
    steps, t := [] + [update], Next(s, update);
    if t.loop.Top? {
      RunsThen(s, steps, t, ReadLoopSettings);
      steps, t := steps + [ReadLoopSettings], Next(t, ReadLoopSettings);
    }
    ghost var m := t;
    var more: seq<Step>;
    more, t := TakenToRecorded(m);
    RunsConcat(s, steps, m, more, t);
    steps := steps + more;
  }

  lemma UnservedByCount(s: State, id: nat, s1: State, steps: seq<Step>, t: State)
    requires Inv(s) && Enabled(s, OfferManual(id)) && s1 == Next(s, OfferManual(id)) && Runs(s1, steps, t)
    requires id in t.callers && t.callers[id].Returned?
    requires t.callers[id].stale && t.callers[id].count == t.callers[id].start + 1
    ensures !CompletedBetween(t.log, t.callers[id].request, t.callers[id].at)
  {
    hide Runs, CompletedBetween, Next;
    StepKeepsInv(s, OfferManual(id));
    RunsKeepInv(s1, steps, t);
    var c := t.callers[id];
    assert CallerAccurate(t, c);
    CompletedIff(t.log, c.request, c.at);
  }

  /** From any state in which a refresh is under way at the offer, the call can report
      success unserved: the poll pairs the count of the refresh that was under way with the
      outcome recorded by the next. */
  lemma BusyOfferReturnsUnserved(s: State, id: nat) returns (steps: seq<Step>, t: State)
    requires Inv(s) && id in s.callers && s.callers[id].OfferingNow? && UnderWay(s)
    ensures Runs(Next(s, OfferManual(id)), steps, t) && ReturnedUnserved(t, id)
  {
    hide Runs, Inv, CompletedBetween;
    var s1 := Next(s, OfferManual(id));
    var s2 := Next(s1, Baseline(id));
    RunsNothing(s1);
    RunsThen(s1, [], s1, Baseline(id));
    steps := [] + [Baseline(id)];
    var finish, s3 := FinishUnderWay(s2);
    RunsConcat(s1, steps, s2, finish, s3);
    steps := steps + finish;
    var next, s4 := NextSucceedsUncounted(s3);
    RunsConcat(s1, steps, s3, next, s4);
    steps := steps + next;
    RunsThen(s1, steps, s4, Poll(id));
    steps, t := steps + [Poll(id)], Next(s4, Poll(id));
    assert t.callers[id] == Returned(|s.log|, s.count, true, s.count + 1, true, |s4.log|);
    UnservedByCount(s, id, s1, steps, t);
  }

  lemma NotUnserved(settings: SubSettings, prefix: seq<Step>, s: State, id: nat, steps: seq<Step>, t: State)
    requires Runs(Init(settings), prefix, s) && id in s.callers && s.callers[id].OfferingNow? && !UnderWay(s)
    requires Runs(Next(s, OfferManual(id)), steps, t)
    ensures !ReturnedUnserved(t, id)
  {
    hide Runs, CompletedBetween, Next, Init;
    if id in t.callers && t.callers[id].Returned? {
      IdleOfferIsServed(settings, prefix, s, id, steps, t);
    }
  }

  /** Exactly when a call may report success unserved: a refresh that has read its settings
      and is not counted yet is under way when the call offers its request. */
  lemma UnservedReturnIff(settings: SubSettings, prefix: seq<Step>, s: State, id: nat)
    requires Runs(Init(settings), prefix, s) && id in s.callers && s.callers[id].OfferingNow?
    ensures MayReturnUnserved(Next(s, OfferManual(id)), id) <==> UnderWay(s)
  {
    hide Runs, ReturnedUnserved, Inv, Init;
    if UnderWay(s) {
      InitInv(settings);
      RunsKeepInv(Init(settings), prefix, s);
      var steps, t := BusyOfferReturnsUnserved(s, id);
    } else {
      forall steps, t | Runs(Next(s, OfferManual(id)), steps, t)
        ensures !ReturnedUnserved(t, id)
      {
        NotUnserved(settings, prefix, s, id, steps, t);
      }
    }
  }

  /** Such a run exists: the refresh `RefreshNow` saw finish had begun before the call. */
  lemma StaleReturnHappens(settings: SubSettings) returns (steps: seq<Step>, t: State)
    requires settings.enabled && settings.subscriptions != []
    ensures Runs(Init(settings), steps, t) && ReturnedUnserved(t, 0)
  {
    hide Runs, ReturnedUnserved, Inv, WantsRefresh;
    var s := Init(settings);
    RunsNothing(s);
    InitInv(settings);
    RunsThen(s, [], s, ReadLoopSettings);
    steps, t := [] + [ReadLoopSettings], Next(s, ReadLoopSettings);
    RunsThen(s, steps, t, Tick);
    steps, t := steps + [Tick], Next(t, Tick);
    RunsThen(s, steps, t, TryLock);
    steps, t := steps + [TryLock], Next(t, TryLock);
    RunsThen(s, steps, t, Mark);
    steps, t := steps + [Mark], Next(t, Mark);
    RunsThen(s, steps, t, ReadSettings);
    steps, t := steps + [ReadSettings], Next(t, ReadSettings);
    RunsThen(s, steps, t, CallNow(0));
    steps, t := steps + [CallNow(0)], Next(t, CallNow(0));
    RunsKeepInv(s, steps, t);
    var busy := t;
    RunsThen(s, steps, t, OfferManual(0));
    steps := steps + [OfferManual(0)];
    var more: seq<Step>;
    more, t := BusyOfferReturnsUnserved(busy, 0);
    RunsConcat(s, steps, Next(busy, OfferManual(0)), more, t);
    steps := steps + more;
  }
}
