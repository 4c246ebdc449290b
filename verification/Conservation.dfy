/** Active connections counted twice, in the shared state of a tag and in the monitor entry
    attached to it, while attempts, closes, registrations and resets interleave.  The two
    counters of one increment or decrement are separate steps. */
module Conservation {
  import opened Types

  /** An attempt and the connection it may become. */
  datatype Phase =
    | Raising  // the shared counter is up, the entry's not yet
    | Dialing
    | Failing  // failed: the shared counter is down again, the entry's not yet
    | Failed
    | Open
    | Closing  // the shared counter is down, the entry's not yet
    | Closed
  {
    /** An attempt in flight or a connection not closed. */
    predicate Live() {
      Raising? || Dialing? || Open?
    }

    predicate InEntry() {
      Dialing? || Failing? || Open? || Closing?
    }

    predicate Lowering() {
      Failing? || Closing?
    }
  }

  datatype Token = Token(shared: nat, phase: Phase)

  datatype Shared = Shared(entry: Option<nat>, active: int)

  /** Shared states and entries are never destroyed, only dropped from the two tables, since
      pools and open connections keep them. */
  datatype State = State(
    shareds: seq<Shared>,
    entries: seq<int>,
    store: map<string, nat>,
    nodes: map<string, nat>,
    tokens: seq<Token>)

  const INIT := State([], [], map[], map[], [])

  datatype Step =
    | Register(tag: string)  // a pool acquires the state of a tag and attaches its entry
    | ResetStore
    | ResetNodes
    | Begin(shared: nat)  // any member of any pool, even one of a replaced instance
    | Raise(token: nat)
    | Succeed(token: nat)
    | Fail(token: nat)
    | Close(token: nat)
    | Lower(token: nat)

  function BumpShared(st: State, s: nat, delta: int): State
    requires s < |st.shareds|
  {
    st.(shareds := st.shareds[s := st.shareds[s].(active := st.shareds[s].active + delta)])
  }

  function BumpEntry(st: State, s: nat, delta: int): State
    requires s < |st.shareds|
  {
    var entry := st.shareds[s].entry;
    if entry.Some? && entry.value < |st.entries| then
      st.(entries := st.entries[entry.value := st.entries[entry.value] + delta])
    else st
  }

  function SetPhase(st: State, t: nat, phase: Phase): State
    requires t < |st.tokens|
  {
    st.(tokens := st.tokens[t := st.tokens[t].(phase := phase)])
  }

  function RegisterEntry(st: State, tag: string): State {
    if tag in st.nodes then st
    else st.(entries := st.entries + [0], nodes := st.nodes[tag := |st.entries|])
  }

  function AcquireShared(st: State, tag: string): State {
    if tag in st.store then st
    else st.(shareds := st.shareds + [Shared(None, 0)], store := st.store[tag := |st.shareds|])
  }

  /** With no monitor, no entry is attached. */
  function Registered(st: State, tag: string, monitored: bool): State {
    var acquired := AcquireShared(st, tag);
    if !monitored then acquired
    else
      var registered := RegisterEntry(acquired, tag);
      var s := registered.store[tag];
      if s < |registered.shareds| then
        registered.(shareds := registered.shareds[s := registered.shareds[s].(entry := Some(registered.nodes[tag]))])
      else registered
  }

  predicate Refers(st: State, t: nat) {
    t < |st.tokens| && st.tokens[t].shared < |st.shareds|
  }

  /** One step; a step that does not apply changes nothing.  The monitor's table is only
      reset right after the store, before anything registers again. */
  function Take(st: State, step: Step, monitored: bool): State {
    match step
    case Register(tag) => Registered(st, tag, monitored)
    case ResetStore => st.(store := map[])
    case ResetNodes => if st.store == map[] then st.(nodes := map[]) else st
    case Begin(s) =>
      if s < |st.shareds| then BumpShared(st, s, 1).(tokens := st.tokens + [Token(s, Raising)]) else st
    case Raise(t) =>
      if Refers(st, t) && st.tokens[t].phase.Raising? then
        SetPhase(BumpEntry(st, st.tokens[t].shared, 1), t, Dialing)
      else st
    case Succeed(t) =>
      if Refers(st, t) && st.tokens[t].phase.Dialing? then SetPhase(st, t, Open) else st
    case Fail(t) =>
      if Refers(st, t) && st.tokens[t].phase.Dialing? then
        SetPhase(BumpShared(st, st.tokens[t].shared, -1), t, Failing)
      else st
    case Close(t) =>
      if Refers(st, t) && st.tokens[t].phase.Open? then
        SetPhase(BumpShared(st, st.tokens[t].shared, -1), t, Closing)
      else st
    case Lower(t) =>
      if Refers(st, t) && st.tokens[t].phase.Lowering() then
        SetPhase(BumpEntry(st, st.tokens[t].shared, -1), t, if st.tokens[t].phase.Failing? then Failed else Closed)
      else st
  }

  function Run(steps: seq<Step>, monitored: bool): State {
    if steps == [] then INIT
    else Take(Run(steps[..|steps| - 1], monitored), steps[|steps| - 1], monitored)
  }

  // Counting.

  function Count(flags: seq<bool>): nat {
    if flags == [] then 0 else Count(flags[..|flags| - 1]) + (if flags[|flags| - 1] then 1 else 0)
  }

  lemma {:induction false} CountUpdate(flags: seq<bool>, i: nat, b: bool)
    requires i < |flags|
    ensures Count(flags[i := b]) == Count(flags) + (if b then 1 else 0) - (if flags[i] then 1 else 0)
    decreases |flags|
  {
    var n := |flags| - 1;
    if i == n {
      assert flags[i := b][..n] == flags[..n];
    } else {
      CountUpdate(flags[..n], i, b);
      assert flags[i := b][..n] == flags[..n][i := b];
    }
  }

  lemma CountAppend(flags: seq<bool>, b: bool)
    ensures Count(flags + [b]) == Count(flags) + (if b then 1 else 0)
  {
    assert (flags + [b])[..|flags|] == flags;
  }

  lemma {:induction false} CountSplit(whole: seq<bool>, a: seq<bool>, b: seq<bool>)
    requires |whole| == |a| == |b|
    requires forall i :: 0 <= i < |whole| ==> whole[i] == (a[i] || b[i]) && !(a[i] && b[i])
    ensures Count(whole) == Count(a) + Count(b)
    decreases |whole|
  {
    if whole != [] {
      var n := |whole| - 1;
      CountSplit(whole[..n], a[..n], b[..n]);
    }
  }

  lemma {:induction false} CountNone(flags: seq<bool>)
    requires forall i :: 0 <= i < |flags| ==> !flags[i]
    ensures Count(flags) == 0
    decreases |flags|
  {
    if flags != [] {
      CountNone(flags[..|flags| - 1]);
    }
  }

  /** The live attempts and connections of shared state `s`. */
  function LiveFlags(tokens: seq<Token>, s: nat): (f: seq<bool>)
    ensures |f| == |tokens|
  {
    seq(|tokens|, i requires 0 <= i < |tokens| => tokens[i].shared == s && tokens[i].phase.Live())
  }

  predicate AttachedTo(shareds: seq<Shared>, s: nat, e: nat) {
    s < |shareds| && shareds[s].entry == Some(e)
  }

  /** Those the entry `e` should count at this instant. */
  function EntryFlags(st: State, e: nat): (f: seq<bool>)
    ensures |f| == |st.tokens|
  {
    seq(|st.tokens|, i requires 0 <= i < |st.tokens| =>
      AttachedTo(st.shareds, st.tokens[i].shared, e) && st.tokens[i].phase.InEntry())
  }

  // The invariant.

  ghost predicate InRange(st: State, monitored: bool) {
    && (forall tag :: tag in st.store ==> st.store[tag] < |st.shareds|)
    && (forall tag :: tag in st.nodes ==> st.nodes[tag] < |st.entries|)
    && (forall t :: 0 <= t < |st.tokens| ==> st.tokens[t].shared < |st.shareds|)
    && (forall s :: 0 <= s < |st.shareds| ==>
          if monitored then st.shareds[s].entry.Some? && st.shareds[s].entry.value < |st.entries|
          else st.shareds[s].entry.None?)
  }

  /** A registered tag's state is attached to the entry the monitor has for the tag. */
  ghost predicate Aligned(st: State) {
    forall tag :: tag in st.store ==>
      tag in st.nodes && st.store[tag] < |st.shareds| && st.shareds[st.store[tag]].entry == Some(st.nodes[tag])
  }

  ghost predicate SharedsCount(st: State) {
    forall s :: 0 <= s < |st.shareds| ==> st.shareds[s].active == Count(LiveFlags(st.tokens, s))
  }

  ghost predicate EntriesCount(st: State) {
    forall e :: 0 <= e < |st.entries| ==> st.entries[e] == Count(EntryFlags(st, e))
  }

  ghost predicate Inv(st: State, monitored: bool) {
    InRange(st, monitored) && (monitored ==> Aligned(st)) && SharedsCount(st) && EntriesCount(st)
  }

  /** Moving one token between phases moves each counter by the difference. */
  lemma PhaseChange(st: State, t: nat, phase: Phase, s: nat, e: nat)
    requires t < |st.tokens|
    ensures var after := SetPhase(st, t, phase);
      var token := st.tokens[t];
      && Count(LiveFlags(after.tokens, s)) == Count(LiveFlags(st.tokens, s)) +
           (if token.shared != s then 0 else (if phase.Live() then 1 else 0) - (if token.phase.Live() then 1 else 0))
      && Count(EntryFlags(after, e)) == Count(EntryFlags(st, e)) +
           (if !AttachedTo(st.shareds, token.shared, e) then 0
            else (if phase.InEntry() then 1 else 0) - (if token.phase.InEntry() then 1 else 0))
  {
    var after, token := SetPhase(st, t, phase), st.tokens[t];
    CountUpdate(LiveFlags(st.tokens, s), t, token.shared == s && phase.Live());
    assert LiveFlags(after.tokens, s) == LiveFlags(st.tokens, s)[t := token.shared == s && phase.Live()];
    CountUpdate(EntryFlags(st, e), t, AttachedTo(st.shareds, token.shared, e) && phase.InEntry());
    assert EntryFlags(after, e) == EntryFlags(st, e)[t := AttachedTo(st.shareds, token.shared, e) && phase.InEntry()];
  }

  /** The counts depend on the tokens and on which entry each state is attached to. */
  lemma CountsDependOnTokens(a: State, b: State, e: nat)
    requires a.tokens == b.tokens
    requires forall t :: 0 <= t < |a.tokens| ==>
      (AttachedTo(a.shareds, a.tokens[t].shared, e) <==> AttachedTo(b.shareds, a.tokens[t].shared, e))
    ensures EntryFlags(a, e) == EntryFlags(b, e)
  {
  }

  /** A change of phase together with the right change of a counter. */
  lemma TokenStepKeepsInv(st: State, monitored: bool, t: nat, phase: Phase, mid: State)
    requires Inv(st, monitored) && Refers(st, t)
    requires var p := st.tokens[t].phase;
      var s := st.tokens[t].shared;
      || (mid == st && p.Live() == phase.Live() && p.InEntry() == phase.InEntry())
      || (mid == BumpEntry(st, s, 1) && p.Live() == phase.Live() && !p.InEntry() && phase.InEntry())
      || (mid == BumpEntry(st, s, -1) && p.Live() == phase.Live() && p.InEntry() && !phase.InEntry())
      || (mid == BumpShared(st, s, -1) && p.Live() && !phase.Live() && p.InEntry() == phase.InEntry())
    ensures Inv(SetPhase(mid, t, phase), monitored)
  {
    hide Count, LiveFlags, EntryFlags;
    var after := SetPhase(mid, t, phase);
    assert mid.tokens == st.tokens;
    forall s | 0 <= s < |st.shareds|
      ensures after.shareds[s].active == Count(LiveFlags(after.tokens, s))
    {
      PhaseChange(mid, t, phase, s, 0);
    }
    forall e | 0 <= e < |st.entries|
      ensures after.entries[e] == Count(EntryFlags(after, e))
    {
      PhaseChange(mid, t, phase, 0, e);
      CountsDependOnTokens(st, mid, e);
    }
  }

  lemma BeginKeepsInv(st: State, monitored: bool, s: nat)
    requires Inv(st, monitored) && s < |st.shareds|
    ensures Inv(Take(st, Begin(s), monitored), monitored)
  {
    hide Count;
    var after := Take(st, Begin(s), monitored);
    forall x | 0 <= x < |st.shareds|
      ensures after.shareds[x].active == Count(LiveFlags(after.tokens, x))
    {
      CountAppend(LiveFlags(st.tokens, x), x == s);
      assert LiveFlags(after.tokens, x) == LiveFlags(st.tokens, x) + [x == s];
    }
    forall e | 0 <= e < |st.entries|
      ensures after.entries[e] == Count(EntryFlags(after, e))
    {
      CountAppend(EntryFlags(st, e), false);
      assert EntryFlags(after, e) == EntryFlags(st, e) + [false];
    }
  }

  lemma RegisterKeepsRange(st: State, monitored: bool, tag: string)
    requires InRange(st, monitored) && (monitored ==> Aligned(st))
    ensures InRange(Registered(st, tag, monitored), monitored)
  {
  }

  lemma RegisterKeepsAligned(st: State, tag: string)
    requires InRange(st, true) && Aligned(st)
    ensures Aligned(Registered(st, tag, true))
  {
  }

  /** Registering never moves an attachment: what was there stays, what is new is last. */
  lemma RegisterExtends(st: State, monitored: bool, tag: string)
    requires InRange(st, monitored) && (monitored ==> Aligned(st))
    ensures var after := Registered(st, tag, monitored);
      && after.tokens == st.tokens
      && (after.shareds == st.shareds ||
          (|after.shareds| == |st.shareds| + 1 && after.shareds[..|st.shareds|] == st.shareds &&
           after.shareds[|st.shareds|].active == 0))
      && (after.entries == st.entries || after.entries == st.entries + [0])
  {
  }

  lemma ExtensionCounts(st: State, monitored: bool, after: State)
    requires Inv(st, monitored) && after.tokens == st.tokens
    requires after.shareds == st.shareds ||
      (|after.shareds| == |st.shareds| + 1 && after.shareds[..|st.shareds|] == st.shareds &&
       after.shareds[|st.shareds|].active == 0)
    requires after.entries == st.entries || after.entries == st.entries + [0]
    ensures SharedsCount(after) && EntriesCount(after)
  {
    hide Count;
    forall s | 0 <= s < |after.shareds|
      ensures after.shareds[s].active == Count(LiveFlags(after.tokens, s))
    {
      if s == |st.shareds| {
        CountNone(LiveFlags(after.tokens, s));
      } else {
        assert after.shareds[s] == st.shareds[s];
      }
    }
    assert forall s :: 0 <= s < |st.shareds| ==> after.shareds[s] == st.shareds[s];
    forall e | 0 <= e < |after.entries|
      ensures after.entries[e] == Count(EntryFlags(after, e))
    {
      if e == |st.entries| {
        CountNone(EntryFlags(after, e));
      } else {
        CountsDependOnTokens(st, after, e);
      }
    }
  }

  lemma RegisterKeepsInv(st: State, monitored: bool, tag: string)
    requires Inv(st, monitored)
    ensures Inv(Registered(st, tag, monitored), monitored)
  {
    hide Registered, SharedsCount, EntriesCount, InRange, Aligned;
    RegisterKeepsRange(st, monitored, tag);
    if monitored {
      RegisterKeepsAligned(st, tag);
    }
    RegisterExtends(st, monitored, tag);
    ExtensionCounts(st, monitored, Registered(st, tag, monitored));
  }

  lemma TakeKeepsInv(st: State, step: Step, monitored: bool)
    requires Inv(st, monitored)
    ensures Inv(Take(st, step, monitored), monitored)
  {
    hide Count, LiveFlags, EntryFlags, Registered, SharedsCount, EntriesCount;
    match step
    case Register(tag) => RegisterKeepsInv(st, monitored, tag);
    case ResetStore => ExtensionCounts(st, monitored, Take(st, step, monitored));
    case ResetNodes => ExtensionCounts(st, monitored, Take(st, step, monitored));
    case Begin(s) =>
      if s < |st.shareds| {
        BeginKeepsInv(st, monitored, s);
      }
    case Raise(t) =>
      if Refers(st, t) && st.tokens[t].phase.Raising? {
        TokenStepKeepsInv(st, monitored, t, Dialing, BumpEntry(st, st.tokens[t].shared, 1));
      }
    case Succeed(t) =>
      if Refers(st, t) && st.tokens[t].phase.Dialing? {
        TokenStepKeepsInv(st, monitored, t, Open, st);
      }
    case Fail(t) =>
      if Refers(st, t) && st.tokens[t].phase.Dialing? {
        TokenStepKeepsInv(st, monitored, t, Failing, BumpShared(st, st.tokens[t].shared, -1));
      }
    case Close(t) =>
      if Refers(st, t) && st.tokens[t].phase.Open? {
        TokenStepKeepsInv(st, monitored, t, Closing, BumpShared(st, st.tokens[t].shared, -1));
      }
    case Lower(t) =>
      if Refers(st, t) && st.tokens[t].phase.Lowering() {
        TokenStepKeepsInv(st, monitored, t, if st.tokens[t].phase.Failing? then Failed else Closed,
                          BumpEntry(st, st.tokens[t].shared, -1));
      }
  }

  lemma {:induction false} RunKeepsInv(steps: seq<Step>, monitored: bool)
    ensures Inv(Run(steps, monitored), monitored)
    decreases |steps|
  {
    if steps != [] {
      RunKeepsInv(steps[..|steps| - 1], monitored);
      TakeKeepsInv(Run(steps[..|steps| - 1], monitored), steps[|steps| - 1], monitored);
    }
  }

  // The theorems.

  /** In every reachable state a shared counter is exactly the number of attempts in flight
      plus open connections, so it is never negative. */
  lemma ActiveIsConserved(steps: seq<Step>, monitored: bool, s: nat)
    requires s < |Run(steps, monitored).shareds|
    ensures var st := Run(steps, monitored);
      st.shareds[s].active == Count(LiveFlags(st.tokens, s)) >= 0
  {
    RunKeepsInv(steps, monitored);
  }

  /** The shared counters attached to an entry, added up over the first `n` states. */
  function SumAttached(shareds: seq<Shared>, e: nat, n: nat): int
    requires n <= |shareds|
  {
    if n == 0 then 0
    else SumAttached(shareds, e, n - 1) + (if shareds[n - 1].entry == Some(e) then shareds[n - 1].active else 0)
  }

  datatype Selection = AllLive | AllCounted | AllRaising | AllLowering
  {
    predicate Has(p: Phase) {
      match this
      case AllLive => p.Live()
      case AllCounted => p.Dialing? || p.Open?
      case AllRaising => p.Raising?
      case AllLowering => p.Lowering()
    }
  }

  /** The tokens attached to `e`, among the first `n` states, in one of the selected phases. */
  function AttachedFlags(st: State, e: nat, n: nat, which: Selection): (f: seq<bool>)
    ensures |f| == |st.tokens|
  {
    seq(|st.tokens|, i requires 0 <= i < |st.tokens| =>
      st.tokens[i].shared < n && AttachedTo(st.shareds, st.tokens[i].shared, e) && which.Has(st.tokens[i].phase))
  }

  lemma {:induction false} SumCountsLive(st: State, e: nat, n: nat)
    requires n <= |st.shareds| && SharedsCount(st)
    ensures SumAttached(st.shareds, e, n) == Count(AttachedFlags(st, e, n, AllLive))
    decreases n
  {
    hide Count;
    if n == 0 {
      CountNone(AttachedFlags(st, e, 0, AllLive));
    } else {
      SumCountsLive(st, e, n - 1);
      if st.shareds[n - 1].entry == Some(e) {
        CountSplit(AttachedFlags(st, e, n, AllLive), AttachedFlags(st, e, n - 1, AllLive), LiveFlags(st.tokens, n - 1));
      } else {
        assert AttachedFlags(st, e, n, AllLive) == AttachedFlags(st, e, n - 1, AllLive);
      }
    }
  }

  /** In every reachable state an entry's counter is the sum of the shared counters attached
      to it, apart from tokens caught between their two counters: less those still raising,
      plus those still lowering.  It is never negative. */
  lemma EntryIsSumOfShared(steps: seq<Step>, monitored: bool, e: nat)
    requires e < |Run(steps, monitored).entries|
    ensures var st := Run(steps, monitored);
      var n := |st.shareds|;
      && st.entries[e] >= 0
      && st.entries[e] + Count(AttachedFlags(st, e, n, AllRaising))
         == SumAttached(st.shareds, e, n) + Count(AttachedFlags(st, e, n, AllLowering))
  {
    RunKeepsInv(steps, monitored);
    var st := Run(steps, monitored);
    var n := |st.shareds|;
    SumCountsLive(st, e, n);
    CountSplit(EntryFlags(st, e), AttachedFlags(st, e, n, AllCounted), AttachedFlags(st, e, n, AllLowering));
    CountSplit(AttachedFlags(st, e, n, AllLive), AttachedFlags(st, e, n, AllCounted),
               AttachedFlags(st, e, n, AllRaising));
  }

  /** When no token is between its two counters, the entry is exactly the sum. */
  lemma QuietEntryIsSum(steps: seq<Step>, monitored: bool, e: nat)
    requires var st := Run(steps, monitored);
      && e < |st.entries|
      && forall t :: 0 <= t < |st.tokens| ==> !st.tokens[t].phase.Raising? && !st.tokens[t].phase.Lowering()
    ensures var st := Run(steps, monitored);
      st.entries[e] == SumAttached(st.shareds, e, |st.shareds|)
  {
    var st := Run(steps, monitored);
    EntryIsSumOfShared(steps, monitored, e);
    CountNone(AttachedFlags(st, e, |st.shareds|, AllRaising));
    CountNone(AttachedFlags(st, e, |st.shareds|, AllLowering));
  }

  function TakeAll(st: State, steps: seq<Step>, monitored: bool): State {
    if steps == [] then st
    else Take(TakeAll(st, steps[..|steps| - 1], monitored), steps[|steps| - 1], monitored)
  }

  lemma RegisterKeepsTokens(st: State, tag: string, monitored: bool)
    ensures Registered(st, tag, monitored).tokens == st.tokens
  {
  }

  lemma StaysClosed(st: State, t: nat, step: Step, monitored: bool)
    requires t < |st.tokens| && (st.tokens[t].phase.Closing? || st.tokens[t].phase.Closed?)
    ensures var after := Take(st, step, monitored);
      t < |after.tokens| && (after.tokens[t].phase.Closing? || after.tokens[t].phase.Closed?)
  {
    hide Registered;
    if step.Register? {
      RegisterKeepsTokens(st, step.tag, monitored);
    }
  }

  lemma {:induction false} NotReopened(st: State, t: nat, steps: seq<Step>, monitored: bool)
    requires t < |st.tokens| && (st.tokens[t].phase.Closing? || st.tokens[t].phase.Closed?)
    ensures var after := TakeAll(st, steps, monitored);
      t < |after.tokens| && (after.tokens[t].phase.Closing? || after.tokens[t].phase.Closed?)
    decreases |steps|
  {
    hide Take;
    if steps != [] {
      NotReopened(st, t, steps[..|steps| - 1], monitored);
      StaysClosed(TakeAll(st, steps[..|steps| - 1], monitored), t, steps[|steps| - 1], monitored);
    }
  }

  /** Closing again changes nothing, at once or later. */
  lemma CloseAgainIsNoOp(st: State, t: nat, between: seq<Step>, monitored: bool)
    requires Refers(st, t) && (st.tokens[t].phase.Open? || st.tokens[t].phase.Closing? || st.tokens[t].phase.Closed?)
    ensures var later := TakeAll(Take(st, Close(t), monitored), between, monitored);
      Take(later, Close(t), monitored) == later
  {
    NotReopened(Take(st, Close(t), monitored), t, between, monitored);
  }

  /** Why the order of the two resets matters: dropping the monitor's table while the store
      still holds a tag, with a connection open, leaves the new entry at -1 once the tag has
      registered again and the connection has closed. */
  lemma NodesResetAloneGoesNegative(tag: string)
    ensures var begun := Take(Take(INIT, Register(tag), true), Begin(0), true);
      var open := Take(Take(begun, Raise(0), true), Succeed(0), true);
      var forgotten := open.(nodes := map[]);
      Take(Take(Take(forgotten, Register(tag), true), Close(0), true), Lower(0), true).entries == [1, -1]
  {
  }
}
