/** The two tables by tag, that of shared states and that of monitor entries, and the pool
    members made from them. */
module Store {
  import opened Types
  import opened Monitor
  import opened SharedState
  import opened Pool
  import opened Ports

  /** Nothing is lost or replaced. */
  ghost predicate Extends<T(!new), U>(before: map<T, U>, after: map<T, U>) {
    forall t :: t in before ==> t in after && after[t] == before[t]
  }

  /** The first tag that no outbound has. */
  ghost predicate IsFirstMissing(tags: seq<string>, networksOf: string -> Option<set<string>>, tag: string) {
    exists i :: 0 <= i < |tags| && tags[i] == tag && networksOf(tag).None?
      && forall k :: 0 <= k < i ==> networksOf(tags[k]).Some?
  }

  /** The tags are new keys, if they are enlisted, and there is no other. */
  ghost predicate Adds(before: set<string>, after: set<string>, tags: seq<string>, enlisted: bool) {
    after == before + (if enlisted then Elements(tags) else {})
  }

  lemma AddsNothing(keys: set<string>, tags: seq<string>, enlisted: bool)
    ensures Adds(keys, keys, tags[..0], enlisted)
  {
  }

  lemma AddsOne(before: set<string>, keys: set<string>, after: set<string>, tags: seq<string>, i: nat, enlisted: bool)
    requires i < |tags| && Adds(before, keys, tags[..i], enlisted)
    requires after == keys + (if enlisted then {tags[i]} else {})
    ensures Adds(before, after, tags[..i + 1], enlisted)
  {
    assert tags[..i + 1] == tags[..i] + [tags[i]];
  }

  /** A member for each tag, of the outbound with that tag and the state of the tag. */
  ghost predicate AreOf(members: seq<Member>, tags: seq<string>, networksOf: string -> Option<set<string>>,
                        states: map<string, SharedMemberState>) {
    && |members| == |tags|
    && (forall i :: 0 <= i < |tags| ==> tags[i] in states && networksOf(tags[i]).Some?)
    && (forall i :: 0 <= i < |tags| ==> members[i] == Member(tags[i], networksOf(tags[i]).value, states[tags[i]]))
  }

  lemma AreOfNone(tags: seq<string>, networksOf: string -> Option<set<string>>,
                  states: map<string, SharedMemberState>)
    ensures AreOf([], tags[..0], networksOf, states)
  {
  }

  lemma AreOfNext(members: seq<Member>, tags: seq<string>, i: nat, networksOf: string -> Option<set<string>>,
                  before: map<string, SharedMemberState>, after: map<string, SharedMemberState>, m: Member)
    requires i < |tags| && AreOf(members, tags[..i], networksOf, before) && Extends(before, after)
    requires tags[i] in after && networksOf(tags[i]).Some?
    requires m == Member(tags[i], networksOf(tags[i]).value, after[tags[i]])
    ensures AreOf(members + [m], tags[..i + 1], networksOf, after)
  {
  }

  lemma IsMissing(members: seq<Member>, tags: seq<string>, i: nat, networksOf: string -> Option<set<string>>,
                  states: map<string, SharedMemberState>)
    requires i < |tags| && AreOf(members, tags[..i], networksOf, states) && networksOf(tags[i]).None?
    ensures IsFirstMissing(tags, networksOf, tags[i])
  {
    assert forall k :: 0 <= k < i ==> tags[..i][k] == tags[k];
  }

  class Tables {
    var states: map<string, SharedMemberState>
    var entries: map<string, Entry>

    constructor ()
      ensures states == map[] && entries == map[] && Valid()
    {
      states, entries := map[], map[];
    }

    ghost function Objects(): set<object>
      reads this
    {
      (set t | t in states :: states[t] as object) +
      (set t | t in entries :: entries[t] as object) +
      (set t | t in entries :: entries[t].slots as object)
    }

    /** Each tag has a state and an entry of its own, and a state has the entry of its tag if
        it has one. */
    ghost predicate Valid()
      reads this, Objects()
    {
      && (forall t :: t in entries ==> entries[t].Valid())
      && (forall t, u :: t in entries && u in entries && t != u ==>
            entries[t] != entries[u] && entries[t].slots != entries[u].slots)
      && (forall t :: t in states && states[t].entry != null ==> t in entries && states[t].entry == entries[t])
      && (forall t, u :: t in states && u in states && t != u ==> states[t] != states[u])
    }

    /** `acquireSharedState`: the state of a tag, made on first use. */
    method Acquire(tag: string) returns (s: SharedMemberState)
      requires Valid()
      modifies this`states
      ensures Valid() && states == old(states)[tag := s]
      ensures if tag in old(states) then s == old(states[tag])
              else fresh(s) && s.Valid() && s.View() == MemberView(Health(0, false, 0, 0), None)
    {
      if tag in states {
        return states[tag];
      }
      s := new SharedMemberState();
      states := states[tag := s];
    }

    /** `Register`: the monitor's entry of a tag, made on first use. */
    method Register(tag: string) returns (e: Entry)
      requires Valid()
      modifies this`entries
      ensures Valid() && entries == old(entries)[tag := e]
      ensures if tag in old(entries) then e == old(entries[tag]) else fresh(e) && e.Valid() && e.View() == NEW_ENTRY
    {
      if tag in entries {
        return entries[tag];
      }
      e := new Entry();
      entries := entries[tag := e];
    }

    /** The state of a tag gets the tag's entry. */
    method Attach(tag: string, s: SharedMemberState)
      requires Valid() && tag in states && s == states[tag]
      modifies this`entries, s`entry
      ensures Valid() && s.entry != null && Extends(old(entries), entries)
      ensures entries.Keys == old(entries.Keys) + {tag}
    {
      var e := Register(tag);
      s.AttachEntry(e);
    }

    /** One turn of the loop that makes the members of a pool. */
    method Enlist(tag: string, networks: set<string>, monitored: bool) returns (m: Member)
      requires Valid()
      modifies this, states.Values`entry
      ensures Valid() && tag in states && m == Member(tag, networks, states[tag])
      ensures Extends(old(states), states) && Extends(old(entries), entries)
      ensures states.Keys == old(states.Keys) + {tag}
      ensures entries.Keys == old(entries.Keys) + (if monitored then {tag} else {})
      ensures forall t :: t in states && t !in old(states) ==> fresh(states[t])
      ensures forall s :: s in old(states.Values) && old(s.entry) != null ==> s.entry != null
      ensures monitored ==> m.shared.entry != null
    {
      hide Valid;
      var s := Acquire(tag);
      if monitored {
        Attach(tag, s);
      }
      m := Member(tag, networks, s);
    }

    /** Members overlap exactly when two have one tag. */
    lemma ReadyIff(members: seq<Member>, tags: seq<string>, networksOf: string -> Option<set<string>>)
      requires Valid() && AreOf(members, tags, networksOf, states)
      ensures Ready(members, Objects()) <==> Distinct(tags)
    {
      if Distinct(tags) {
        assert Ready(members, Objects());
      } else {
        var i, j :| 0 <= i < j < |tags| && tags[i] == tags[j];
        assert members[i].shared in members[i].shared.Repr() * members[j].shared.Repr();
      }
    }

    /** Every member has a monitor entry. */
    ghost predicate AreMonitored(members: seq<Member>)
      reads set m | m in members :: m.shared
    {
      forall m :: m in members ==> m.shared.entry != null
    }

    /** `initializeMembersLocked`; `networksOf` gives the networks of the outbound with a tag,
        if there is one. */
    method MakeMembers(tags: seq<string>, networksOf: string -> Option<set<string>>, monitored: bool)
      returns (r: Result<seq<Member>, string>)
      requires Valid()
      modifies this, states.Values`entry
      ensures Valid() && Extends(old(states), states) && Extends(old(entries), entries)
      ensures match r
              case Err(tag) => IsFirstMissing(tags, networksOf, tag)
              case Ok(members) =>
                && AreOf(members, tags, networksOf, states) && (monitored ==> AreMonitored(members))
                && (Ready(members, Objects()) <==> Distinct(tags))
                && Adds(old(states.Keys), states.Keys, tags, true)
                && Adds(old(entries.Keys), entries.Keys, tags, monitored)
    {
      hide Valid, Ready, Objects, Adds, AreOf, IsFirstMissing;
      var members: seq<Member> := [];
      AreOfNone(tags, networksOf, states);
      AddsNothing(states.Keys, tags, true);
      AddsNothing(entries.Keys, tags, monitored);
      for i := 0 to |tags|
        invariant Valid() && Extends(old(states), states) && Extends(old(entries), entries)
        invariant forall t :: t in states && t !in old(states) ==> fresh(states[t])
        invariant AreOf(members, tags[..i], networksOf, states) && (monitored ==> AreMonitored(members))
        invariant Adds(old(states.Keys), states.Keys, tags[..i], true)
        invariant Adds(old(entries.Keys), entries.Keys, tags[..i], monitored)
      {
        var networks := networksOf(tags[i]);
        if networks.None? {
          IsMissing(members, tags, i, networksOf, states);
          return Err(tags[i]);
        }
        ghost var before, stateKeys, entryKeys := states, states.Keys, entries.Keys;
        var m := Enlist(tags[i], networks.value, monitored);
        AddsOne(old(states.Keys), stateKeys, states.Keys, tags, i, true);
        AddsOne(old(entries.Keys), entryKeys, entries.Keys, tags, i, monitored);
        AreOfNext(members, tags, i, networksOf, before, states, m);
        members := members + [m];
      }
      assert tags[..|tags|] == tags;
      ReadyIff(members, tags, networksOf);
      return Ok(members);
    }
  }
}
