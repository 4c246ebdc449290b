/** Which configured nodes are enabled. */
module NodeFilter {
  import opened Types
  import opened Text

  datatype Target = ByName | ByGeo | ByNameOrGeo

  datatype Filter = Filter(wanted: seq<string>, unwanted: seq<string>, target: string, useRegex: bool)

  /** What libraries and the location lookup answer: whether a pattern that compiles matches
      a text, a text in lower case (in any script), and the location text of a node, if
      known. */
  datatype Oracle = Oracle(
    regexMatches: (string, string) -> bool,
    lower: string -> string,
    geoText: NodeConfig -> string)

  function TargetOf(text: string): Target {
    var target := ToLower(TrimSpace(text));
    if target == "geo" then ByGeo else if target == "name_or_geo" then ByNameOrGeo else ByName
  }

  /** Trimmed patterns without the empty ones. */
  function Patterns(patterns: seq<string>): seq<string> {
    if patterns == [] then []
    else
      var last := TrimSpace(patterns[|patterns| - 1]);
      Patterns(patterns[..|patterns| - 1]) + (if last == "" then [] else [last])
  }

  predicate Contains(s: string, t: string) {
    exists i {:trigger s[i..]} :: 0 <= i <= |s| && t <= s[i..]
  }

  predicate MatchesAny(value: string, patterns: seq<string>, useRegex: bool, o: Oracle) {
    && value != ""
    && exists k :: 0 <= k < |patterns| &&
         if useRegex then o.regexMatches(value, patterns[k]) else Contains(o.lower(value), o.lower(patterns[k]))
  }

  /** A node is known by its name, or its URI when it has none. */
  function Label(n: NodeConfig): string {
    if TrimSpace(n.name) == "" then TrimSpace(n.uri) else TrimSpace(n.name)
  }

  function Place(n: NodeConfig, o: Oracle): string {
    TrimSpace(o.geoText(n))
  }

  /** Some text that the target looks at matches. */
  predicate Hit(n: NodeConfig, target: Target, patterns: seq<string>, useRegex: bool, o: Oracle) {
    || (!target.ByGeo? && MatchesAny(Label(n), patterns, useRegex, o))
    || (!target.ByName? && MatchesAny(Place(n, o), patterns, useRegex, o))
  }

  /** The filter itself: included, if anything is asked for, and not excluded. */
  predicate Passes(n: NodeConfig, f: Filter, o: Oracle) {
    var target := TargetOf(f.target);
    && (Patterns(f.wanted) != [] ==> Hit(n, target, Patterns(f.wanted), f.useRegex, o))
    && !Hit(n, target, Patterns(f.unwanted), f.useRegex, o)
  }

  function Passing(nodes: seq<NodeConfig>, f: Filter, o: Oracle): seq<NodeConfig> {
    if nodes == [] then []
    else
      var n := nodes[|nodes| - 1];
      Passing(nodes[..|nodes| - 1], f, o) + (if Passes(n, f, o) then [n] else [])
  }

  /** Nothing is known about where any node is. */
  ghost predicate NoPlaces(nodes: seq<NodeConfig>, o: Oracle) {
    forall i :: 0 <= i < |nodes| ==> Place(nodes[i], o) == ""
  }

  /** The nodes that are enabled: those that pass, except that a filter on locations is
      ignored when it asks for some and no location is known. */
  ghost function Enabled(nodes: seq<NodeConfig>, f: Filter, o: Oracle): seq<NodeConfig> {
    if TargetOf(f.target).ByGeo? && Patterns(f.wanted) != [] && NoPlaces(nodes, o) then nodes
    else Passing(nodes, f, o)
  }

  method NormalizePatterns(patterns: seq<string>) returns (out: seq<string>)
    ensures out == Patterns(patterns)
  {
    out := [];
    for i := 0 to |patterns|
      invariant out == Patterns(patterns[..i])
    {
      assert patterns[..i + 1][..i] == patterns[..i];
      var p := TrimSpace(patterns[i]);
      if p != "" {
        out := out + [p];
      }
    }
    assert patterns[..|patterns|] == patterns;
  }

  lemma {:induction false} AllPass(nodes: seq<NodeConfig>, f: Filter, o: Oracle)
    requires forall i :: 0 <= i < |nodes| ==> Passes(nodes[i], f, o)
    ensures Passing(nodes, f, o) == nodes
    decreases |nodes|
  {
    hide Passes;
    if nodes != [] {
      AllPass(nodes[..|nodes| - 1], f, o);
    }
  }

  lemma {:induction false} NonePass(nodes: seq<NodeConfig>, f: Filter, o: Oracle)
    requires forall i :: 0 <= i < |nodes| ==> !Passes(nodes[i], f, o)
    ensures Passing(nodes, f, o) == []
    decreases |nodes|
  {
    hide Passes;
    if nodes != [] {
      NonePass(nodes[..|nodes| - 1], f, o);
    }
  }

  /** Without locations a filter on them passes every node, or none if it asks for some. */
  lemma NoPlacesPassAllOrNone(nodes: seq<NodeConfig>, f: Filter, o: Oracle)
    requires TargetOf(f.target).ByGeo? && NoPlaces(nodes, o)
    ensures Passing(nodes, f, o) == if Patterns(f.wanted) == [] then nodes else []
  {
    if Patterns(f.wanted) == [] {
      AllPass(nodes, f, o);
    } else {
      NonePass(nodes, f, o);
    }
  }

  lemma KnownSoFar(nodes: seq<NodeConfig>, i: nat, o: Oracle)
    requires i < |nodes|
    ensures NoPlaces(nodes[..i + 1], o) <==> NoPlaces(nodes[..i], o) && Place(nodes[i], o) == ""
  {
    if NoPlaces(nodes[..i + 1], o) {
      assert nodes[..i + 1][i] == nodes[i];
      assert forall k :: 0 <= k < i ==> nodes[..i][k] == nodes[..i + 1][k];
    }
  }

  lemma EmptyMatchesNothing(n: NodeConfig, target: Target, useRegex: bool, o: Oracle)
    ensures !Hit(n, target, [], useRegex, o)
  {
  }

  lemma PassingNext(nodes: seq<NodeConfig>, i: nat, f: Filter, o: Oracle)
    requires i < |nodes|
    ensures Passing(nodes[..i + 1], f, o)
         == Passing(nodes[..i], f, o) + (if Passes(nodes[i], f, o) then [nodes[i]] else [])
  {
    hide Passes;
    assert nodes[..i + 1][..i] == nodes[..i];
  }

  /** What the loop decides for a node. */
  lemma PassesIff(n: NodeConfig, f: Filter, o: Oracle, included: bool, excluded: bool)
    requires var target := TargetOf(f.target);
      && included == Hit(n, target, Patterns(f.wanted), f.useRegex, o)
      && excluded == Hit(n, target, Patterns(f.unwanted), f.useRegex, o)
    ensures Passes(n, f, o) <==>
      (Patterns(f.wanted) != [] ==> included) && !(Patterns(f.unwanted) != [] && excluded)
  {
    hide Hit, TargetOf, Patterns;
    EmptyMatchesNothing(n, TargetOf(f.target), f.useRegex, o);
  }

  /** `FilterNodes`. */
  method FilterNodes(nodes: seq<NodeConfig>, f: Filter, o: Oracle) returns (out: seq<NodeConfig>)
    ensures out == Enabled(nodes, f, o)
  {
    var wanted := NormalizePatterns(f.wanted);
    var unwanted := NormalizePatterns(f.unwanted);
    var target := TargetOf(f.target);
    if wanted == [] && unwanted == [] {
      AllPass(nodes, f, o);
      return nodes;
    }
    out := [];
    var geoKnown := 0;
    for i := 0 to |nodes|
      invariant out == Passing(nodes[..i], f, o)
      invariant 0 <= geoKnown && (geoKnown == 0 <==> NoPlaces(nodes[..i], o))
    {
      hide MatchesAny, Label, TargetOf;
      PassingNext(nodes, i, f, o);
      var n := nodes[i];
      var name, place := Label(n), Place(n, o);
      KnownSoFar(nodes, i, o);
      if place != "" {
        geoKnown := geoKnown + 1;
      }
      var included, excluded;
      match target {
        case ByGeo =>
          included := MatchesAny(place, wanted, f.useRegex, o);
          excluded := MatchesAny(place, unwanted, f.useRegex, o);
        case ByNameOrGeo =>
          included := MatchesAny(name, wanted, f.useRegex, o) || MatchesAny(place, wanted, f.useRegex, o);
          excluded := MatchesAny(name, unwanted, f.useRegex, o) || MatchesAny(place, unwanted, f.useRegex, o);
        case ByName =>
          included := MatchesAny(name, wanted, f.useRegex, o);
          excluded := MatchesAny(name, unwanted, f.useRegex, o);
      }
      PassesIff(n, f, o, included, excluded);
      if wanted != [] && !included {
        continue;
      }
      if unwanted != [] && excluded {
        continue;
      }
      out := out + [n];
    }
    assert nodes[..|nodes|] == nodes;
    if target.ByGeo? && geoKnown == 0 {
      NoPlacesPassAllOrNone(nodes, f, o);
    }
    if out == [] && target.ByGeo? && (wanted != [] || unwanted != []) && geoKnown == 0 {
      return nodes;
    }
  }

  /** Enabled nodes keep their order, and each comes from a position of its own. */
  lemma {:induction false} PassingPositions(nodes: seq<NodeConfig>, f: Filter, o: Oracle) returns (at: seq<nat>)
    ensures var out := Passing(nodes, f, o);
      && |at| == |out|
      && (forall k :: 0 <= k < |at| ==> at[k] < |nodes| && nodes[at[k]] == out[k] && Passes(out[k], f, o))
      && (forall a, b :: 0 <= a < b < |at| ==> at[a] < at[b])
      && (forall i: nat :: i < |nodes| && Passes(nodes[i], f, o) ==> i in at)
    decreases |nodes|
  {
    hide Passes;
    at := [];
    if nodes != [] {
      var n := |nodes| - 1;
      at := PassingPositions(nodes[..n], f, o);
      if Passes(nodes[n], f, o) {
        at := at + [n];
      }
    }
  }

  /** The filter is ignored, a node that does not pass being enabled all the same, exactly
      when it asks for locations, none is known, and there are nodes. */
  lemma FilterIgnoredIff(nodes: seq<NodeConfig>, f: Filter, o: Oracle)
    ensures (exists n :: n in Enabled(nodes, f, o) && !Passes(n, f, o)) <==>
      nodes != [] && TargetOf(f.target).ByGeo? && Patterns(f.wanted) != [] && NoPlaces(nodes, o)
  {
    if nodes != [] && TargetOf(f.target).ByGeo? && Patterns(f.wanted) != [] && NoPlaces(nodes, o) {
      assert nodes[0] in Enabled(nodes, f, o) && !Passes(nodes[0], f, o);
    } else {
      var at := PassingPositions(nodes, f, o);
    }
  }

  /** Where each enabled node comes from. */
  lemma EnabledPositions(nodes: seq<NodeConfig>, f: Filter, o: Oracle) returns (at: seq<nat>)
    ensures var out := Enabled(nodes, f, o);
      && |at| == |out|
      && (forall k :: 0 <= k < |at| ==> at[k] < |nodes| && nodes[at[k]] == out[k])
      && (forall a, b :: 0 <= a < b < |at| ==> at[a] < at[b])
  {
    if TargetOf(f.target).ByGeo? && Patterns(f.wanted) != [] && NoPlaces(nodes, o) {
      at := seq(|nodes|, i => i);
    } else {
      at := PassingPositions(nodes, f, o);
    }
  }

  /** The text contains the pattern, in lower case, or matches it as a regular expression. */
  ghost predicate Finds(text: string, pattern: string, useRegex: bool, o: Oracle) {
    && text != ""
    && if useRegex then o.regexMatches(text, pattern)
       else exists i, j :: 0 <= i <= j <= |o.lower(text)| && o.lower(text)[i..j] == o.lower(pattern)
  }

  lemma {:induction false} PatternsAre(patterns: seq<string>)
    ensures forall p :: p in Patterns(patterns) <==>
      p != "" && exists k :: 0 <= k < |patterns| && TrimSpace(patterns[k]) == p
    decreases |patterns|
  {
    hide TrimSpace;
    if patterns != [] {
      var n := |patterns| - 1;
      PatternsAre(patterns[..n]);
      assert forall k :: 0 <= k < n ==> patterns[..n][k] == patterns[k];
      forall p
        ensures p in Patterns(patterns) <==> p != "" && exists k :: 0 <= k < |patterns| && TrimSpace(patterns[k]) == p
      {
        assert p in Patterns(patterns) <==> p in Patterns(patterns[..n]) || (p != "" && p == TrimSpace(patterns[n]));
        if k :| 0 <= k < |patterns| && TrimSpace(patterns[k]) == p {
          assert k < n ==> TrimSpace(patterns[..n][k]) == p;
        }
      }
    }
  }

  lemma ContainsIff(s: string, t: string)
    ensures Contains(s, t) <==> exists i, j :: 0 <= i <= j <= |s| && s[i..j] == t
  {
    if Contains(s, t) {
      var i {:trigger s[i..]} :| 0 <= i <= |s| && t <= s[i..];
      assert s[i..i + |t|] == t;
    }
    if i, j :| 0 <= i <= j <= |s| && s[i..j] == t {
      assert s[i..][..j - i] == t;
    }
  }

  lemma MatchesIff(value: string, patterns: seq<string>, useRegex: bool, o: Oracle)
    ensures MatchesAny(value, patterns, useRegex, o) <==>
      exists k :: 0 <= k < |patterns| && Finds(value, patterns[k], useRegex, o)
  {
    hide Contains;
    forall k | 0 <= k < |patterns|
      ensures Contains(o.lower(value), o.lower(patterns[k])) <==>
        exists i, j :: 0 <= i <= j <= |o.lower(value)| && o.lower(value)[i..j] == o.lower(patterns[k])
    {
      ContainsIff(o.lower(value), o.lower(patterns[k]));
    }
  }

  /** Some of the patterns, trimmed and not empty, is found in what the filter looks at: the
      name of the node, or its URI when it has none, and its location. */
  ghost predicate Asks(n: NodeConfig, patterns: seq<string>, f: Filter, o: Oracle) {
    var shown := if TrimSpace(n.name) != "" then TrimSpace(n.name) else TrimSpace(n.uri);
    var place := TrimSpace(o.geoText(n));
    var target := ToLower(TrimSpace(f.target));
    exists k :: 0 <= k < |patterns| && TrimSpace(patterns[k]) != "" &&
      ((target != "geo" && Finds(shown, TrimSpace(patterns[k]), f.useRegex, o)) ||
       ((target == "geo" || target == "name_or_geo") && Finds(place, TrimSpace(patterns[k]), f.useRegex, o)))
  }

  /** Whatever holds of some pattern that is kept holds of some that was given. */
  lemma SomeKept(kept: seq<string>, patterns: seq<string>, holds: string -> bool)
    requires forall p :: p in kept <==> p != "" && exists k :: 0 <= k < |patterns| && TrimSpace(patterns[k]) == p
    ensures (exists k :: 0 <= k < |kept| && holds(kept[k])) <==>
      exists k :: 0 <= k < |patterns| && TrimSpace(patterns[k]) != "" && holds(TrimSpace(patterns[k]))
  {
    hide TrimSpace;
    if k :| 0 <= k < |kept| && holds(kept[k]) {
      assert kept[k] in kept;
    }
    if k :| 0 <= k < |patterns| && TrimSpace(patterns[k]) != "" && holds(TrimSpace(patterns[k])) {
      assert TrimSpace(patterns[k]) in kept;
    }
  }

  lemma HitIff(n: NodeConfig, patterns: seq<string>, f: Filter, o: Oracle)
    ensures Hit(n, TargetOf(f.target), Patterns(patterns), f.useRegex, o) <==> Asks(n, patterns, f, o)
  {
    hide TrimSpace, ToLower, Patterns, MatchesAny, Finds;
    var target := TargetOf(f.target);
    MatchesIff(Label(n), Patterns(patterns), f.useRegex, o);
    MatchesIff(Place(n, o), Patterns(patterns), f.useRegex, o);
    PatternsAre(patterns);
    SomeKept(Patterns(patterns), patterns, p =>
      (!target.ByGeo? && Finds(Label(n), p, f.useRegex, o)) ||
      (!target.ByName? && Finds(Place(n, o), p, f.useRegex, o)));
  }

  /** A node is enabled when it answers some of the patterns asked for, if any is, and none of
      the unwanted ones, the location fallback apart. */
  lemma EnabledIff(nodes: seq<NodeConfig>, f: Filter, o: Oracle, n: NodeConfig)
    requires n in nodes
    ensures n in Enabled(nodes, f, o) <==>
      || (&& ToLower(TrimSpace(f.target)) == "geo"
          && (exists k :: 0 <= k < |f.wanted| && TrimSpace(f.wanted[k]) != "")
          && (forall i :: 0 <= i < |nodes| ==> TrimSpace(o.geoText(nodes[i])) == ""))
      || (&& ((exists k :: 0 <= k < |f.wanted| && TrimSpace(f.wanted[k]) != "") ==> Asks(n, f.wanted, f, o))
          && !Asks(n, f.unwanted, f, o))
  {
    hide TrimSpace, ToLower, Hit, Asks, Patterns;
    HitIff(n, f.wanted, f, o);
    HitIff(n, f.unwanted, f, o);
    PatternsAre(f.wanted);
    if Patterns(f.wanted) != [] {
      assert Patterns(f.wanted)[0] in Patterns(f.wanted);
    }
    if k :| 0 <= k < |f.wanted| && TrimSpace(f.wanted[k]) != "" {
      assert TrimSpace(f.wanted[k]) in Patterns(f.wanted);
    }
    var at := PassingPositions(nodes, f, o);
    var i :| 0 <= i < |nodes| && nodes[i] == n;
    if Passes(n, f, o) {
      var k :| 0 <= k < |at| && at[k] == i;
      assert Passing(nodes, f, o)[k] == n;
    }
  }
}
