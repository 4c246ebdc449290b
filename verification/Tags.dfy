/** Outbound tags: slugs of node names, made unique by a counter. */
module Tags {
  import opened Types
  import opened Text

  predicate IsSlugChar(c: char) {
    'a' <= c <= 'z' || '0' <= c <= '9'
  }

  /** Cuts `s` at every character that is not a slug character. */
  function Pieces(s: string): (parts: seq<string>)
    ensures |parts| >= 1
  {
    if s == "" then [""]
    else
      var rest := Pieces(s[1..]);
      if IsSlugChar(s[0]) then [[s[0]] + rest[0]] + rest[1..] else [""] + rest
  }

  function NonEmpty(parts: seq<string>): seq<string> {
    if parts == [] then []
    else (if parts[0] == "" then [] else [parts[0]]) + NonEmpty(parts[1..])
  }

  /** `strings.FieldsFunc`: the maximal runs of slug characters. */
  function Fields(s: string): seq<string> {
    NonEmpty(Pieces(s))
  }

  function TrimDashes(s: string): string {
    if s != "" && s[0] == '-' then TrimDashes(s[1..])
    else if s != "" && s[|s| - 1] == '-' then TrimDashes(s[..|s| - 1])
    else s
  }

  function SanitizeTag(name: string): string {
    var lower := TrimSpace(ToLower(name));
    if lower == "" then "" else TrimDashes(Join(Fields(lower), "-"))
  }

  /** Runs of `[a-z0-9]` joined by single dashes. */
  predicate IsSlug(s: string) {
    && (forall i :: 0 <= i < |s| ==> IsSlugChar(s[i]) || s[i] == '-')
    && (forall i :: 0 <= i < |s| - 1 ==> IsSlugChar(s[i]) || IsSlugChar(s[i + 1]))
    && (s != "" ==> IsSlugChar(s[0]) && IsSlugChar(s[|s| - 1]))
  }

  predicate IsRun(s: string) {
    s != "" && forall i :: 0 <= i < |s| ==> IsSlugChar(s[i])
  }

  lemma {:induction false} PiecesAreSlugChars(s: string)
    ensures forall p, c :: p in Pieces(s) && c in p ==> IsSlugChar(c)
    decreases |s|
  {
    if s != "" {
      PiecesAreSlugChars(s[1..]);
      var rest := Pieces(s[1..]);
      forall p, c | p in Pieces(s) && c in p
        ensures IsSlugChar(c)
      {
        assert p == "" || p == [s[0]] + rest[0] || p in rest;
      }
    }
  }

  lemma {:induction false} NonEmptyKeeps(parts: seq<string>)
    ensures forall p :: p in NonEmpty(parts) <==> p in parts && p != ""
    ensures (forall p :: p in parts ==> p != "") ==> NonEmpty(parts) == parts
    decreases |parts|
  {
    if parts != [] {
      NonEmptyKeeps(parts[1..]);
      if forall p :: p in parts ==> p != "" {
        assert parts[0] in parts && forall p :: p in parts[1..] ==> p in parts;
        assert parts == [parts[0]] + parts[1..];
      }
    }
  }

  lemma FieldsAreRuns(s: string)
    ensures forall p :: p in Fields(s) ==> IsRun(p)
  {
    PiecesAreSlugChars(s);
    NonEmptyKeeps(Pieces(s));
    forall p | p in Fields(s)
      ensures IsRun(p)
    {
      assert forall i :: 0 <= i < |p| ==> p[i] in p;
    }
  }

  lemma SlugConcat(run: string, slug: string)
    requires IsRun(run) && IsSlug(slug) && slug != ""
    ensures IsSlug(run + "-" + slug)
  {
    var s := run + "-" + slug;
    forall i | 0 <= i < |s|
      ensures IsSlugChar(s[i]) || s[i] == '-'
    {
      if i > |run| {
        assert s[i] == slug[i - |run| - 1];
      }
    }
    forall i | 0 <= i < |s| - 1
      ensures IsSlugChar(s[i]) || IsSlugChar(s[i + 1])
    {
      if i >= |run| {
        assert s[i + 1] == slug[i - |run|];
        if i > |run| {
          assert s[i] == slug[i - |run| - 1];
        }
      }
    }
    assert s[|s| - 1] == slug[|slug| - 1];
  }

  lemma {:induction false} JoinedRunsAreSlug(parts: seq<string>)
    requires forall p :: p in parts ==> IsRun(p)
    ensures IsSlug(Join(parts, "-"))
    ensures parts != [] ==> Join(parts, "-") != ""
    decreases |parts|
  {
    if |parts| == 1 {
      assert IsRun(parts[0]);
    } else if |parts| > 1 {
      JoinedRunsAreSlug(parts[1..]);
      assert IsRun(parts[0]);
      SlugConcat(parts[0], Join(parts[1..], "-"));
    }
  }

  /** A tag is a slug, or empty. */
  lemma SanitizedIsSlug(name: string)
    ensures IsSlug(SanitizeTag(name))
  {
    var lower := TrimSpace(ToLower(name));
    FieldsAreRuns(lower);
    JoinedRunsAreSlug(Fields(lower));
  }

  lemma JoinCons(head: string, tail: seq<string>, sep: string)
    ensures Join([head] + tail, sep) == if tail == [] then head else head + sep + Join(tail, sep)
  {
    assert ([head] + tail)[1..] == tail;
  }

  lemma JoinGrows(c: char, rest: seq<string>, sep: char)
    requires rest != []
    ensures Join([[c] + rest[0]] + rest[1..], [sep]) == [c] + Join(rest, [sep])
    ensures Join([""] + rest, [sep]) == [sep] + Join(rest, [sep])
  {
    hide Join;
    JoinCons([c] + rest[0], rest[1..], [sep]);
    JoinCons("", rest, [sep]);
    JoinCons(rest[0], rest[1..], [sep]);
    assert [rest[0]] + rest[1..] == rest;
    if |rest| > 1 {
      assert [c] + rest[0] + [sep] + Join(rest[1..], [sep]) == [c] + (rest[0] + [sep] + Join(rest[1..], [sep]));
    }
  }

  lemma {:induction false} JoinSplit(s: string, sep: char)
    ensures Join(Split(s, sep), [sep]) == s
    decreases |s|
  {
    if s != "" {
      JoinSplit(s[1..], sep);
      var rest := Split(s[1..], sep);
      assert s == [s[0]] + s[1..];
      JoinGrows(s[0], rest, sep);
    }
  }

  /** In a slug, dashes are what separates, and nothing between them is empty. */
  lemma {:induction false} SlugPieces(s: string)
    requires forall i :: 0 <= i < |s| ==> IsSlugChar(s[i]) || s[i] == '-'
    requires forall i :: 0 <= i < |s| - 1 ==> IsSlugChar(s[i]) || IsSlugChar(s[i + 1])
    requires s != "" ==> IsSlugChar(s[|s| - 1])
    ensures Pieces(s) == Split(s, '-')
    ensures s != "" && IsSlugChar(s[0]) ==> Pieces(s)[0] != ""
    ensures forall k :: 1 <= k < |Pieces(s)| ==> Pieces(s)[k] != ""
    decreases |s|
  {
    if s != "" {
      SlugPieces(s[1..]);
      if !IsSlugChar(s[0]) {
        assert |s| > 1 && IsSlugChar(s[1]);
      }
    }
  }

  lemma SlugIsLower(s: string)
    requires IsSlug(s)
    ensures ToLower(s) == s && IsTrimmed(s)
  {
  }

  lemma SlugFields(s: string)
    requires IsSlug(s) && s != ""
    ensures Join(Fields(s), "-") == s
  {
    hide Join, Split, Pieces, NonEmpty;
    SlugPieces(s);
    NonEmptyKeeps(Pieces(s));
    forall p | p in Pieces(s)
      ensures p != ""
    {
      var k :| 0 <= k < |Pieces(s)| && Pieces(s)[k] == p;
    }
    JoinSplit(s, '-');
  }

  lemma SlugIsUnchanged(s: string)
    requires IsSlug(s)
    ensures SanitizeTag(s) == s
  {
    hide TrimSpace, Fields, Join;
    SlugIsLower(s);
    TrimSpaceTrims(s);
    if s != "" {
      SlugFields(s);
    }
  }

  /** Sanitizing leaves a name alone exactly when it is a slug; so sanitizing twice is
      sanitizing once. */
  lemma SanitizeFixedIff(name: string)
    ensures SanitizeTag(name) == name <==> IsSlug(name)
    ensures SanitizeTag(SanitizeTag(name)) == SanitizeTag(name)
  {
    SanitizedIsSlug(name);
    SlugIsUnchanged(SanitizeTag(name));
    if IsSlug(name) {
      SlugIsUnchanged(name);
    }
  }

  // Unique tags.

  function CountOf(bases: seq<string>, base: string): nat {
    if bases == [] then 0
    else CountOf(bases[..|bases| - 1], base) + (if bases[|bases| - 1] == base then 1 else 0)
  }

  function Suffixed(base: string, k: nat): string {
    base + "-" + Itoa(k)
  }

  /** The tag of position `i`: its base the first time, then the base with a counter. */
  function TagAt(bases: seq<string>, i: nat): string
    requires i < |bases|
  {
    var seen := CountOf(bases[..i], bases[i]);
    if seen == 0 then bases[i] else Suffixed(bases[i], seen + 1)
  }

  lemma {:induction false} CountOfGrows(bases: seq<string>, i: nat, j: nat, base: string)
    requires i <= j <= |bases|
    ensures CountOf(bases[..i], base) <= CountOf(bases[..j], base)
    ensures i < j && bases[i] == base ==> CountOf(bases[..i], base) < CountOf(bases[..j], base)
    decreases j
  {
    if i < j {
      CountOfGrows(bases, i, j - 1, base);
      assert bases[..j][..j - 1] == bases[..j - 1];
    }
  }

  /** Every count up to the total is reached at an occurrence. */
  lemma {:induction false} OccurrenceWithCount(bases: seq<string>, base: string, k: nat) returns (i: nat)
    requires k < CountOf(bases, base)
    ensures i < |bases| && bases[i] == base && CountOf(bases[..i], base) == k
    decreases |bases|
  {
    var n := |bases| - 1;
    if k < CountOf(bases[..n], base) {
      i := OccurrenceWithCount(bases[..n], base, k);
      assert bases[..n][..i] == bases[..i];
    } else {
      i := n;
    }
  }

  /** The last dash separates a base from its counter. */
  lemma LastDash(base: string, k: nat)
    ensures var s := Suffixed(base, k);
      |base| < |s| && s[|base|] == '-' && forall p :: |base| < p < |s| ==> s[p] != '-'
  {
    AtoiItoa(k);
    var s := Suffixed(base, k);
    forall p | |base| < p < |s|
      ensures s[p] != '-'
    {
      assert s[p] == Itoa(k)[p - |base| - 1] && s[p] in Itoa(k);
    }
  }

  lemma SuffixedInjective(a: string, k: nat, b: string, m: nat)
    requires Suffixed(a, k) == Suffixed(b, m)
    ensures a == b && k == m
  {
    LastDash(a, k);
    LastDash(b, m);
    assert |a| == |b|;
    var s := Suffixed(a, k);
    assert a == s[..|a|] && b == s[..|b|];
    assert Itoa(k) == s[|a| + 1..] && Itoa(m) == s[|b| + 1..];
    ItoaInjective(k, m);
  }

  /** Two positions get the same tag exactly when one shows its plain base and this is the
      other's base with a counter; never when their bases are equal. */
  lemma TagsCoincideIff(bases: seq<string>, i: nat, j: nat)
    requires i < j < |bases|
    ensures var a, b := CountOf(bases[..i], bases[i]), CountOf(bases[..j], bases[j]);
      TagAt(bases, i) == TagAt(bases, j) <==>
        || (a == 0 && b > 0 && bases[i] == Suffixed(bases[j], b + 1))
        || (b == 0 && a > 0 && bases[j] == Suffixed(bases[i], a + 1))
    ensures bases[i] == bases[j] ==> TagAt(bases, i) != TagAt(bases, j)
  {
    CountOfGrows(bases, i, j, bases[i]);
    var a, b := CountOf(bases[..i], bases[i]), CountOf(bases[..j], bases[j]);
    if a > 0 && b > 0 && TagAt(bases, i) == TagAt(bases, j) {
      SuffixedInjective(bases[i], a + 1, bases[j], b + 1);
    }
  }

  /** Some base is another base followed by a counter in use. */
  ghost predicate BasesClash(bases: seq<string>) {
    exists b, c, k: nat :: b in bases && c in bases && 2 <= k <= CountOf(bases, c) && b == Suffixed(c, k)
  }

  lemma CoincidenceIsClash(bases: seq<string>, i: nat, j: nat)
    requires i < j < |bases| && TagAt(bases, i) == TagAt(bases, j)
    ensures BasesClash(bases)
  {
    TagsCoincideIff(bases, i, j);
    assert bases[..|bases|] == bases;
    CountOfGrows(bases, i, |bases|, bases[i]);
    CountOfGrows(bases, j, |bases|, bases[j]);
    var a, b := CountOf(bases[..i], bases[i]), CountOf(bases[..j], bases[j]);
    assert bases[i] in bases && bases[j] in bases;
    if a == 0 && b > 0 {
      assert bases[i] == Suffixed(bases[j], b + 1);
    } else {
      assert bases[j] == Suffixed(bases[i], a + 1);
    }
  }

  lemma ClashIsCoincidence(bases: seq<string>) returns (i: nat, j: nat)
    requires BasesClash(bases)
    ensures i < |bases| && j < |bases| && i != j && TagAt(bases, i) == TagAt(bases, j)
  {
    var b, c, k: nat :| b in bases && c in bases && 2 <= k <= CountOf(bases, c) && b == Suffixed(c, k);
    assert bases[..|bases|] == bases;
    var x :| 0 <= x < |bases| && bases[x] == b;
    CountOfGrows(bases, x, |bases|, b);
    i := OccurrenceWithCount(bases, b, 0);
    j := OccurrenceWithCount(bases, c, k - 1);
  }

  function AllTags(bases: seq<string>): (r: seq<string>)
    ensures |r| == |bases|
  {
    seq(|bases|, i requires 0 <= i < |bases| => TagAt(bases, i))
  }

  /** All tags differ exactly when no base equals another base with a counter that is used. */
  lemma TagsDistinctIff(bases: seq<string>)
    ensures Distinct(AllTags(bases)) <==> !BasesClash(bases)
  {
    var tags := AllTags(bases);
    if BasesClash(bases) {
      var i, j := ClashIsCoincidence(bases);
      assert tags[i] == tags[j];
    } else {
      forall i, j | 0 <= i < j < |bases|
        ensures tags[i] != tags[j]
      {
        if TagAt(bases, i) == TagAt(bases, j) {
          CoincidenceIsClash(bases, i, j);
        }
      }
    }
  }

  // The slug, character by character.

  /** A letter or digit in lower case, if `c` is one or stands for one. */
  function Lowered(c: char): Option<char> {
    if 'A' <= c <= 'Z' then Some(((c as int) + 32) as char)
    else if 'a' <= c <= 'z' || '0' <= c <= '9' then Some(c)
    else if c == '\U{212A}' then Some('k')  // the Kelvin sign
    else if c == '\U{0130}' then Some('i')  // the dotted capital I
    else None
  }

  /** The letters and digits of `s` in lower case, a single dash wherever others stood
      between two of them.  `begun` tells whether a letter or digit came before, `gap` whether
      others came since. */
  function Scan(s: string, begun: bool, gap: bool): string {
    if s == "" then ""
    else
      match Lowered(s[0])
      case None => Scan(s[1..], begun, true)
      case Some(c) => (if begun && gap then "-" else "") + [c] + Scan(s[1..], true, false)
  }

  lemma LowerCharIsLowered(c: char)
    ensures IsSlugChar(LowerChar(c)) <==> Lowered(c).Some?
    ensures Lowered(c).Some? ==> LowerChar(c) == Lowered(c).value
  {
  }

  function Joined(s: string): string {
    Join(Fields(s), "-")
  }

  lemma NonEmptyCons(head: string, tail: seq<string>)
    ensures NonEmpty([head] + tail) == (if head == "" then NonEmpty(tail) else [head] + NonEmpty(tail))
  {
    assert ([head] + tail)[1..] == tail;
  }

  lemma JoinedAtGap(s: string)
    requires s != "" && !IsSlugChar(s[0])
    ensures Joined(s) == Joined(s[1..])
  {
    hide NonEmpty;
    NonEmptyCons("", Pieces(s[1..]));
  }

  lemma PiecesBegin(s: string)
    ensures Pieces(s)[0] == "" <==> s == "" || !IsSlugChar(s[0])
  {
  }

  lemma NothingToJoin()
    ensures Join([], "-") == ""
  {
  }

  lemma PiecesAtChar(s: string)
    requires s != "" && IsSlugChar(s[0])
    ensures var rest := Pieces(s[1..]);
      && Fields(s) == [[s[0]] + rest[0]] + NonEmpty(rest[1..])
      && Fields(s[1..]) == (if rest[0] == "" then [] else [rest[0]]) + NonEmpty(rest[1..])
  {
    hide NonEmpty;
    var rest := Pieces(s[1..]);
    NonEmptyCons([s[0]] + rest[0], rest[1..]);
    NonEmptyCons(rest[0], rest[1..]);
    assert rest == [rest[0]] + rest[1..];
  }

  /** A run goes on. */
  lemma JoinedInRun(s: string)
    requires |s| > 1 && IsSlugChar(s[0]) && IsSlugChar(s[1])
    ensures Joined(s) == [s[0]] + Joined(s[1..])
  {
    hide NonEmpty, Join, Pieces, Fields;
    PiecesAtChar(s);
    PiecesBegin(s[1..]);
    var fields := Fields(s[1..]);
    assert [[s[0]] + fields[0]] + fields[1..] == Fields(s);
    JoinGrows(s[0], fields, '-');
  }

  lemma JoinAfter(c: char, fields: seq<string>)
    requires forall p :: p in fields ==> IsRun(p)
    ensures Join([[c]] + fields, "-") == [c] + (if Join(fields, "-") == "" then "" else "-" + Join(fields, "-"))
  {
    hide Join, IsRun;
    JoinCons([c], fields, "-");
    JoinedRunsAreSlug(fields);
    if fields == [] {
      NothingToJoin();
    } else {
      var rest := Join(fields, "-");
      assert [c] + "-" + rest == [c] + ("-" + rest);
    }
  }

  /** A run ends. */
  lemma JoinedAtEnd(s: string)
    requires s != "" && IsSlugChar(s[0]) && (|s| == 1 || !IsSlugChar(s[1]))
    ensures Joined(s) == [s[0]] + (if Joined(s[1..]) == "" then "" else "-" + Joined(s[1..]))
  {
    hide NonEmpty, Join, Fields, IsRun;
    PiecesAtChar(s);
    PiecesBegin(s[1..]);
    assert [s[0]] + "" == [s[0]];
    assert Fields(s) == [[s[0]]] + Fields(s[1..]);
    FieldsAreRuns(s[1..]);
    JoinAfter(s[0], Fields(s[1..]));
  }

  lemma JoinedAtChar(s: string)
    requires s != "" && IsSlugChar(s[0])
    ensures Joined(s) ==
      if |s| > 1 && IsSlugChar(s[1]) then [s[0]] + Joined(s[1..])
      else [s[0]] + (if Joined(s[1..]) == "" then "" else "-" + Joined(s[1..]))
  {
    hide Joined;
    if |s| > 1 && IsSlugChar(s[1]) {
      JoinedInRun(s);
    } else {
      JoinedAtEnd(s);
    }
  }

  lemma LoweredTail(s: string)
    requires s != ""
    ensures |ToLower(s)| == |s| && ToLower(s)[0] == LowerChar(s[0]) && ToLower(s)[1..] == ToLower(s[1..])
  {
  }

  /** What the scan yields, from any state. */
  lemma {:induction false} ScanIsJoined(s: string, begun: bool, gap: bool)
    ensures var j := Joined(ToLower(s));
      Scan(s, begun, gap) ==
      if begun && j != "" && (gap || Lowered(s[0]).None?) then "-" + j else j
    decreases |s|
  {
    var lower := ToLower(s);
    if s != "" {
      hide Joined, ToLower;
      LoweredTail(s);
      LowerCharIsLowered(s[0]);
      if Lowered(s[0]).None? {
        JoinedAtGap(lower);
        ScanIsJoined(s[1..], begun, true);
      } else {
        JoinedAtChar(lower);
        ScanIsJoined(s[1..], true, false);
        if |s| > 1 {
          LoweredTail(s[1..]);
          LowerCharIsLowered(s[1]);
        }
      }
    }
  }

  lemma NothingJoined(s: string)
    ensures s == "" ==> Joined(s) == ""
  {
  }

  lemma {:induction false} GapsAround(front: string, core: string, back: string)
    requires forall i :: 0 <= i < |front| ==> !IsSlugChar(front[i])
    requires forall i :: 0 <= i < |back| ==> !IsSlugChar(back[i])
    ensures Joined(front + core + back) == Joined(core)
    decreases |front| + |core| + |back|
  {
    hide Joined;
    var s := front + core + back;
    if front != "" {
      assert s[1..] == front[1..] + core + back;
      JoinedAtGap(s);
      GapsAround(front[1..], core, back);
    } else if core != "" {
      assert s[0] == core[0] && s[1..] == "" + core[1..] + back;
      GapsAround("", core[1..], back);
      if IsSlugChar(core[0]) {
        JoinedAtChar(s);
        JoinedAtChar(core);
        NothingJoined(core[1..]);
      } else {
        JoinedAtGap(s);
        JoinedAtGap(core);
      }
    } else if back != "" {
      assert s == back && s[1..] == "" + "" + back[1..];
      JoinedAtGap(s);
      GapsAround("", "", back[1..]);
      assert "" + "" + "" == "";
    } else {
      assert s == core;
    }
  }

  lemma SlugsHaveNoOuterDashes(s: string)
    requires IsSlug(s)
    ensures TrimDashes(s) == s
  {
  }

  /** `sanitizeTag` is that scan: letters and digits in lower case, runs of anything else
      between two of them turned into one dash, nothing else kept. */
  lemma SanitizeIsScan(name: string)
    ensures SanitizeTag(name) == Scan(name, false, false)
  {
    hide TrimSpace, Pieces, NonEmpty, Join, ToLower;
    var lower := ToLower(name);
    var front, back := TrimSpaceCuts(lower);
    GapsAround(front, TrimSpace(lower), back);
    ScanIsJoined(name, false, false);
    FieldsAreRuns(TrimSpace(lower));
    JoinedRunsAreSlug(Fields(TrimSpace(lower)));
    SlugsHaveNoOuterDashes(Joined(TrimSpace(lower)));
    NothingJoined(TrimSpace(lower));
  }
}
