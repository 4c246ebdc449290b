/** The string operations of the Go standard library that the modelled code
    relies on: trimming, lower-casing, splitting, joining, decimal rendering. */
module Text {

  /** `unicode.IsSpace`. */
  predicate IsSpace(c: char) {
    || c == ' ' || '\U{0009}' <= c <= '\U{000D}' || c == '\U{0085}' || c == '\U{00A0}'
    || c == '\U{1680}' || '\U{2000}' <= c <= '\U{200A}' || c == '\U{2028}' || c == '\U{2029}'
    || c == '\U{202F}' || c == '\U{205F}' || c == '\U{3000}'
  }

  function TrimLeft(s: string): string {
    if s != "" && IsSpace(s[0]) then TrimLeft(s[1..]) else s
  }

  function TrimRight(s: string): string {
    if s != "" && IsSpace(s[|s| - 1]) then TrimRight(s[..|s| - 1]) else s
  }

  /** `strings.TrimSpace`. */
  function TrimSpace(s: string): string {
    TrimRight(TrimLeft(s))
  }

  /** No white space at either end. */
  predicate IsTrimmed(s: string) {
    s == "" || (!IsSpace(s[0]) && !IsSpace(s[|s| - 1]))
  }

  lemma {:induction false} TrimLeftShape(s: string)
    ensures |TrimLeft(s)| <= |s| && TrimLeft(s) == s[|s| - |TrimLeft(s)|..]
    ensures TrimLeft(s) == "" || !IsSpace(TrimLeft(s)[0])
    decreases |s|
  {
    if s != "" && IsSpace(s[0]) {
      TrimLeftShape(s[1..]);
    }
  }

  lemma {:induction false} TrimRightShape(s: string)
    ensures |TrimRight(s)| <= |s| && TrimRight(s) == s[..|TrimRight(s)|]
    ensures TrimRight(s) == "" || !IsSpace(TrimRight(s)[|TrimRight(s)| - 1])
    decreases |s|
  {
    if s != "" && IsSpace(s[|s| - 1]) {
      TrimRightShape(s[..|s| - 1]);
    }
  }

  /** Trimming yields a trimmed string, made of characters of `s`, and changes
      nothing exactly when `s` is trimmed already. */
  lemma TrimSpaceTrims(s: string)
    ensures IsTrimmed(TrimSpace(s))
    ensures TrimSpace(s) == s <==> IsTrimmed(s)
    ensures forall c :: c in TrimSpace(s) ==> c in s
  {
    TrimLeftShape(s);
    TrimRightShape(TrimLeft(s));
  }

  lemma {:induction false} CutLeft(s: string) returns (front: string)
    ensures s == front + TrimLeft(s) && forall i :: 0 <= i < |front| ==> IsSpace(front[i])
    decreases |s|
  {
    front := "";
    if s != "" && IsSpace(s[0]) {
      front := CutLeft(s[1..]);
      front := [s[0]] + front;
    }
  }

  lemma {:induction false} CutRight(s: string) returns (back: string)
    ensures s == TrimRight(s) + back && forall i :: 0 <= i < |back| ==> IsSpace(back[i])
    decreases |s|
  {
    back := "";
    if s != "" && IsSpace(s[|s| - 1]) {
      back := CutRight(s[..|s| - 1]);
      back := back + [s[|s| - 1]];
    }
  }

  /** Only white space is cut off, at both ends. */
  lemma TrimSpaceCuts(s: string) returns (front: string, back: string)
    ensures s == front + TrimSpace(s) + back
    ensures forall i :: 0 <= i < |front| ==> IsSpace(front[i])
    ensures forall i :: 0 <= i < |back| ==> IsSpace(back[i])
  {
    front := CutLeft(s);
    back := CutRight(TrimLeft(s));
  }

  lemma {:induction false} BlankIsCut(s: string)
    requires forall i :: 0 <= i < |s| ==> IsSpace(s[i])
    ensures TrimSpace(s) == ""
    decreases |s|
  {
    if s != "" {
      BlankIsCut(s[1..]);
    }
  }

  lemma {:induction false} PaddingOnTheRight(core: string, back: string)
    requires forall i :: 0 <= i < |back| ==> IsSpace(back[i])
    requires IsTrimmed(core) && core != ""
    ensures TrimRight(core + back) == core
    decreases |back|
  {
    var s := core + back;
    if back != "" {
      assert s[|s| - 1] == back[|back| - 1];
      assert s[..|s| - 1] == core + back[..|back| - 1];
      PaddingOnTheRight(core, back[..|back| - 1]);
    } else {
      assert s == core;
    }
  }

  /** What is left when white space is put around a string that has none at its ends. */
  lemma {:induction false} PaddingIsCut(front: string, core: string, back: string)
    requires forall i :: 0 <= i < |front| ==> IsSpace(front[i])
    requires forall i :: 0 <= i < |back| ==> IsSpace(back[i])
    requires IsTrimmed(core) && core != ""
    ensures TrimSpace(front + core + back) == core
    decreases |front| + |back|
  {
    var s := front + core + back;
    if front != "" {
      assert s[1..] == front[1..] + core + back;
      PaddingIsCut(front[1..], core, back);
    } else {
      assert s[0] == core[0];
      PaddingOnTheRight(core, back);
      assert s == core + back;
    }
  }

  /** `unicode.ToLower`, up to characters outside `[A-Za-z0-9]`: the Kelvin sign
      and the dotted capital I are the only ones that lower to an ASCII letter. */
  function LowerChar(c: char): char {
    if 'A' <= c <= 'Z' then ((c as int) + 32) as char
    else if c == '\U{212A}' then 'k'
    else if c == '\U{0130}' then 'i'
    else c
  }

  function ToLower(s: string): string {
    seq(|s|, i requires 0 <= i < |s| => LowerChar(s[i]))
  }

  predicate HasPrefix(s: string, prefix: string) {
    prefix <= s
  }

  /** `strings.Split` on a one-character separator. */
  function Split(s: string, sep: char): (parts: seq<string>)
    ensures |parts| >= 1
  {
    if s == "" then [""]
    else
      var rest := Split(s[1..], sep);
      if s[0] == sep then [""] + rest else [[s[0]] + rest[0]] + rest[1..]
  }

  /** `strings.Join`. */
  function Join(parts: seq<string>, sep: string): string {
    if parts == [] then ""
    else if |parts| == 1 then parts[0]
    else parts[0] + sep + Join(parts[1..], sep)
  }

  lemma {:induction false} SplitAtSeparator(u: string, sep: char, t: string)
    requires sep !in u
    ensures Split(u + [sep] + t, sep) == [u] + Split(t, sep)
    decreases |u|
  {
    var s := u + [sep] + t;
    if u == "" {
      assert s[1..] == t;
    } else {
      assert s[1..] == u[1..] + [sep] + t;
      SplitAtSeparator(u[1..], sep, t);
      assert [u[0]] + u[1..] == u;
    }
  }

  lemma {:induction false} SplitWithoutSeparator(u: string, sep: char)
    requires sep !in u
    ensures Split(u, sep) == [u]
    decreases |u|
  {
    if u != "" {
      SplitWithoutSeparator(u[1..], sep);
      assert [u[0]] + u[1..] == u;
    }
  }

  /** The pieces of a split hold no separator and only characters of `s`. */
  lemma {:induction false} SplitPieces(s: string, sep: char)
    ensures forall p :: p in Split(s, sep) ==> sep !in p
    ensures forall p, c :: p in Split(s, sep) && c in p ==> c in s
    decreases |s|
  {
    if s != "" {
      SplitPieces(s[1..], sep);
      var rest := Split(s[1..], sep);
      forall p | p in Split(s, sep)
        ensures sep !in p && forall c :: c in p ==> c in s
      {
        if s[0] == sep {
          assert p == "" || p in rest;
        } else {
          assert p == [s[0]] + rest[0] || p in rest[1..];
        }
      }
    }
  }

  /** Splitting undoes joining for separator-free pieces. */
  lemma {:induction false} SplitJoin(parts: seq<string>, sep: char)
    requires parts != []
    requires forall p :: p in parts ==> sep !in p
    ensures Split(Join(parts, [sep]), sep) == parts
    decreases |parts|
  {
    if |parts| == 1 {
      SplitWithoutSeparator(parts[0], sep);
    } else {
      SplitAtSeparator(parts[0], sep, Join(parts[1..], [sep]));
      SplitJoin(parts[1..], sep);
    }
  }

  function DigitChar(d: nat): char
    requires d < 10
  {
    ('0' as int + d) as char
  }

  /** Decimal rendering, `fmt.Sprintf("%d", n)`. */
  function Itoa(n: nat): string {
    if n < 10 then [DigitChar(n)] else Itoa(n / 10) + [DigitChar(n % 10)]
  }

  /** The number a digit string denotes. */
  function Atoi(s: string): int {
    if s == "" then 0 else Atoi(s[..|s| - 1]) * 10 + (s[|s| - 1] as int - '0' as int)
  }

  lemma {:induction false} AtoiItoa(n: nat)
    ensures Atoi(Itoa(n)) == n
    ensures Itoa(n) != ""
    ensures forall c :: c in Itoa(n) ==> '0' <= c <= '9'
    decreases n
  {
    if n >= 10 {
      AtoiItoa(n / 10);
      var s := Itoa(n);
      assert s[..|s| - 1] == Itoa(n / 10);
    } else {
      assert Itoa(n)[..0] == "";
    }
  }

  lemma ItoaInjective(a: nat, b: nat)
    requires Itoa(a) == Itoa(b)
    ensures a == b
  {
    AtoiItoa(a);
    AtoiItoa(b);
  }
}
