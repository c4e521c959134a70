/** Display names of serialized subclasses (SubClassUtility): a prefix
    strip and the camel-case to words transform. Character classes are the
    ASCII ones. */
module Names {
  import opened Results

  predicate IsUpper(c: char) { 'A' <= c <= 'Z' }
  predicate IsLower(c: char) { 'a' <= c <= 'z' }
  predicate IsLetter(c: char) { IsUpper(c) || IsLower(c) }

  /** The first-letter rule: a lower-case letter is shifted by 'A' - 'a';
      anything else stays. */
  function Capitalize(c: char): (r: char)
    ensures IsLower(c) ==> IsUpper(r) && r as int == c as int - 32
    ensures !IsLower(c) ==> r == c
  {
    if IsLetter(c) && IsLower(c) then (c as int + 'A' as int - 'a' as int) as char else c
  }

  /** Index `i` of `s` starts a new word: an upper-case letter right after a
      lower-case one. */
  predicate Boundary(s: string, i: int) {
    1 <= i < |s| && IsUpper(s[i]) && IsLower(s[i - 1])
  }

  /** The number of word starts among indices 1 .. n-1. */
  function Count(s: string, n: nat): nat
    requires n <= |s|
  {
    if n <= 1 then 0 else Count(s, n - 1) + (if Boundary(s, n - 1) then 1 else 0)
  }

  /** Where input character `i` lands in the output: shifted right by the
      spaces inserted at or before it. */
  function Pos(s: string, i: nat): nat
    requires i < |s|
  {
    i + Count(s, i + 1)
  }

  /** The output for input indices 1 .. n-1: each character, preceded by a
      space when it starts a word. */
  function Spaced(s: string, n: nat): string
    requires 1 <= n <= |s|
  {
    if n == 1 then [] else Spaced(s, n - 1) + (if Boundary(s, n - 1) then " " else "") + [s[n - 1]]
  }

  /** Names that are left alone: too short, or already of the `iValue`
      shape. */
  predicate Untouched(s: string) {
    |s| < 2 || (IsLower(s[0]) && IsUpper(s[1]))
  }

  /** The transform as a whole. */
  function Standardized(s: string): string {
    if Untouched(s) then s else [Capitalize(s[0])] + Spaced(s, |s|)
  }

  /** `StandardizeVarName`: names shorter than two characters and names whose
      first letter is lower case and second upper case come back unchanged.
      Otherwise the first character is capitalized, and exactly one space is
      inserted before every word start; nothing else is added or removed. */
  method StandardizeVarName(name: string) returns (r: string)
    ensures Untouched(name) ==> r == name
    ensures !Untouched(name) ==>
      && |r| == |name| + Count(name, |name|)
      && r[0] == Capitalize(name[0])
      && (forall j | 1 <= j < |name| :: Pos(name, j) < |r| && r[Pos(name, j)] == name[j])
      && (forall j | Boundary(name, j) :: 1 <= Pos(name, j) < |r| && r[Pos(name, j) - 1] == ' ')
    ensures r == Standardized(name)
  {
    if |name| < 2 {
      return name;
    }
    if IsLower(name[0]) && IsUpper(name[1]) {
      return name;
    }
    r := [Capitalize(name[0])];
    var i := 1;
    while i < |name|
      invariant 1 <= i <= |name|
      invariant r == [Capitalize(name[0])] + Spaced(name, i)
      invariant |r| == i + Count(name, i)
      invariant forall j | 1 <= j < i :: Pos(name, j) < |r| && r[Pos(name, j)] == name[j]
      invariant forall j | 1 <= j < i && Boundary(name, j) :: 1 <= Pos(name, j) < |r| && r[Pos(name, j) - 1] == ' '
    {
      var c := name[i];
      if IsUpper(c) && IsLower(name[i - 1]) {
        r := r + " ";
      }
      r := r + [c];
      i := i + 1;
    }
  }

  /** No word start is left in a standardized name that was transformed:
      each one got its space. */
  predicate NoBoundary(s: string) {
    forall i | 1 <= i < |s| :: !(IsUpper(s[i]) && IsLower(s[i - 1]))
  }

  lemma {:induction false} SpacedHasNoBoundary(s: string, n: nat)
    requires 2 <= |s| && !Untouched(s)
    requires 1 <= n <= |s|
    ensures NoBoundary([Capitalize(s[0])] + Spaced(s, n))
    ensures ([Capitalize(s[0])] + Spaced(s, n))[|Spaced(s, n)|] == (if n == 1 then Capitalize(s[0]) else s[n - 1])
  {
    if n > 1 {
      SpacedHasNoBoundary(s, n - 1);
      var t := [Capitalize(s[0])] + Spaced(s, n - 1);
      var u := [Capitalize(s[0])] + Spaced(s, n);
      var mid: string := if Boundary(s, n - 1) then " " else "";
      assert u == t + mid + [s[n - 1]];
      forall i | 1 <= i < |u| ensures !(IsUpper(u[i]) && IsLower(u[i - 1])) {
        if i < |t| {
          assert u[i] == t[i] && u[i - 1] == t[i - 1];
        }
      }
    }
  }

  /** Spacing a name without word starts inserts nothing. */
  lemma {:induction false} SpacedIdentity(s: string, n: nat)
    requires NoBoundary(s)
    requires 1 <= n <= |s|
    ensures Spaced(s, n) == s[1..n]
  {
    if n > 1 {
      SpacedIdentity(s, n - 1);
      assert !Boundary(s, n - 1);
      assert s[1..n] == s[1..n - 1] + [s[n - 1]];
    }
  }

  /** Standardizing twice is standardizing once. */
  lemma StandardizedIdempotent(s: string)
    ensures Standardized(Standardized(s)) == Standardized(s)
  {
    if !Untouched(s) {
      var r := Standardized(s);
      SpacedHasNoBoundary(s, |s|);
      assert |r| >= 2;
      if !Untouched(r) {
        SpacedIdentity(r, |r|);
        assert Capitalize(r[0]) == r[0];
        assert r == [r[0]] + r[1..];
      }
    }
  }

  /** C#'s `string.Replace(pattern, "")`: every occurrence of a non-empty
      pattern, found left to right without overlap, is deleted. */
  function RemoveAll(s: string, pattern: string): (r: string)
    requires pattern != []
    decreases |s|
    ensures |r| <= |s|
  {
    if |s| < |pattern| then s
    else if s[..|pattern|] == pattern then RemoveAll(s[|pattern|..], pattern)
    else [s[0]] + RemoveAll(s[1..], pattern)
  }

  /** `pattern` occurs in `s` at index `i`. */
  predicate OccursAt(s: string, pattern: string, i: int) {
    0 <= i && i + |pattern| <= |s| && s[i..i + |pattern|] == pattern
  }

  /** Without an occurrence nothing is removed. */
  lemma {:induction false} RemoveAllNoOccurrence(s: string, pattern: string)
    requires pattern != []
    requires forall i | 0 <= i <= |s| - |pattern| :: !OccursAt(s, pattern, i)
    ensures RemoveAll(s, pattern) == s
    decreases |s|
  {
    if |s| >= |pattern| {
      assert !OccursAt(s, pattern, 0);
      forall i | 0 <= i <= |s[1..]| - |pattern| ensures !OccursAt(s[1..], pattern, i) {
        assert s[1..][i..i + |pattern|] == s[i + 1..i + 1 + |pattern|];
        assert !OccursAt(s, pattern, i + 1);
      }
      RemoveAllNoOccurrence(s[1..], pattern);
    }
  }

  /** A leading occurrence goes, and the rest is processed the same way. */
  lemma RemoveAllPrefix(pattern: string, rest: string)
    requires pattern != []
    ensures RemoveAll(pattern + rest, pattern) == RemoveAll(rest, pattern)
  {
    assert (pattern + rest)[..|pattern|] == pattern;
    assert (pattern + rest)[|pattern|..] == rest;
  }

  /** `ExtractSubClassName`: a missing type yields no name; otherwise the
      subclass's name without any `<base>_` occurrence, standardized. Types
      are represented by their names. */
  function ExtractSubClassName(baseClass: Option<string>, subClass: Option<string>): (r: Option<string>)
    ensures r.Null? <==> baseClass.Null? || subClass.Null?
  {
    if baseClass.Null? || subClass.Null? then Null
    else
      var stripped := RemoveAll(subClass.value, baseClass.value + "_");
      Some(Standardized(stripped))
  }

  /** The `<base>_` prefix is dropped and the camel case split:
      `AIPlayer_MiniMax` under `AIPlayer` reads `Mini Max`. */
  lemma ExtractExample()
    ensures ExtractSubClassName(Some("AIPlayer"), Some("AIPlayer_MiniMax")) == Some("Mini Max")
  {
    RemoveAllPrefix("AIPlayer_", "MiniMax");
    RemoveAllNoOccurrence("MiniMax", "AIPlayer_");
    assert "AIPlayer_" + "MiniMax" == "AIPlayer_MiniMax";
    var s := "MiniMax";
    assert Spaced(s, 2) == "i";
    assert Spaced(s, 3) == "in";
    assert Spaced(s, 4) == "ini";
    assert Boundary(s, 4);
    assert Spaced(s, 5) == "ini M";
    assert Spaced(s, 6) == "ini Ma";
    assert Spaced(s, 7) == "ini Max";
    assert !Untouched(s) && Capitalize('M') == 'M';
    assert Standardized(s) == "Mini Max";
    assert RemoveAll("AIPlayer_MiniMax", "AIPlayer_") == s;
  }

  /** A subclass named `<base>_<rest>` is displayed as `<rest>` with any
      further `<base>_` removed, standardized. */
  lemma ExtractStripsPrefix(base: string, rest: string)
    ensures ExtractSubClassName(Some(base), Some(base + "_" + rest)) == Some(Standardized(RemoveAll(rest, base + "_")))
  {
    assert base + "_" + rest == (base + "_") + rest;
    RemoveAllPrefix(base + "_", rest);
  }

  /** `GetSubClassNames`: one name per subclass, in order. */
  method GetSubClassNames(baseType: Option<string>, subTypes: seq<Option<string>>) returns (names: seq<Option<string>>)
    ensures |names| == |subTypes|
    ensures forall i | 0 <= i < |subTypes| :: names[i] == ExtractSubClassName(baseType, subTypes[i])
    ensures forall i | 0 <= i < |subTypes| :: names[i].Null? <==> baseType.Null? || subTypes[i].Null?
  {
    names := [];
    for i := 0 to |subTypes|
      invariant |names| == i
      invariant forall j | 0 <= j < i :: names[j] == ExtractSubClassName(baseType, subTypes[j])
    {
      names := names + [ExtractSubClassName(baseType, subTypes[i])];
    }
  }
}
