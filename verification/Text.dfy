/**
 The string searches the server leans on: std::string::find, strstr and strchr. A text is a
 sequence of characters, one per byte of the original; a C string is a text without NUL.
 */
module Text {
  import opened Options

  predicate MatchesAt(s: string, pattern: string, i: nat) {
    i + |pattern| <= |s| && s[i..i + |pattern|] == pattern
  }

  /** The first match of pattern at or after from. */
  function Find(s: string, pattern: string, from: nat): (r: Option<nat>)
    ensures r.Some? ==> from <= r.value && MatchesAt(s, pattern, r.value)
    ensures r.Some? ==> forall i: nat :: from <= i < r.value ==> !MatchesAt(s, pattern, i)
    ensures r.None? ==> forall i: nat :: from <= i ==> !MatchesAt(s, pattern, i)
    decreases |s| - from
  {
    if from + |pattern| > |s| then None
    else if MatchesAt(s, pattern, from) then Some(from)
    else Find(s, pattern, from + 1)
  }

  predicate Contains(s: string, pattern: string) {
    Find(s, pattern, 0).Some?
  }

  /** The pattern is found nowhere before position at. */
  ghost predicate FirstAt(s: string, pattern: string, at: nat) {
    forall i: nat :: i < at ==> !MatchesAt(s, pattern, i)
  }

  /** The first c at or after from. */
  function FindChar(s: string, c: char, from: nat): (r: Option<nat>)
    ensures r.Some? ==> from <= r.value < |s| && s[r.value] == c
    ensures r.Some? ==> forall i :: from <= i < r.value ==> s[i] != c
    ensures r.None? ==> forall i :: from <= i < |s| ==> s[i] != c
    decreases |s| - from
  {
    if from >= |s| then None
    else if s[from] == c then Some(from)
    else FindChar(s, c, from + 1)
  }

  ghost predicate NulFree(s: string) {
    '\0' !in s
  }

  /** isspace in the C locale. */
  predicate IsSpace(c: char) {
    c == ' ' || 9 <= c as int <= 13
  }

  /** A buffer read up to its first stop element, or to its end: a C string for a stop of NUL. */
  function UpTo<T(==)>(buffer: seq<T>, stop: T): (r: seq<T>)
    ensures r <= buffer && stop !in r && (|r| < |buffer| ==> buffer[|r|] == stop)
  {
    if buffer == [] || buffer[0] == stop then [] else [buffer[0]] + UpTo(buffer[1..], stop)
  }

  lemma {:induction false} UpToIs<T>(buffer: seq<T>, stop: T, r: seq<T>)
    requires r <= buffer && stop !in r && (|r| < |buffer| ==> buffer[|r|] == stop)
    ensures UpTo(buffer, stop) == r
  {
    if r == [] {
    } else {
      assert r[0] == buffer[0] && r[0] in r;
      assert forall x :: x in r[1..] ==> x in r;
      UpToIs(buffer[1..], stop, r[1..]);
    }
  }

  /** A C string in a buffer of characters. */
  function CString(buffer: seq<char>): string {
    UpTo(buffer, '\0')
  }

  /** A position that holds c, with none before it, is the one found. */
  lemma FindCharUnique(s: string, c: char, from: nat, at: nat)
    requires from <= at < |s| && s[at] == c && forall i :: from <= i < at ==> s[i] != c
    ensures FindChar(s, c, from) == Some(at)
  {
  }

  lemma FindUnique(s: string, pattern: string, from: nat, at: nat)
    requires from <= at && MatchesAt(s, pattern, at)
    requires forall i: nat :: from <= i < at ==> !MatchesAt(s, pattern, i)
    ensures Find(s, pattern, from) == Some(at)
  {
  }

  /** A search from the end of a finds what follows a stretch without it. */
  lemma FindCharAfter(s: string, a: string, mid: string, c: char, b: string)
    requires c !in mid && s == a + mid + [c] + b
    ensures FindChar(s, c, |a|) == Some(|a| + |mid|)
  {
    assert forall i :: |a| <= i < |a| + |mid| ==> s[i] == mid[i - |a|];
    FindCharUnique(s, c, |a|, |a| + |mid|);
  }

  lemma MatchesConcat(s: string, a: string, pattern: string, b: string)
    requires s == a + pattern + b
    ensures MatchesAt(s, pattern, |a|)
  {
  }

  lemma MatchesChar(s: string, pattern: string, i: nat, k: nat)
    requires MatchesAt(s, pattern, i) && k < |pattern|
    ensures s[i + k] == pattern[k]
  {
    assert s[i..i + |pattern|][k] == pattern[k];
  }
}
