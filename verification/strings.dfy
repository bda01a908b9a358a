/** The Python `str` built-ins the formatting layer relies on, as pure functions
    on Dafny strings: whitespace and `strip()`, ASCII `lower()`/`upper()`,
    `replace()`, `join()`, and the `for i, x in enumerate(xs, start)` append loop. */
module Strings {

  /** Python's `str.isspace()` on one character; the `\s` class of `re` on a
      `str` pattern is the same set. */
  predicate IsSpace(c: char) {
    || ('\t' <= c <= '\r')
    || ('\U{1C}' <= c <= '\U{1F}')
    || c == ' '
    || c == '\U{85}'
    || c == '\U{A0}'
    || c == '\U{1680}'
    || ('\U{2000}' <= c <= '\U{200A}')
    || c == '\U{2028}'
    || c == '\U{2029}'
    || c == '\U{202F}'
    || c == '\U{205F}'
    || c == '\U{3000}'
  }

  predicate AllSpace(s: string) {
    forall i :: 0 <= i < |s| ==> IsSpace(s[i])
  }

  /** Whitespace between two positions, as a slice. */
  lemma AllSpaceSlice(s: string, i: nat, j: nat)
    requires i <= j <= |s|
    requires forall k :: i <= k < j ==> IsSpace(s[k])
    ensures AllSpace(s[i..j])
  {
    assert forall k :: 0 <= k < j - i ==> s[i..j][k] == s[i + k];
  }

  /** A string `strip()` leaves unchanged: no whitespace at either end. */
  predicate Stripped(s: string) {
    s == [] || (!IsSpace(s[0]) && !IsSpace(s[|s| - 1]))
  }

  /** The number of whitespace characters from index `i` on, up to the
      first other character. */
  function SpacesFrom(s: string, i: nat): (n: nat)
    requires i <= |s|
    ensures i + n <= |s|
    decreases |s| - i
  {
    if i < |s| && IsSpace(s[i]) then 1 + SpacesFrom(s, i + 1) else 0
  }

  /** The run `SpacesFrom` counts is all whitespace and cannot be extended. */
  lemma {:induction false} SpacesFromSpan(s: string, i: nat)
    requires i <= |s|
    ensures var n := SpacesFrom(s, i);
      && (forall k :: i <= k < i + n ==> IsSpace(s[k]))
      && (i + n < |s| ==> !IsSpace(s[i + n]))
    decreases |s| - i
  {
    if i < |s| && IsSpace(s[i]) {
      SpacesFromSpan(s, i + 1);
    }
  }

  /** The number of whitespace characters just before index `j`. */
  function SpacesBefore(s: string, j: nat): (n: nat)
    requires j <= |s|
    ensures n <= j
  {
    if j > 0 && IsSpace(s[j - 1]) then 1 + SpacesBefore(s, j - 1) else 0
  }

  /** The run `SpacesBefore` counts is all whitespace and cannot be extended. */
  lemma {:induction false} SpacesBeforeSpan(s: string, j: nat)
    requires j <= |s|
    ensures var n := SpacesBefore(s, j);
      && (forall k :: j - n <= k < j ==> IsSpace(s[k]))
      && (n < j ==> !IsSpace(s[j - 1 - n]))
  {
    if j > 0 && IsSpace(s[j - 1]) {
      SpacesBeforeSpan(s, j - 1);
    }
  }

  /** Length of the longest all-whitespace prefix. */
  function LeadingSpaces(s: string): (n: nat)
    ensures n <= |s|
  {
    SpacesFrom(s, 0)
  }

  /** A whitespace run from `i` ended by another character, or by the end of
      the string, is the run `SpacesFrom` counts. */
  lemma SpacesFromUnique(s: string, i: nat, n: nat)
    requires i + n <= |s|
    requires forall k :: i <= k < i + n ==> IsSpace(s[k])
    requires i + n < |s| ==> !IsSpace(s[i + n])
    ensures SpacesFrom(s, i) == n
  {
    SpacesFromSpan(s, i);
  }

  /** The whitespace prefix is the only one followed by a non-whitespace
      character or by the end of the string. */
  lemma LeadingSpacesUnique(s: string, n: nat)
    requires n <= |s|
    requires forall k :: 0 <= k < n ==> IsSpace(s[k])
    requires n < |s| ==> !IsSpace(s[n])
    ensures LeadingSpaces(s) == n
  {
    SpacesFromSpan(s, 0);
  }

  /** Python's `str.rstrip()` with no argument. */
  function TrimEnd(u: string): (r: string)
    ensures |r| <= |u|
  {
    u[..|u| - SpacesBefore(u, |u|)]
  }

  /** Python's `str.strip()` with no argument. */
  function Strip(s: string): (r: string)
    ensures |r| <= |s|
  {
    TrimEnd(s[LeadingSpaces(s)..])
  }

  /** `strip()` returns the slice of `s` that has no whitespace at either end
      and is flanked by whitespace only. */
  lemma StripSpec(s: string)
    ensures var a := LeadingSpaces(s);
      var r := Strip(s);
      && Stripped(r)
      && a + |r| <= |s|
      && r == s[a..a + |r|]
      && AllSpace(s[..a])
      && AllSpace(s[a + |r|..])
  {
    var a := LeadingSpaces(s);
    var u := s[a..];
    var r := Strip(s);
    SpacesFromSpan(s, 0);
    SpacesBeforeSpan(u, |u|);
    assert r == u[..|r|];
    assert s[a + |r|..] == u[|r|..];
    if r != [] {
      assert r[0] == s[a];
    }
  }

  /** A string that starts with a non-whitespace character strips to a
      non-empty string made of its own characters. */
  lemma StripNonSpaceStart(u: string)
    requires u != [] && !IsSpace(u[0])
    ensures Strip(u) != [] && Stripped(Strip(u))
    ensures forall c :: c in Strip(u) ==> c in u
  {
    SpacesFromSpan(u, 0);
    assert LeadingSpaces(u) == 0;
    StripSpec(u);
    var r := Strip(u);
    assert r == u[..|r|];
  }

  lemma StrippedIsFixed(s: string)
    requires Stripped(s)
    ensures Strip(s) == s
  {
    assert LeadingSpaces(s) == 0;
    assert SpacesBefore(s, |s|) == 0;
  }

  lemma StripIdempotent(s: string)
    ensures Strip(Strip(s)) == Strip(s)
  {
    StripSpec(s);
    StrippedIsFixed(Strip(s));
  }

  /** Starting anywhere inside the whitespace run at `i`, `strip()` gives
      what it gives from the end of that run. */
  lemma StripWithinSpaceRun(s: string, i: nat, a: nat)
    requires i <= |s| && i <= a <= i + SpacesFrom(s, i)
    ensures Strip(s[a..]) == Strip(s[i + SpacesFrom(s, i)..])
  {
    SpacesFromSpan(s, i);
    StripSkipsSpaces(s, a, i + SpacesFrom(s, i));
  }

  /** Skipping whitespace at the front of a suffix does not change what
      `strip()` makes of it. */
  lemma StripSkipsSpaces(s: string, i: nat, j: nat)
    requires i <= j <= |s|
    requires forall k :: i <= k < j ==> IsSpace(s[k])
    ensures Strip(s[i..]) == Strip(s[j..])
  {
    var u := s[i..];
    var v := s[j..];
    var b := LeadingSpaces(v);
    SpacesFromSpan(v, 0);
    var n := (j - i) + b;
    forall k | 0 <= k < n
      ensures IsSpace(u[k])
    {
      if k >= j - i {
        assert u[k] == v[k - (j - i)];
      } else {
        assert u[k] == s[i + k];
      }
    }
    if n < |u| {
      assert u[n] == v[b];
    }
    LeadingSpacesUnique(u, n);
    assert u[n..] == v[b..];
  }

  /** ASCII case mapping; every other character is left as it is. */
  function LowerChar(c: char): char {
    if 'A' <= c <= 'Z' then (c as int + 32) as char else c
  }

  function UpperChar(c: char): char {
    if 'a' <= c <= 'z' then (c as int - 32) as char else c
  }

  /** Python's `str.lower()` over ASCII letters. */
  function Lower(s: string): (r: string)
    ensures |r| == |s|
  {
    seq(|s|, i requires 0 <= i < |s| => LowerChar(s[i]))
  }

  /** Python's `str.upper()` over ASCII letters. */
  function Upper(s: string): (r: string)
    ensures |r| == |s|
  {
    seq(|s|, i requires 0 <= i < |s| => UpperChar(s[i]))
  }

  /** `lower()` shifts exactly the upper-case letters down by 32 and leaves
      no upper-case letter behind. */
  lemma LowerSpec(s: string)
    ensures forall i :: 0 <= i < |s| ==>
      if 'A' <= s[i] <= 'Z' then Lower(s)[i] as int == s[i] as int + 32 else Lower(s)[i] == s[i]
    ensures forall i :: 0 <= i < |s| ==> !('A' <= Lower(s)[i] <= 'Z')
  {
  }

  /** `upper()` shifts exactly the lower-case letters up by 32 and leaves no
      lower-case letter behind. */
  lemma UpperSpec(s: string)
    ensures forall i :: 0 <= i < |s| ==>
      if 'a' <= s[i] <= 'z' then Upper(s)[i] as int == s[i] as int - 32 else Upper(s)[i] == s[i]
    ensures forall i :: 0 <= i < |s| ==> !('a' <= Upper(s)[i] <= 'z')
  {
  }

  /** Lower-casing twice is lower-casing once. */
  lemma LowerIdempotent(s: string)
    ensures Lower(Lower(s)) == Lower(s)
  {
  }

  /** Lower-casing forgets whether the text was upper-cased first. */
  lemma LowerOfUpper(s: string)
    ensures Lower(Upper(s)) == Lower(s)
  {
  }

  /** `pat` occurs in `s` starting at index `i`. */
  predicate OccursAt(s: string, pat: string, i: int) {
    0 <= i && i + |pat| <= |s| && s[i..i + |pat|] == pat
  }

  /** Python's `s.replace(pat, rep)`: every non-overlapping occurrence of
      `pat`, found scanning from the left, is rewritten; not only a suffix. */
  function ReplaceAll(s: string, pat: string, rep: string): (r: string)
    requires pat != []
    ensures |pat| == |rep| ==> |r| == |s|
    decreases |s|
  {
    if |s| < |pat| then s
    else if s[..|pat|] == pat then rep + ReplaceAll(s[|pat|..], pat, rep)
    else [s[0]] + ReplaceAll(s[1..], pat, rep)
  }

  /** A string in which `pat` does not occur comes back unchanged. */
  lemma {:induction false} ReplaceAllNoOccurrence(s: string, pat: string, rep: string)
    requires pat != []
    requires forall i :: !OccursAt(s, pat, i)
    ensures ReplaceAll(s, pat, rep) == s
    decreases |s|
  {
    if |s| >= |pat| {
      assert !OccursAt(s, pat, 0);
      forall i ensures !OccursAt(s[1..], pat, i) {
        assert !OccursAt(s, pat, i + 1);
        if 0 <= i && i + |pat| <= |s| - 1 {
          assert s[1..][i..i + |pat|] == s[i + 1..i + 1 + |pat|];
        }
      }
      ReplaceAllNoOccurrence(s[1..], pat, rep);
      assert [s[0]] + s[1..] == s;
    }
  }

  /** Replacing one character by one character is a pointwise map. */
  lemma {:induction false} ReplaceOneChar(s: string, pat: string, rep: string)
    requires |pat| == 1 && |rep| == 1
    ensures |ReplaceAll(s, pat, rep)| == |s|
    ensures forall i :: 0 <= i < |s| ==>
      ReplaceAll(s, pat, rep)[i] == (if s[i] == pat[0] then rep[0] else s[i])
    decreases |s|
  {
    if s != [] {
      ReplaceOneChar(s[1..], pat, rep);
      if s[..1] == pat {
        assert ReplaceAll(s, pat, rep) == rep + ReplaceAll(s[1..], pat, rep);
      } else {
        assert ReplaceAll(s, pat, rep) == [s[0]] + ReplaceAll(s[1..], pat, rep);
      }
    }
  }

  /** A prefix that does not contain the first character of `pat` is copied
      unchanged, and the scan resumes right after it. */
  lemma {:induction false} ReplaceAllSkipsPrefix(a: string, b: string, pat: string, rep: string)
    requires pat != [] && pat[0] !in a
    ensures ReplaceAll(a + b, pat, rep) == a + ReplaceAll(b, pat, rep)
    decreases |a|
  {
    if a != [] {
      var s := a + b;
      var tail := ReplaceAll(b, pat, rep);
      assert s[1..] == a[1..] + b;
      assert s[0] == a[0] && a[0] in a;
      assert pat[0] !in a[1..] by {
        assert forall c :: c in a[1..] ==> c in a;
      }
      ReplaceAllSkipsPrefix(a[1..], b, pat, rep);
      ReplaceAllCopiesChar(s, pat, rep);
      AppendAssoc([a[0]], a[1..], tail);
      assert [a[0]] + a[1..] == a;
    } else {
      assert a + b == b;
    }
  }

  lemma AppendAssoc<T>(x: seq<T>, y: seq<T>, z: seq<T>)
    ensures x + (y + z) == x + y + z
  {
  }

  /** A character that cannot start an occurrence is copied as it is. */
  lemma ReplaceAllCopiesChar(s: string, pat: string, rep: string)
    requires pat != [] && s != [] && s[0] != pat[0]
    ensures ReplaceAll(s, pat, rep) == [s[0]] + ReplaceAll(s[1..], pat, rep)
  {
    if |s| >= |pat| {
      assert s[..|pat|][0] != pat[0];
    } else {
      assert [s[0]] + s[1..] == s;
    }
  }

  /** Python's `sep.join(parts)`. */
  function Join(sep: string, parts: seq<string>): (r: string)
    ensures parts != [] ==> |parts[0]| <= |r| && r[..|parts[0]|] == parts[0]
  {
    if parts == [] then ""
    else if |parts| == 1 then parts[0]
    else parts[0] + sep + Join(sep, parts[1..])
  }

  /** Joining one more part appends the separator and that part. */
  lemma {:induction false} JoinAppend(sep: string, parts: seq<string>, x: string)
    ensures Join(sep, parts + [x]) == if parts == [] then x else Join(sep, parts) + sep + x
    decreases |parts|
  {
    if |parts| > 1 {
      assert (parts + [x])[1..] == parts[1..] + [x];
      JoinAppend(sep, parts[1..], x);
    } else if |parts| == 1 {
      assert (parts + [x])[1..] == [x];
    } else {
      assert parts + [x] == [x];
    }
  }

  /** The text appended by `for i, x in enumerate(xs, first): out += line(i, x)`. */
  function Enumerate<T>(xs: seq<T>, line: (nat, T) -> string, first: nat): string
    decreases |xs|
  {
    if xs == [] then "" else line(first, xs[0]) + Enumerate(xs[1..], line, first + 1)
  }

  /** Enumerating a concatenation continues the numbering where the first
      part stopped. */
  lemma {:induction false} EnumerateSplit<T>(xs: seq<T>, ys: seq<T>, line: (nat, T) -> string, first: nat)
    ensures Enumerate(xs + ys, line, first)
         == Enumerate(xs, line, first) + Enumerate(ys, line, first + |xs|)
    decreases |xs|
  {
    if xs == [] {
      assert xs + ys == ys;
    } else {
      assert (xs + ys)[1..] == xs[1..] + ys;
      EnumerateSplit(xs[1..], ys, line, first + 1);
    }
  }

  /** Item `k` is rendered with number `first + k`, after every item before it
      and before every item after it. */
  lemma EnumerateAt<T>(xs: seq<T>, line: (nat, T) -> string, first: nat, k: nat)
    requires k < |xs|
    ensures Enumerate(xs, line, first)
         == Enumerate(xs[..k], line, first) + line(first + k, xs[k])
            + Enumerate(xs[k + 1..], line, first + k + 1)
  {
    assert xs == xs[..k] + xs[k..];
    EnumerateSplit(xs[..k], xs[k..], line, first);
    assert xs[k..][1..] == xs[k + 1..];
  }
}
