/**
  String helpers shared by the capture modules.  Strings are `seq<char>`;
  case-insensitive comparison folds the ASCII letters only.
 */
module Text {

  /** Path separators understood by find_last_of("\\/") and System.IO.Path. */
  predicate IsSep(c: char) {
    c == '\\' || c == '/'
  }

  /** The characters .NET's char.IsWhiteSpace accepts (what String.Trim strips). */
  predicate IsWhiteSpace(c: char) {
    c == ' ' || ('\t' <= c <= '\r') || c == '\U{0085}' || c == '\U{00A0}' || c == '\U{1680}' ||
    ('\U{2000}' <= c <= '\U{200A}') || c == '\U{2028}' || c == '\U{2029}' || c == '\U{202F}' ||
    c == '\U{205F}' || c == '\U{3000}'
  }

  function ToLowerChar(c: char): char {
    if 'A' <= c <= 'Z' then (c as int + 32) as char else c
  }

  function Lower(s: string): (r: string)
    ensures |r| == |s|
    ensures forall i :: 0 <= i < |s| ==> r[i] == ToLowerChar(s[i])
  {
    if s == [] then [] else [ToLowerChar(s[0])] + Lower(s[1..])
  }

  /** Ordinal case-insensitive equality (StringComparison.OrdinalIgnoreCase, _stricmp, _wcsicmp). */
  predicate EqualsIgnoreCase(a: string, b: string) {
    Lower(a) == Lower(b)
  }

  predicate StartsWith(s: string, p: string) {
    |p| <= |s| && s[..|p|] == p
  }

  predicate EndsWith(s: string, p: string) {
    |p| <= |s| && s[|s| - |p|..] == p
  }

  predicate StartsWithIgnoreCase(s: string, p: string) {
    |p| <= |s| && EqualsIgnoreCase(s[..|p|], p)
  }

  /** p occurs in s at position i. */
  predicate OccursAt(s: string, p: string, i: int) {
    0 <= i && i + |p| <= |s| && s[i..i + |p|] == p
  }

  /** String.Contains (ordinal). */
  predicate Contains(s: string, p: string) {
    exists i :: 0 <= i <= |s| - |p| && OccursAt(s, p, i)
  }

  /**
    String.Replace(p, "") (ordinal): every occurrence of p found by a
    left-to-right scan is removed; the scan resumes after the removed text.
   */
  function RemoveAll(s: string, p: string): (r: string)
    requires p != []
    decreases |s|
  {
    if |s| < |p| then s
    else if s[..|p|] == p then RemoveAll(s[|p|..], p)
    else [s[0]] + RemoveAll(s[1..], p)
  }

  lemma OccursAtShift(s: string, p: string, i: int)
    requires s != [] && 0 <= i
    ensures OccursAt(s, p, i + 1) <==> OccursAt(s[1..], p, i)
  {
    if OccursAt(s, p, i + 1) {
      assert s[1..][i..i + |p|] == s[i + 1..i + 1 + |p|];
    }
    if OccursAt(s[1..], p, i) {
      assert s[1..][i..i + |p|] == s[i + 1..i + 1 + |p|];
    }
  }

  /**
    Removing p shortens s exactly when p occurs in s; otherwise s is returned
    unchanged.  So guarding the replacement by Contains (as the source does)
    is the same as always replacing.
   */
  lemma {:induction false} RemoveAllChangesIffContains(s: string, p: string)
    requires p != []
    ensures |RemoveAll(s, p)| <= |s|
    ensures RemoveAll(s, p) == s <==> !Contains(s, p)
    decreases |s|
  {
    if |s| < |p| {
      assert forall i :: !OccursAt(s, p, i);
    } else if s[..|p|] == p {
      assert OccursAt(s, p, 0);
      RemoveAllChangesIffContains(s[|p|..], p);
    } else {
      RemoveAllChangesIffContains(s[1..], p);
      assert !OccursAt(s, p, 0);
      if Contains(s, p) {
        var i :| 0 <= i <= |s| - |p| && OccursAt(s, p, i);
        assert i != 0;
        OccursAtShift(s, p, i - 1);
        assert Contains(s[1..], p);
      }
      if Contains(s[1..], p) {
        var i :| 0 <= i <= |s[1..]| - |p| && OccursAt(s[1..], p, i);
        OccursAtShift(s, p, i);
        assert Contains(s, p);
      }
    }
  }

  /** Removing a character that does not occur leaves the string as it is. */
  lemma RemoveAbsentChar(s: string, c: char)
    requires forall j :: 0 <= j < |s| ==> s[j] != c
    ensures RemoveAll(s, [c]) == s
  {
    RemoveAllChangesIffContains(s, [c]);
    assert forall i :: OccursAt(s, [c], i) ==> s[i..i + 1][0] == c;
  }

  /** Removing a one-character string removes every copy of that character and keeps all others. */
  lemma {:induction false} RemoveCharMembers(s: string, c: char)
    ensures forall x :: x in RemoveAll(s, [c]) <==> x in s && x != c
    decreases |s|
  {
    if |s| >= 1 {
      RemoveCharMembers(s[1..], c);
      assert s == [s[0]] + s[1..];
      if s[..1] == [c] {
        assert s[0] == c;
      } else {
        assert s[0] != c;
      }
    }
  }

  /** Removing a one-character string looks at one character at a time. */
  lemma RemoveCharStep(s: string, c: char)
    requires s != []
    ensures RemoveAll(s, [c]) == (if s[0] == c then [] else [s[0]]) + RemoveAll(s[1..], [c])
  {
    assert s[..1] == [c] <==> s[0] == c;
  }

  /** Removing a one-character string works piecewise: the kept characters stay in order. */
  lemma {:induction false} RemoveCharConcat(a: string, b: string, c: char)
    ensures RemoveAll(a + b, [c]) == RemoveAll(a, [c]) + RemoveAll(b, [c])
    decreases |a|
  {
    if a == [] {
      assert a + b == b;
    } else {
      var h := if a[0] == c then [] else [a[0]];
      assert (a + b)[0] == a[0];
      assert (a + b)[1..] == a[1..] + b;
      RemoveCharStep(a + b, c);
      RemoveCharConcat(a[1..], b, c);
      RemoveCharStep(a, c);
      var x, y := RemoveAll(a[1..], [c]), RemoveAll(b, [c]);
      assert h + (x + y) == h + x + y;
    }
  }

  /** Length of the run of white space at the front of s. */
  function LeadingWhiteSpace(s: string): (k: nat)
    ensures k <= |s|
    ensures forall j :: 0 <= j < k ==> IsWhiteSpace(s[j])
    ensures k < |s| ==> !IsWhiteSpace(s[k])
  {
    if s != [] && IsWhiteSpace(s[0]) then 1 + LeadingWhiteSpace(s[1..]) else 0
  }

  /** Length of the run of white space at the back of s. */
  function TrailingWhiteSpace(s: string): (k: nat)
    ensures k <= |s|
    ensures forall j :: |s| - k <= j < |s| ==> IsWhiteSpace(s[j])
    ensures k < |s| ==> !IsWhiteSpace(s[|s| - 1 - k])
  {
    if s != [] && IsWhiteSpace(s[|s| - 1]) then 1 + TrailingWhiteSpace(s[..|s| - 1]) else 0
  }

  /**
    String.Trim(): r is the slice of s that starts after the leading white
    space, ends before a run of trailing white space, and neither starts nor
    ends with white space itself.
   */
  function Trim(s: string): (r: string)
    ensures r == [] || (!IsWhiteSpace(r[0]) && !IsWhiteSpace(r[|r| - 1]))
    ensures LeadingWhiteSpace(s) + |r| <= |s|
    ensures r == s[LeadingWhiteSpace(s)..LeadingWhiteSpace(s) + |r|]
    ensures forall j :: LeadingWhiteSpace(s) + |r| <= j < |s| ==> IsWhiteSpace(s[j])
  {
    var a := LeadingWhiteSpace(s);
    if a == |s| then []
    else
      var b := TrailingWhiteSpace(s);
      assert a < |s| - b;
      s[a..|s| - b]
  }

  /** Trimming twice is trimming once. */
  lemma TrimIdempotent(s: string)
    ensures Trim(Trim(s)) == Trim(s)
  {
    var r := Trim(s);
    assert LeadingWhiteSpace(r) == 0;
    assert TrailingWhiteSpace(r) == 0;
    assert r[0..] == r;
  }

  /** find_last_of("\\/"): the index of the last separator, or -1 (npos) when there is none. */
  function LastSep(s: string): (k: int)
    ensures -1 <= k < |s|
    ensures k >= 0 ==> IsSep(s[k])
    ensures forall j :: k < j < |s| ==> !IsSep(s[j])
  {
    if s == [] then -1
    else if IsSep(s[|s| - 1]) then |s| - 1
    else LastSep(s[..|s| - 1])
  }
}
