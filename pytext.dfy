/** The Python string built-ins the cleaner relies on (`str.replace(p, "")`, `p in s`,
    `str.splitlines()`, `str.strip()`, `sep.join(xs)`), on Dafny strings: sequences of
    Unicode scalar values, the same unit Python's `str` indexes by. */
module PyText {

  /** The characters at which Python's `str.splitlines` ends a line ("\r\n" is one break). */
  predicate IsLineBreak(c: char) {
    c == '\n' || c == '\r' || c == '\U{B}' || c == '\U{C}'
    || c == '\U{1C}' || c == '\U{1D}' || c == '\U{1E}'
    || c == '\U{85}' || c == '\U{2028}' || c == '\U{2029}'
  }

  /** The characters for which Python's `str.isspace` holds; `str.strip()` removes them. */
  predicate IsSpace(c: char) {
    ('\U{9}' <= c <= '\U{D}') || ('\U{1C}' <= c <= '\U{20}')
    || c == '\U{85}' || c == '\U{A0}' || c == '\U{1680}'
    || ('\U{2000}' <= c <= '\U{200A}')
    || c == '\U{2028}' || c == '\U{2029}' || c == '\U{202F}' || c == '\U{205F}' || c == '\U{3000}'
  }

  predicate NoLineBreak(s: string) {
    forall k :: 0 <= k < |s| ==> !IsLineBreak(s[k])
  }

  predicate AllSpace(s: string) {
    forall k :: 0 <= k < |s| ==> IsSpace(s[k])
  }

  /** No whitespace at either end: what `str.strip()` guarantees. */
  predicate Trimmed(s: string) {
    s == [] || (!IsSpace(s[0]) && !IsSpace(s[|s| - 1]))
  }

  // ---------------------------------------------------------------------------
  // `p in s` and `s.replace(p, "")`
  // ---------------------------------------------------------------------------

  /** Python's `p in s` for strings; the empty string occurs in every string. */
  predicate Contains(s: string, p: string)
    decreases |s|
  {
    if |s| < |p| then false
    else s[..|p|] == p || Contains(s[1..], p)
  }

  /** Python's `s.replace(p, "")`: scan from the left, drop each occurrence of `p` and resume
      right after it (leftmost, non-overlapping, one pass). `s.replace("", "")` is `s`. */
  function RemoveAll(s: string, p: string): (r: string)
    ensures r == s || |r| < |s|
    decreases |s|
  {
    if p == [] || |s| < |p| then s
    else if s[..|p|] == p then RemoveAll(s[|p|..], p)
    else [s[0]] + RemoveAll(s[1..], p)
  }

  /** Removal changes nothing exactly when there is nothing to remove. */
  lemma {:induction false} RemoveAllIdentity(s: string, p: string)
    ensures RemoveAll(s, p) == s <==> (p == [] || !Contains(s, p))
    decreases |s|
  {
    if p != [] && |s| >= |p| && s[..|p|] != p {
      RemoveAllIdentity(s[1..], p);
      assert [s[0]] + s[1..] == s;
    }
  }

  /** `p` occurs in `s` starting at position `k`. */
  predicate OccursAt(s: string, p: string, k: nat)
  {
    k + |p| <= |s| && s[k..k + |p|] == p
  }

  /** Characters at which no occurrence starts are kept as they are. */
  lemma {:induction false} RemoveAllSkip(a: string, b: string, p: string)
    requires p != []
    requires forall k :: 0 <= k < |a| ==> !OccursAt(a + b, p, k)
    ensures RemoveAll(a + b, p) == a + RemoveAll(b, p)
    decreases |a|
  {
    if a != [] {
      var t := a[1..] + b;
      assert (a + b)[0] == a[0];
      assert (a + b)[1..] == t;
      forall k | 0 <= k < |a[1..]| ensures !OccursAt(t, p, k) {
        OccursAtShift(a + b, p, k);
      }
      RemoveAllSkip(a[1..], b, p);
      if |a + b| < |p| {
        assert RemoveAll(b, p) == b;
      } else {
        assert !OccursAt(a + b, p, 0);
        assert (a + b)[..|p|] != p;
        assert RemoveAll(a + b, p) == [a[0]] + RemoveAll(t, p);
        assert [a[0]] + (a[1..] + RemoveAll(b, p)) == a + RemoveAll(b, p);
      }
    } else {
      assert a + b == b;
    }
  }

  lemma OccursAtShift(s: string, p: string, k: nat)
    requires s != []
    ensures OccursAt(s[1..], p, k) <==> OccursAt(s, p, k + 1)
  {
    if k + 1 + |p| <= |s| {
      assert s[1..][k..k + |p|] == s[k + 1..k + 1 + |p|];
    }
  }

  /** An occurrence at the front is dropped and the scan resumes after it. */
  lemma RemoveAllMatch(b: string, p: string)
    requires p != []
    ensures RemoveAll(p + b, p) == RemoveAll(b, p)
  {
    assert (p + b)[..|p|] == p;
    assert (p + b)[|p|..] == b;
  }

  /** One pass can create a new occurrence: removing "ab" from "aabb" leaves "ab". */
  lemma RemoveAllCanLeaveOccurrence()
    ensures RemoveAll("aabb", "ab") == "ab"
    ensures Contains(RemoveAll("aabb", "ab"), "ab")
  {
    assert "a" + "abb" == "aabb";
    assert "aabb"[0..2] == "aa";
    assert !OccursAt("aabb", "ab", 0);
    RemoveAllSkip("a", "abb", "ab");
    assert "ab" + "b" == "abb";
    RemoveAllMatch("b", "ab");
    assert RemoveAll("b", "ab") == "b";
    assert "ab"[..2] == "ab";
  }

  // ---------------------------------------------------------------------------
  // `s.splitlines()`
  // ---------------------------------------------------------------------------

  /** Index of the first line break in `s`, or |s| when there is none. */
  function LineEnd(s: string): (i: nat)
    ensures i <= |s|
    ensures forall j :: 0 <= j < i ==> !IsLineBreak(s[j])
    ensures i < |s| ==> IsLineBreak(s[i])
  {
    if s == [] || IsLineBreak(s[0]) then 0 else 1 + LineEnd(s[1..])
  }

  /** Width of the break at s[i]: "\r\n" counts as one break of two characters. */
  function BreakWidth(s: string, i: nat): (w: nat)
    requires i < |s|
  {
    if s[i] == '\r' && i + 1 < |s| && s[i + 1] == '\n' then 2 else 1
  }

  /** Python's `s.splitlines()`: the lines without their breaks; a break at the very end
      does not start a further, empty line, and "" has no lines at all. */
  function SplitLines(s: string): (lines: seq<string>)
    ensures forall k :: 0 <= k < |lines| ==> NoLineBreak(lines[k])
    decreases |s|
  {
    if s == [] then []
    else
      var i := LineEnd(s);
      if i == |s| then [s]
      else [s[..i]] + SplitLines(s[i + BreakWidth(s, i)..])
  }

  // ---------------------------------------------------------------------------
  // `sep.join(xs)`
  // ---------------------------------------------------------------------------

  /** Python's `sep.join(xs)`. */
  function Join(sep: string, xs: seq<string>): string
  {
    if xs == [] then []
    else if |xs| == 1 then xs[0]
    else xs[0] + sep + Join(sep, xs[1..])
  }

  lemma {:induction false} JoinNoLineBreak(sep: string, xs: seq<string>)
    requires NoLineBreak(sep)
    requires forall k :: 0 <= k < |xs| ==> NoLineBreak(xs[k])
    ensures NoLineBreak(Join(sep, xs))
  {
    if |xs| > 1 {
      JoinNoLineBreak(sep, xs[1..]);
      var rest := Join(sep, xs[1..]);
      assert NoLineBreak(xs[0]);
      forall k | 0 <= k < |xs[0] + sep + rest| ensures !IsLineBreak((xs[0] + sep + rest)[k]) {
        if k < |xs[0]| {
        } else if k < |xs[0]| + |sep| {
          assert (xs[0] + sep + rest)[k] == sep[k - |xs[0]|];
        } else {
          assert (xs[0] + sep + rest)[k] == rest[k - |xs[0]| - |sep|];
        }
      }
    }
  }

  /** The first line break in `a + b` is the one that starts `b` when `a` has none. */
  lemma {:induction false} LineEndAppend(a: string, b: string)
    requires NoLineBreak(a)
    requires b != [] && IsLineBreak(b[0])
    ensures LineEnd(a + b) == |a|
    decreases |a|
  {
    if a != [] {
      assert (a + b)[1..] == a[1..] + b;
      LineEndAppend(a[1..], b);
    } else {
      assert a + b == b;
    }
  }

  /** A line ended by "\n" is split off in front of the lines that follow. */
  lemma SplitLinesCons(a: string, rest: string)
    requires NoLineBreak(a)
    ensures SplitLines(a + "\n" + rest) == [a] + SplitLines(rest)
  {
    var s := a + "\n" + rest;
    assert s == a + ("\n" + rest);
    LineEndAppend(a, "\n" + rest);
    assert s[..|a|] == a;
    assert s[|a|] == '\n';
    assert s[|a| + 1..] == rest;
  }

  /** `splitlines` undoes `"\n".join` of break-free lines whose last line is not empty. */
  lemma {:induction false} SplitJoinRoundTrip(lines: seq<string>)
    requires forall k :: 0 <= k < |lines| ==> NoLineBreak(lines[k])
    requires lines != [] ==> lines[|lines| - 1] != []
    ensures SplitLines(Join("\n", lines)) == lines
  {
    if |lines| > 1 {
      var rest := lines[1..];
      assert forall k :: 0 <= k < |rest| ==> rest[k] == lines[k + 1];
      SplitJoinRoundTrip(rest);
      SplitLinesCons(lines[0], Join("\n", rest));
      assert lines == [lines[0]] + rest;
    } else if |lines| == 1 {
      assert NoLineBreak(lines[0]);
    }
  }

  // ---------------------------------------------------------------------------
  // `s.strip()`
  // ---------------------------------------------------------------------------

  /** Python's `s.lstrip()`: drops the whitespace at the front. */
  function StripLeft(s: string): (r: string)
    ensures |r| <= |s|
    ensures r == [] || !IsSpace(r[0])
  {
    if s != [] && IsSpace(s[0]) then StripLeft(s[1..]) else s
  }

  /** Python's `s.rstrip()`: drops the whitespace at the back. */
  function StripRight(s: string): (r: string)
    ensures |r| <= |s|
    ensures r == [] || !IsSpace(r[|r| - 1])
  {
    if s != [] && IsSpace(s[|s| - 1]) then StripRight(s[..|s| - 1]) else s
  }

  /** What `lstrip` drops is whitespace and what it keeps is a suffix. These facts about
      slices are lemmas rather than postconditions so that they are not in play wherever a
      stripped string is taken apart again. */
  lemma {:induction false} StripLeftSlice(s: string)
    ensures StripLeft(s) == s[|s| - |StripLeft(s)|..]
    ensures AllSpace(s[..|s| - |StripLeft(s)|])
    decreases |s|
  {
    if s != [] && IsSpace(s[0]) {
      StripLeftSlice(s[1..]);
      var n := |s| - |StripLeft(s)|;
      assert s[1..][..n - 1] == s[1..n];
    }
  }

  /** What `rstrip` drops is whitespace and what it keeps is a prefix. */
  lemma {:induction false} StripRightSlice(s: string)
    ensures StripRight(s) == s[..|StripRight(s)|]
    ensures AllSpace(s[|StripRight(s)|..])
    decreases |s|
  {
    if s != [] && IsSpace(s[|s| - 1]) {
      StripRightSlice(s[..|s| - 1]);
      var n := |StripRight(s)|;
      assert s[..|s| - 1][n..] == s[n..|s| - 1];
    }
  }

  /** Python's `s.strip()`. */
  function Strip(s: string): (r: string)
    ensures Trimmed(r)
  {
    var l := StripLeft(s);
    StripRightSlice(l);
    StripRight(l)
  }

  /** Where the stripped string starts in `s`. */
  function StripStart(s: string): nat
  {
    |s| - |StripLeft(s)|
  }

  /** `s.strip()` is `s` with the whitespace at both ends cut off and nothing else. */
  lemma StripIsSlice(s: string)
    ensures StripStart(s) + |Strip(s)| <= |s|
    ensures Strip(s) == s[StripStart(s)..StripStart(s) + |Strip(s)|]
    ensures AllSpace(s[..StripStart(s)]) && AllSpace(s[StripStart(s) + |Strip(s)|..])
  {
    var l := StripLeft(s);
    var r := StripRight(l);
    StripLeftSlice(s);
    StripRightSlice(l);
    var i := |s| - |l|;
    assert r == l[..|r|] == s[i..i + |r|];
    assert s[i + |r|..] == l[|r|..];
  }

  /** Cutting whitespace off the ends of a break-free string leaves it break-free. */
  lemma StripNoLineBreak(s: string)
    requires NoLineBreak(s)
    ensures NoLineBreak(Strip(s))
  {
    StripIsSlice(s);
    SliceNoLineBreak(s, StripStart(s), StripStart(s) + |Strip(s)|);
  }

  lemma SliceNoLineBreak(s: string, i: nat, j: nat)
    requires i <= j <= |s| && NoLineBreak(s)
    ensures NoLineBreak(s[i..j])
  {
    forall k | 0 <= k < j - i ensures !IsLineBreak(s[i..j][k]) {
      assert s[i..j][k] == s[i + k];
    }
  }

  /** A string already trimmed is its own strip. */
  lemma StripTrimmed(s: string)
    requires Trimmed(s)
    ensures Strip(s) == s
  {
  }
}
