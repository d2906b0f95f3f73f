/** `TaskEditor.replace_text`: remove each rule string from a text, drop the lines that are
    equal to a rule, and fold what is left into one line. */
module TextCleaner {
  import opened PyText

  // ---------------------------------------------------------------------------
  // Step 1 (description_updater.py:214-215): remove every rule from the text, one rule
  // after another
  // ---------------------------------------------------------------------------

  /** The text after every rule, in list order, has been removed from it. */
  function RemoveEach(text: string, changes: seq<string>): string
    decreases |changes|
  {
    if changes == [] then text
    else RemoveAll(RemoveEach(text, changes[..|changes| - 1]), changes[|changes| - 1])
  }

  // ---------------------------------------------------------------------------
  // Step 2 (description_updater.py:217-220): split into lines and, walking the list,
  // delete the first line equal to each rule line met
  // ---------------------------------------------------------------------------

  /** Position of the first element equal to `x`: the one `list.remove(x)` deletes. */
  function IndexOf(xs: seq<string>, x: string): (j: nat)
    requires x in xs
    ensures j < |xs| && xs[j] == x
    ensures forall k :: 0 <= k < j ==> xs[k] != x
  {
    if xs[0] == x then 0 else 1 + IndexOf(xs[1..], x)
  }

  /** Python's `xs.remove(x)` for an `x` that is in `xs`. */
  function RemoveFirst(xs: seq<string>, x: string): seq<string>
    requires x in xs
  {
    var j := IndexOf(xs, x);
    xs[..j] + xs[j + 1..]
  }

  /** The list the line loop leaves when it resumes at iterator position `i`. A Python list
      iterator reads `split[i]` and then moves on to position `i + 1` whatever the body did,
      so after a removal the element that slid into position `i` is never read, and
      `remove` deletes the first equal element, which may lie before `i`. */
  function LinePass(split: seq<string>, changes: seq<string>, i: nat): seq<string>
    decreases |split| - i
  {
    if i >= |split| then split
    else if split[i] in changes then LinePass(RemoveFirst(split, split[i]), changes, i + 1)
    else LinePass(split, changes, i + 1)
  }

  /** The lines that are not rules, in their order: what the line pass must keep. */
  function Kept(xs: seq<string>, changes: seq<string>): seq<string>
  {
    if xs == [] then []
    else (if xs[0] in changes then [] else [xs[0]]) + Kept(xs[1..], changes)
  }

  // ---------------------------------------------------------------------------
  // Step 3 (description_updater.py:221): strip every line, join with single spaces, strip
  // ---------------------------------------------------------------------------

  /** Every line stripped, in order. */
  function StripEach(lines: seq<string>): seq<string>
  {
    seq(|lines|, k requires 0 <= k < |lines| => Strip(lines[k]))
  }

  /** The whole of `replace_text(text, changes)`. */
  function CleanText(text: string, changes: seq<string>): string
  {
    Strip(Join(" ", StripEach(LinePass(SplitLines(RemoveEach(text, changes)), changes, 0))))
  }

  /** `replace_text` as the source writes it: the text is rebound once per rule, and the list
      of lines is changed in place while it is being iterated over. */
  method ReplaceText(text: string, changes: seq<string>) returns (r: string)
    ensures r == CleanText(text, changes)
    ensures NoLineBreak(r) && Trimmed(r)
  {
    var t := text;
    for k := 0 to |changes|
      invariant t == RemoveEach(text, changes[..k])
    {
      assert changes[..k + 1][..k] == changes[..k];
      t := RemoveAll(t, changes[k]);
    }
    assert changes[..|changes|] == changes;
    var split := SplitLines(t);
    ghost var lines := split;
    var i := 0;
    while i < |split|
      invariant LinePass(split, changes, i) == LinePass(lines, changes, 0)
      decreases |split| - i
    {
      if split[i] in changes {
        var j := IndexOf(split, split[i]);
        split := split[..j] + split[j + 1..];
      }
      i := i + 1;
    }
    r := Strip(Join(" ", StripEach(split)));
    CleanTextIsOneLine(text, changes);
  }

  // ---------------------------------------------------------------------------
  // Properties
  // ---------------------------------------------------------------------------

  lemma {:induction false} KeptAppend(a: seq<string>, b: seq<string>, changes: seq<string>)
    ensures Kept(a + b, changes) == Kept(a, changes) + Kept(b, changes)
  {
    if a != [] {
      assert (a + b)[1..] == a[1..] + b;
      KeptAppend(a[1..], b, changes);
    } else {
      assert a + b == b;
    }
  }

  /** Kept keeps every non-rule line as often as it occurs. */
  lemma {:induction false} KeptCount(xs: seq<string>, changes: seq<string>, x: string)
    requires x !in changes
    ensures multiset(Kept(xs, changes))[x] == multiset(xs)[x]
  {
    if xs != [] {
      var head := if xs[0] in changes then [] else [xs[0]];
      KeptCount(xs[1..], changes, x);
      assert Kept(xs, changes) == head + Kept(xs[1..], changes);
      assert multiset(head)[x] == multiset([xs[0]])[x];
      assert xs == [xs[0]] + xs[1..];
      assert multiset(xs) == multiset([xs[0]]) + multiset(xs[1..]);
    }
  }

  /** Deleting a rule line does not change the non-rule lines. */
  lemma RemoveFirstKept(xs: seq<string>, x: string, changes: seq<string>)
    requires x in xs && x in changes
    ensures Kept(RemoveFirst(xs, x), changes) == Kept(xs, changes)
    ensures multiset(RemoveFirst(xs, x)) == multiset(xs) - multiset{x}
  {
    RemoveAtKept(xs, IndexOf(xs, x), changes);
  }

  /** Deleting the rule line at `j`. */
  lemma RemoveAtKept(xs: seq<string>, j: nat, changes: seq<string>)
    requires j < |xs| && xs[j] in changes
    ensures Kept(xs[..j] + xs[j + 1..], changes) == Kept(xs, changes)
    ensures multiset(xs[..j] + xs[j + 1..]) == multiset(xs) - multiset{xs[j]}
  {
    var a, b := xs[..j], xs[j + 1..];
    assert xs == a + ([xs[j]] + b);
    assert ([xs[j]] + b)[1..] == b;
    assert Kept([xs[j]] + b, changes) == Kept(b, changes);
    KeptAppend(a, [xs[j]] + b, changes);
    KeptAppend(a, b, changes);
    assert multiset(xs) == multiset(a) + multiset{xs[j]} + multiset(b);
  }

  /** The line pass deletes only lines equal to a rule, and the lines that are not rules all
      survive, in their original relative order. */
  lemma {:induction false} LinePassDeletesOnlyRules(split: seq<string>, changes: seq<string>, i: nat)
    ensures Kept(LinePass(split, changes, i), changes) == Kept(split, changes)
    ensures multiset(LinePass(split, changes, i)) <= multiset(split)
    ensures forall x :: x in multiset(split) - multiset(LinePass(split, changes, i)) ==> x in changes
    decreases |split| - i
  {
    var r := LinePass(split, changes, i);
    if i < |split| {
      if split[i] in changes {
        RemoveFirstKept(split, split[i], changes);
        LinePassDeletesOnlyRules(RemoveFirst(split, split[i]), changes, i + 1);
      } else {
        LinePassDeletesOnlyRules(split, changes, i + 1);
      }
    }
    forall x | x in multiset(split) - multiset(r) ensures x in changes {
      if x !in changes {
        KeptCount(r, changes, x);
        KeptCount(split, changes, x);
      }
    }
  }

  /** A list with no rule line passes through untouched. */
  lemma {:induction false} LinePassIdentity(split: seq<string>, changes: seq<string>, i: nat)
    requires forall k :: 0 <= k < |split| ==> split[k] !in changes
    ensures LinePass(split, changes, i) == split
    decreases |split| - i
  {
    if i < |split| {
      LinePassIdentity(split, changes, i + 1);
    }
  }

  /** The element right after a removed one is never examined: of two equal rule lines in a
      row only the first goes. */
  lemma LinePassSkipsNext()
    ensures LinePass(["X", "X", "Y"], ["X"], 0) == ["X", "Y"]
  {
    assert RemoveFirst(["X", "X", "Y"], "X") == ["X", "Y"];
  }

  /** `remove` deletes the first equal line, which may sit before the one being examined:
      here the last "X" is examined but the surviving "X" ends up last. */
  lemma LinePassRemovesEarlier()
    ensures LinePass(["X", "X", "Y", "X"], ["X"], 0) == ["Y", "X"]
  {
    assert RemoveFirst(["X", "X", "Y", "X"], "X") == ["X", "Y", "X"];
    assert RemoveFirst(["X", "Y", "X"], "X") == ["Y", "X"];
  }

  /** Every stripped line is trimmed, and stripping break-free lines keeps them break-free. */
  lemma StripEachOneLine(lines: seq<string>)
    ensures forall k :: 0 <= k < |lines| ==> Trimmed(StripEach(lines)[k])
    ensures (forall k :: 0 <= k < |lines| ==> NoLineBreak(lines[k]))
            ==> forall k :: 0 <= k < |lines| ==> NoLineBreak(StripEach(lines)[k])
  {
    forall k | 0 <= k < |lines| && NoLineBreak(lines[k]) ensures NoLineBreak(StripEach(lines)[k]) {
      StripNoLineBreak(lines[k]);
    }
  }

  /** The result is one line with no whitespace at either end. */
  lemma CleanTextIsOneLine(text: string, changes: seq<string>)
    ensures NoLineBreak(CleanText(text, changes))
    ensures Trimmed(CleanText(text, changes))
  {
    var lines := SplitLines(RemoveEach(text, changes));
    var kept := LinePass(lines, changes, 0);
    LinePassDeletesOnlyRules(lines, changes, 0);
    forall k | 0 <= k < |kept| ensures NoLineBreak(kept[k]) {
      assert kept[k] in multiset(lines);
      var m :| 0 <= m < |lines| && lines[m] == kept[k];
    }
    StripEachOneLine(kept);
    JoinNoLineBreak(" ", StripEach(kept));
    StripNoLineBreak(Join(" ", StripEach(kept)));
  }

  /** With no rules, `replace_text` only folds the lines: each stripped, joined by single
      spaces, the whole stripped. */
  lemma CleanTextNoRules(text: string)
    ensures CleanText(text, []) == Strip(Join(" ", StripEach(SplitLines(text))))
  {
    LinePassIdentity(SplitLines(text), [], 0);
  }

  /** A text that is one trimmed, non-rule line once the rules are removed is exactly that. */
  lemma CleanTextSingleLine(text: string, changes: seq<string>, line: string)
    requires RemoveEach(text, changes) == line
    requires line != [] && NoLineBreak(line) && Trimmed(line) && line !in changes
    ensures CleanText(text, changes) == line
  {
    assert SplitLines(line) == [line];
    LinePassIdentity([line], changes, 0);
    StripTrimmed(line);
    assert StripEach([line]) == [line];
  }

  /** Cleaning is not idempotent: a removal can bring a new occurrence of the rule together,
      which only a second application removes. */
  lemma CleanTextNotIdempotent()
    ensures CleanText("xaabb", ["ab"]) == "xab"
    ensures CleanText(CleanText("xaabb", ["ab"]), ["ab"]) == "x"
  {
    CleanOnce();
    CleanTwice();
  }

  lemma CleanOnce()
    ensures CleanText("xaabb", ["ab"]) == "xab"
  {
    assert ["ab"][..0] == [];
    assert "xaabb"[..2] == "xa";
    assert "xaabb"[1..] == "aabb";
    RemoveAllCanLeaveOccurrence();
    CleanTextSingleLine("xaabb", ["ab"], "xab");
  }

  lemma CleanTwice()
    ensures CleanText("xab", ["ab"]) == "x"
  {
    assert ["ab"][..0] == [];
    assert "xab"[..2] == "xa";
    assert "xab"[1..] == "ab";
    assert "ab"[..2] == "ab";
    assert "ab"[2..] == [];
    assert RemoveAll("ab", "ab") == [];
    CleanTextSingleLine("xab", ["ab"], "x");
  }
}
