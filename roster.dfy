/**
  Normalisation of the roster text an administrator submits on the players
  page (app.py:263-273): split into lines, strip each line, drop blank lines,
  then drop every name whose lower-cased form was already seen, keeping the
  first spelling and the original order.
 */
module Roster {
  import opened Wrappers
  import opened Text

  /** A name as it survives stripping: non-empty, with no whitespace at either
      end (so stripping leaves it as it is, by `StripTrimmed`). */
  predicate IsCleanName(n: string) {
    n != [] && !IsSpace(n[0]) && !IsSpace(n[|n| - 1])
  }

  /** The lower-cased forms of a list of names: the `seen` set of the source. */
  function KeySet(names: seq<string>): set<string> {
    set n | n in names :: Lower(n)
  }

  /** No two names coincide once lower-cased. */
  predicate DistinctKeys(names: seq<string>) {
    forall i, j | 0 <= i < j < |names| :: Lower(names[i]) != Lower(names[j])
  }

  /** `r` is `s` with some elements left out and the rest in their order. */
  predicate IsSubsequence(r: seq<string>, s: seq<string>)
    decreases |s|
  {
    if r == [] then true
    else if s == [] then false
    else
      || IsSubsequence(r, s[..|s| - 1])
      || (r[|r| - 1] == s[|s| - 1] && IsSubsequence(r[..|r| - 1], s[..|s| - 1]))
  }

  /** The first name of `names` whose lower-cased form is `key`, if any. */
  function FirstWithKey(names: seq<string>, key: string): Option<string> {
    if names == [] then None
    else if Lower(names[0]) == key then Some(names[0])
    else FirstWithKey(names[1..], key)
  }

  // ---------------------------------------------------------------- the pipeline

  /** What the comprehension of app.py:264 keeps of one line: its stripped
      form, unless that is empty. */
  function KeptOf(line: string): seq<string> {
    if Strip(line) == [] then [] else [Strip(line)]
  }

  /** `[line.strip() for line in lines if line.strip()]` (app.py:264). */
  function Cleaned(lines: seq<string>): seq<string> {
    if lines == [] then [] else KeptOf(lines[0]) + Cleaned(lines[1..])
  }

  /** The `seen`/`unique_names` loop of app.py:267-273 as a function of the
      whole input: the result for a list is the result for all but its last
      name, plus the last name when its lower-cased form is new. */
  function Dedup(names: seq<string>): seq<string> {
    if names == [] then []
    else
      var prefix := Dedup(names[..|names| - 1]);
      var last := names[|names| - 1];
      if Lower(last) in KeySet(prefix) then prefix else prefix + [last]
  }

  /** The names the players page keeps from the submitted text. */
  function Normalised(raw: string): seq<string> {
    Dedup(Cleaned(SplitLines(raw)))
  }

  /** app.py:263-273: the comprehension, then the de-duplicating loop. */
  method NormaliseRoster(raw: string) returns (unique: seq<string>)
    ensures unique == Normalised(raw)
  {
    var names := Cleaned(SplitLines(raw));
    unique := DedupNames(names);
  }

  /** app.py:267-273: the loop over the cleaned names with its `seen` set. */
  method DedupNames(names: seq<string>) returns (unique: seq<string>)
    ensures unique == Dedup(names)
  {
    var seen: set<string> := {};
    unique := [];
    for i := 0 to |names|
      invariant unique == Dedup(names[..i])
      invariant seen == KeySet(unique)
    {
      var name := names[i];
      assert names[..i + 1][..i] == names[..i] && names[..i + 1][i] == name;
      if Lower(name) in seen {
        continue;
      }
      KeySetSnoc(unique, name);
      seen := seen + {Lower(name)};
      unique := unique + [name];
    }
    assert names[..|names|] == names;
  }

  // ---------------------------------------------------------------- what normalisation promises

  /** Appending a name adds its lower-cased form to the key set. */
  lemma KeySetSnoc(names: seq<string>, n: string)
    ensures KeySet(names + [n]) == KeySet(names) + {Lower(n)}
  {
    assert forall x | x in names + [n] :: x in names || x == n;
  }

  /** Every lower-cased form of the input is kept, and no other. */
  lemma {:induction false} DedupKeys(names: seq<string>)
    ensures KeySet(Dedup(names)) == KeySet(names)
  {
    if names != [] {
      var init := names[..|names| - 1];
      var last := names[|names| - 1];
      assert names == init + [last];
      DedupKeys(init);
      KeySetSnoc(init, last);
      KeySetSnoc(Dedup(init), last);
    }
  }

  /** The kept names are pairwise distinct under lower-casing. */
  lemma {:induction false} DedupDistinct(names: seq<string>)
    ensures DistinctKeys(Dedup(names))
  {
    if names != [] {
      var init := names[..|names| - 1];
      var prefix := Dedup(init);
      var last := names[|names| - 1];
      DedupDistinct(init);
      if Lower(last) !in KeySet(prefix) {
        var r := prefix + [last];
        forall i, j | 0 <= i < j < |r| ensures Lower(r[i]) != Lower(r[j]) {
          if j == |prefix| {
            assert prefix[i] in prefix;
          }
        }
      }
    }
  }

  /** Extending the longer sequence keeps a subsequence a subsequence. */
  lemma SubsequenceSnoc(r: seq<string>, s: seq<string>, x: string)
    requires IsSubsequence(r, s)
    ensures IsSubsequence(r, s + [x])
  {
    assert (s + [x])[..|s|] == s;
  }

  /** The kept names appear in the input, in the input's order. */
  lemma {:induction false} DedupSubsequence(names: seq<string>)
    ensures IsSubsequence(Dedup(names), names)
  {
    if names != [] {
      var init := names[..|names| - 1];
      var prefix := Dedup(init);
      var last := names[|names| - 1];
      assert names == init + [last];
      DedupSubsequence(init);
      if Lower(last) in KeySet(prefix) {
        SubsequenceSnoc(prefix, init, last);
      } else {
        assert (prefix + [last])[..|prefix|] == prefix;
        if prefix != [] {
          assert IsSubsequence(prefix + [last], names) by {
            assert (prefix + [last])[|prefix|] == names[|names| - 1];
          }
        }
      }
    }
  }

  /** Every element of a subsequence is an element of the whole. */
  lemma {:induction false} SubsequenceElements(r: seq<string>, s: seq<string>)
    requires IsSubsequence(r, s)
    ensures forall x | x in r :: x in s
    decreases |s|
  {
    if r != [] {
      var init := s[..|s| - 1];
      assert s == init + [s[|s| - 1]];
      if IsSubsequence(r, init) {
        SubsequenceElements(r, init);
      } else {
        SubsequenceElements(r[..|r| - 1], init);
        assert r == r[..|r| - 1] + [r[|r| - 1]];
      }
    }
  }

  /** Looking up a key in a list extended at the end. */
  lemma {:induction false} FirstWithKeySnoc(names: seq<string>, x: string, key: string)
    ensures FirstWithKey(names + [x], key) ==
      if key in KeySet(names) then FirstWithKey(names, key)
      else if Lower(x) == key then Some(x)
      else None
  {
    if names == [] {
      assert [] + [x] == [x];
    } else {
      assert (names + [x])[1..] == names[1..] + [x];
      FirstWithKeySnoc(names[1..], x, key);
      assert KeySet(names) == KeySet(names[1..]) + {Lower(names[0])} by {
        assert names == [names[0]] + names[1..];
        assert forall n | n in names :: n == names[0] || n in names[1..];
      }
    }
  }

  /** Each kept name is the first spelling of its lower-cased form in the input. */
  lemma {:induction false} DedupKeepsFirst(names: seq<string>)
    ensures forall x | x in Dedup(names) :: FirstWithKey(names, Lower(x)) == Some(x)
  {
    if names != [] {
      var init := names[..|names| - 1];
      var prefix := Dedup(init);
      var last := names[|names| - 1];
      assert names == init + [last];
      DedupKeepsFirst(init);
      DedupKeys(init);
      forall x | x in Dedup(names) ensures FirstWithKey(names, Lower(x)) == Some(x) {
        FirstWithKeySnoc(init, last, Lower(x));
        if x in prefix {
          assert Lower(x) in KeySet(prefix);
        }
      }
    }
  }

  /** The position of the first name of `names` whose lower-cased form is
      `key`, or `|names|` when there is none. */
  function FirstIndex(names: seq<string>, key: string): (r: nat)
    ensures r <= |names|
    ensures r < |names| ==> Lower(names[r]) == key
    ensures forall j | 0 <= j < r :: Lower(names[j]) != key
  {
    if names == [] then 0
    else if Lower(names[0]) == key then 0
    else
      var r := FirstIndex(names[1..], key);
      assert forall j | 1 <= j < |names| :: names[1..][j - 1] == names[j];
      1 + r
  }

  /** A lower-cased form has a first position exactly when it occurs. */
  lemma FirstIndexFound(names: seq<string>, key: string)
    ensures FirstIndex(names, key) < |names| <==> key in KeySet(names)
  {
    if key in KeySet(names) {
      var n :| n in names && Lower(n) == key;
      var j :| 0 <= j < |names| && names[j] == n;
    }
  }

  /** Appending a name moves no first position, and gives a new form the
      position of the appended name. */
  lemma FirstIndexSnoc(init: seq<string>, x: string, key: string)
    ensures key in KeySet(init) ==> FirstIndex(init + [x], key) == FirstIndex(init, key)
    ensures key !in KeySet(init) && Lower(x) == key ==> FirstIndex(init + [x], key) == |init|
  {
    FirstIndexFound(init, key);
    var s := init + [x];
    var r, r' := FirstIndex(init, key), FirstIndex(s, key);
    if key in KeySet(init) {
      assert s[r] == init[r];
    } else if Lower(x) == key {
      assert s[|init|] == x;
    }
  }

  /** The kept names come in the order in which their lower-cased forms first
      occur in the input. */
  lemma {:induction false} DedupInOrder(names: seq<string>)
    ensures forall i, j | 0 <= i < j < |Dedup(names)| ::
              FirstIndex(names, Lower(Dedup(names)[i])) < FirstIndex(names, Lower(Dedup(names)[j]))
  {
    if names != [] {
      var init := names[..|names| - 1];
      var prefix := Dedup(init);
      var last := names[|names| - 1];
      var r := Dedup(names);
      assert names == init + [last];
      DedupInOrder(init);
      DedupKeys(init);
      forall i, j | 0 <= i < j < |r|
        ensures FirstIndex(names, Lower(r[i])) < FirstIndex(names, Lower(r[j]))
      {
        assert r[i] == prefix[i] && prefix[i] in prefix;
        FirstIndexSnoc(init, last, Lower(r[i]));
        FirstIndexFound(init, Lower(r[i]));
        if j < |prefix| {
          assert r[j] == prefix[j] && prefix[j] in prefix;
          FirstIndexSnoc(init, last, Lower(r[j]));
        } else {
          assert r[j] == last;
          FirstIndexSnoc(init, last, Lower(last));
        }
      }
    }
  }

  /** A list already free of duplicates is kept whole. */
  lemma {:induction false} DedupOfDistinct(names: seq<string>)
    requires DistinctKeys(names)
    ensures Dedup(names) == names
  {
    if names != [] {
      var init := names[..|names| - 1];
      var last := names[|names| - 1];
      assert DistinctKeys(init);
      DedupOfDistinct(init);
      assert Lower(last) !in KeySet(init) by {
        forall n | n in init ensures Lower(n) != Lower(last) {
          var i :| 0 <= i < |init| && init[i] == n;
          assert names[i] == n;
        }
      }
      assert names == init + [last];
    }
  }

  /** The strip-and-filter step yields clean names only, and introduces no
      line boundary. */
  lemma {:induction false} CleanedNames(lines: seq<string>)
    ensures |Cleaned(lines)| <= |lines|
    ensures forall k | 0 <= k < |Cleaned(lines)| :: IsCleanName(Cleaned(lines)[k])
    ensures (forall k | 0 <= k < |lines| :: NoLineBreak(lines[k])) ==>
              forall k | 0 <= k < |Cleaned(lines)| :: NoLineBreak(Cleaned(lines)[k])
  {
    if lines != [] {
      var kept, rest := KeptOf(lines[0]), Cleaned(lines[1..]);
      CleanedNames(lines[1..]);
      assert Cleaned(lines) == kept + rest;
    }
  }

  /** A list of clean names is left as it is by the strip-and-filter step. */
  lemma {:induction false} CleanedOfClean(names: seq<string>)
    requires forall k | 0 <= k < |names| :: IsCleanName(names[k])
    ensures Cleaned(names) == names
  {
    if names != [] {
      CleanedOfClean(names[1..]);
      assert names == [names[0]] + names[1..];
    }
  }

  /** What the players page stores: clean names, no line boundary inside a
      name, pairwise distinct under lower-casing. */
  predicate IsNormalisedRoster(names: seq<string>) {
    && (forall k | 0 <= k < |names| :: IsCleanName(names[k]) && NoLineBreak(names[k]))
    && DistinctKeys(names)
  }

  /** The normalised names have all the properties the players page relies on:
      clean, distinct under lower-casing, the first spelling of each name, in
      input order, and every name of the input represented. */
  lemma NormalisedProperties(raw: string)
    ensures IsNormalisedRoster(Normalised(raw))
    ensures IsSubsequence(Normalised(raw), Cleaned(SplitLines(raw)))
    ensures KeySet(Normalised(raw)) == KeySet(Cleaned(SplitLines(raw)))
    ensures forall x | x in Normalised(raw) :: FirstWithKey(Cleaned(SplitLines(raw)), Lower(x)) == Some(x)
    ensures forall i, j | 0 <= i < j < |Normalised(raw)| ::
              FirstIndex(Cleaned(SplitLines(raw)), Lower(Normalised(raw)[i])) <
              FirstIndex(Cleaned(SplitLines(raw)), Lower(Normalised(raw)[j]))
  {
    var names := Cleaned(SplitLines(raw));
    SplitLinesNoBreak(raw);
    CleanedNames(SplitLines(raw));
    DedupDistinct(names);
    DedupSubsequence(names);
    DedupKeys(names);
    DedupKeepsFirst(names);
    DedupInOrder(names);
    SubsequenceElements(Dedup(names), names);
    forall k | 0 <= k < |Dedup(names)| ensures IsCleanName(Dedup(names)[k]) && NoLineBreak(Dedup(names)[k]) {
      assert Dedup(names)[k] in names;
    }
  }

  /** The roster text the players page shows (`"\n".join` of the names) is
      normalised back to the same names: resubmitting the page unchanged
      leaves the roster as it is. */
  lemma RosterTextRoundTrip(names: seq<string>)
    requires IsNormalisedRoster(names)
    ensures Normalised(JoinLines(names)) == names
  {
    SplitJoinRoundTrip(names);
    CleanedOfClean(names);
    DedupOfDistinct(names);
  }

  /** Normalising is idempotent through the page's text form. */
  lemma NormalisedIdempotent(raw: string)
    ensures Normalised(JoinLines(Normalised(raw))) == Normalised(raw)
  {
    NormalisedProperties(raw);
    RosterTextRoundTrip(Normalised(raw));
  }

  /** A clean name followed by a blank strips back to the name. */
  lemma StripTrailingBlank(n: string, c: char)
    requires n != [] && !IsSpace(n[0]) && !IsSpace(n[|n| - 1]) && IsSpace(c)
    ensures Strip(n + [c]) == n
  {
    var p := n + [c];
    assert p[0] == n[0] && p[..|p| - 1] == n;
    assert TrimStart(p) == p;
    assert TrimEnd(p) == TrimEnd(n) == n;
  }

  /** The comprehension treats the lines one by one, in order: cleaning two
      blocks of lines is cleaning each block and concatenating the results. */
  lemma {:induction false} CleanedAppend(a: seq<string>, b: seq<string>)
    ensures Cleaned(a + b) == Cleaned(a) + Cleaned(b)
    decreases |a|
  {
    if a != [] {
      assert (a + b)[0] == a[0];
      assert (a + b)[1..] == a[1..] + b;
      CleanedAppend(a[1..], b);
    } else {
      assert a + b == b;
    }
  }

  /** The example of the players page: once stripped, `Bob`, `bob` and `Alice`
      keep `Bob` and `Alice`. */
  lemma ExampleDedup()
    ensures Dedup(["Bob", "bob", "Alice"]) == ["Bob", "Alice"]
  {
    var names := ["Bob", "bob", "Alice"];
    assert Dedup(names[..2]) == ["Bob"] by {
      assert Lower("bob") == Lower("Bob") by {
        assert forall i | 0 <= i < 3 :: Lower("bob")[i] == Lower("Bob")[i];
      }
      assert names[..2] == ["Bob", "bob"] && names[..2][..1] == ["Bob"] && ["Bob"][..0] == [];
      assert KeySet(["Bob"]) == {Lower("Bob")};
    }
    assert Lower("Alice") !in KeySet(["Bob"]) by {
      assert KeySet(["Bob"]) == {Lower("Bob")};
      assert |Lower("Alice")| != |Lower("Bob")|;
    }
  }
}
