/**
  The handful of Python string operations the application relies on:
  `str.isspace` (what `str.strip()` removes), `str.strip()`, `str.splitlines()`,
  `"\n".join(...)`, `str.lower()` (ASCII letters only), `str.startswith` and
  `str.replace(old, new, 1)`.
 */
module Text {

  /** A character that Python's `str.isspace()` accepts, hence one that
      `str.strip()` with no argument removes. */
  predicate IsSpace(c: char) {
    || c == ' '
    || '\t' <= c <= '\r'                // tab, line feed, vertical tab, form feed, carriage return
    || '\U{1C}' <= c <= '\U{1F}'        // file, group, record and unit separators
    || c == '\U{85}' || c == '\U{A0}' || c == '\U{1680}'
    || '\U{2000}' <= c <= '\U{200A}'
    || c == '\U{2028}' || c == '\U{2029}' || c == '\U{202F}' || c == '\U{205F}'
    || c == '\U{3000}'
  }

  /** A character at which Python's `str.splitlines()` ends a line
      (`"\r\n"` is handled as one boundary by `LinesFrom`). */
  predicate IsLineBreak(c: char) {
    || c == '\n' || c == '\r' || c == '\U{B}' || c == '\U{C}'
    || c == '\U{1C}' || c == '\U{1D}' || c == '\U{1E}'
    || c == '\U{85}' || c == '\U{2028}' || c == '\U{2029}'
  }

  /** Every line boundary is whitespace, so stripping a line never has to look past one. */
  lemma LineBreakIsSpace(c: char)
    requires IsLineBreak(c)
    ensures IsSpace(c)
  {
  }

  predicate NoLineBreak(s: string) {
    forall c | c in s :: !IsLineBreak(c)
  }

  // ---------------------------------------------------------------- strip

  /** `s.lstrip()`: drops the leading whitespace, keeps the rest as it is. */
  function TrimStart(s: string): (r: string)
    ensures |r| <= |s| && r == s[|s| - |r|..]
    ensures r == [] || !IsSpace(r[0])
  {
    if s != [] && IsSpace(s[0]) then TrimStart(s[1..]) else s
  }

  /** `s.rstrip()`: drops the trailing whitespace, keeps the rest as it is. */
  function TrimEnd(s: string): (r: string)
    ensures |r| <= |s| && r == s[..|r|]
    ensures r == [] || !IsSpace(r[|r| - 1])
  {
    if s != [] && IsSpace(s[|s| - 1]) then TrimEnd(s[..|s| - 1]) else s
  }

  /** Every character `lstrip` drops is whitespace. */
  lemma {:induction false} TrimStartDropsSpace(s: string)
    ensures forall i | 0 <= i < |s| - |TrimStart(s)| :: IsSpace(s[i])
    decreases |s|
  {
    if s != [] && IsSpace(s[0]) {
      TrimStartDropsSpace(s[1..]);
      forall i | 1 <= i < |s| - |TrimStart(s)| ensures IsSpace(s[i]) {
        assert s[i] == s[1..][i - 1];
      }
    }
  }

  /** Every character `rstrip` drops is whitespace. */
  lemma {:induction false} TrimEndDropsSpace(s: string)
    ensures forall i | |TrimEnd(s)| <= i < |s| :: IsSpace(s[i])
    decreases |s|
  {
    if s != [] && IsSpace(s[|s| - 1]) {
      TrimEndDropsSpace(s[..|s| - 1]);
      forall i | |TrimEnd(s)| <= i < |s| - 1 ensures IsSpace(s[i]) {
        assert s[i] == s[..|s| - 1][i];
      }
    }
  }

  /** `s.strip()`: the result is a slice of `s` that starts and ends with a
      non-space character, or is empty. */
  function Strip(s: string): (r: string)
    ensures |r| <= |s|
    ensures r == [] || (!IsSpace(r[0]) && !IsSpace(r[|r| - 1]))
  {
    TrimEnd(TrimStart(s))
  }

  /** `strip` returns the empty string exactly when `s` is all whitespace. */
  lemma StripEmpty(s: string)
    ensures Strip(s) == [] <==> forall i | 0 <= i < |s| :: IsSpace(s[i])
  {
    var t := TrimStart(s);
    TrimStartDropsSpace(s);
    TrimEndDropsSpace(t);
    if Strip(s) == [] {
      assert t == [];
    } else {
      assert !IsSpace(t[0]) && t[0] == s[|s| - |t|];
    }
  }

  /** `strip` introduces no character that `s` does not hold. */
  lemma StripChars(s: string)
    ensures forall c | c in Strip(s) :: c in s
  {
    var t := TrimStart(s);
    assert forall c | c in t :: c in s;
  }

  /** A string with no whitespace at either end is left alone by `Strip`. */
  lemma StripTrimmed(s: string)
    requires s == [] || (!IsSpace(s[0]) && !IsSpace(s[|s| - 1]))
    ensures Strip(s) == s
  {
  }

  /** A leading blank is dropped by `lstrip`. */
  lemma TrimStartBlank(c: char, s: string)
    requires IsSpace(c)
    ensures TrimStart([c] + s) == TrimStart(s)
  {
    assert ([c] + s)[1..] == s;
  }

  /** A trailing blank is dropped by `rstrip`. */
  lemma TrimEndBlank(s: string, c: char)
    requires IsSpace(c)
    ensures TrimEnd(s + [c]) == TrimEnd(s)
  {
    assert (s + [c])[..|s|] == s;
  }

  /** A string with no blank at either end, padded with a blank on either
      side, strips back to itself. */
  lemma StripPadded(n: string, a: char, b: char)
    requires n == [] || (!IsSpace(n[0]) && !IsSpace(n[|n| - 1]))
    requires IsSpace(a) && IsSpace(b)
    ensures Strip([a] + (n + [b])) == n
  {
    var q := n + [b];
    TrimStartBlank(a, q);
    if n == [] {
      assert q == [b] + [];
      TrimStartBlank(b, []);
    } else {
      assert q[0] == n[0];
      assert TrimStart(q) == q;
      TrimEndBlank(n, b);
    }
  }

  /** Stripping twice is stripping once. */
  lemma StripIdempotent(s: string)
    ensures Strip(Strip(s)) == Strip(s)
  {
    StripTrimmed(Strip(s));
  }

  // ---------------------------------------------------------------- splitlines

  /** `s.splitlines()`: splits at every line boundary and drops the
      boundaries; a boundary at the very end of the text does not open a
      further, empty line. */
  function SplitLines(s: string): seq<string> {
    LinesFrom(s, [])
  }

  /** The lines of `s` when the current line read so far is `cur`. */
  function LinesFrom(s: string, cur: string): (lines: seq<string>)
    decreases |s|
  {
    if s == [] then
      (if cur == [] then [] else [cur])
    else if s[0] == '\r' && |s| >= 2 && s[1] == '\n' then
      [cur] + LinesFrom(s[2..], [])
    else if IsLineBreak(s[0]) then
      [cur] + LinesFrom(s[1..], [])
    else
      LinesFrom(s[1..], cur + [s[0]])
  }

  /** No line that `splitlines` yields contains a line boundary. */
  lemma {:induction false} LinesFromNoBreak(s: string, cur: string)
    requires NoLineBreak(cur)
    ensures forall k | 0 <= k < |LinesFrom(s, cur)| :: NoLineBreak(LinesFrom(s, cur)[k])
    decreases |s|
  {
    if s == [] {
    } else if s[0] == '\r' && |s| >= 2 && s[1] == '\n' {
      LinesFromNoBreak(s[2..], []);
    } else if IsLineBreak(s[0]) {
      LinesFromNoBreak(s[1..], []);
    } else {
      LinesFromNoBreak(s[1..], cur + [s[0]]);
    }
  }

  lemma SplitLinesNoBreak(s: string)
    ensures forall k | 0 <= k < |SplitLines(s)| :: NoLineBreak(SplitLines(s)[k])
  {
    LinesFromNoBreak(s, []);
  }

  /** `"\n".join(lines)`. */
  function JoinLines(lines: seq<string>): (s: string)
    ensures lines == [] ==> s == []
  {
    if lines == [] then []
    else if |lines| == 1 then lines[0]
    else lines[0] + "\n" + JoinLines(lines[1..])
  }

  /** Reading past a piece of text without line boundaries only extends the current line. */
  lemma {:induction false} LinesFromText(t: string, rest: string, cur: string)
    requires NoLineBreak(t)
    ensures LinesFrom(t + rest, cur) == LinesFrom(rest, cur + t)
    decreases |t|
  {
    if t != [] {
      assert (t + rest)[0] == t[0];
      assert (t + rest)[1..] == t[1..] + rest;
      LinesFromText(t[1..], rest, cur + [t[0]]);
      assert cur + [t[0]] + t[1..] == cur + t;
    } else {
      assert t + rest == rest;
      assert cur + t == cur;
    }
  }

  /** Splitting the joined text gives the lines back, provided no line holds a
      boundary and none is empty (an empty last line would vanish). */
  lemma {:induction false} SplitJoinRoundTrip(lines: seq<string>)
    requires forall k | 0 <= k < |lines| :: lines[k] != [] && NoLineBreak(lines[k])
    ensures SplitLines(JoinLines(lines)) == lines
  {
    if lines == [] {
    } else if |lines| == 1 {
      LinesFromText(lines[0], [], []);
      assert lines[0] + [] == lines[0];
      assert [] + lines[0] == lines[0];
    } else {
      var rest := JoinLines(lines[1..]);
      assert lines[0] + "\n" + rest == lines[0] + ("\n" + rest);
      LinesFromText(lines[0], "\n" + rest, []);
      assert ("\n" + rest)[1..] == rest;
      SplitJoinRoundTrip(lines[1..]);
      assert [] + lines[0] == lines[0];
    }
  }

  // ---------------------------------------------------------------- lower

  /** `c.lower()` for ASCII letters; every other character is kept. */
  function LowerChar(c: char): (r: char)
    ensures !('A' <= r <= 'Z')
    ensures r == c || ('A' <= c <= 'Z' && r as int - c as int == 'a' as int - 'A' as int)
  {
    if 'A' <= c <= 'Z' then (c as int - 'A' as int + 'a' as int) as char else c
  }

  /** `s.lower()` (ASCII case folding). */
  function Lower(s: string): (r: string)
    ensures |r| == |s|
  {
    seq(|s|, i requires 0 <= i < |s| => LowerChar(s[i]))
  }

  // ---------------------------------------------------------------- prefixes

  predicate StartsWith(s: string, prefix: string) {
    |prefix| <= |s| && s[..|prefix|] == prefix
  }

  predicate OccursAt(s: string, pat: string, i: nat) {
    i + |pat| <= |s| && s[i..i + |pat|] == pat
  }

  /** `s.replace(pat, rep, 1)` for a non-empty `pat`: the first occurrence of
      `pat` is replaced by `rep`. */
  function ReplaceFirst(s: string, pat: string, rep: string): (r: string)
    requires pat != []
    decreases |s|
  {
    if |s| < |pat| then s
    else if s[..|pat|] == pat then rep + s[|pat|..]
    else [s[0]] + ReplaceFirst(s[1..], pat, rep)
  }

  /** Without an occurrence of `pat`, `replace` returns its input as is. */
  lemma {:induction false} ReplaceFirstAbsent(s: string, pat: string, rep: string)
    requires pat != []
    requires forall i: nat | i <= |s| :: !OccursAt(s, pat, i)
    ensures ReplaceFirst(s, pat, rep) == s
    decreases |s|
  {
    if |s| >= |pat| {
      assert !OccursAt(s, pat, 0);
      forall i: nat | i <= |s| - 1 ensures !OccursAt(s[1..], pat, i) {
        OccursAfterHead(s, pat, i + 1);
      }
      ReplaceFirstAbsent(s[1..], pat, rep);
    }
  }

  /** Otherwise exactly the first occurrence is replaced, and the text on both
      sides of it is kept. */
  lemma {:induction false} ReplaceFirstAt(s: string, pat: string, rep: string, i: nat)
    requires pat != []
    requires OccursAt(s, pat, i)
    requires forall j: nat | j < i :: !OccursAt(s, pat, j)
    ensures ReplaceFirst(s, pat, rep) == s[..i] + rep + s[i + |pat|..]
    decreases i
  {
    if i > 0 {
      assert !OccursAt(s, pat, 0);
      OccursAfterHead(s, pat, i);
      forall j: nat | j < i - 1 ensures !OccursAt(s[1..], pat, j) {
        OccursAfterHead(s, pat, j + 1);
      }
      var t := s[1..];
      ReplaceFirstAt(t, pat, rep, i - 1);
      assert s[..|pat|] != pat;
      assert ReplaceFirst(s, pat, rep) == [s[0]] + ReplaceFirst(t, pat, rep);
      SpliceAfterHead(s, rep, i, i + |pat|);
    }
  }

  /** Putting the head back in front of a splice of the tail is the same
      splice of the whole string. */
  lemma SpliceAfterHead(s: string, rep: string, i: nat, j: nat)
    requires 1 <= i <= j <= |s|
    ensures [s[0]] + (s[1..][..i - 1] + rep + s[1..][j - 1..]) == s[..i] + rep + s[j..]
  {
    var t := s[1..];
    assert [s[0]] + t[..i - 1] == s[..i];
    assert t[j - 1..] == s[j..];
    assert [s[0]] + (t[..i - 1] + rep + t[j - 1..]) == ([s[0]] + t[..i - 1]) + rep + t[j - 1..];
  }

  /** An occurrence at `i > 0` is an occurrence at `i - 1` in the tail. */
  lemma OccursAfterHead(s: string, pat: string, i: nat)
    requires 1 <= i <= |s|
    ensures OccursAt(s, pat, i) <==> OccursAt(s[1..], pat, i - 1)
  {
    if i + |pat| <= |s| {
      var here, there := s[i..i + |pat|], s[1..][i - 1..i - 1 + |pat|];
      forall k | 0 <= k < |pat| ensures here[k] == there[k] {
        assert here[k] == s[i + k] && there[k] == s[1..][i - 1 + k];
      }
      assert here == there;
    }
  }
}
