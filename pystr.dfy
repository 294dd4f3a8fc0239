/** Models of the Python `str` operations the core relies on: `strip`,
    `splitlines`, `split(sep, 1)`, `lower` (ASCII part), `replace`, `join`,
    `startswith` and the decimal rendering of a non-negative `int`. */
module PyStr {

  import opened Wrappers

  /** Python's `str.isspace`: the characters `strip()` removes by default. */
  predicate IsSpace(c: char) {
    c == ' ' || ('\t' <= c <= '\r') || ('\U{1c}' <= c <= '\U{1f}') || c == '\U{85}'
    || c == '\U{a0}' || c == '\U{1680}' || ('\U{2000}' <= c <= '\U{200a}')
    || c == '\U{2028}' || c == '\U{2029}' || c == '\U{202f}' || c == '\U{205f}' || c == '\U{3000}'
  }

  /** The characters at which Python's `str.splitlines` breaks a line. */
  predicate IsLineBreak(c: char) {
    ('\n' <= c <= '\r') || ('\U{1c}' <= c <= '\U{1e}') || c == '\U{85}' || c == '\U{2028}' || c == '\U{2029}'
  }

  /** Neither end of `s` is whitespace: what `strip()` returns. */
  predicate Stripped(s: string) {
    s == [] || (!IsSpace(s[0]) && !IsSpace(s[|s| - 1]))
  }

  /** The first index at or after `i` that does not hold whitespace, or `|s|`. */
  function SpanStart(s: string, i: nat): (k: nat)
    requires i <= |s|
    ensures i <= k <= |s|
    ensures forall m :: i <= m < k ==> IsSpace(s[m])
    ensures k < |s| ==> !IsSpace(s[k])
    decreases |s| - i
  {
    if i == |s| || !IsSpace(s[i]) then i else SpanStart(s, i + 1)
  }

  /** The index just after the last non-whitespace character before `j`, or 0. */
  function SpanEnd(s: string, j: nat): (k: nat)
    requires j <= |s|
    ensures k <= j
    ensures forall m :: k <= m < j ==> IsSpace(s[m])
    ensures 0 < k ==> !IsSpace(s[k - 1])
  {
    if j == 0 || !IsSpace(s[j - 1]) then j else SpanEnd(s, j - 1)
  }

  /** `s.strip()`: the part of `s` between its leading and its trailing whitespace. */
  function Strip(s: string): (r: string)
    ensures Stripped(r)
  {
    var i := SpanStart(s, 0);
    var j := SpanEnd(s, |s|);
    if j <= i then [] else s[i..j]
  }

  /** Stripping a string that is already stripped changes nothing. */
  lemma StripStripped(s: string)
    requires Stripped(s)
    ensures Strip(s) == s
  {
    if s != [] {
      assert SpanStart(s, 0) == 0;
      assert SpanEnd(s, |s|) == |s|;
    }
  }

  /** `strip()` keeps exactly the part of `s` between its leading and trailing
      whitespace, and removes nothing else. */
  lemma StripIsInfix(s: string)
    ensures exists i, j :: 0 <= i <= j <= |s| && Strip(s) == s[i..j]
                           && (forall k :: 0 <= k < i ==> IsSpace(s[k]))
                           && (forall k :: j <= k < |s| ==> IsSpace(s[k]))
  {
    var i := SpanStart(s, 0);
    var j := SpanEnd(s, |s|);
    if j <= i {
      assert i == |s|;
      assert Strip(s) == s[0..0];
    } else {
      assert Strip(s) == s[i..j];
    }
  }

  /** Whitespace in front of a stripped string is removed by `strip()`. */
  lemma StripLeadingSpaces(w: string, t: string)
    requires forall k :: 0 <= k < |w| ==> IsSpace(w[k])
    requires Stripped(t)
    ensures Strip(w + t) == t
  {
    var s := w + t;
    assert forall k :: 0 <= k < |w| ==> s[k] == w[k];
    assert forall k :: |w| <= k < |s| ==> s[k] == t[k - |w|];
    var i := SpanStart(s, 0);
    var j := SpanEnd(s, |s|);
    if t == [] {
      assert s == w;
      assert i == |s|;
    } else {
      assert !IsSpace(s[|w|]);
      assert i == |w|;
      assert !IsSpace(s[|s| - 1]);
      assert j == |s|;
      assert s[|w|..] == t;
    }
  }

  /** The first index at or after `i` holding a line break, or `|s|`. */
  function LineEnd(s: string, i: nat): (k: nat)
    requires i <= |s|
    ensures i <= k <= |s|
    ensures k < |s| ==> IsLineBreak(s[k])
    ensures forall m :: i <= m < k ==> !IsLineBreak(s[m])
    decreases |s| - i
  {
    if i == |s| || IsLineBreak(s[i]) then i else LineEnd(s, i + 1)
  }

  /** How many characters the line break at `k` takes: `\r\n` counts as one break. */
  function BreakWidth(s: string, k: nat): nat
    requires k < |s|
  {
    if s[k] == '\r' && k + 1 < |s| && s[k + 1] == '\n' then 2 else 1
  }

  /** Python's `s.splitlines()` (without `keepends`): a final line break does not
      start a further, empty line, and the empty string has no lines. */
  function SplitLines(s: string): (r: seq<string>)
    ensures s == [] <==> r == []
    ensures forall i :: 0 <= i < |r| ==> forall m :: 0 <= m < |r[i]| ==> !IsLineBreak(r[i][m])
    decreases |s|
  {
    if s == [] then []
    else
      var k := LineEnd(s, 0);
      if k == |s| then [s] else [s[..k]] + SplitLines(s[k + BreakWidth(s, k)..])
  }

  /** Two lines joined by a newline split back into those two lines. */
  lemma SplitTwoLines(a: string, b: string)
    requires forall m :: 0 <= m < |a| ==> !IsLineBreak(a[m])
    requires forall m :: 0 <= m < |b| ==> !IsLineBreak(b[m])
    requires b != []
    ensures SplitLines(a + "\n" + b) == [a, b]
  {
    var s := a + "\n" + b;
    assert s[|a|] == '\n';
    assert forall m :: 0 <= m < |a| ==> s[m] == a[m];
    assert LineEnd(s, 0) == |a|;
    assert s[..|a|] == a;
    assert s[|a| + 1..] == b;
    assert LineEnd(b, 0) == |b|;
  }

  /** No line break occurs in `s`. */
  predicate SingleLine(s: string) {
    forall m :: 0 <= m < |s| ==> !IsLineBreak(s[m])
  }

  /** Two single lines joined without a break form a single line. */
  lemma SingleLineConcat(a: string, b: string)
    requires SingleLine(a) && SingleLine(b)
    ensures SingleLine(a + b)
  {
    assert forall m :: |a| <= m < |a + b| ==> (a + b)[m] == b[m - |a|];
  }

  /** What consecutive `print(line, file=sf)` calls write: each line followed by `\n`. */
  function Unlines(lines: seq<string>): string {
    if lines == [] then [] else lines[0] + "\n" + Unlines(lines[1..])
  }

  /** Printed lines without line breaks of their own split back into those lines. */
  lemma {:induction false} SplitUnlines(lines: seq<string>)
    requires forall i :: 0 <= i < |lines| ==> SingleLine(lines[i])
    ensures SplitLines(Unlines(lines)) == lines
  {
    if lines != [] {
      var l := lines[0];
      var s := Unlines(lines);
      assert s == l + "\n" + Unlines(lines[1..]);
      assert s[|l|] == '\n';
      assert forall m :: 0 <= m < |l| ==> s[m] == l[m];
      assert LineEnd(s, 0) == |l|;
      assert s[..|l|] == l;
      assert s[|l| + 1..] == Unlines(lines[1..]);
      SplitUnlines(lines[1..]);
      assert lines == [l] + lines[1..];
    }
  }

  /** Two and three printed lines. */
  lemma UnlinesSmall(a: string, b: string, c: string)
    ensures Unlines([a, b]) == a + "\n" + (b + "\n")
    ensures Unlines([a, b, c]) == a + "\n" + (b + "\n") + (c + "\n")
  {
    assert [a, b][1..] == [b] && [b][1..] == [];
    assert [a, b, c][1..] == [b, c] && [b, c][1..] == [c] && [c][1..] == [];
    assert Unlines([c]) == c + "\n" + [];
    assert c + "\n" + [] == c + "\n";
    assert Unlines([b]) == b + "\n";
    assert Unlines([b, c]) == b + "\n" + (c + "\n");
  }

  /** A stripped text of two lines splits into those lines. */
  lemma SplitTwoStrippedLines(first: string, second: string)
    requires SingleLine(first) && SingleLine(second) && second != []
    requires Stripped(first + "\n" + second)
    ensures SplitLines(Strip(first + "\n" + second)) == [first, second]
  {
    StripStripped(first + "\n" + second);
    SplitTwoLines(first, second);
  }

  /** The first index of `c` in `s`, or `|s|` when there is none. */
  function IndexOf(s: string, c: char): (k: nat)
    ensures k <= |s|
    ensures k < |s| ==> s[k] == c
    ensures forall m :: 0 <= m < k ==> s[m] != c
  {
    if s == [] then 0 else if s[0] == c then 0 else 1 + IndexOf(s[1..], c)
  }

  /** `s.split(c, maxsplit=1)` unpacked into two names: `None` when `c` does not
      occur (the unpacking raises), else the text before and after the first `c`. */
  function SplitOnce(s: string, c: char): (r: Option<(string, string)>)
    ensures r.None? <==> c !in s
    ensures r.Some? ==> r.value.0 + [c] + r.value.1 == s && c !in r.value.0
  {
    var k := IndexOf(s, c);
    if k == |s| then None
    else
      assert s == s[..k] + [c] + s[k + 1..];
      Some((s[..k], s[k + 1..]))
  }

  /** The lower-case form of an ASCII capital; every other character is kept. */
  function LowerChar(c: char): char {
    if 'A' <= c <= 'Z' then (c as int + 32) as char else c
  }

  /** `s.lower()` on the ASCII letters. */
  function Lower(s: string): string {
    seq(|s|, i requires 0 <= i < |s| => LowerChar(s[i]))
  }

  /** `s.startswith(p)`. */
  predicate StartsWith(s: string, p: string) {
    |p| <= |s| && s[..|p|] == p
  }

  /** `s.replace(target, repl)`: occurrences are found left to right and do not overlap. */
  function Replace(s: string, target: string, repl: string): (r: string)
    requires target != []
    decreases |s|
  {
    if |s| < |target| then s
    else if s[..|target|] == target then repl + Replace(s[|target|..], target, repl)
    else [s[0]] + Replace(s[1..], target, repl)
  }

  /** `p` occurs in `s` starting at index `i`. */
  predicate OccursAt(s: string, p: string, i: int) {
    0 <= i && i + |p| <= |s| && s[i..i + |p|] == p
  }

  /** The first occurrence of the target is replaced by `repl`, and the search
      goes on after it: `a` holds no occurrence that starts before the target. */
  lemma {:induction false} ReplaceOccurrence(a: string, b: string, target: string, repl: string)
    requires target != []
    requires forall i :: 0 <= i < |a| ==> !OccursAt(a + target, target, i)
    ensures Replace(a + target + b, target, repl) == a + repl + Replace(b, target, repl)
    decreases |a|
  {
    var rest := Replace(b, target, repl);
    if a == [] {
      var s := a + target + b;
      assert s == target + b;
      assert s[..|target|] == target && s[|target|..] == b;
    } else {
      var head, tail := [a[0]], a[1..];
      ReplaceSkipsHead(a, b, target, repl);
      NoOccurrenceShift(a, target);
      ReplaceOccurrence(tail, b, target, repl);
      assert a == head + tail;
      assert Replace(a + target + b, target, repl) == head + (tail + repl + rest);
    }
  }

  /** Replacing the separator of a join whose parts hold no character that
      starts the target gives the join with the replacement as separator: each
      occurrence becomes exactly one `repl`. */
  lemma {:induction false} ReplaceJoin(parts: seq<string>, target: string, repl: string)
    requires target != [] && forall k :: 0 <= k < |parts| ==> target[0] !in parts[k]
    ensures Replace(Join(target, parts), target, repl) == Join(repl, parts)
  {
    if |parts| == 1 {
      FirstCharAbsent(parts[0], target);
      ReplaceAbsent(parts[0], target, repl);
    } else if |parts| > 1 {
      FirstCharAbsent(parts[0], target);
      ReplaceOccurrence(parts[0], Join(target, parts[1..]), target, repl);
      ReplaceJoin(parts[1..], target, repl);
    }
  }

  /** A text without the first character of the target holds no occurrence of
      it, not even one that runs into a following target. */
  lemma FirstCharAbsent(a: string, target: string)
    requires target != [] && target[0] !in a
    ensures forall i :: !OccursAt(a, target, i)
    ensures forall i :: 0 <= i < |a| ==> !OccursAt(a + target, target, i)
  {
    forall i | 0 <= i && i + |target| <= |a|
      ensures !OccursAt(a, target, i)
    {
      assert a[i..i + |target|][0] == a[i];
    }
    forall i | 0 <= i < |a|
      ensures !OccursAt(a + target, target, i)
    {
      if i + |target| <= |a + target| {
        assert (a + target)[i..i + |target|][0] == a[i];
      }
    }
  }

  /** Where the target does not start, `replace` keeps the first character. */
  lemma ReplaceSkipsHead(a: string, b: string, target: string, repl: string)
    requires a != [] && target != [] && !OccursAt(a + target, target, 0)
    ensures Replace(a + target + b, target, repl) == [a[0]] + Replace(a[1..] + target + b, target, repl)
  {
    var s := a + target + b;
    assert s[..|target|] == (a + target)[..|target|];
    assert s[0] == a[0] && s[1..] == a[1..] + target + b;
  }

  /** Dropping the first character keeps a prefix free of early occurrences. */
  lemma NoOccurrenceShift(a: string, target: string)
    requires a != [] && forall i :: 0 <= i < |a| ==> !OccursAt(a + target, target, i)
    ensures forall i :: 0 <= i < |a[1..]| ==> !OccursAt(a[1..] + target, target, i)
  {
    forall i | 0 <= i < |a[1..]|
      ensures !OccursAt(a[1..] + target, target, i)
    {
      assert !OccursAt(a + target, target, i + 1);
      assert (a[1..] + target)[i..i + |target|] == (a + target)[i + 1..i + 1 + |target|];
    }
  }

  /** A text in which `target` does not occur is left alone by `replace`. */
  lemma {:induction false} ReplaceAbsent(s: string, target: string, repl: string)
    requires target != []
    requires forall i :: !OccursAt(s, target, i)
    ensures Replace(s, target, repl) == s
  {
    if |s| >= |target| {
      assert !OccursAt(s, target, 0);
      AbsentFromTail(s, target);
      ReplaceAbsent(s[1..], target, repl);
    }
  }

  /** What does not occur in `s` does not occur in its tail either. */
  lemma AbsentFromTail(s: string, target: string)
    requires s != []
    requires forall i :: !OccursAt(s, target, i)
    ensures forall i :: !OccursAt(s[1..], target, i)
  {
    forall i | 0 <= i && i + |target| <= |s| - 1
      ensures !OccursAt(s[1..], target, i)
    {
      assert !OccursAt(s, target, i + 1);
      var here := s[1..][i..i + |target|];
      assert forall k :: 0 <= k < |here| ==> here[k] == s[i + 1 + k];
      assert here == s[i + 1..i + 1 + |target|];
    }
  }

  /** When the replacement does not start with a character of `w`, `replace` turns
      a text that does not start with `w` into one that does not either. */
  lemma {:induction false} ReplaceKeepsNonPrefix(x: string, target: string, repl: string, w: string)
    requires target != [] && repl != [] && repl[0] !in w
    requires !StartsWith(x, w)
    ensures !StartsWith(Replace(x, target, repl), w)
    decreases |x|
  {
    var out := Replace(x, target, repl);
    if |x| < |target| {
    } else if x[..|target|] == target {
      assert out[0] == repl[0];
    } else {
      assert out == [x[0]] + Replace(x[1..], target, repl);
      if |w| <= |x| && x[0] == w[0] {
        assert x[..|w|] == [x[0]] + x[1..][..|w| - 1];
        assert w == [w[0]] + w[1..];
        ReplaceKeepsNonPrefix(x[1..], target, repl, w[1..]);
        if |w| <= |out| {
          assert out[..|w|] == [x[0]] + Replace(x[1..], target, repl)[..|w| - 1];
        }
      } else if |w| <= |x| {
        assert out[0] == x[0];
      } else if |w| <= |out| {
        assert x != [] && w != [];
        ReplaceKeepsNonPrefix(x[1..], target, repl, w[1..]);
        assert out[..|w|] == [x[0]] + Replace(x[1..], target, repl)[..|w| - 1];
      }
    }
  }

  /** When no character of the replacement occurs in the target, no occurrence of
      the target is left after `replace`. */
  lemma {:induction false} ReplaceLeavesNoTarget(s: string, target: string, repl: string)
    requires target != [] && repl != []
    requires forall k :: 0 <= k < |repl| ==> repl[k] !in target
    ensures forall i :: !OccursAt(Replace(s, target, repl), target, i)
    decreases |s|
  {
    if |s| < |target| {
      assert Replace(s, target, repl) == s;
    } else if s[..|target|] == target {
      var rest := Replace(s[|target|..], target, repl);
      ReplaceLeavesNoTarget(s[|target|..], target, repl);
      assert Replace(s, target, repl) == repl + rest;
      NoTargetAfterReplacement(repl, rest, target);
    } else {
      var rest := Replace(s[1..], target, repl);
      ReplaceLeavesNoTarget(s[1..], target, repl);
      assert Replace(s, target, repl) == [s[0]] + rest;
      KeptHeadNotTarget(s, target, repl);
      NoTargetAfterChar(s[0], rest, target);
    }
  }

  /** A replacement that shares no character with the target, followed by a text
      free of the target, is free of the target. */
  lemma NoTargetAfterReplacement(repl: string, rest: string, target: string)
    requires target != [] && repl != []
    requires forall k :: 0 <= k < |repl| ==> repl[k] !in target
    requires forall i :: !OccursAt(rest, target, i)
    ensures forall i :: !OccursAt(repl + rest, target, i)
  {
    var out := repl + rest;
    forall i | 0 <= i && i + |target| <= |out|
      ensures !OccursAt(out, target, i)
    {
      if i < |repl| {
        assert out[i] == repl[i];
        assert out[i..i + |target|][0] == out[i];
      } else {
        assert out[i..i + |target|] == rest[i - |repl|..i - |repl| + |target|];
        assert !OccursAt(rest, target, i - |repl|);
      }
    }
  }

  /** In the branch where `s` does not start with the target, the output of
      `replace`, which starts with `s[0]`, does not start with the target either. */
  lemma KeptHeadNotTarget(s: string, target: string, repl: string)
    requires target != [] && repl != [] && |s| >= |target|
    requires forall k :: 0 <= k < |repl| ==> repl[k] !in target
    requires s[..|target|] != target
    ensures !StartsWith([s[0]] + Replace(s[1..], target, repl), target)
  {
    var out := [s[0]] + Replace(s[1..], target, repl);
    if s[0] == target[0] {
      assert s[..|target|] == [s[0]] + s[1..][..|target| - 1];
      assert target == [target[0]] + target[1..];
      assert repl[0] !in target[1..];
      ReplaceKeepsNonPrefix(s[1..], target, repl, target[1..]);
      if |target| <= |out| {
        assert out[..|target|] == [s[0]] + Replace(s[1..], target, repl)[..|target| - 1];
      }
    } else {
      assert out[0] == s[0];
    }
  }

  /** A character followed by a text free of the target, where the whole does
      not start with the target, is free of the target. */
  lemma NoTargetAfterChar(c: char, rest: string, target: string)
    requires target != []
    requires !StartsWith([c] + rest, target)
    requires forall i :: !OccursAt(rest, target, i)
    ensures forall i :: !OccursAt([c] + rest, target, i)
  {
    var out := [c] + rest;
    forall i | 1 <= i && i + |target| <= |out|
      ensures !OccursAt(out, target, i)
    {
      assert out[i..i + |target|] == rest[i - 1..i - 1 + |target|];
      assert !OccursAt(rest, target, i - 1);
    }
  }

  /** `sep.join(parts)`. */
  function Join(sep: string, parts: seq<string>): string {
    if parts == [] then []
    else if |parts| == 1 then parts[0]
    else parts[0] + sep + Join(sep, parts[1..])
  }

  /** The decimal digit for `d`. */
  function Digit(d: nat): char
    requires d < 10
  {
    ('0' as int + d) as char
  }

  /** `str(n)` for a non-negative integer: its decimal digits, no leading zero. */
  function NatToString(n: nat): (r: string)
    ensures r != []
    ensures forall i :: 0 <= i < |r| ==> '0' <= r[i] <= '9'
    ensures |r| > 1 ==> r[0] != '0'
  {
    if n < 10 then [Digit(n)] else NatToString(n / 10) + [Digit(n % 10)]
  }

  /** `int(s)` for a string of decimal digits. */
  function ParseNat(s: string): nat
    requires forall i :: 0 <= i < |s| ==> '0' <= s[i] <= '9'
  {
    if s == [] then 0 else 10 * ParseNat(s[..|s| - 1]) + (s[|s| - 1] as int - '0' as int)
  }

  /** Rendering a number and reading it back gives the number. */
  lemma {:induction false} ParseNatToString(n: nat)
    ensures ParseNat(NatToString(n)) == n
  {
    if n >= 10 {
      var s := NatToString(n);
      assert s[..|s| - 1] == NatToString(n / 10);
      ParseNatToString(n / 10);
    }
  }

  /** A character that no index of `s[i..j]` holds is not in the slice. */
  lemma SliceAvoids(s: string, i: nat, j: nat, c: char)
    requires i <= j <= |s| && forall m :: i <= m < j ==> s[m] != c
    ensures c !in s[i..j]
  {
    assert forall k :: 0 <= k < j - i ==> s[i..j][k] == s[i + k];
  }
}
