/** Comment and command stripping for the lines of one TeX file:
    `_remove_comments_inline`, `_remove_environment`, `_remove_command` and the
    `_remove_comments` pipeline. The three fixed regular expressions of the source
    are written as scanners over strings. */
module Stripping {

  import opened Wrappers
  import opened Text

  // ---------------------------------------------------------------------------
  // Inline comments: `_remove_comments_inline`
  // ---------------------------------------------------------------------------

  /** A line holding this marker is never altered. */
  const AutoIgnoreMarker: string := "auto-ignore"

  predicate HasAutoIgnore(line: string)
  {
    IsSubstring(AutoIgnoreMarker, line)
  }

  /** `line.lstrip(' ').lstrip('\t').startswith('%')`: leading spaces are stripped
      first and leading tabs after them, so " \t%" qualifies and "\t %" does not. */
  predicate IsWholeLineComment(line: string)
  {
    StartsWith(LStrip(LStrip(line, ' '), '\t'), "%")
  }

  /** A '%' at index `i` that the lookbehind `(?<!\\)%` accepts: not immediately
      preceded by a backslash. */
  predicate UnescapedPercentAt(line: string, i: int)
  {
    0 <= i < |line| && line[i] == '%' && (i == 0 || line[i - 1] != '\\')
  }

  predicate IsFirstUnescapedPercent(line: string, i: int)
  {
    UnescapedPercentAt(line, i) && forall j :: 0 <= j < i ==> !UnescapedPercentAt(line, j)
  }

  /** `re.search(r'(?<!\\)%', line)` started at index `from`. */
  function FindUnescapedPercent(line: string, from: nat): (r: Option<nat>)
    requires from <= |line|
    ensures r.Some? ==> from <= r.value && UnescapedPercentAt(line, r.value)
    ensures r.Some? ==> forall j :: from <= j < r.value ==> !UnescapedPercentAt(line, j)
    ensures r.None? ==> forall j :: from <= j < |line| ==> !UnescapedPercentAt(line, j)
    decreases |line| - from
  {
    if from == |line| then None
    else if UnescapedPercentAt(line, from) then Some(from)
    else FindUnescapedPercent(line, from + 1)
  }

  /** Cases 3 and 4 of `_remove_comments_inline`: `text[:match.end()] + '\n'` when
      an unescaped '%' exists, otherwise the line itself. */
  function CutAtComment(line: string): (r: string)
    ensures forall i :: IsFirstUnescapedPercent(line, i) ==> r == line[..i + 1] + "\n"
    ensures (forall i :: 0 <= i < |line| ==> !UnescapedPercentAt(line, i)) ==> r == line
  {
    match FindUnescapedPercent(line, 0)
    case Some(i) =>
      FirstUnescapedPercentUnique(line, i);
      line[..i + 1] + "\n"
    case None => line
  }

  /** `_remove_comments_inline`: four cases, tried in this order. */
  function RemoveCommentsInline(line: string): (r: string)
    // 1. the escape marker leaves the line alone
    ensures HasAutoIgnore(line) ==> r == line
    // 2. a whole-line comment becomes the empty string (its newline goes too)
    ensures !HasAutoIgnore(line) && IsWholeLineComment(line) ==> r == ""
    // 3. otherwise the line is cut right after its first unescaped '%', which is kept
    ensures !HasAutoIgnore(line) && !IsWholeLineComment(line) ==>
      forall i :: IsFirstUnescapedPercent(line, i) ==> r == line[..i + 1] + "\n"
    // 4. a line without an unescaped '%' is unchanged
    ensures (forall i :: 0 <= i < |line| ==> !UnescapedPercentAt(line, i)) && !IsWholeLineComment(line) ==>
      r == line
  {
    if HasAutoIgnore(line) then line
    else if IsWholeLineComment(line) then ""
    else CutAtComment(line)
  }

  lemma FirstUnescapedPercentUnique(line: string, i: int)
    requires IsFirstUnescapedPercent(line, i)
    ensures forall j :: IsFirstUnescapedPercent(line, j) ==> j == i
  {
  }

  /** The character at index `k` of `LStrip(s, c)` is the one at the same place in `s`. */
  lemma LStripAt(s: string, c: char, k: nat)
    requires k < |LStrip(s, c)|
    ensures LStrip(s, c)[k] == s[|s| - |LStrip(s, c)| + k]
  {
    var r := LStrip(s, c);
    assert r == s[|s| - |r|..];
  }

  /** The '%' that makes a whole-line comment follows only blanks, so no backslash
      precedes it: it is an unescaped '%'. */
  lemma WholeLineCommentPercent(line: string)
    ensures IsWholeLineComment(line) ==>
      UnescapedPercentAt(line, |line| - |LStrip(LStrip(line, ' '), '\t')|)
  {
    var s1 := LStrip(line, ' ');
    var s2 := LStrip(s1, '\t');
    if IsWholeLineComment(line) {
      var d1, d2 := |line| - |s1|, |s1| - |s2|;
      assert StartsWith(s2, "%");
      assert s2[..1][0] == s2[0] == '%';
      LStripAt(s1, '\t', 0);
      LStripAt(line, ' ', d2);
      assert line[d1 + d2] == '%';
      if d2 > 0 {
        LStripAt(line, ' ', d2 - 1);
        assert s1[d2 - 1] == '\t';
      } else if d1 > 0 {
        assert line[d1 - 1] == ' ';
      }
    }
  }

  /** A line with no unescaped '%' passes through unchanged: an escaped `\%` alone
      does not make a line a comment. */
  lemma InlineCleanLineUnchanged(line: string)
    requires forall i :: !UnescapedPercentAt(line, i)
    ensures RemoveCommentsInline(line) == line
  {
    WholeLineCommentPercent(line);
  }

  /** A line shorter than the marker cannot hold it. */
  lemma ShortLineNoMarker(line: string)
    requires |line| < |AutoIgnoreMarker|
    ensures !HasAutoIgnore(line)
  {
  }

  /** A line that starts with neither blank nor '%' is not a whole-line comment. */
  lemma PlainStartNotComment(line: string)
    requires line != [] && line[0] != ' ' && line[0] != '\t' && line[0] != '%'
    ensures !IsWholeLineComment(line)
  {
    assert LStrip(line, ' ') == line;
    assert LStrip(line, '\t') == line;
  }

  lemma InlineTruncatesAfterPercent()
    ensures RemoveCommentsInline("x=1 % y") == "x=1 %\n"
  {
    var a := "x=1 % y";
    ShortLineNoMarker(a);
    PlainStartNotComment(a);
    assert a[0] != '%' && a[1] != '%' && a[2] != '%' && a[3] != '%' && a[4] == '%';
    assert IsFirstUnescapedPercent(a, 4);
    assert a[..5] == "x=1 %";
  }

  lemma InlineKeepsEscapedPercent()
    ensures RemoveCommentsInline("100\\% done") == "100\\% done"
  {
    var b := "100\\% done";
    ShortLineNoMarker(b);
    PlainStartNotComment(b);
    assert b[4] == '%' && b[3] == '\\';
    assert forall i :: 0 <= i < |b| && i != 4 ==> b[i] != '%';
    assert forall i :: 0 <= i < |b| ==> !UnescapedPercentAt(b, i);
  }

  lemma InlineWholeLine()
    ensures RemoveCommentsInline("  % note\n") == ""
  {
    var c := "  % note\n";
    ShortLineNoMarker(c);
    assert c[0] == ' ' && c[1] == ' ' && c[2] == '%';
    assert LStrip(c[2..], ' ') == c[2..];
    assert LStrip(c[1..], ' ') == LStrip(c[1..][1..], ' ') && c[1..][1..] == c[2..];
    assert LStrip(c, ' ') == c[2..];
    assert LStrip(c[2..], '\t') == c[2..];
    assert IsWholeLineComment(c);
  }

  /** Tabs are stripped only after spaces: a tab then a space is not a whole-line comment. */
  lemma InlineTabThenSpace()
    ensures RemoveCommentsInline("\t % note") == "\t %\n"
  {
    var d := "\t % note";
    ShortLineNoMarker(d);
    assert d[0] == '\t' && d[1] == ' ' && d[2] == '%';
    assert LStrip(d, ' ') == d;
    assert LStrip(d[1..], '\t') == d[1..];
    assert LStrip(d, '\t') == d[1..];
    assert !StartsWith(d[1..], "%");
    assert !IsWholeLineComment(d);
    assert IsFirstUnescapedPercent(d, 2);
    assert d[..3] == "\t %";
  }

  // ---------------------------------------------------------------------------
  // Environments: `_remove_environment`
  // ---------------------------------------------------------------------------

  function BeginMarker(env: string): string
  {
    "\\begin{" + env + "}"
  }

  function EndMarker(env: string): string
  {
    "\\end{" + env + "}"
  }

  /** `text` holds a complete span: a begin marker and, after it, an end marker. */
  predicate HasSpan(text: string, env: string)
  {
    exists i, j :: 0 <= i <= |text| && OccursAt(text, BeginMarker(env), i) &&
      i + |BeginMarker(env)| <= j <= |text| && OccursAt(text, EndMarker(env), j)
  }

  /** `re.sub(r'\\begin{env}[\s\S]*?\\end{env}', '', text)`: scanning from the
      left, each begin marker that has an end marker after it is deleted together
      with everything up to and including the FIRST such end marker; scanning goes
      on after the deleted span. */
  function RemoveEnvironment(text: string, env: string): (r: string)
    ensures |r| <= |text|
    ensures IsSubsequence(r, text)
    decreases |text|
  {
    if text == [] then []
    else
      var b, e := BeginMarker(env), EndMarker(env);
      if StartsWith(text, b) && FindFrom(text, e, |b|).Some? then
        var j := FindFrom(text, e, |b|).value + |e|;
        var r := RemoveEnvironment(text[j..], env);
        SubsequenceOfSuffix(r, text, j);
        r
      else
        var r := RemoveEnvironment(text[1..], env);
        assert ([text[0]] + r)[1..] == r;
        [text[0]] + r
  }

  lemma OccursAtTail(s: string, sub: string, i: nat)
    requires 1 <= i && OccursAt(s, sub, i)
    ensures OccursAt(s[1..], sub, i - 1)
  {
    assert s[1..][i - 1..i - 1 + |sub|] == s[i..i + |sub|];
  }

  lemma OccursAtCons(s: string, sub: string, i: nat)
    requires 1 <= |s| && OccursAt(s[1..], sub, i)
    ensures OccursAt(s, sub, i + 1)
  {
    assert s[1..][i..i + |sub|] == s[i + 1..i + 1 + |sub|];
  }

  /** Text is left unchanged exactly when it holds no complete span. */
  lemma {:induction false} RemoveEnvironmentUnchanged(text: string, env: string)
    ensures RemoveEnvironment(text, env) == text <==> !HasSpan(text, env)
    decreases |text|
  {
    var b, e := BeginMarker(env), EndMarker(env);
    if text == [] {
    } else if StartsWith(text, b) && FindFrom(text, e, |b|).Some? {
      var j := FindFrom(text, e, |b|).value;
      assert OccursAt(text, b, 0);
      assert HasSpan(text, env);
      assert |RemoveEnvironment(text, env)| <= |text[j + |e|..]| < |text|;
    } else {
      var rest := text[1..];
      RemoveEnvironmentUnchanged(rest, env);
      assert RemoveEnvironment(text, env) == [text[0]] + RemoveEnvironment(rest, env);
      if HasSpan(text, env) {
        var i, j :| 0 <= i <= |text| && OccursAt(text, b, i) &&
          i + |b| <= j <= |text| && OccursAt(text, e, j);
        OccursAtTail(text, b, i);
        OccursAtTail(text, e, j);
        assert HasSpan(rest, env);
        assert RemoveEnvironment(text, env) != text;
      } else {
        if HasSpan(rest, env) {
          var i, j :| 0 <= i <= |rest| && OccursAt(rest, b, i) &&
            i + |b| <= j <= |rest| && OccursAt(rest, e, j);
          OccursAtCons(text, b, i);
          OccursAtCons(text, e, j);
          assert HasSpan(text, env);
        }
        assert text == [text[0]] + rest;
      }
    }
  }

  /** Where no begin marker starts, the scan keeps the first character and moves on. */
  lemma RemoveEnvironmentSkip(text: string, env: string)
    requires text != [] && !OccursAt(text, BeginMarker(env), 0)
    ensures RemoveEnvironment(text, env) == [text[0]] + RemoveEnvironment(text[1..], env)
  {
    assert !StartsWith(text, BeginMarker(env));
  }

  /** Text in which no begin marker starts is copied through untouched, in order,
      ahead of the cleaned rest: the scan is leftmost first. */
  lemma {:induction false} RemoveEnvironmentPassThrough(a: string, t: string, env: string)
    requires forall i :: 0 <= i < |a| ==> !OccursAt(a + t, BeginMarker(env), i)
    ensures RemoveEnvironment(a + t, env) == a + RemoveEnvironment(t, env)
    decreases |a|
  {
    if a == [] {
      assert a + t == t;
    } else {
      var b := BeginMarker(env);
      var text, rest := a + t, a[1..] + t;
      assert text[1..] == rest;
      RemoveEnvironmentSkip(text, env);
      forall i | 0 <= i < |a| - 1
        ensures !OccursAt(rest, b, i)
      {
        if OccursAt(rest, b, i) {
          OccursAtCons(text, b, i);
        }
      }
      RemoveEnvironmentPassThrough(a[1..], t, env);
      assert [a[0]] + (a[1..] + RemoveEnvironment(t, env)) == a + RemoveEnvironment(t, env);
    }
  }

  /** A begin marker at the front is deleted together with everything up to the
      first end marker after it: the shortest span. */
  lemma RemoveEnvironmentFirstSpan(m: string, rest: string, env: string)
    requires forall k :: 0 <= k < |m| ==> !OccursAt(m + EndMarker(env), EndMarker(env), k)
    ensures RemoveEnvironment(BeginMarker(env) + m + EndMarker(env) + rest, env) ==
            RemoveEnvironment(rest, env)
  {
    var b, e := BeginMarker(env), EndMarker(env);
    var text := b + m + e + rest;
    assert StartsWith(text, b);
    assert text[|b|..] == m + e + rest;
    assert OccursAt(text, e, |b| + |m|);
    forall k | |b| <= k < |b| + |m|
      ensures !OccursAt(text, e, k)
    {
      var k' := k - |b|;
      assert text[k..k + |e|] == (m + e)[k'..k' + |e|];
      assert !OccursAt(m + e, e, k');
    }
    assert FindFrom(text, e, |b|) == Some(|b| + |m|);
    assert text[|b| + |m| + |e|..] == rest;
  }

  // ---------------------------------------------------------------------------
  // Commands: `_remove_command`
  // ---------------------------------------------------------------------------

  /** The command regex's argument `{(?:[^}{]+|{(?:[^}{]+|{[^}{]*})*})*}` admits
      braces nested this deep, counting the outer pair. */
  const MaxDepth: int := 3

  function Delta(c: char): int
  {
    if c == '{' then 1 else if c == '}' then -1 else 0
  }

  /** Brace depth after reading `s[..k]`. */
  function Depth(s: string, k: nat): int
    requires k <= |s|
    decreases k
  {
    if k == 0 then 0 else Depth(s, k - 1) + Delta(s[k - 1])
  }

  /** `s[..n]` is an argument the regex accepts: it opens with '{', first returns to
      depth 0 at its end, and never nests deeper than MaxDepth on the way. */
  predicate IsArgumentPrefix(s: string, n: int)
  {
    2 <= n <= |s| && s[0] == '{' && Depth(s, n) == 0 &&
    forall k :: 1 <= k < n ==> 1 <= Depth(s, k) <= MaxDepth
  }

  predicate IsArgument(g: string)
  {
    IsArgumentPrefix(g, |g|)
  }

  /** Depth-counting scan from index `i` at brace depth `depth`. */
  function ScanArgument(s: string, i: nat, depth: int): Option<nat>
    requires i <= |s|
    decreases |s| - i
  {
    if i == |s| then None
    else if s[i] == '{' then (if depth == MaxDepth then None else ScanArgument(s, i + 1, depth + 1))
    else if s[i] == '}' then (if depth == 1 then Some(i + 1) else ScanArgument(s, i + 1, depth - 1))
    else ScanArgument(s, i + 1, depth)
  }

  /** Length of the argument at the front of `s`, if the regex accepts one there. */
  function ArgumentLength(s: string): Option<nat>
  {
    if s != [] && s[0] == '{' then ScanArgument(s, 1, 1) else None
  }

  predicate ScanReady(s: string, i: nat)
  {
    1 <= i <= |s| && s[0] == '{' && forall k :: 1 <= k <= i ==> 1 <= Depth(s, k) <= MaxDepth
  }

  lemma {:induction false} ScanArgumentCorrect(s: string, i: nat, n: int)
    requires ScanReady(s, i)
    ensures ScanArgument(s, i, Depth(s, i)) == Some(n) <==>
      (i < n <= |s| && Depth(s, n) == 0 && forall k :: i <= k < n ==> 1 <= Depth(s, k) <= MaxDepth)
    decreases |s| - i
  {
    var d := Depth(s, i);
    assert 1 <= d <= MaxDepth;
    if i < |s| {
      assert Depth(s, i + 1) == d + Delta(s[i]);
      if s[i] == '{' && d == MaxDepth {
      } else if s[i] == '}' && d == 1 {
      } else {
        assert ScanReady(s, i + 1);
        ScanArgumentCorrect(s, i + 1, n);
        if n == i + 1 {
          assert Depth(s, n) != 0;
        }
      }
    }
  }

  /** The scanner finds exactly the arguments the regex accepts. */
  lemma ArgumentLengthCorrect(s: string, n: int)
    ensures ArgumentLength(s) == Some(n) <==> IsArgumentPrefix(s, n)
  {
    if s != [] && s[0] == '{' {
      assert Depth(s, 1) == 1;
      assert ScanReady(s, 1);
      ScanArgumentCorrect(s, 1, n);
      assert ArgumentLength(s) == ScanArgument(s, 1, Depth(s, 1));
      assert ArgumentLength(s) == Some(n) <==>
        (1 < n <= |s| && Depth(s, n) == 0 && forall k :: 1 <= k < n ==> 1 <= Depth(s, k) <= MaxDepth);
      assert IsArgumentPrefix(s, n) <==>
        (1 < n <= |s| && Depth(s, n) == 0 && forall k :: 1 <= k < n ==> 1 <= Depth(s, k) <= MaxDepth);
    }
  }

  lemma {:induction false} DepthOfPrefix(s: string, t: string, k: nat)
    requires k <= |s|
    ensures Depth(s + t, k) == Depth(s, k)
    decreases k
  {
    if k > 0 {
      DepthOfPrefix(s, t, k - 1);
      assert (s + t)[k - 1] == s[k - 1];
    }
  }

  /** An argument followed by anything is still recognised on its own. */
  lemma ArgumentOfPrefix(g: string, t: string)
    requires IsArgument(g)
    ensures IsArgumentPrefix(g + t, |g|)
  {
    forall k | 1 <= k <= |g|
      ensures Depth(g + t, k) == Depth(g, k)
    {
      DepthOfPrefix(g, t, k);
    }
  }

  function CommandHead(command: string): string
  {
    "\\" + command
  }

  /** A removable command starts at `i`: `\command` followed by an accepted argument of length `n`. */
  predicate RemovableAt(text: string, command: string, i: nat, n: int)
  {
    OccursAt(text, CommandHead(command), i) && IsArgumentPrefix(text[i + |CommandHead(command)|..], n)
  }

  predicate HasRemovable(text: string, command: string)
  {
    exists i, n :: 0 <= i <= |text| && 0 <= n <= |text| && RemovableAt(text, command, i, n)
  }

  /** `re.sub(r'\\' + command + <argument regex>, '', text)`: scanning from the
      left, each `\command` followed by an accepted argument is deleted together with
      the whole argument; an occurrence whose braces never balance, or nest deeper
      than MaxDepth, is kept and scanning moves on by one character. */
  function RemoveCommand(text: string, command: string): (r: string)
    ensures |r| <= |text|
    ensures IsSubsequence(r, text)
    decreases |text|
  {
    if text == [] then []
    else
      var h := CommandHead(command);
      if StartsWith(text, h) && ArgumentLength(text[|h|..]).Some? then
        var j := |h| + ArgumentLength(text[|h|..]).value;
        assert j <= |text| by {
          ArgumentLengthCorrect(text[|h|..], ArgumentLength(text[|h|..]).value);
        }
        var r := RemoveCommand(text[j..], command);
        SubsequenceOfSuffix(r, text, j);
        r
      else
        var r := RemoveCommand(text[1..], command);
        assert ([text[0]] + r)[1..] == r;
        [text[0]] + r
  }

  lemma RemovableAtTail(text: string, command: string, i: nat, n: int)
    requires 1 <= i && RemovableAt(text, command, i, n)
    ensures RemovableAt(text[1..], command, i - 1, n)
  {
    var h := CommandHead(command);
    OccursAtTail(text, h, i);
    assert text[1..][i - 1 + |h|..] == text[i + |h|..];
  }

  lemma RemovableAtCons(text: string, command: string, i: nat, n: int)
    requires 1 <= |text| && RemovableAt(text[1..], command, i, n)
    ensures RemovableAt(text, command, i + 1, n)
  {
    var h := CommandHead(command);
    OccursAtCons(text, h, i);
    assert text[1..][i + |h|..] == text[i + 1 + |h|..];
  }

  /** Text is left unchanged exactly when no removable command occurs in it. */
  lemma {:induction false} RemoveCommandUnchanged(text: string, command: string)
    ensures RemoveCommand(text, command) == text <==> !HasRemovable(text, command)
    decreases |text|
  {
    var h := CommandHead(command);
    if text == [] {
    } else if StartsWith(text, h) && ArgumentLength(text[|h|..]).Some? {
      var n := ArgumentLength(text[|h|..]).value;
      ArgumentLengthCorrect(text[|h|..], n);
      assert RemovableAt(text, command, 0, n);
      assert |RemoveCommand(text, command)| <= |text[|h| + n..]| < |text|;
    } else {
      var rest := text[1..];
      RemoveCommandUnchanged(rest, command);
      assert RemoveCommand(text, command) == [text[0]] + RemoveCommand(rest, command);
      if HasRemovable(text, command) {
        var i, n :| 0 <= i <= |text| && 0 <= n <= |text| && RemovableAt(text, command, i, n);
        if i == 0 {
          assert StartsWith(text, h);
          ArgumentLengthCorrect(text[|h|..], n);
          assert false;
        }
        RemovableAtTail(text, command, i, n);
        assert HasRemovable(rest, command);
        assert RemoveCommand(text, command) != text;
      } else {
        if HasRemovable(rest, command) {
          var i, n :| 0 <= i <= |rest| && 0 <= n <= |rest| && RemovableAt(rest, command, i, n);
          RemovableAtCons(text, command, i, n);
          assert HasRemovable(text, command);
        }
        assert text == [text[0]] + rest;
      }
    }
  }

  /** Where no removable command starts, the scan keeps the first character and moves on. */
  lemma RemoveCommandSkip(text: string, command: string)
    requires text != [] && forall n :: !RemovableAt(text, command, 0, n)
    ensures RemoveCommand(text, command) == [text[0]] + RemoveCommand(text[1..], command)
  {
    var h := CommandHead(command);
    if StartsWith(text, h) && ArgumentLength(text[|h|..]).Some? {
      var n := ArgumentLength(text[|h|..]).value;
      ArgumentLengthCorrect(text[|h|..], n);
      assert RemovableAt(text, command, 0, n);
      assert false;
    }
  }

  /** Text in which no removable command starts is copied through untouched, in
      order, ahead of the cleaned rest: the scan is leftmost first. */
  lemma {:induction false} RemoveCommandPassThrough(a: string, t: string, command: string)
    requires forall i, n :: 0 <= i < |a| ==> !RemovableAt(a + t, command, i, n)
    ensures RemoveCommand(a + t, command) == a + RemoveCommand(t, command)
    decreases |a|
  {
    if a == [] {
      assert a + t == t;
    } else {
      var text := a + t;
      assert forall n :: !RemovableAt(text, command, 0, n);
      RemoveCommandSkip(text, command);
      NoRemovableInTail(a, t, command);
      RemoveCommandPassThrough(a[1..], t, command);
      var rest := a[1..] + t;
      assert text[1..] == rest;
      ConsAppend(a, RemoveCommand(t, command));
    }
  }

  lemma ConsAppend(a: string, out: string)
    requires a != []
    ensures [a[0]] + (a[1..] + out) == a + out
  {
    assert a == [a[0]] + a[1..];
  }

  lemma NoRemovableInTail(a: string, t: string, command: string)
    requires a != []
    requires forall i, n :: 0 <= i < |a| ==> !RemovableAt(a + t, command, i, n)
    ensures forall i, n :: 0 <= i < |a[1..]| ==> !RemovableAt(a[1..] + t, command, i, n)
  {
    var text := a + t;
    assert text[1..] == a[1..] + t;
    forall i, n | 0 <= i < |a| - 1
      ensures !RemovableAt(a[1..] + t, command, i, n)
    {
      if RemovableAt(a[1..] + t, command, i, n) {
        RemovableAtCons(text, command, i, n);
      }
    }
  }

  /** A backslash-free stretch holds no command: every command starts with a backslash. */
  lemma NoCommandWithoutBackslash(a: string, t: string, command: string)
    requires '\\' !in a
    ensures forall i, n :: 0 <= i < |a| ==> !RemovableAt(a + t, command, i, n)
  {
    forall i, n | 0 <= i < |a|
      ensures !RemovableAt(a + t, command, i, n)
    {
      assert (a + t)[i] == a[i] && a[i] in a;
      assert CommandHead(command)[0] == '\\';
    }
  }

  /** `\command` with an accepted argument is deleted, and nothing is put in its place. */
  lemma RemoveCommandDeletes(g: string, rest: string, command: string)
    requires IsArgument(g)
    ensures RemoveCommand(CommandHead(command) + g + rest, command) == RemoveCommand(rest, command)
  {
    var h := CommandHead(command);
    var text := h + g + rest;
    assert StartsWith(text, h);
    assert text[|h|..] == g + rest;
    ArgumentOfPrefix(g, rest);
    ArgumentLengthCorrect(g + rest, |g|);
    assert text[|h| + |g|..] == rest;
  }

  lemma NestedArgument()
    ensures IsArgument("{x{y}z}")
  {
    var g := "{x{y}z}";
    assert Depth(g, 1) == 1;
    assert Depth(g, 2) == 1;
    assert Depth(g, 3) == 2;
    assert Depth(g, 4) == 2;
    assert Depth(g, 5) == 1;
    assert Depth(g, 6) == 1;
    assert Depth(g, 7) == 0;
  }

  /** Removing `\note` deletes the command and its nested argument and inserts nothing. */
  lemma RemoveNestedNote()
    ensures RemoveCommand("a \\note{x{y}z} b", "note") == "a  b"
  {
    var g, pre, post := "{x{y}z}", "a ", " b";
    NestedArgument();
    var t := CommandHead("note") + g + post;
    assert "a \\note{x{y}z} b" == pre + t;
    assert pre[0] != '\\' && pre[1] != '\\';
    NoCommandWithoutBackslash(pre, t, "note");
    RemoveCommandPassThrough(pre, t, "note");
    RemoveCommandDeletes(g, post, "note");
    assert post[0] != '\\' && post[1] != '\\';
    NoCommandWithoutBackslash(post, "", "note");
    RemoveCommandPassThrough(post, "", "note");
    assert post + "" == post;
    assert pre + post == "a  b";
  }

  /** Another command ahead of the one removed survives, with its argument. */
  lemma RemoveNoteAfterTextbf()
    ensures RemoveCommand("\\textbf{x} \\note{y}", "note") == "\\textbf{x} "
  {
    var pre, g := "\\textbf{x} ", "{y}";
    var h := CommandHead("note");
    var t := h + g;
    assert "\\textbf{x} \\note{y}" == pre + t;
    forall i, n | 0 <= i < |pre|
      ensures !RemovableAt(pre + t, "note", i, n)
    {
      if i == 0 {
        assert (pre + t)[1] == 't' && h[1] == 'n';
        assert !OccursAt(pre + t, h, 0);
      } else {
        assert (pre + t)[i] == pre[i] && pre[i] != '\\';
        assert !OccursAt(pre + t, h, i);
      }
    }
    RemoveCommandPassThrough(pre, t, "note");
    assert IsArgument(g) by {
      assert Depth(g, 1) == 1 && Depth(g, 2) == 1 && Depth(g, 3) == 0;
    }
    RemoveCommandDeletes(g, "", "note");
    assert h + g + "" == t;
    assert pre + "" == pre;
  }

  // ---------------------------------------------------------------------------
  // The pipeline: `_remove_comments`
  // ---------------------------------------------------------------------------

  /** The per-line stage: `[_remove_comments_inline(line) for line in content]`. */
  function CleanLines(content: seq<string>): (r: seq<string>)
    ensures |r| == |content|
    ensures forall k :: 0 <= k < |content| ==> r[k] == RemoveCommentsInline(content[k])
  {
    seq(|content|, k requires 0 <= k < |content| => RemoveCommentsInline(content[k]))
  }

  /** Each command of the list removed in turn, in list order. */
  function ApplyCommands(text: string, commands: seq<string>): string
    decreases |commands|
  {
    if commands == [] then text
    else RemoveCommand(ApplyCommands(text, commands[..|commands| - 1]), commands[|commands| - 1])
  }

  /** The cleaned text before the final split: per-line cleaning, `''` join,
      comment-environment removal, then each command. */
  function StrippedText(content: seq<string>, commandsToDelete: seq<string>): string
  {
    ApplyCommands(RemoveEnvironment(Concat(CleanLines(content)), "comment"), commandsToDelete)
  }

  /** `_remove_comments`: the stages in order, then `split('\n')`. Nothing is dropped
      after the split, so joining the result with newlines gives back the cleaned text. */
  method RemoveComments(content: seq<string>, commandsToDelete: seq<string>) returns (lines: seq<string>)
    ensures lines == SplitLines(StrippedText(content, commandsToDelete))
    ensures JoinLines(lines) == StrippedText(content, commandsToDelete)
    ensures |lines| == CountChar(StrippedText(content, commandsToDelete), '\n') + 1
  {
    var cleaned := CleanLines(content);
    var text := RemoveEnvironment(Concat(cleaned), "comment");
    ghost var base := text;
    for i := 0 to |commandsToDelete|
      invariant text == ApplyCommands(base, commandsToDelete[..i])
    {
      assert commandsToDelete[..i + 1][..i] == commandsToDelete[..i];
      text := RemoveCommand(text, commandsToDelete[i]);
    }
    assert commandsToDelete[..|commandsToDelete|] == commandsToDelete;
    lines := SplitLines(text);
    JoinSplitLines(text);
  }

  /** Content with no unescaped '%', no complete comment environment and no removable
      command comes out of the stages unchanged, so stripping it again is a no-op. */
  lemma {:induction false} StripUnchanged(content: seq<string>, commandsToDelete: seq<string>)
    requires forall k, i :: 0 <= k < |content| ==> !UnescapedPercentAt(content[k], i)
    requires !HasSpan(Concat(content), "comment")
    requires forall c :: c in commandsToDelete ==> !HasRemovable(Concat(content), c)
    ensures StrippedText(content, commandsToDelete) == Concat(content)
  {
    forall k | 0 <= k < |content|
      ensures CleanLines(content)[k] == content[k]
    {
      InlineCleanLineUnchanged(content[k]);
    }
    assert CleanLines(content) == content;
    RemoveEnvironmentUnchanged(Concat(content), "comment");
    CommandsUnchanged(Concat(content), commandsToDelete);
  }

  lemma {:induction false} CommandsUnchanged(text: string, commands: seq<string>)
    requires forall c :: c in commands ==> !HasRemovable(text, c)
    ensures ApplyCommands(text, commands) == text
    decreases |commands|
  {
    if commands != [] {
      var init := commands[..|commands| - 1];
      assert forall c :: c in init ==> c in commands;
      CommandsUnchanged(text, init);
      RemoveCommandUnchanged(text, commands[|commands| - 1]);
    }
  }
}
