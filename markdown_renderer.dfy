/** The text preparation of `src/components/markdown-renderer.tsx`: before the Markdown
    is rendered, nine global replacements run in a fixed order. Existing paragraph
    breaks are wrapped around a marker, single line breaks after sentence marks and
    list numbers are doubled, indentation before list numbers is removed, escaped
    `\n` pairs become real line breaks, and the marked breaks are put back. */
module MarkdownRenderer {
  import opened Wrappers
  import opened Strings
  import opened Rewrite

  const Marker := "__PRESERVE__"
  /** What the first pass writes for each double line break. */
  const Preserved := "\n\n__PRESERVE__\n\n"

  predicate IsChineseMark(c: char) {
    c == '\U{3002}' || c == '\U{FF01}' || c == '\U{FF1F}' || c == '\U{FF1B}'
  }

  predicate IsEnglishMark(c: char) {
    c == '.' || c == '!' || c == '?' || c == ';'
  }

  /** The circled numbers one to twenty, U+2460 to U+2473. */
  predicate IsCircled(c: char) {
    '\U{2460}' <= c <= '\U{2473}'
  }

  predicate IsDigit(c: char) {
    '0' <= c <= '9'
  }

  // ---------------------------------------------------------------------------
  // The rules of the nine passes, each judging the rest of the text at one position.
  // ---------------------------------------------------------------------------

  /** `\s*\n(?!\n)` at the start of `t`. The greedy `\s*` backs off to the last line
      break of the leading white space, and nothing else can follow there: the next
      character is white space that is not a line break, or lies past the run. */
  function BreakLength(t: string): (r: Option<nat>)
    ensures r.Some? ==> 0 < r.value <= |t| && t[r.value - 1] == '\n' && AllSpace(t[..r.value])
    ensures r.Some? ==> r.value == |t| || t[r.value] != '\n'
    ensures r.Some? ==> forall j :: r.value <= j < Span(t, IsSpace) ==> t[j] != '\n'
    ensures r.None? <==> '\n' !in t[..Span(t, IsSpace)]
  {
    var w := Span(t, IsSpace);
    match LastIndexOfChar(t[..w], '\n')
    case None => None
    case Some(i) =>
      assert forall j :: i + 1 <= j < w ==> t[j] == t[..w][i + 1..][j - i - 1];
      Some(i + 1)
  }

  /** Pass 2: `([。！？；])\n(?!\n)` becomes the mark and two line breaks. */
  function ChineseBreak(t: string): (step: Step)
    ensures Fires(step, t) ==> '\n' in t
  {
    if |t| >= 2 && IsChineseMark(t[0]) && t[1] == '\n' && (|t| == 2 || t[2] != '\n')
    then Match(2, [t[0], '\n', '\n'])
    else NoMatch
  }

  /** Pass 3: `([.!?;])\s*\n(?!\n)` becomes the mark and two line breaks. */
  function EnglishBreak(t: string): (step: Step)
    ensures Fires(step, t) ==> '\n' in t
  {
    if |t| >= 1 && IsEnglishMark(t[0]) then
      match BreakLength(t[1..])
      case Some(n) =>
        assert t[1..][n - 1] == t[n];
        Match(1 + n, [t[0], '\n', '\n'])
      case None => NoMatch
    else NoMatch
  }

  /** Pass 4: `(\d+\))\s*\n(?!\n)` becomes the number, its parenthesis and two line
      breaks. The digit run is maximal: a shorter one is followed by a digit, not `)`. */
  function NumberedBreak(t: string): (step: Step)
    ensures Fires(step, t) ==> '\n' in t
  {
    var d := Span(t, IsDigit);
    if d >= 1 && d < |t| && t[d] == ')' then
      match BreakLength(t[d + 1..])
      case Some(n) =>
        assert t[d + 1..][n - 1] == t[d + n];
        Match(d + 1 + n, t[..d + 1] + "\n\n")
      case None => NoMatch
    else NoMatch
  }

  /** Pass 5: `([①-⑳])\s*\n(?!\n)` becomes the circled number and two line
      breaks. */
  function CircledBreak(t: string): (step: Step)
    ensures Fires(step, t) ==> '\n' in t
  {
    if |t| >= 1 && IsCircled(t[0]) then
      match BreakLength(t[1..])
      case Some(n) =>
        assert t[1..][n - 1] == t[n];
        Match(1 + n, [t[0], '\n', '\n'])
      case None => NoMatch
    else NoMatch
  }

  /** Pass 6: `\n\s+([①-⑳])` becomes the line break and the circled number.
      A circled number is not white space, so `\s+` takes the whole run. */
  function CircledDedent(t: string): (step: Step)
    ensures Fires(step, t) ==> t != [] && t[0] == '\n'
  {
    if |t| >= 1 && t[0] == '\n' then
      var w := Span(t[1..], IsSpace);
      if w >= 1 && 1 + w < |t| && IsCircled(t[1 + w]) then Match(2 + w, ['\n', t[1 + w]])
      else NoMatch
    else NoMatch
  }

  /** Pass 7: `\n\s+(\d+\))` becomes the line break, the number and its parenthesis. */
  function NumberedDedent(t: string): (step: Step)
    ensures Fires(step, t) ==> t != [] && t[0] == '\n'
  {
    if |t| >= 1 && t[0] == '\n' then
      var w := Span(t[1..], IsSpace);
      var item := t[1 + w..];
      var d := Span(item, IsDigit);
      if w >= 1 && d >= 1 && d < |item| && item[d] == ')' then Match(2 + w + d, "\n" + item[..d + 1])
      else NoMatch
    else NoMatch
  }

  function Preserve(s: string): string { ReplaceAll(s, "\n\n", Preserved) }

  /** Pass 8: a backslash followed by the letter `n` becomes a line break. */
  function Unescape(s: string): string { ReplaceAll(s, "\\n", "\n") }

  function Restore(s: string): string { ReplaceAll(s, Preserved, "\n\n") }

  /** The first eight passes: the text just before the marked breaks are put back. */
  function Prepared(content: string): (r: string)
    ensures NoEscapedN(r)
  {
    var marked := Preserve(content);
    var broken := Scan(Scan(Scan(Scan(marked, ChineseBreak), EnglishBreak), NumberedBreak), CircledBreak);
    var dedented := Scan(Scan(broken, CircledDedent), NumberedDedent);
    UnescapeLeavesNone(dedented);
    Unescape(dedented)
  }

  /** `processedContent`. */
  function Render(content: string): (r: string)
    ensures NoEscapedN(r)
  {
    RestoreKeepsNone(Prepared(content));
    Restore(Prepared(content))
  }

  // ---------------------------------------------------------------------------
  // Text without line breaks.
  // ---------------------------------------------------------------------------

  /** A rule that fires only where a line break lies ahead leaves a text without line
      breaks alone. */
  lemma ScanWithoutNewline(s: string, rule: string -> Step)
    requires forall t :: Fires(rule(t), t) ==> '\n' in t
    requires '\n' !in s
    ensures Scan(s, rule) == s
  {
    forall k | 0 <= k < |s| ensures !Fires(rule(s[k..]), s[k..]) {
      assert forall i :: 0 <= i < |s[k..]| ==> s[k..][i] == s[k + i];
    }
    ScanNowhere(s, rule);
  }

  /** Content with no line break and no backslash-`n` pair comes out as it went in. */
  lemma RenderPlain(content: string)
    requires '\n' !in content && !Contains(content, "\\n")
    ensures Render(content) == content
  {
    MissingCharNotContained(content, "\n\n", '\n');
    ReplaceAbsent(content, "\n\n", Preserved);
    ScanWithoutNewline(content, ChineseBreak);
    ScanWithoutNewline(content, EnglishBreak);
    ScanWithoutNewline(content, NumberedBreak);
    ScanWithoutNewline(content, CircledBreak);
    ScanWithoutNewline(content, CircledDedent);
    ScanWithoutNewline(content, NumberedDedent);
    ReplaceAbsent(content, "\\n", "\n");
    MissingCharNotContained(content, Preserved, '\n');
    ReplaceAbsent(content, Preserved, "\n\n");
  }

  // ---------------------------------------------------------------------------
  // No escaped `n` survives.
  // ---------------------------------------------------------------------------

  /** No backslash is immediately followed by the letter `n`. */
  predicate NoEscapedN(s: string) {
    forall i :: 0 <= i < |s| - 1 ==> !(s[i] == '\\' && s[i + 1] == 'n')
  }

  /** A replacement that cannot start an `n`, end a backslash, or hold the pair. */
  predicate SafeReplacement(r: string) {
    r != [] && r[0] != 'n' && r[|r| - 1] != '\\' && NoEscapedN(r)
  }

  lemma JoinNoEscapedN(a: string, b: string)
    requires NoEscapedN(a) && NoEscapedN(b)
    requires a == [] || b == [] || a[|a| - 1] != '\\' || b[0] != 'n'
    ensures NoEscapedN(a + b)
  {
    forall i | 0 <= i < |a + b| - 1 ensures !((a + b)[i] == '\\' && (a + b)[i + 1] == 'n') {
      if i + 1 < |a| {
        assert (a + b)[i] == a[i] && (a + b)[i + 1] == a[i + 1];
      } else if i >= |a| {
        assert (a + b)[i] == b[i - |a|] && (a + b)[i + 1] == b[i - |a| + 1];
      }
    }
  }

  /** A scan keeps the pair out when every backslash it copies is not followed by an
      `n` and every replacement it writes is safe. */
  lemma {:induction false} ScanNoEscapedN(s: string, rule: string -> Step)
    requires forall k :: 0 <= k < |s| && Fires(rule(s[k..]), s[k..]) ==> SafeReplacement(rule(s[k..]).replacement)
    requires forall k :: 0 <= k < |s| - 1 && s[k] == '\\' && s[k + 1] == 'n' ==> Fires(rule(s[k..]), s[k..])
    ensures NoEscapedN(Scan(s, rule))
    ensures Scan(s, rule) != [] ==> Scan(s, rule)[0] != 'n' || (s[0] == 'n' && !Fires(rule(s), s))
    decreases |s|
  {
    if s != [] {
      assert s[0..] == s;
      if Fires(rule(s), s) {
        var n := rule(s).len;
        var tail := s[n..];
        forall k | 0 <= k < |tail| && Fires(rule(tail[k..]), tail[k..])
          ensures SafeReplacement(rule(tail[k..]).replacement)
        {
          assert tail[k..] == s[n + k..];
        }
        forall k | 0 <= k < |tail| - 1 && tail[k] == '\\' && tail[k + 1] == 'n'
          ensures Fires(rule(tail[k..]), tail[k..])
        {
          assert tail[k..] == s[n + k..];
        }
        ScanNoEscapedN(tail, rule);
        JoinNoEscapedN(rule(s).replacement, Scan(tail, rule));
      } else {
        var tail := s[1..];
        forall k | 0 <= k < |tail| && Fires(rule(tail[k..]), tail[k..])
          ensures SafeReplacement(rule(tail[k..]).replacement)
        {
          assert tail[k..] == s[1 + k..];
        }
        forall k | 0 <= k < |tail| - 1 && tail[k] == '\\' && tail[k + 1] == 'n'
          ensures Fires(rule(tail[k..]), tail[k..])
        {
          assert tail[k..] == s[1 + k..];
        }
        ScanNoEscapedN(tail, rule);
        if tail != [] {
          assert tail[0..] == tail;
        }
        JoinNoEscapedN([s[0]], Scan(tail, rule));
      }
    }
  }

  /** After the eighth pass no backslash-`n` pair is left. */
  lemma UnescapeLeavesNone(s: string)
    ensures NoEscapedN(Unescape(s))
  {
    var rule := Literal("\\n", "\n");
    forall k | 0 <= k < |s| && Fires(rule(s[k..]), s[k..]) ensures SafeReplacement(rule(s[k..]).replacement) {
    }
    forall k | 0 <= k < |s| - 1 && s[k] == '\\' && s[k + 1] == 'n' ensures Fires(rule(s[k..]), s[k..]) {
      assert s[k..][..2] == [s[k], s[k + 1]];
    }
    ScanNoEscapedN(s, rule);
  }

  /** The last pass writes only line breaks, so it cannot bring the pair back. */
  lemma RestoreKeepsNone(s: string)
    requires NoEscapedN(s)
    ensures NoEscapedN(Restore(s))
  {
    var rule := Literal(Preserved, "\n\n");
    forall k | 0 <= k < |s| && Fires(rule(s[k..]), s[k..]) ensures SafeReplacement(rule(s[k..]).replacement) {
    }
    ScanNoEscapedN(s, rule);
  }

  // ---------------------------------------------------------------------------
  // The marker round trip.
  // ---------------------------------------------------------------------------

  /** Putting the breaks back undoes marking them, whatever the text holds (even the
      marker itself): a marked block can only start where the first pass wrote one. */
  lemma {:induction false} RestoreUndoesPreserve(s: string)
    ensures Restore(Preserve(s)) == s
    decreases |s|
  {
    if s != [] {
      if StartsWith(s, "\n\n") {
        RestoreUndoesPreserve(s[2..]);
        RestoreBlock(Preserve(s[2..]));
        assert s == "\n\n" + s[2..];
      } else {
        RestoreUndoesPreserve(s[1..]);
        var x := Preserve(s[1..]);
        assert Preserve(s) == [s[0]] + x;
        assert x != [] ==> x[0] == s[1] by {
          if x != [] {
            assert s[1..] != [];
            assert s[1..][0] == s[1];
            if StartsWith(s[1..], "\n\n") {
              assert s[1] == '\n' && s[2] == '\n';
              assert s[1..][..2] == [s[1], s[2]];
            }
          }
        }
        if s[0] == '\n' {
          assert s[1..] == [] || s[1] != '\n' by {
            if |s| >= 2 { assert s[..2] == [s[0], s[1]]; }
          }
        }
        var y := [s[0]] + x;
        if |y| >= 16 {
          assert y[..16][0] == s[0] && y[..16][1] == x[0];
        }
        assert !StartsWith(y, Preserved);
        assert s == [s[0]] + s[1..];
      }
    }
  }

  lemma RestoreBlock(x: string)
    ensures Restore(Preserved + x) == "\n\n" + Restore(x)
  {
    assert StartsWith(Preserved + x, Preserved) by {
      assert (Preserved + x)[..16] == Preserved;
    }
    assert (Preserved + x)[16..] == x;
  }

  // ---------------------------------------------------------------------------
  // The passes at one line break.
  // ---------------------------------------------------------------------------

  /** A Chinese sentence mark before a single line break gets a second one. */
  lemma ChineseBreakAt(a: string, mark: char, b: string)
    requires '\n' !in a && '\n' !in b && IsChineseMark(mark)
    ensures Scan(a + ([mark, '\n'] + b), ChineseBreak) == a + ([mark, '\n', '\n'] + b)
  {
    var rest := [mark, '\n'] + b;
    var s := a + rest;
    forall k | 0 <= k < |a| ensures !Fires(ChineseBreak(s[k..]), s[k..]) {
      assert s[k..][1] == s[k + 1];
      if k + 1 < |a| { assert s[k + 1] == a[k + 1]; } else { assert s[k + 1] == mark; }
    }
    ScanPrefixCopied(a, rest, ChineseBreak);
    assert b == [] || b[0] != '\n';
    ScanFires(rest, ChineseBreak, b);
    ScanWithoutNewline(b, ChineseBreak);
  }

  /** An English sentence mark, optional white space and a single line break become the
      mark and two line breaks; the white space is dropped. */
  lemma EnglishBreakAt(a: string, mark: char, space: string, b: string)
    requires '\n' !in a && '\n' !in b && IsEnglishMark(mark) && AllSpace(space)
    ensures Scan(a + ([mark] + space + ['\n'] + b), EnglishBreak) == a + ([mark, '\n', '\n'] + b)
  {
    var rest := [mark] + space + ['\n'] + b;
    forall k | 0 <= k < |a| ensures !Fires(EnglishBreak((a + rest)[k..]), (a + rest)[k..]) {
      EnglishQuietInPrefix(a, rest, k);
    }
    ScanPrefixCopied(a, rest, EnglishBreak);
    EnglishFiresAt(mark, space, b);
    ScanFires(rest, EnglishBreak, b);
    ScanWithoutNewline(b, EnglishBreak);
  }

  /** Inside a prefix without line breaks that is followed by a mark, no white-space run
      reaches a line break. */
  lemma EnglishQuietInPrefix(a: string, rest: string, k: nat)
    requires '\n' !in a && k < |a| && rest != [] && !IsSpace(rest[0])
    ensures !Fires(EnglishBreak((a + rest)[k..]), (a + rest)[k..])
  {
    var t := (a + rest)[k..];
    var u := t[1..];
    var w := Span(u, IsSpace);
    assert u[|a| - k - 1] == rest[0];
    assert forall i :: 0 <= i < w ==> u[..w][i] == a[k + 1 + i];
    assert '\n' !in u[..w];
  }

  lemma EnglishFiresAt(mark: char, space: string, b: string)
    requires '\n' !in b && IsEnglishMark(mark) && AllSpace(space)
    ensures var t := [mark] + space + ['\n'] + b;
      EnglishBreak(t) == Match(|space| + 2, [mark, '\n', '\n']) && t[|space| + 2..] == b
  {
    var t := [mark] + space + ['\n'] + b;
    var u := space + ['\n'] + b;
    assert t[1..] == u;
    assert forall i :: 0 <= i < |space| ==> u[i] == space[i];
    assert u[|space|] == '\n';
    assert forall i :: |space| < i < |u| ==> u[i] == b[i - |space| - 1];
    var w := Span(u, IsSpace);
    assert u[..w][|space|] == '\n';
    var n := BreakLength(u);
    assert n.value == |space| + 1;
  }

  /** Indentation between a line break and a circled number is removed. */
  lemma CircledDedentAt(a: string, space: string, item: char, b: string)
    requires '\n' !in a && '\n' !in b && space != [] && AllSpace(space) && IsCircled(item)
    ensures Scan(a + (['\n'] + space + [item] + b), CircledDedent) == a + (['\n', item] + b)
  {
    var rest := ['\n'] + space + [item] + b;
    NewlineFreePrefixCopied(a, rest, CircledDedent);
    CircledFiresAt(space, item, b);
    ScanFires(rest, CircledDedent, b);
    ScanWithoutNewline(b, CircledDedent);
  }

  lemma CircledFiresAt(space: string, item: char, b: string)
    requires space != [] && AllSpace(space) && IsCircled(item)
    ensures var t := ['\n'] + space + [item] + b;
      CircledDedent(t) == Match(|space| + 2, ['\n', item]) && t[|space| + 2..] == b
  {
    var t := ['\n'] + space + [item] + b;
    assert t[1..] == space + ([item] + b);
    SpanOfRun(space, [item] + b, IsSpace);
    assert t[1 + |space|] == item;
  }

  /** The dedent rules both start at a line break, so a prefix without one is copied. */
  lemma NewlineFreePrefixCopied(a: string, rest: string, rule: string -> Step)
    requires '\n' !in a
    requires forall t :: Fires(rule(t), t) ==> t[0] == '\n'
    ensures Scan(a + rest, rule) == a + Scan(rest, rule)
  {
    forall k | 0 <= k < |a| ensures !Fires(rule((a + rest)[k..]), (a + rest)[k..]) {
      assert (a + rest)[k..][0] == a[k];
    }
    ScanPrefixCopied(a, rest, rule);
  }

  /** Indentation between a line break and a number with its parenthesis is removed. */
  lemma NumberedDedentAt(a: string, space: string, digits: string, b: string)
    requires '\n' !in a && '\n' !in b && space != [] && AllSpace(space)
    requires digits != [] && forall i :: 0 <= i < |digits| ==> IsDigit(digits[i])
    ensures Scan(a + (['\n'] + space + digits + [')'] + b), NumberedDedent) == a + (['\n'] + digits + [')'] + b)
  {
    var rest := ['\n'] + space + digits + [')'] + b;
    var line := ['\n'] + digits + [')'];
    NewlineFreePrefixCopied(a, rest, NumberedDedent);
    NumberedFiresAt(space, digits, b);
    ScanFires(rest, NumberedDedent, b);
    ScanWithoutNewline(b, NumberedDedent);
  }

  lemma NumberedFiresAt(space: string, digits: string, b: string)
    requires space != [] && AllSpace(space)
    requires digits != [] && forall i :: 0 <= i < |digits| ==> IsDigit(digits[i])
    ensures var t := ['\n'] + space + digits + [')'] + b;
      NumberedDedent(t) == Match(|space| + |digits| + 2, ['\n'] + digits + [')']) &&
      t[|space| + |digits| + 2..] == b
  {
    var t := ['\n'] + space + digits + [')'] + b;
    var item := digits + [')'] + b;
    assert t[1..] == space + item;
    assert !IsSpace(item[0]);
    SpanOfRun(space, item, IsSpace);
    assert t[1 + |space|..] == item;
    assert item == digits + ([')'] + b);
    SpanOfRun(digits, [')'] + b, IsDigit);
    assert item[..|digits| + 1] == digits + [')'];
    assert "\n" + (digits + [')']) == ['\n'] + digits + [')'];
  }

  // ---------------------------------------------------------------------------
  // The marker can leak.
  // ---------------------------------------------------------------------------

  /** Every character of the marker is an underscore or a capital letter. */
  lemma MarkerChars()
    ensures forall i :: 0 <= i < |Marker| ==> Marker[i] == '_' || 'A' <= Marker[i] <= 'Z'
  {
  }

  /** A blank line before a circled number: the sixth pass takes the marked block's
      closing line break as the number's indentation, the last pass no longer finds the
      whole block, and the marker itself reaches the Markdown (where it reads as a bold
      "PRESERVE"). `MarkerLeaks('\U{2460}')` is the text "\n\n①". */
  lemma MarkerLeaks(c: char)
    requires IsCircled(c)
    ensures Render("\n\n" + [c]) == "\n\n" + Marker + "\n" + [c]
    ensures Contains(Render("\n\n" + [c]), Marker)
  {
    LeakPrepared(c);
    LeakTail(c);
  }

  /** The first eight passes leave the marker with only one line break after it. */
  lemma LeakPrepared(c: char)
    requires IsCircled(c)
    ensures Prepared("\n\n" + [c]) == "\n\n" + Marker + "\n" + [c]
  {
    LeakMarked(c);
    LeakBreaksQuiet(c);
    LeakDedent(c);
    LeakNumberedQuiet(c);
    LeakTail(c);
  }

  /** The first pass marks the one double line break. */
  lemma LeakMarked(c: char)
    requires c != '\n'
    ensures Preserve("\n\n" + [c]) == Preserved + [c]
  {
    ReplaceOnce([], "\n\n", Preserved, [c]);
    assert [] + "\n\n" + [c] == "\n\n" + [c];
    assert [] + Preserved + [c] == Preserved + [c];
  }

  /** The marked block followed by one circled number: where its line breaks and its
      marker letters lie. */
  lemma BlockThenItem(c: char)
    requires IsCircled(c)
    ensures var s1 := Preserved + [c];
      |s1| == 17 && s1[0] == '\n' && s1[1] == '\n' && s1[14] == '\n' && s1[15] == '\n' && s1[16] == c &&
      forall i :: 2 <= i < 14 ==> s1[i] == '_' || 'A' <= s1[i] <= 'Z'
  {
    var s1 := Preserved + [c];
    MarkerChars();
    assert Preserved == "\n\n" + Marker + "\n\n";
    assert forall i :: 2 <= i < 14 ==> s1[i] == Marker[i - 2];
  }

  /** A rule that fires only on a character no character of `s` is leaves `s` alone. */
  lemma HeadQuiet(s: string, rule: string -> Step, start: char -> bool)
    requires forall t :: Fires(rule(t), t) ==> start(t[0])
    requires forall i :: 0 <= i < |s| ==> !start(s[i])
    ensures Scan(s, rule) == s
  {
    forall k | 0 <= k < |s| ensures !Fires(rule(s[k..]), s[k..]) {
      assert s[k..][0] == s[k];
    }
    ScanNowhere(s, rule);
  }

  /** Passes 2 to 5 find no mark, digit or circled number before a line break. */
  lemma LeakBreaksQuiet(c: char)
    requires IsCircled(c)
    ensures var s1 := Preserved + [c];
      Scan(Scan(Scan(Scan(s1, ChineseBreak), EnglishBreak), NumberedBreak), CircledBreak) == s1
  {
    var s1 := Preserved + [c];
    BlockThenItem(c);
    assert forall i :: 0 <= i < |s1| ==> !IsChineseMark(s1[i]) && !IsEnglishMark(s1[i]) && !IsDigit(s1[i]);
    MarkFirst();
    HeadQuiet(s1, ChineseBreak, IsChineseMark);
    HeadQuiet(s1, EnglishBreak, IsEnglishMark);
    HeadQuiet(s1, NumberedBreak, IsDigit);
    LeakCircledQuiet(c);
  }

  /** Passes 2 to 4 fire only at a mark or a digit. */
  lemma MarkFirst()
    ensures forall t :: Fires(ChineseBreak(t), t) ==> IsChineseMark(t[0])
    ensures forall t :: Fires(EnglishBreak(t), t) ==> IsEnglishMark(t[0])
    ensures forall t :: Fires(NumberedBreak(t), t) ==> IsDigit(t[0])
  {
  }

  /** Pass 5 finds the circled number at the very end, with no line break after it. */
  lemma LeakCircledQuiet(c: char)
    requires IsCircled(c)
    ensures Scan(Preserved + [c], CircledBreak) == Preserved + [c]
  {
    var s1 := Preserved + [c];
    BlockThenItem(c);
    forall k | 0 <= k < |s1| ensures !Fires(CircledBreak(s1[k..]), s1[k..]) {
      assert s1[k..][0] == s1[k];
      if k == 16 {
        assert s1[k..][1..] == [];
      }
    }
    ScanNowhere(s1, CircledBreak);
  }

  /** The sixth pass fires at the block's closing line breaks and takes the second one. */
  lemma LeakDedent(c: char)
    requires IsCircled(c)
    ensures Scan(Preserved + [c], CircledDedent) == "\n\n" + Marker + "\n" + [c]
  {
    var head := "\n\n" + Marker;
    var rest := "\n\n" + [c];
    assert Preserved + [c] == head + rest;
    forall k | 0 <= k < |head| ensures !Fires(CircledDedent((head + rest)[k..]), (head + rest)[k..]) {
      DedentQuietInBlock(c, k);
    }
    ScanPrefixCopied(head, rest, CircledDedent);
    DedentFiresAtClose(c);
    ScanFires(rest, CircledDedent, []);
    assert head + ['\n', c] == "\n\n" + Marker + "\n" + [c];
  }

  /** Inside the block's opening line breaks and its marker the sixth pass does not fire:
      the opening breaks are followed by the marker, not by a circled number. */
  lemma DedentQuietInBlock(c: char, k: nat)
    requires IsCircled(c) && k < 2 + |Marker|
    ensures var t := ("\n\n" + Marker + ("\n\n" + [c]))[k..]; !Fires(CircledDedent(t), t)
  {
    MarkerChars();
    var t := ("\n\n" + Marker + ("\n\n" + [c]))[k..];
    if k == 0 {
      assert t[1..][0] == '\n' && t[1..][1] == '_';
      assert Span(t[1..], IsSpace) == 1;
      assert t[2] == '_';
    } else if k == 1 {
      assert t[1..][0] == '_';
    } else {
      assert t[0] == Marker[k - 2];
    }
  }

  /** At the block's closing line breaks the sixth pass takes both and keeps one. */
  lemma DedentFiresAtClose(c: char)
    requires IsCircled(c)
    ensures CircledDedent("\n\n" + [c]) == Match(3, ['\n', c])
  {
    var rest := "\n\n" + [c];
    assert rest[1..] == "\n" + [c] && rest[2] == c;
    assert Span(rest[1..], IsSpace) == 1;
  }

  /** The seventh pass finds no indented `digits)`. */
  lemma LeakNumberedQuiet(c: char)
    requires IsCircled(c)
    ensures var s2 := "\n\n" + Marker + "\n" + [c];
      Scan(s2, NumberedDedent) == s2
  {
    var s2 := "\n\n" + Marker + "\n" + [c];
    MarkerChars();
    assert forall i :: 2 <= i < 14 ==> s2[i] == Marker[i - 2];
    assert s2[0] == '\n' && s2[1] == '\n' && s2[14] == '\n' && s2[15] == c && |s2| == 16;
    forall k | 0 <= k < |s2| ensures !Fires(NumberedDedent(s2[k..]), s2[k..]) {
      var t := s2[k..];
      assert t[0] == s2[k];
      if k == 0 {
        assert t[1..][0] == '\n' && t[1..][1] == '_';
        assert Span(t[1..], IsSpace) == 1;
        assert t[2..][0] == '_';
      } else if k == 1 {
        assert t[1..][0] == '_';
      } else if k == 14 {
        assert t[1..][0] == c;
      }
    }
    ScanNowhere(s2, NumberedDedent);
  }

  /** Pass 8 finds no backslash and pass 9 no whole marked block. */
  lemma LeakTail(c: char)
    requires IsCircled(c)
    ensures var s2 := "\n\n" + Marker + "\n" + [c];
      Unescape(s2) == s2 && Restore(s2) == s2 && Contains(s2, Marker)
  {
    var s2 := "\n\n" + Marker + "\n" + [c];
    MarkerChars();
    assert forall i :: 2 <= i < 14 ==> s2[i] == Marker[i - 2];
    assert s2[0] == '\n' && s2[1] == '\n' && s2[14] == '\n' && s2[15] == c && |s2| == 16;
    MissingCharNotContained(s2, "\\n", '\\');
    ReplaceAbsent(s2, "\\n", "\n");
    assert !OccursAt(s2, Preserved, 0) by {
      assert s2[..16][15] == c;
    }
    ReplaceAbsent(s2, Preserved, "\n\n");
    assert OccursAt(s2, Marker, 2) by {
      assert s2[2..14] == Marker;
    }
  }

  // ---------------------------------------------------------------------------
  // Putting back every marked block.
  // ---------------------------------------------------------------------------

  /** The number of line breaks at the start of `t`, up to `most`. */
  function Lead(t: string, most: nat): (n: nat)
    ensures n <= most && n <= |t|
    ensures forall i :: 0 <= i < n ==> t[i] == '\n'
    ensures n < most && n < |t| ==> t[n] != '\n'
  {
    if most == 0 || t == [] || t[0] != '\n' then 0 else 1 + Lead(t[1..], most - 1)
  }

  /** `\n{0,2}__PRESERVE__\n{0,2}` at the start of `t` becomes two line breaks. The
      greedy leading run can only back off onto line breaks, where the marker cannot
      start, so the marker must follow the whole run. */
  function MarkedBlock(t: string): (step: Step)
    ensures Fires(step, t) <==> OccursAt(t, Marker, Lead(t, 2))
    ensures Fires(step, t) ==> step.replacement == "\n\n"
  {
    var a := Lead(t, 2);
    if OccursAt(t, Marker, a) then Match(a + |Marker| + Lead(t[a + |Marker|..], 2), "\n\n")
    else NoMatch
  }

  /** A last pass that also finds a block whose line breaks an earlier pass took. */
  function RestoreEvery(s: string): string { Scan(s, MarkedBlock) }

  /** The pipeline with the corrected last pass: no backslash-`n` pair and no marker in
      the output, whatever the content. */
  function RenderCorrected(content: string): (r: string)
    ensures NoEscapedN(r)
    ensures !Contains(r, Marker)
  {
    var prepared := Prepared(content);
    RestoreEveryKeepsNone(prepared);
    RestoreEveryRemoves(prepared);
    RestoreEvery(prepared)
  }

  lemma RestoreEveryKeepsNone(s: string)
    requires NoEscapedN(s)
    ensures NoEscapedN(RestoreEvery(s))
  {
    forall k | 0 <= k < |s| && Fires(MarkedBlock(s[k..]), s[k..]) ensures SafeReplacement(MarkedBlock(s[k..]).replacement) {
      assert NoEscapedN("\n\n");
    }
    ScanNoEscapedN(s, MarkedBlock);
  }

  /** No marker survives the corrected last pass. */
  lemma RestoreEveryRemoves(s: string)
    ensures !Contains(RestoreEvery(s), Marker)
  {
    MarkerChars();
    forall t | Fires(MarkedBlock(t), t)
      ensures MarkedBlock(t).replacement != [] &&
        forall j :: 0 <= j < |MarkedBlock(t).replacement| ==> MarkedBlock(t).replacement[j] !in Marker
    {
      assert MarkedBlock(t).replacement == "\n\n";
    }
    forall k | 0 <= k < |s| && StartsWith(s[k..], Marker) ensures Fires(MarkedBlock(s[k..]), s[k..]) {
      assert s[k..][0] == '_';
      assert Lead(s[k..], 2) == 0;
    }
    ScanRemoves(s, MarkedBlock, Marker);
  }

  /** On the text that leaks the marker, the corrected pipeline gives back the blank
      line and the circled number. */
  lemma NoLeakCorrected(c: char)
    requires IsCircled(c)
    ensures RenderCorrected("\n\n" + [c]) == "\n\n" + [c]
  {
    LeakPrepared(c);
    RestoreEveryShortBlock(c);
  }

  lemma RestoreEveryShortBlock(c: char)
    requires IsCircled(c)
    ensures RestoreEvery("\n\n" + Marker + "\n" + [c]) == "\n\n" + [c]
  {
    var s2 := "\n\n" + Marker + "\n" + [c];
    assert Lead(s2, 2) == 2;
    assert s2[2..14] == Marker;
    assert s2[14..] == "\n" + [c];
    assert Lead(s2[14..], 2) == 1;
    assert MarkedBlock(s2) == Match(15, "\n\n");
    ScanFires(s2, MarkedBlock, [c]);
    assert RestoreEvery([c]) == [c] by {
      assert !Fires(MarkedBlock([c]), [c]);
    }
  }

  /** The corrected last pass still undoes the first for every text that does not hold
      the marker itself. */
  lemma {:induction false} RestoreEveryUndoesPreserve(s: string)
    requires !Contains(s, Marker)
    ensures RestoreEvery(Preserve(s)) == s
    decreases |s|
  {
    if s != [] {
      var x := if StartsWith(s, "\n\n") then s[2..] else s[1..];
      assert !Contains(x, Marker) by {
        forall i: nat | OccursAt(x, Marker, i) ensures OccursAt(s, Marker, |s| - |x| + i) {
          assert x[i..i + |Marker|] == s[|s| - |x| + i..|s| - |x| + i + |Marker|];
        }
      }
      RestoreEveryUndoesPreserve(x);
      if StartsWith(s, "\n\n") {
        RestoreEveryBlock(Preserve(x));
        assert s == "\n\n" + x;
      } else {
        PreserveCopies(s);
        RestoreEveryCopies(s);
        assert s == [s[0]] + x;
      }
    }
  }

  /** A whole marked block goes back to two line breaks. */
  lemma RestoreEveryBlock(x: string)
    ensures RestoreEvery(Preserved + x) == "\n\n" + RestoreEvery(x)
  {
    var t := Preserved + x;
    assert t[..16] == Preserved;
    assert Preserved == "\n\n" + Marker + "\n\n";
    assert t[0] == '\n' && t[1] == '\n';
    assert Lead(t, 2) == 2;
    assert t[2..14] == Marker;
    assert t[14] == '\n' && t[15] == '\n';
    assert Lead(t[14..], 2) == 2;
    ScanFires(t, MarkedBlock, x);
  }

  /** Where no double line break starts, the first pass copies one character. */
  lemma PreserveCopies(s: string)
    requires s != [] && !StartsWith(s, "\n\n")
    ensures Preserve(s) == [s[0]] + Preserve(s[1..])
  {
    assert s[0..] == s;
  }

  /** Where no double line break starts and the marker does not follow, the corrected
      last pass copies the character the first pass copied. */
  lemma RestoreEveryCopies(s: string)
    requires s != [] && !StartsWith(s, "\n\n") && !Contains(s, Marker)
    requires Preserve(s) == [s[0]] + Preserve(s[1..])
    ensures RestoreEvery(Preserve(s)) == [s[0]] + RestoreEvery(Preserve(s[1..]))
  {
    var y := Preserve(s);
    var x := Preserve(s[1..]);
    MarkerChars();
    forall t | Fires(Literal("\n\n", Preserved)(t), t)
      ensures Literal("\n\n", Preserved)(t).replacement != [] && Literal("\n\n", Preserved)(t).replacement[0] !in Marker
    {
      assert Preserved[0] == '\n';
    }
    ScanHead(s, Literal("\n\n", Preserved), Marker);
    ScanHead(s[1..], Literal("\n\n", Preserved), Marker);
    assert !OccursAt(s, Marker, 0) && !OccursAt(s, Marker, 1);
    if |Marker| <= |s[1..]| {
      assert s[1..][..|Marker|] == s[1..1 + |Marker|];
    }
    if s[0] == '\n' {
      assert |s| == 1 || s[1] != '\n' by {
        if |s| >= 2 { assert s[..2] == [s[0], s[1]]; }
      }
      if |s| >= 2 {
        PreserveHead(s[1..]);
      }
      assert y[1..] == x;
      assert Lead(y, 2) == 1 by {
        assert Lead(y[1..], 1) == 0;
      }
    } else {
      assert Lead(y, 2) == 0;
    }
    assert !Fires(MarkedBlock(y), y);
  }

  /** The first pass keeps the first character of a text that does not start with a
      line break. */
  lemma PreserveHead(s: string)
    requires s != [] && s[0] != '\n'
    ensures Preserve(s) != [] && Preserve(s)[0] == s[0]
  {
    assert s[0..] == s;
  }
}
