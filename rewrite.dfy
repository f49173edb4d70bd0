/** Global regular-expression replacement (`s.replace(/…/g, …)`) as a left-to-right scan.

    JavaScript looks for the leftmost match at or after the current position, splices in
    the replacement and resumes right after the match. For a pattern whose matches are
    never empty this is the same as: at each position, either the pattern matches the
    rest of the text there (emit the replacement, skip the match) or it does not (copy
    one character, move on). A rule tells, for the rest of the text at one position,
    which of the two happens; the rule sees the whole rest, so look-ahead is free. */
module Rewrite {
  import opened Strings

  datatype Step = NoMatch | Match(len: nat, replacement: string)

  /** A rule's answer counts as a match only if it consumes at least one character and
      no more than are left. */
  predicate Fires(step: Step, s: string) {
    step.Match? && 0 < step.len <= |s|
  }

  function Scan(s: string, rule: string -> Step): string
    decreases |s|
  {
    if s == [] then []
    else if Fires(rule(s), s) then rule(s).replacement + Scan(s[rule(s).len..], rule)
    else [s[0]] + Scan(s[1..], rule)
  }

  /** The rule for a literal pattern: `s.replace(/pat/g, rep)`. */
  function Literal(pat: string, rep: string): string -> Step {
    (t: string) => if |pat| > 0 && StartsWith(t, pat) then Match(|pat|, rep) else NoMatch
  }

  function ReplaceAll(s: string, pat: string, rep: string): string {
    Scan(s, Literal(pat, rep))
  }

  /** A scan changes nothing when every match it could make would put back the very
      text it matched. */
  lemma {:induction false} ScanIdentity(s: string, rule: string -> Step)
    requires forall k :: 0 <= k < |s| && Fires(rule(s[k..]), s[k..]) ==>
      rule(s[k..]).replacement == s[k..k + rule(s[k..]).len]
    ensures Scan(s, rule) == s
    decreases |s|
  {
    if s != [] {
      assert s[0..] == s;
      if Fires(rule(s), s) {
        var n := rule(s).len;
        forall k | 0 <= k < |s[n..]| && Fires(rule(s[n..][k..]), s[n..][k..])
          ensures rule(s[n..][k..]).replacement == s[n..][k..k + rule(s[n..][k..]).len]
        {
          assert s[n..][k..] == s[n + k..];
        }
        ScanIdentity(s[n..], rule);
        assert s == s[..n] + s[n..];
      } else {
        forall k | 0 <= k < |s[1..]| && Fires(rule(s[1..][k..]), s[1..][k..])
          ensures rule(s[1..][k..]).replacement == s[1..][k..k + rule(s[1..][k..]).len]
        {
          assert s[1..][k..] == s[1 + k..];
        }
        ScanIdentity(s[1..], rule);
        assert s == [s[0]] + s[1..];
      }
    }
  }

  /** A scan whose rule matches nowhere is the identity. */
  lemma ScanNowhere(s: string, rule: string -> Step)
    requires forall k :: 0 <= k < |s| ==> !Fires(rule(s[k..]), s[k..])
    ensures Scan(s, rule) == s
  {
    ScanIdentity(s, rule);
  }

  /** Replacing a pattern that does not occur changes nothing. */
  lemma ReplaceAbsent(s: string, pat: string, rep: string)
    requires !Contains(s, pat)
    ensures ReplaceAll(s, pat, rep) == s
  {
    forall k | 0 <= k < |s| ensures !Fires(Literal(pat, rep)(s[k..]), s[k..]) {
      if |pat| > 0 && StartsWith(s[k..], pat) {
        assert s[k..][..|pat|] == s[k..k + |pat|];
        assert OccursAt(s, pat, k);
      }
    }
    ScanNowhere(s, Literal(pat, rep));
  }

  /** A prefix on which the rule never fires is copied as it is. */
  lemma {:induction false} ScanPrefixCopied(a: string, rest: string, rule: string -> Step)
    requires forall k :: 0 <= k < |a| ==> !Fires(rule((a + rest)[k..]), (a + rest)[k..])
    ensures Scan(a + rest, rule) == a + Scan(rest, rule)
  {
    if a == [] {
      assert a + rest == rest;
    } else {
      assert (a + rest)[0..] == a + rest;
      assert (a + rest)[1..] == a[1..] + rest;
      forall k | 0 <= k < |a[1..]| ensures !Fires(rule((a[1..] + rest)[k..]), (a[1..] + rest)[k..]) {
        assert (a[1..] + rest)[k..] == (a + rest)[k + 1..];
      }
      ScanPrefixCopied(a[1..], rest, rule);
      assert a == [a[0]] + a[1..];
    }
  }

  /** A single occurrence, with no match starting before it and none after it, is
      the only one replaced. */
  lemma ReplaceOnce(a: string, pat: string, rep: string, b: string)
    requires |pat| > 0
    requires forall k :: 0 <= k < |a| ==> !StartsWith((a + pat + b)[k..], pat)
    requires !Contains(b, pat)
    ensures ReplaceAll(a + pat + b, pat, rep) == a + rep + b
  {
    assert a + pat + b == a + (pat + b);
    ScanPrefixCopied(a, pat + b, Literal(pat, rep));
    assert (pat + b)[..|pat|] == pat;
    assert (pat + b)[|pat|..] == b;
    ReplaceAbsent(b, pat, rep);
  }

  /** Where the rule fires, the scan writes its replacement and resumes after the match. */
  lemma ScanFires(s: string, rule: string -> Step, rest: string)
    requires Fires(rule(s), s) && rest == s[rule(s).len..]
    ensures Scan(s, rule) == rule(s).replacement + Scan(rest, rule)
  {
  }

  /** A scan whose replacements never start with a character of `w` can only begin
      its output with `w` by copying `w` from the front of its input. */
  lemma {:induction false} ScanHead(s: string, rule: string -> Step, w: string)
    requires forall t :: Fires(rule(t), t) ==> rule(t).replacement != [] && rule(t).replacement[0] !in w
    ensures StartsWith(Scan(s, rule), w) ==> StartsWith(s, w)
    decreases |s|
  {
    if w != [] && s != [] {
      if Fires(rule(s), s) {
        assert Scan(s, rule)[0] == rule(s).replacement[0];
        assert w[0] in w;
      } else {
        var out := Scan(s[1..], rule);
        var whole := Scan(s, rule);
        assert whole == [s[0]] + out;
        forall x | x in w[1..] ensures x in w {
          var j :| 0 <= j < |w[1..]| && w[1..][j] == x;
          assert w[j + 1] == x;
        }
        ScanHead(s[1..], rule, w[1..]);
        if StartsWith(whole, w) {
          assert whole[0] == s[0] && whole[..|w|][0] == w[0];
          assert out[..|w| - 1] == whole[1..|w|] == whole[..|w|][1..] == w[1..];
          assert s[1..][..|w| - 1] == w[1..];
          assert s[..|w|] == [s[0]] + s[1..][..|w| - 1] == [w[0]] + w[1..] == w;
        }
      }
    }
  }

  /** Text none of whose characters is in `pat`, put before text free of `pat`, adds
      no occurrence of `pat`. */
  lemma AvoidingPrefix(head: string, tail: string, pat: string)
    requires pat != []
    requires forall j :: 0 <= j < |head| ==> head[j] !in pat
    requires !Contains(tail, pat)
    ensures !Contains(head + tail, pat)
  {
    var out := head + tail;
    forall i: nat ensures !OccursAt(out, pat, i) {
      if i + |pat| <= |out| {
        if i >= |head| {
          assert out[i..i + |pat|] == tail[i - |head|..i - |head| + |pat|];
          assert !OccursAt(tail, pat, i - |head|);
        } else {
          assert out[i..i + |pat|][0] == head[i];
        }
      }
    }
  }

  /** One character put before text free of `pat` adds an occurrence only at the front. */
  lemma CharPrefix(c: char, tail: string, pat: string)
    requires !Contains(tail, pat)
    requires !StartsWith([c] + tail, pat)
    ensures !Contains([c] + tail, pat)
  {
    var out := [c] + tail;
    forall i: nat ensures !OccursAt(out, pat, i) {
      if 0 < i && i + |pat| <= |out| {
        assert out[i..i + |pat|] == tail[i - 1..i - 1 + |pat|];
        assert !OccursAt(tail, pat, i - 1);
      }
    }
  }

  /** Copying the first character of `s` in front of `tail` starts with `pat` only if
      `s` does, when `tail` can start with the rest of `pat` only if `s[1..]` does. */
  lemma CopiedStart(s: string, tail: string, pat: string)
    requires s != [] && pat != []
    requires StartsWith(tail, pat[1..]) ==> StartsWith(s[1..], pat[1..])
    ensures StartsWith([s[0]] + tail, pat) ==> StartsWith(s, pat)
  {
    if StartsWith([s[0]] + tail, pat) {
      assert tail[..|pat| - 1] == ([s[0]] + tail)[1..|pat|] == pat[1..];
      assert s[..|pat|] == [s[0]] + s[1..][..|pat| - 1];
    }
  }

  /** A scan that fires wherever the pattern starts, and whose replacements hold none
      of the pattern's characters, leaves no occurrence of the pattern behind. */
  lemma {:induction false} ScanRemoves(s: string, rule: string -> Step, pat: string)
    requires pat != []
    requires forall t :: Fires(rule(t), t) ==>
      rule(t).replacement != [] && forall j :: 0 <= j < |rule(t).replacement| ==> rule(t).replacement[j] !in pat
    requires forall k :: 0 <= k < |s| && StartsWith(s[k..], pat) ==> Fires(rule(s[k..]), s[k..])
    ensures !Contains(Scan(s, rule), pat)
    decreases |s|
  {
    if s != [] {
      assert s[0..] == s;
      var n := if Fires(rule(s), s) then rule(s).len else 1;
      var rest := s[n..];
      forall k | 0 <= k < |rest| && StartsWith(rest[k..], pat) ensures Fires(rule(rest[k..]), rest[k..]) {
        assert rest[k..] == s[n + k..];
      }
      ScanRemoves(rest, rule, pat);
      if Fires(rule(s), s) {
        AvoidingPrefix(rule(s).replacement, Scan(rest, rule), pat);
      } else {
        forall x | x in pat[1..] ensures x in pat {
          var j :| 0 <= j < |pat[1..]| && pat[1..][j] == x;
          assert pat[j + 1] == x;
        }
        ScanHead(rest, rule, pat[1..]);
        CopiedStart(s, Scan(rest, rule), pat);
        CharPrefix(s[0], Scan(rest, rule), pat);
      }
    }
  }

  /** The replacement text of `replace`, with its `$` patterns expanded: `$$` is one
      `$`, `$&` the matched text, `` $` `` the text before the match and `$'` the text
      after it. A string pattern has no groups, so `$1` or `$<` and any other `$` stay
      as written. */
  function Substitution(rep: string, matched: string, before: string, after: string): string
    decreases |rep|
  {
    if rep == [] then []
    else if rep[0] == '$' && |rep| >= 2 && rep[1] == '$' then "$" + Substitution(rep[2..], matched, before, after)
    else if rep[0] == '$' && |rep| >= 2 && rep[1] == '&' then matched + Substitution(rep[2..], matched, before, after)
    else if rep[0] == '$' && |rep| >= 2 && rep[1] == '`' then before + Substitution(rep[2..], matched, before, after)
    else if rep[0] == '$' && |rep| >= 2 && rep[1] == '\'' then after + Substitution(rep[2..], matched, before, after)
    else [rep[0]] + Substitution(rep[1..], matched, before, after)
  }

  /** A replacement without `$` is inserted as it is. */
  lemma {:induction false} SubstitutionPlain(rep: string, matched: string, before: string, after: string)
    requires '$' !in rep
    ensures Substitution(rep, matched, before, after) == rep
    decreases |rep|
  {
    if rep != [] {
      assert forall c :: c in rep[1..] ==> c in rep;
      SubstitutionPlain(rep[1..], matched, before, after);
      assert rep == [rep[0]] + rep[1..];
    }
  }

  /** `s.replace(pat, rep)` with a string pattern: only the first occurrence is
      replaced, by `rep` with its `$` patterns expanded, and an empty pattern inserts
      at the front. */
  function ReplaceFirst(s: string, pat: string, rep: string): string {
    match IndexOfFrom(s, pat, 0)
    case None => s
    case Some(i) => s[..i] + Substitution(rep, pat, s[..i], s[i + |pat|..]) + s[i + |pat|..]
  }

  /** When the pattern's first character does not occur before an occurrence, that
      occurrence is the one replaced, whatever follows it. */
  lemma ReplaceFirstAt(a: string, pat: string, rep: string, b: string)
    requires pat != [] && pat[0] !in a
    ensures ReplaceFirst(a + pat + b, pat, rep) == a + Substitution(rep, pat, a, b) + b
  {
    var s := a + pat + b;
    assert s[|a|..|a| + |pat|] == pat;
    assert OccursAt(s, pat, |a|);
    forall k | 0 <= k < |a| ensures !OccursAt(s, pat, k) {
      assert s[k] == a[k];
    }
    var r := IndexOfFrom(s, pat, 0);
    assert r.Some? && r.value == |a|;
    assert s[..|a|] == a && s[|a| + |pat|..] == b;
  }

  /** Without an occurrence the text is returned as it is. */
  lemma ReplaceFirstAbsent(s: string, pat: string, rep: string)
    requires !Contains(s, pat)
    ensures ReplaceFirst(s, pat, rep) == s
  {
    assert IndexOfFrom(s, pat, 0).None?;
  }
}
