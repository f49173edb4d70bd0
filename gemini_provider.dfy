/** The provider class of `src/lib/ai/gemini-provider.ts`: it turns the model's free-form
    reply into a JSON value (fence or brace-span extraction, a strict parse, one
    backslash repair and a second parse) and classifies every failure into one of four
    error codes. */
module GeminiProvider {
  import opened Wrappers
  import opened Strings
  import opened Rewrite
  import opened JsonValues
  import opened Oracle
  import opened ErrorClassifier
  import JsonString

  // ---------------------------------------------------------------------------
  // Locating the JSON region: /```(?:json)?\s*([\s\S]*?)\s*```/, then braces.
  // ---------------------------------------------------------------------------

  const Fence := "```"

  /** Where the interior of the fence withFence at `open` begins: after the three
      backticks and, when it follows them, the lowercase tag `json` (the optional
      group is greedy and taking it never loses a match, since the tag holds no
      backtick). */
  function InteriorStart(text: string, open: nat): nat {
    if OccursAt(text, "json", open + 3) then open + 7 else open + 3
  }

  /** Some fence is followed, at least three characters later, by another. */
  ghost predicate HasClosedFence(text: string) {
    exists p: nat, q: nat :: OccursAt(text, Fence, p) && OccursAt(text, Fence, q) && p + 3 <= q
  }

  /** The trimmed interior of the first fenced block, if the regular expression
      matches. The leftmost match opens at the first fence; its lazy group stops at
      the first fence after the interior start, and the two `\s*` around the group
      take exactly the white space `trim` would remove. */
  function FenceInterior(text: string): (r: Option<string>)
    ensures r.Some? <==> HasClosedFence(text)
  {
    match IndexOfFrom(text, Fence, 0)
    case None => None
    case Some(p) =>
      var start := InteriorStart(text, p);
      match IndexOfFrom(text, Fence, start)
      case None =>
        UnclosedFence(text, p);
        None
      case Some(q) => Some(Trim(text[start..q]))
  }

  /** A first fence with no fence after its interior start is never closed: between
      the fence and that start lies at most the tag `json`, which holds no backtick. */
  lemma UnclosedFence(text: string, p: nat)
    requires OccursAt(text, Fence, p) && forall k :: 0 <= k < p ==> !OccursAt(text, Fence, k)
    requires forall k :: InteriorStart(text, p) <= k ==> !OccursAt(text, Fence, k)
    ensures !HasClosedFence(text)
  {
    forall k | p + 3 <= k < InteriorStart(text, p) ensures !OccursAt(text, Fence, k) {
      assert text[k] == text[p + 3..p + 7][k - p - 3];
    }
  }

  /** `extractJson`: the fence interior, else the span from the first `{` to the last
      `}` when the latter comes after the former, else the whole text. */
  function ExtractJson(text: string): string {
    match FenceInterior(text)
    case Some(interior) => interior
    case None => BraceSpan(text)
  }

  /** The fallback without a fence: from the first `{` through the last `}`. */
  function BraceSpan(text: string): string {
    var first := IndexOfChar(text, '{');
    var last := LastIndexOfChar(text, '}');
    if first.Some? && last.Some? && last.value > first.value then text[first.value..last.value + 1]
    else text
  }

  /** With a closed fence, the candidate is the trimmed text between the interior start
      of the first fence and the next fence. */
  lemma ExtractFromFence(text: string, p: nat, q: nat)
    requires OccursAt(text, Fence, p) && forall k :: 0 <= k < p ==> !OccursAt(text, Fence, k)
    requires InteriorStart(text, p) <= q && OccursAt(text, Fence, q)
    requires forall k :: InteriorStart(text, p) <= k < q ==> !OccursAt(text, Fence, k)
    ensures ExtractJson(text) == Trim(text[InteriorStart(text, p)..q])
  {
    assert IndexOfFrom(text, Fence, 0) == Some(p);
    assert IndexOfFrom(text, Fence, InteriorStart(text, p)) == Some(q);
  }

  /** Without a closed fence and with a `{` before a `}`, the candidate is exactly the
      span from the first `{` to the last `}`. */
  lemma ExtractBraceSpan(text: string, i: nat, j: nat)
    requires !HasClosedFence(text)
    requires i < j < |text| && text[i] == '{' && '{' !in text[..i]
    requires text[j] == '}' && '}' !in text[j + 1..]
    ensures ExtractJson(text) == text[i..j + 1]
    ensures ExtractJson(text)[0] == '{' && ExtractJson(text)[|ExtractJson(text)| - 1] == '}'
  {
    ExtractWithoutFence(text);
    IndexOfCharAt(text, '{', i);
    LastIndexOfCharAt(text, '}', j);
  }

  /** Without a closed fence only the brace fallback is left. */
  lemma ExtractWithoutFence(text: string)
    requires !HasClosedFence(text)
    ensures ExtractJson(text) == BraceSpan(text)
  {
  }

  /** Without a closed fence and without any `{` before a `}`, the text is passed on
      as it is. */
  lemma ExtractUnchanged(text: string)
    requires !HasClosedFence(text)
    requires forall i, j :: 0 <= i < j < |text| && text[i] == '{' ==> text[j] != '}'
    ensures ExtractJson(text) == text
  {
    ExtractWithoutFence(text);
  }

  // ---------------------------------------------------------------------------
  // The backslash repair: .replace(/\\(?![nrtbfu"\\/])/g, '\\\\')
  // ---------------------------------------------------------------------------

  /** The class of the repair's negative look-ahead: `n r t b f u " \ /`. */
  predicate IsEscapeSuccessor(c: char) {
    c == 'n' || c == 'r' || c == 't' || c == 'b' || c == 'f' || c == 'u' || c == '"' || c == '\\' || c == '/'
  }

  /** The backslash at `i` is one the repair doubles: it is the last character, or the
      character after it lies outside the class. */
  predicate IsLoneBackslash(s: string, i: nat)
    requires i < |s|
  {
    s[i] == '\\' && (i + 1 == |s| || !IsEscapeSuccessor(s[i + 1]))
  }

  /** The repair pattern at one position: a single backslash, judged by look-ahead. */
  function LoneBackslash(t: string): Step {
    if t != [] && IsLoneBackslash(t, 0) then Match(1, "\\\\") else NoMatch
  }

  /** The repair of line 41, as a string-to-string function. */
  function RepairEscapes(s: string): string {
    Scan(s, LoneBackslash)
  }

  /** How many backslashes of `s` the repair doubles. */
  function LoneCount(s: string): nat {
    if s == [] then 0 else (if IsLoneBackslash(s, 0) then 1 else 0) + LoneCount(s[1..])
  }

  lemma RepairUnfold(s: string)
    requires s != []
    ensures RepairEscapes(s) == (if IsLoneBackslash(s, 0) then "\\\\" else [s[0]]) + RepairEscapes(s[1..])
  {
  }

  /** The repair adds one character per doubled backslash and nothing else. */
  lemma {:induction false} RepairLength(s: string)
    ensures |RepairEscapes(s)| == |s| + LoneCount(s)
  {
    if s != [] {
      RepairUnfold(s);
      RepairLength(s[1..]);
    }
  }

  /** How many of the first `i` characters of `s` are backslashes the repair doubles
      (each judged in the context of the whole of `s`). */
  function LoneBefore(s: string, i: nat): nat
    requires i <= |s|
  {
    if i == 0 then 0 else LoneBefore(s, i - 1) + (if IsLoneBackslash(s, i - 1) then 1 else 0)
  }

  lemma {:induction false} LoneBeforeShift(s: string, i: nat)
    requires 0 < i <= |s|
    ensures LoneBefore(s, i) == (if IsLoneBackslash(s, 0) then 1 else 0) + LoneBefore(s[1..], i - 1)
  {
    if i > 1 {
      LoneBeforeShift(s, i - 1);
      assert IsLoneBackslash(s[1..], i - 2) == IsLoneBackslash(s, i - 1);
    }
  }

  /** Character `i` of the input reappears, unchanged, `LoneBefore(s, i)` places
      further on, and a doubled backslash is followed by its copy. */
  lemma {:induction false} RepairAt(s: string, i: nat)
    requires i < |s|
    ensures i + LoneBefore(s, i) < |RepairEscapes(s)|
    ensures RepairEscapes(s)[i + LoneBefore(s, i)] == s[i]
    ensures IsLoneBackslash(s, i) ==>
      i + LoneBefore(s, i) + 1 < |RepairEscapes(s)| && RepairEscapes(s)[i + LoneBefore(s, i) + 1] == '\\'
  {
    RepairUnfold(s);
    RepairLength(s[1..]);
    if i > 0 {
      RepairAt(s[1..], i - 1);
      LoneBeforeShift(s, i);
      assert IsLoneBackslash(s[1..], i - 1) == IsLoneBackslash(s, i);
    }
  }

  /** Where no backslash is doubled, the repair is the identity. */
  lemma RepairFixedPoint(s: string)
    requires forall i :: 0 <= i < |s| ==> !IsLoneBackslash(s, i)
    ensures RepairEscapes(s) == s
  {
    forall k | 0 <= k < |s| ensures !Fires(LoneBackslash(s[k..]), s[k..]) {
      assert IsLoneBackslash(s[k..], 0) == IsLoneBackslash(s, k);
    }
    ScanNowhere(s, LoneBackslash);
  }

  /** A text without backslashes is a fixed point of the repair. */
  lemma RepairWithoutBackslash(s: string)
    requires '\\' !in s
    ensures RepairEscapes(s) == s
  {
    RepairFixedPoint(s);
  }

  /** Each decision looks only at the next character of the original text: the repair
      of a concatenation is the concatenation of the repairs unless the first part
      ends in a backslash and the second starts with a character of the class. */
  lemma {:induction false} RepairLocal(a: string, b: string)
    requires a == [] || b == [] || a[|a| - 1] != '\\' || !IsEscapeSuccessor(b[0])
    ensures RepairEscapes(a + b) == RepairEscapes(a) + RepairEscapes(b)
  {
    if a == [] {
      assert a + b == b;
    } else {
      RepairUnfold(a);
      RepairUnfold(a + b);
      assert (a + b)[1..] == a[1..] + b;
      assert IsLoneBackslash(a + b, 0) == IsLoneBackslash(a, 0);
      RepairLocal(a[1..], b);
    }
  }

  /** Two backslashes in a row: the first is kept, the second is judged by its own
      successor, so an escaped backslash before a letter outside the class comes out
      as three backslashes. */
  lemma RepairBackslashPair(c: char, rest: string)
    requires !IsEscapeSuccessor(c)
    ensures RepairEscapes(['\\', '\\', c] + rest) == ['\\', '\\', '\\', c] + RepairEscapes(rest)
  {
    var s := ['\\', '\\', c] + rest;
    RepairUnfold(s);
    RepairUnfold(s[1..]);
    RepairUnfold(s[2..]);
    assert s[1..][1..] == s[2..];
    assert s[2..][1..] == rest;
  }

  // ---------------------------------------------------------------------------
  // What the repair does to string-literal contents.
  // ---------------------------------------------------------------------------

  /** Text a model tends to write inside a JSON string: no quotation mark, no control
      character, and every backslash one the repair doubles (LaTeX such as `\frac`
      or `\sqrt`). */
  ghost predicate LooseContent(x: string) {
    forall i :: 0 <= i < |x| ==> x[i] != '"' && (x[i] as int) >= 0x20 && (x[i] == '\\' ==> IsLoneBackslash(x, i))
  }

  lemma LooseContentTail(x: string)
    requires x != [] && LooseContent(x)
    ensures LooseContent(x[1..])
  {
    forall i | 0 <= i < |x[1..]|
      ensures x[1..][i] != '"' && (x[1..][i] as int) >= 0x20 && (x[1..][i] == '\\' ==> IsLoneBackslash(x[1..], i))
    {
      assert x[1..][i] == x[i + 1];
      assert x[i + 1] == '\\' ==> IsLoneBackslash(x, i + 1);
    }
  }

  /** Once repaired, such contents decode to exactly the characters that were written:
      every lone backslash comes back as one backslash. */
  lemma {:induction false} RepairedLooseDecodes(x: string)
    requires LooseContent(x)
    ensures JsonString.DecodeString(RepairEscapes(x)) == Some(JsonString.Units(x))
  {
    if x != [] {
      RepairUnfold(x);
      LooseContentTail(x);
      RepairedLooseDecodes(x[1..]);
      var t := RepairEscapes(x[1..]);
      if x[0] == '\\' {
        assert IsLoneBackslash(x, 0);
        assert ("\\\\" + t)[2..] == t;
      } else {
        assert ([x[0]] + t)[1..] == t;
      }
    }
  }

  /** ... and, before the repair, a strict decoder rejects them as soon as they hold
      one backslash. */
  lemma {:induction false} StrictRejectsLoose(x: string)
    requires LooseContent(x) && '\\' in x
    ensures JsonString.DecodeString(x) == None
  {
    if x[0] != '\\' {
      LooseContentTail(x);
      assert '\\' in x[1..];
      StrictRejectsLoose(x[1..]);
    } else {
      assert IsLoneBackslash(x, 0);
    }
  }

  /** Contents the strict decoder accepts have no backslash the repair would double,
      provided they contain no escaped backslash `\\`. */
  lemma {:induction false} ValidHasNoLone(x: string)
    requires JsonString.DecodeString(x).Some?
    requires forall i :: 0 <= i < |x| - 1 ==> !(x[i] == '\\' && x[i + 1] == '\\')
    ensures forall i :: 0 <= i < |x| ==> !IsLoneBackslash(x, i)
    decreases |x|
  {
    if x != [] {
      var k := if x[0] != '\\' then 1 else if JsonString.ShortEscape(x[1]).Some? then 2 else 6;
      assert JsonString.DecodeString(x[k..]).Some?;
      forall i | 0 <= i < |x[k..]| - 1 ensures !(x[k..][i] == '\\' && x[k..][i + 1] == '\\') {
        assert x[k..][i] == x[k + i] && x[k..][i + 1] == x[k + i + 1];
      }
      ValidHasNoLone(x[k..]);
      forall i | 0 <= i < |x| ensures !IsLoneBackslash(x, i) {
        if i >= k {
          assert IsLoneBackslash(x, i) == IsLoneBackslash(x[k..], i - k);
        } else if k == 6 && i >= 2 {
          assert JsonString.HexDigit(x[2..6][i - 2]).Some?;
        }
      }
    }
  }

  /** An already legal escape is left alone: strictly valid contents without an escaped
      backslash are a fixed point of the repair, so decoding the repaired text gives
      what decoding the original gave. */
  lemma RepairKeepsValidContent(x: string)
    requires JsonString.DecodeString(x).Some?
    requires forall i :: 0 <= i < |x| - 1 ==> !(x[i] == '\\' && x[i + 1] == '\\')
    ensures RepairEscapes(x) == x
    ensures JsonString.DecodeString(RepairEscapes(x)) == JsonString.DecodeString(x)
  {
    ValidHasNoLone(x);
    RepairFixedPoint(x);
  }

  /** The mixed case the look-ahead gets wrong: the valid contents `\\q` (an escaped
      backslash, then `q`) become `\\\q`, which no longer decodes. */
  lemma RepairBreaksEscapedBackslash()
    ensures JsonString.DecodeString(['\\', '\\', 'q']) == Some([0x5C, 'q' as int])
    ensures RepairEscapes(['\\', '\\', 'q']) == ['\\', '\\', '\\', 'q']
    ensures JsonString.DecodeString(RepairEscapes(['\\', '\\', 'q'])) == None
  {
    RepairBackslashPair('q', []);
    assert ['\\', '\\', 'q'] + [] == ['\\', '\\', 'q'];
    assert ['\\', '\\', '\\', 'q'][2..] == ['\\', 'q'];
    assert ['\\', '\\', 'q'][2..] == ['q'];
    assert ['q'][1..] == [];
    var none: seq<int> := [];
    assert JsonString.DecodeString([]) == Some(none);
    assert ['q' as int] + none == ['q' as int];
    assert JsonString.DecodeString(['\\', '\\', 'q']) == JsonString.Prepend([0x5C], JsonString.DecodeString(['q']));
    assert [0x5C] + ['q' as int] == [0x5C, 'q' as int];
    assert JsonString.DecodeString(['q']) == Some(['q' as int]);
  }

  // ---------------------------------------------------------------------------
  // parseResponse
  // ---------------------------------------------------------------------------

  /** `parseResponse`: a strict parse of the extracted candidate, and only if that fails
      a parse of the repaired candidate; the decoded value is returned as it is. */
  function ParseResponse(text: string, decode: Decoder): (r: Result<Json, string>)
    ensures decode(ExtractJson(text)).Some? ==> r == Success(decode(ExtractJson(text)).value)
    ensures decode(ExtractJson(text)).None? && decode(RepairEscapes(ExtractJson(text))).Some? ==>
      r == Success(decode(RepairEscapes(ExtractJson(text))).value)
    ensures r.Success? <==> decode(ExtractJson(text)).Some? || decode(RepairEscapes(ExtractJson(text))).Some?
    ensures r.Failure? ==> r.error == InvalidJsonMessage
  {
    var candidate := ExtractJson(text);
    match decode(candidate)
    case Some(v) => Success(v)
    case None =>
      match decode(RepairEscapes(candidate))
      case Some(v) => Success(v)
      case None => Failure(InvalidJsonMessage)
  }

  /** A reply that is a bare JSON object (it starts with `{`, ends with `}` and holds no
      backtick) is decoded as it is. */
  lemma ParseBareObject(text: string, decode: Decoder)
    requires |text| >= 2 && text[0] == '{' && text[|text| - 1] == '}' && '`' !in text
    requires decode(text).Some?
    ensures ParseResponse(text, decode) == Success(decode(text).value)
  {
    ExtractBare(text);
  }

  lemma NoBacktickNoFence(text: string)
    requires '`' !in text
    ensures !HasClosedFence(text)
  {
    forall p: nat | p < |text| ensures !OccursAt(text, Fence, p) {
      assert text[p] != '`';
    }
  }

  /** Prose before the first `{` and after the last `}` is ignored: the reply decodes
      like the object alone. */
  lemma ParseProseAroundObject(before: string, body: string, after: string, decode: Decoder)
    requires '`' !in before + body + after
    requires |body| >= 2 && body[0] == '{' && body[|body| - 1] == '}'
    requires '{' !in before && '}' !in after
    ensures ParseResponse(before + body + after, decode) == ParseResponse(body, decode)
  {
    var text := before + body + after;
    assert '`' !in body by {
      forall k | 0 <= k < |body| ensures body[k] != '`' { assert body[k] == text[|before| + k]; }
    }
    NoBacktickNoFence(text);
    var i, j := |before|, |before| + |body| - 1;
    assert text[..i] == before;
    assert text[j + 1..] == after;
    assert text[i..j + 1] == body;
    ExtractBraceSpan(text, i, j);
    ExtractBare(body);
  }

  /** A reply `before ``` tag interior ``` after`, with no backtick before the first
      fence or inside the interior, yields the trimmed interior. An empty tag is only
      read as such when the interior does not itself start with `json`. */
  lemma ExtractFenced(before: string, tag: string, interior: string, after: string)
    requires '`' !in before && '`' !in interior
    requires tag == "json" || (tag == "" && !StartsWith(interior, "json"))
    ensures ExtractJson(before + Fence + tag + interior + Fence + after) == Trim(interior)
  {
    var withFence := before + Fence;
    var tagged := withFence + tag;
    var closed := tagged + interior;
    var text := closed + Fence + after;
    var p, start, q := |before|, |tagged|, |closed|;
    assert text[..q] == closed && text[q..q + 3] == Fence;
    assert closed[..start] == tagged && closed[start..] == interior;
    assert tagged[..p + 3] == withFence && tagged[p + 3..] == tag;
    assert withFence[..p] == before && withFence[p..] == Fence;
    FirstFenceAt(text, p);
    TagSkipped(text, p, tag, interior);
    InteriorWithoutFence(text, start, q);
    ExtractFromFence(text, p, q);
  }

  /** A fence at `p` with no backtick before it is the first fence. */
  lemma FirstFenceAt(text: string, p: nat)
    requires p + 3 <= |text| && text[p..p + 3] == Fence && '`' !in text[..p]
    ensures OccursAt(text, Fence, p) && forall k :: 0 <= k < p ==> !OccursAt(text, Fence, k)
  {
    forall k | 0 <= k < p ensures !OccursAt(text, Fence, k) {
      assert text[k] == text[..p][k];
    }
  }

  /** The tag after the opening fence is skipped exactly when it is `json`. */
  lemma TagSkipped(text: string, p: nat, tag: string, interior: string)
    requires p + 3 + |tag| + |interior| + 3 <= |text|
    requires text[p + 3..p + 3 + |tag|] == tag && text[p + 3 + |tag|..p + 3 + |tag| + |interior|] == interior
    requires text[p + 3 + |tag| + |interior|] == '`' && '`' !in interior
    requires tag == "json" || (tag == "" && !StartsWith(interior, "json"))
    ensures InteriorStart(text, p) == p + 3 + |tag|
  {
    if tag == "" {
      if |interior| >= 4 {
        assert interior[..4] == text[p + 3..p + 7];
      } else if p + 7 <= |text| {
        assert text[p + 3..p + 7][|interior|] == '`';
        assert "json"[|interior|] != '`';
      }
      assert !OccursAt(text, "json", p + 3);
    } else {
      assert OccursAt(text, "json", p + 3);
    }
  }

  /** No fence starts inside a stretch without backticks. */
  lemma InteriorWithoutFence(text: string, start: nat, q: nat)
    requires start <= q <= |text| && '`' !in text[start..q]
    ensures forall k :: start <= k < q ==> !OccursAt(text, Fence, k)
  {
    forall k | start <= k < q ensures !OccursAt(text, Fence, k) {
      assert text[k] == text[start..q][k - start];
    }
  }

  lemma PaddedBodyInterior(left: string, body: string, right: string)
    requires '`' !in body && AllSpace(left) && AllSpace(right)
    requires |body| >= 1 && body[0] == '{'
    ensures '`' !in left + body + right
    ensures !StartsWith(left + body + right, "json")
  {
    var interior := left + body + right;
    forall k | 0 <= k < |interior| ensures interior[k] != '`' {
      if k < |left| {
        assert IsSpace(left[k]);
      } else if k < |left| + |body| {
        assert interior[k] == body[k - |left|];
      } else {
        assert IsSpace(right[k - |left| - |body|]);
      }
    }
    if left == [] { assert interior[0] == body[0]; } else { assert IsSpace(left[0]); }
  }

  /** A fenced object, with or without the `json` tag and with prose around it, decodes
      like the object alone. */
  lemma ParseFencedObject(before: string, tag: string, left: string, body: string, right: string, after: string,
                          decode: Decoder)
    requires '`' !in before && '`' !in body
    requires tag == "" || tag == "json"
    requires AllSpace(left) && AllSpace(right)
    requires |body| >= 2 && body[0] == '{' && body[|body| - 1] == '}'
    ensures ParseResponse(before + Fence + tag + left + body + right + Fence + after, decode) == ParseResponse(body, decode)
  {
    ExtractFencedObject(before, tag, left, body, right, after);
    ExtractBare(body);
  }

  lemma ExtractFencedObject(before: string, tag: string, left: string, body: string, right: string, after: string)
    requires '`' !in before && '`' !in body
    requires tag == "" || tag == "json"
    requires AllSpace(left) && AllSpace(right)
    requires |body| >= 2 && body[0] == '{' && body[|body| - 1] == '}'
    ensures ExtractJson(before + Fence + tag + left + body + right + Fence + after) == body
  {
    var interior := left + body + right;
    PaddedBodyInterior(left, body, right);
    assert before + Fence + tag + left + body + right + Fence + after == before + Fence + tag + interior + Fence + after;
    ExtractFenced(before, tag, interior, after);
    TrimPadded(left, body, right);
  }

  /** A bare object without backticks is its own candidate. */
  lemma ExtractBare(body: string)
    requires '`' !in body
    requires |body| >= 2 && body[0] == '{' && body[|body| - 1] == '}'
    ensures ExtractJson(body) == body
  {
    assert body[0..|body| - 1 + 1] == body;
    NoBacktickNoFence(body);
    ExtractBraceSpan(body, 0, |body| - 1);
  }

  // ---------------------------------------------------------------------------
  // The two operations: the try/catch around the call, the reply text and the parse.
  // ---------------------------------------------------------------------------

  /** What an operation ends with once the call has been made: the parsed value, or
      the code `handleError` throws for whatever went wrong inside the `try` (a thrown
      call, an empty reply, an unparseable one). */
  function Outcome(call: CallOutcome, decode: Decoder): Result<Json, ErrorCode> {
    match call
    case Threw(error) => Failure(HandleError(error))
    case Returned(response) =>
      var text := ReplyText(response);
      if text == "" then Failure(HandleError(ErrorObject(EmptyResponseMessage)))
      else match ParseResponse(text, decode)
        case Success(value) => Success(value)
        case Failure(message) => Failure(HandleError(ErrorObject(message)))
  }

  /** Once a response has come back, the only codes left are a response error (the
      reply did not parse) and an unknown error (the reply was empty); a connection
      or credential code can only come from the call itself. */
  lemma OutcomeAfterResponse(response: Response, decode: Decoder)
    ensures var r := Outcome(Returned(response), decode);
      (r.Success? <==> ReplyText(response) != "" && ParseResponse(ReplyText(response), decode).Success?) &&
      (r.Success? ==> r.value == ParseResponse(ReplyText(response), decode).value) &&
      (r.Failure? && ReplyText(response) == "" ==> r.error == AiUnknownError) &&
      (r.Failure? && ReplyText(response) != "" ==> r.error == AiResponseError)
  {
    ClassifyEmptyResponse();
    ClassifyInvalidJson();
  }

  /** A reply with no braces and no backslash that the decoder rejects, such as
      `I cannot read this image.`, ends as a response error. */
  lemma OutcomeProseReply(response: Response, decode: Decoder)
    requires ReplyText(response) != ""
    requires '{' !in ReplyText(response) && '`' !in ReplyText(response) && '\\' !in ReplyText(response)
    requires decode(ReplyText(response)).None?
    ensures Outcome(Returned(response), decode) == Failure(AiResponseError)
  {
    var text := ReplyText(response);
    NoBacktickNoFence(text);
    assert ExtractJson(text) == text;
    RepairWithoutBackslash(text);
    ClassifyInvalidJson();
  }

  /** A call that failed in transport ends as a connection failure. */
  lemma OutcomeConnectionReset(decode: Decoder)
    ensures Outcome(Threw(ErrorObject("fetch failed: ECONNRESET")), decode) == Failure(AiConnectionFailed)
  {
    ClassifyConnectionReset();
  }

  // ---------------------------------------------------------------------------
  // Request parameters.
  // ---------------------------------------------------------------------------

  datatype Difficulty = Easy | Medium | Hard | Harder {
    /** The key the caller passes. */
    function Key(): string {
      match this
      case Easy => "easy"
      case Medium => "medium"
      case Hard => "hard"
      case Harder => "harder"
    }
  }

  /** The instruction looked up by difficulty (lines 148-153). */
  function DifficultyInstruction(d: Difficulty): string {
    match d
    case Easy => "Make the new question EASIER than the original. Use simpler numbers and more direct concepts."
    case Medium => "Keep the difficulty SIMILAR to the original question."
    case Hard => "Make the new question HARDER than the original. Combine multiple concepts or use more complex numbers."
    case Harder => "Make the new question MUCH HARDER (Challenge Level). Require deeper understanding and multi-step reasoning."
  }

  /** What a similar-question request carries: the model, the language, and the
      difficulty as its upper-cased key and its instruction. */
  datatype GenerateRequest = GenerateRequest(model: string, originalQuestion: string, knowledgePoints: seq<string>,
                                             language: Language, difficultyLabel: string, difficultyInstruction: string)

  /** The provider. It keeps the credential it was built with; the SDK client made
      from it is not modelled. */
  class Provider {
    const apiKey: string
    /** The constructor's console warning about a missing credential. */
    const warnedMissingKey: bool

    constructor (environmentKey: Option<string>)
      ensures apiKey == environmentKey.GetOr("")
      ensures warnedMissingKey <==> environmentKey.GetOr("") == ""
    {
      warnedMissingKey := environmentKey.GetOr("") == "";
      apiKey := environmentKey.GetOr("");
    }

    /** `analyzeImage`: the default MIME type and language fill in what the caller left
        out; the call's outcome is read, parsed and classified. */
    method AnalyzeImage(imageBase64: string, mimeType: Option<string>, language: Option<Language>,
                        call: CallOutcome, decode: Decoder)
      returns (request: ImageRequest, result: Result<Json, ErrorCode>)
      ensures request == ImageRequest(ModelName, mimeType.GetOr(DefaultMimeType), imageBase64, language.GetOr(Zh))
      ensures result == Outcome(call, decode)
    {
      request := ImageRequest(ModelName, mimeType.GetOr(DefaultMimeType), imageBase64, language.GetOr(Zh));
      result := Complete(call, decode);
    }

    /** `generateSimilarQuestion`: the default language is Chinese and the default
        difficulty medium. */
    method GenerateSimilarQuestion(originalQuestion: string, knowledgePoints: seq<string>, language: Option<Language>,
                                   difficulty: Option<Difficulty>, call: CallOutcome, decode: Decoder)
      returns (request: GenerateRequest, result: Result<Json, ErrorCode>)
      ensures request.model == ModelName && request.language == language.GetOr(Zh)
      ensures request.originalQuestion == originalQuestion && request.knowledgePoints == knowledgePoints
      ensures request.difficultyLabel == ToUpperAscii(difficulty.GetOr(Medium).Key())
      ensures request.difficultyInstruction == DifficultyInstruction(difficulty.GetOr(Medium))
      ensures result == Outcome(call, decode)
    {
      var level := difficulty.GetOr(Medium);
      request := GenerateRequest(ModelName, originalQuestion, knowledgePoints, language.GetOr(Zh),
                                 ToUpperAscii(level.Key()), DifficultyInstruction(level));
      result := Complete(call, decode);
    }

    /** The `try` block both operations share: read the text step by step, stop on an
        empty one, parse; every failure goes through `handleError`. */
    method Complete(call: CallOutcome, decode: Decoder) returns (result: Result<Json, ErrorCode>)
      ensures result == Outcome(call, decode)
    {
      match call {
        case Threw(error) =>
          result := Failure(HandleError(error));
        case Returned(response) =>
          var text := ReadText(response);
          if text == "" {
            result := Failure(HandleError(ErrorObject(EmptyResponseMessage)));
          } else {
            var parsed := ParseResponse(text, decode);
            if parsed.Success? {
              result := Success(parsed.value);
            } else {
              result := Failure(HandleError(ErrorObject(parsed.error)));
            }
          }
      }
    }
  }
}
