/** The older module-level client of `src/lib/gemini.ts`, the one the live analysis
    route calls. It checks for the credential up front, reads the reply text like the
    provider class, strips Markdown fences by two global replacements and a trim, and
    makes one parse: no brace extraction, no backslash repair, and every failure
    inside the `try` becomes one fixed message. */
module Gemini {
  import opened Wrappers
  import opened Strings
  import opened Rewrite
  import opened JsonValues
  import opened Oracle

  const MissingKeyMessage := "GOOGLE_API_KEY is not set"
  const AnalyzeFailedMessage := "Failed to analyze image"
  const GenerateFailedMessage := "Failed to generate question"

  // ---------------------------------------------------------------------------
  // Fence cleanup: text.replace(/```json/g, "").replace(/```/g, "").trim()
  // ---------------------------------------------------------------------------

  function RemoveAll(s: string, pat: string): string {
    ReplaceAll(s, pat, "")
  }

  function CleanFences(text: string): string {
    Trim(RemoveAll(RemoveAll(text, "```json"), "```"))
  }

  /** Removing every triple backtick leaves none behind, and the first character left
      (or the first two) can only be a backtick if the input began with one (two). */
  lemma {:induction false} RemoveFenceNoFence(t: string)
    ensures !Contains(RemoveAll(t, "```"), "```")
    ensures RemoveAll(t, "```") != [] && RemoveAll(t, "```")[0] == '`' ==> t != [] && t[0] == '`'
    ensures StartsWith(RemoveAll(t, "```"), "``") ==> StartsWith(t, "``")
    decreases |t|
  {
    if t != [] {
      if StartsWith(t, "```") {
        RemoveFenceNoFence(t[3..]);
        assert RemoveAll(t, "```") == RemoveAll(t[3..], "```");
      } else {
        var u := RemoveAll(t[1..], "```");
        RemoveFenceNoFence(t[1..]);
        assert RemoveAll(t, "```") == [t[0]] + u;
        CopiedHead(t, u);
      }
    }
  }

  /** A first character copied in front of a fence-free rest makes no fence, since a
      fence there would mean the input started with one. */
  lemma CopiedHead(t: string, u: string)
    requires t != [] && !StartsWith(t, "```") && !Contains(u, "```")
    requires u != [] && u[0] == '`' ==> t[1..] != [] && t[1..][0] == '`'
    requires StartsWith(u, "``") ==> StartsWith(t[1..], "``")
    ensures !Contains([t[0]] + u, "```")
    ensures ([t[0]] + u)[0] == '`' ==> t[0] == '`'
    ensures StartsWith([t[0]] + u, "``") ==> StartsWith(t, "``")
  {
    var out := [t[0]] + u;
    assert "```"[1..] == "``";
    CopiedStart(t, u, "```");
    CharPrefix(t[0], u, "```");
    if |u| >= 1 {
      assert out[..2] == [t[0], u[0]];
      if |t| >= 2 {
        assert t[1..][0] == t[1];
        assert t[..2] == [t[0], t[1]];
      }
    }
  }

  /** A piece of a text holds only the patterns the text holds. */
  lemma SliceContains(x: string, i: nat, j: nat, pat: string)
    requires i <= j <= |x| && Contains(x[i..j], pat)
    ensures Contains(x, pat)
  {
    var k: nat :| k <= |x[i..j]| && OccursAt(x[i..j], pat, k);
    assert x[i + k..i + k + |pat|] == pat by {
      forall m | 0 <= m < |pat| ensures x[i + k + m] == pat[m] {
        assert x[i + k + m] == x[i..j][k + m] == x[i..j][k..k + |pat|][m];
      }
    }
    assert OccursAt(x, pat, i + k);
  }

  /** The cleaned text never contains a triple backtick. */
  lemma CleanFencesNoFence(text: string)
    ensures !Contains(CleanFences(text), "```")
  {
    var x := RemoveAll(RemoveAll(text, "```json"), "```");
    RemoveFenceNoFence(RemoveAll(text, "```json"));
    var i, j :| 0 <= i <= j <= |x| && Trim(x) == x[i..j] && AllSpace(x[..i]) && AllSpace(x[j..]);
    if Contains(Trim(x), "```") {
      SliceContains(x, i, j, "```");
    }
  }

  /** A reply without any backtick is only trimmed. */
  lemma CleanWithoutBacktick(text: string)
    requires '`' !in text
    ensures CleanFences(text) == Trim(text)
  {
    MissingCharNotContained(text, "```json", '`');
    ReplaceAbsent(text, "```json", "");
    MissingCharNotContained(text, "```", '`');
    ReplaceAbsent(text, "```", "");
  }

  /** A reply that is a JSON text in a tagged fence, with only white space outside,
      comes out as that JSON text when it holds no backtick and has no white space at
      its ends. */
  lemma CleanTaggedFence(left: string, body: string, right: string)
    requires AllSpace(left) && AllSpace(right)
    requires '`' !in body && body != [] && !IsSpace(body[0]) && !IsSpace(body[|body| - 1])
    ensures CleanFences(left + "```json" + body + "```" + right) == body
  {
    RemoveTag(left, body, right);
    RemoveClosingFence(left, body, right);
    TrimPadded(left, body, right);
  }

  /** The first replacement removes the opening tagged fence and nothing else. */
  lemma RemoveTag(left: string, body: string, right: string)
    requires AllSpace(left) && AllSpace(right) && '`' !in body
    ensures RemoveAll(left + "```json" + body + "```" + right, "```json") == left + body + "```" + right
  {
    var tail := body + "```" + right;
    forall k | 0 <= k < |left| ensures !StartsWith((left + "```json" + tail)[k..], "```json") {
      assert (left + "```json" + tail)[k..][0] == left[k];
      assert IsSpace(left[k]);
    }
    NoTaggedFenceAfter(body, right);
    assert left + "```json" + body + "```" + right == left + "```json" + tail;
    ReplaceOnce(left, "```json", "", tail);
    assert left + "" + tail == left + body + "```" + right;
  }

  /** After the opening fence no tagged fence follows: the body has no backtick, and
      the white space after the closing fence stands where `json` would have to. */
  lemma NoTaggedFenceAfter(body: string, right: string)
    requires AllSpace(right) && '`' !in body
    ensures !Contains(body + "```" + right, "```json")
  {
    var tail := body + "```" + right;
    forall k: nat ensures !OccursAt(tail, "```json", k) {
      if k + 7 <= |tail| {
        var window := tail[k..k + 7];
        if k < |body| {
          assert window[0] == body[k];
        } else if k < |body| + 3 {
          var m := |body| + 3 - k;
          assert window[m] == right[0];
          assert IsSpace(right[0]);
          assert "```json"[m] in "`j";
        } else {
          assert window[0] == right[k - |body| - 3];
          assert IsSpace(right[k - |body| - 3]);
        }
        assert window != "```json";
      }
    }
  }

  /** The second replacement removes the closing fence and nothing else. */
  lemma RemoveClosingFence(left: string, body: string, right: string)
    requires AllSpace(left) && AllSpace(right) && '`' !in body
    ensures RemoveAll(left + body + "```" + right, "```") == left + body + right
  {
    var head := left + body;
    forall k | 0 <= k < |head| ensures !StartsWith((head + "```" + right)[k..], "```") {
      assert (head + "```" + right)[k..][0] == head[k];
      if k < |left| { assert IsSpace(left[k]); } else { assert head[k] == body[k - |left|]; }
    }
    forall k: nat ensures !OccursAt(right, "```", k) {
      if k + 3 <= |right| {
        assert right[k..k + 3][0] == right[k];
        assert IsSpace(right[k]);
      }
    }
    ReplaceOnce(head, "```", "", right);
    assert head + "" + right == left + body + right;
  }

  // ---------------------------------------------------------------------------
  // The two operations.
  // ---------------------------------------------------------------------------

  /** What the `try` block ends with once the call has been made: the single parse of
      the cleaned reply, or the fixed failure message whatever went wrong. */
  function Attempt(call: CallOutcome, decode: Decoder, failure: string): Result<Json, string> {
    match call
    case Threw(_) => Failure(failure)
    case Returned(response) =>
      var text := ReplyText(response);
      if text == "" then Failure(failure)
      else match decode(CleanFences(text))
        case Some(value) => Success(value)
        case None => Failure(failure)
  }

  /** Every failure inside the `try` surfaces as the same message, and success means
      the one parse of the cleaned reply succeeded. */
  lemma AttemptFailsUniformly(call: CallOutcome, decode: Decoder, failure: string)
    ensures Attempt(call, decode, failure).Failure? ==> Attempt(call, decode, failure).error == failure
    ensures Attempt(call, decode, failure).Success? <==>
      call.Returned? && ReplyText(call.response) != "" && decode(CleanFences(ReplyText(call.response))).Some?
    ensures Attempt(call, decode, failure).Success? ==>
      Attempt(call, decode, failure).value == decode(CleanFences(ReplyText(call.response))).value
  {
  }

  datatype QuestionRequest = QuestionRequest(model: string, originalQuestion: string, knowledgePoints: seq<string>,
                                             language: Language)

  /** A missing or empty credential stops the call before any request is made, and
      that error is not wrapped; otherwise the request goes out and its outcome is
      read through `Attempt`. */
  method AnalyzeImage(environmentKey: Option<string>, imageBase64: string, mimeType: Option<string>,
                      language: Option<Language>, call: CallOutcome, decode: Decoder)
    returns (request: Option<ImageRequest>, result: Result<Json, string>)
    ensures environmentKey.GetOr("") == "" ==> request.None? && result == Failure(MissingKeyMessage)
    ensures environmentKey.GetOr("") != "" ==>
      request == Some(ImageRequest(ModelName, mimeType.GetOr(DefaultMimeType), imageBase64, language.GetOr(Zh))) &&
      result == Attempt(call, decode, AnalyzeFailedMessage)
  {
    if environmentKey.GetOr("") == "" {
      return None, Failure(MissingKeyMessage);
    }
    request := Some(ImageRequest(ModelName, mimeType.GetOr(DefaultMimeType), imageBase64, language.GetOr(Zh)));
    result := Complete(call, decode, AnalyzeFailedMessage);
  }

  method GenerateSimilarQuestion(environmentKey: Option<string>, originalQuestion: string,
                                 knowledgePoints: seq<string>, language: Option<Language>,
                                 call: CallOutcome, decode: Decoder)
    returns (request: Option<QuestionRequest>, result: Result<Json, string>)
    ensures environmentKey.GetOr("") == "" ==> request.None? && result == Failure(MissingKeyMessage)
    ensures environmentKey.GetOr("") != "" ==>
      request == Some(QuestionRequest(ModelName, originalQuestion, knowledgePoints, language.GetOr(Zh))) &&
      result == Attempt(call, decode, GenerateFailedMessage)
  {
    if environmentKey.GetOr("") == "" {
      return None, Failure(MissingKeyMessage);
    }
    request := Some(QuestionRequest(ModelName, originalQuestion, knowledgePoints, language.GetOr(Zh)));
    result := Complete(call, decode, GenerateFailedMessage);
  }

  /** The shared `try` block, with the reply text read step by step. */
  method Complete(call: CallOutcome, decode: Decoder, failure: string) returns (result: Result<Json, string>)
    ensures result == Attempt(call, decode, failure)
  {
    match call {
      case Threw(_) =>
        result := Failure(failure);
      case Returned(response) =>
        var text := ReadText(response);
        if text == "" {
          result := Failure(failure);
        } else {
          var jsonString := CleanFences(text);
          match decode(jsonString) {
            case Some(value) => result := Success(value);
            case None => result := Failure(failure);
          }
        }
    }
  }
}
