/** The error classifier of `src/lib/ai/gemini-provider.ts` (`handleError`): a thrown
    value is turned into one of four error codes by looking for fixed phrases in its
    lower-cased message, in a fixed priority order. */
module ErrorClassifier {
  import opened Strings
  import opened Oracle

  /** The four errors `handleError` throws, by their messages. */
  datatype ErrorCode = AiConnectionFailed | AiResponseError | AiAuthError | AiUnknownError {
    function Message(): string {
      match this
      case AiConnectionFailed => "AI_CONNECTION_FAILED"
      case AiResponseError => "AI_RESPONSE_ERROR"
      case AiAuthError => "AI_AUTH_ERROR"
      case AiUnknownError => "AI_UNKNOWN_ERROR"
    }

    /** The position of the code's rule in the priority order. */
    function Rank(): nat {
      match this
      case AiConnectionFailed => 0
      case AiResponseError => 1
      case AiAuthError => 2
      case AiUnknownError => 3
    }
  }

  /** The lower-cased message contains one of two phrases. */
  predicate Mentions(message: string, a: string, b: string) {
    Contains(ToLowerAscii(message), a) || Contains(ToLowerAscii(message), b)
  }

  predicate MentionsConnection(message: string) { Mentions(message, "fetch failed", "network") }
  predicate MentionsParse(message: string) { Mentions(message, "invalid json", "parse") }
  predicate MentionsAuth(message: string) { Mentions(message, "api key", "unauthorized") }

  /** `handleError`: the first rule whose phrases it finds in the lower-cased message
      decides; a value that is not an `Error`, or a message matching no rule, is
      unknown. */
  function HandleError(error: Thrown): (code: ErrorCode)
    ensures error.OtherValue? ==> code == AiUnknownError
    ensures error.ErrorObject? ==>
      (code == AiConnectionFailed <==> MentionsConnection(error.message)) &&
      (code == AiResponseError <==> !MentionsConnection(error.message) && MentionsParse(error.message)) &&
      (code == AiAuthError <==>
        !MentionsConnection(error.message) && !MentionsParse(error.message) && MentionsAuth(error.message))
  {
    match error
    case OtherValue => AiUnknownError
    case ErrorObject(message) =>
      if MentionsConnection(message) then AiConnectionFailed
      else if MentionsParse(message) then AiResponseError
      else if MentionsAuth(message) then AiAuthError
      else AiUnknownError
  }

  /** The classification ignores the case of ASCII letters. */
  lemma HandleErrorIgnoresCase(message: string)
    ensures HandleError(ErrorObject(ToLowerAscii(message))) == HandleError(ErrorObject(message))
  {
    assert ToLowerAscii(ToLowerAscii(message)) == ToLowerAscii(message);
  }

  /** Appending text to a message can only move it to an earlier rule, never to a
      later one: a phrase found stays found. */
  lemma HandleErrorExtend(message: string, more: string)
    ensures HandleError(ErrorObject(message + more)).Rank() <= HandleError(ErrorObject(message)).Rank()
  {
    LowerAppend(message, more);
    var lower := ToLowerAscii(message);
    var longer := ToLowerAscii(message + more);
    forall pat | Contains(lower, pat) ensures Contains(longer, pat) {
      ContainsExtend(lower, ToLowerAscii(more), pat);
    }
  }

  lemma ContainsExtend(s: string, t: string, pat: string)
    requires Contains(s, pat)
    ensures Contains(s + t, pat)
  {
    var i: nat :| i <= |s| && OccursAt(s, pat, i);
    assert (s + t)[i..i + |pat|] == s[i..i + |pat|];
    assert OccursAt(s + t, pat, i);
  }

  /** The parse-failure message of `parseResponse` classifies as a response error. */
  lemma ClassifyInvalidJson()
    ensures HandleError(ErrorObject(InvalidJsonMessage)) == AiResponseError
  {
    InvalidJsonNotConnection();
    InvalidJsonMentionsParse();
  }

  lemma InvalidJsonNotConnection()
    ensures !MentionsConnection(InvalidJsonMessage)
  {
    assert !Contains(ToLowerAscii(InvalidJsonMessage), "fetch failed") by { MessageLacks(InvalidJsonMessage, "fetch failed", 'h'); }
    assert !Contains(ToLowerAscii(InvalidJsonMessage), "network") by { MessageLacks(InvalidJsonMessage, "network", 'k'); }
  }

  lemma InvalidJsonMentionsParse()
    ensures MentionsParse(InvalidJsonMessage)
  {
    SplitLower(InvalidJsonMessage, "Invalid JSON", " response from AI");
    SplitLower("Invalid JSON", "Invalid", " JSON");
    assert ToLowerAscii("Invalid") == "invalid";
    assert ToLowerAscii(" JSON") == " json";
    assert "invalid" + " json" == "invalid json";
    PrefixContained("invalid json", ToLowerAscii(" response from AI"));
  }

  lemma SplitLower(m: string, a: string, b: string)
    requires m == a + b
    ensures ToLowerAscii(m) == ToLowerAscii(a) + ToLowerAscii(b)
  {
    LowerAppend(a, b);
  }

  /** A message lacking a letter of a phrase, in either case, does not mention it. */
  lemma MessageLacks(m: string, pat: string, c: char)
    requires 'a' <= c <= 'z' && c in pat
    requires c !in m && (c as int - 32) as char !in m
    ensures !Contains(ToLowerAscii(m), pat)
  {
    LowerLacks(m, c);
    MissingCharNotContained(ToLowerAscii(m), pat, c);
  }

  /** The empty-reply message matches no rule and classifies as unknown. */
  lemma ClassifyEmptyResponse()
    ensures HandleError(ErrorObject(EmptyResponseMessage)) == AiUnknownError
  {
    EmptyResponseNotConnection();
    EmptyResponseNotParse();
    EmptyResponseNotAuth();
  }

  lemma EmptyResponseNotConnection()
    ensures !MentionsConnection(EmptyResponseMessage)
  {
    assert !Contains(ToLowerAscii(EmptyResponseMessage), "fetch failed") by { MessageLacks(EmptyResponseMessage, "fetch failed", 'h'); }
    assert !Contains(ToLowerAscii(EmptyResponseMessage), "network") by { MessageLacks(EmptyResponseMessage, "network", 'k'); }
  }

  lemma EmptyResponseNotParse()
    ensures !MentionsParse(EmptyResponseMessage)
  {
    assert !Contains(ToLowerAscii(EmptyResponseMessage), "invalid json") by { MessageLacks(EmptyResponseMessage, "invalid json", 'v'); }
    EmptyResponseNoParse();
  }

  lemma EmptyResponseNotAuth()
    ensures !MentionsAuth(EmptyResponseMessage)
  {
    assert !Contains(ToLowerAscii(EmptyResponseMessage), "api key") by { MessageLacks(EmptyResponseMessage, "api key", 'k'); }
    assert !Contains(ToLowerAscii(EmptyResponseMessage), "unauthorized") by { MessageLacks(EmptyResponseMessage, "unauthorized", 'z'); }
  }

  /** The only `a` of the message is too close to its end to follow a `p` of `parse`. */
  lemma EmptyResponseNoParse()
    ensures !Contains(ToLowerAscii(EmptyResponseMessage), "parse")
  {
    SplitLower(EmptyResponseMessage, "Empty response from", " AI");
    LowerLacks("Empty response from", 'a');
    MissingInPrefix(ToLowerAscii("Empty response from"), ToLowerAscii(" AI"), "parse", 1);
  }

  /** A transport failure such as `fetch failed: ECONNRESET` classifies as a
      connection failure. */
  lemma ClassifyConnectionReset()
    ensures HandleError(ErrorObject("fetch failed: ECONNRESET")) == AiConnectionFailed
  {
    ConnectionResetMentions();
  }

  lemma ConnectionResetMentions()
    ensures MentionsConnection("fetch failed: ECONNRESET")
  {
    SplitLower("fetch failed: ECONNRESET", "fetch failed", ": ECONNRESET");
    assert ToLowerAscii("fetch failed") == "fetch failed" by {
      SplitLower("fetch failed", "fetch", " failed");
    }
    PrefixContained("fetch failed", ToLowerAscii(": ECONNRESET"));
  }
}
