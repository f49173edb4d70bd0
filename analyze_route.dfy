/** The `POST` handler of `src/app/api/analyze/route.ts`: it reads `imageBase64`,
    `mimeType` and `language` from the JSON body, answers 400 when there is no image,
    unwraps a `data:` URL into its MIME type and base64 payload, and hands the rest to
    the analysis function of `src/lib/gemini.ts`, answering 500 with the thrown message
    when that fails. */
module AnalyzeRoute {
  import opened Wrappers
  import opened Strings
  import opened JsonValues
  import opened Oracle
  import Gemini

  // ---------------------------------------------------------------------------
  // The data-URL pattern: ^data:([a-zA-Z0-9]+\/[a-zA-Z0-9-.+]+);base64,(.+)$
  // ---------------------------------------------------------------------------

  predicate IsAlnum(c: char) {
    'a' <= c <= 'z' || 'A' <= c <= 'Z' || '0' <= c <= '9'
  }

  /** The subtype class: letters, digits, `-`, `.` and `+`. */
  predicate IsSubtypeChar(c: char) {
    IsAlnum(c) || c == '-' || c == '.' || c == '+'
  }

  /** The characters `.` does not match. */
  predicate IsLineTerminator(c: char) {
    c == '\n' || c == '\r' || c == '\U{2028}' || c == '\U{2029}'
  }

  /** A MIME type as the first group captures it: a type of letters and digits, a
      slash, and a subtype from the subtype class, both non-empty. */
  ghost predicate IsMimeType(m: string) {
    exists t: nat :: 0 < t < |m| - 1 && m[t] == '/' &&
      (forall i :: 0 <= i < t ==> IsAlnum(m[i])) && (forall i :: t < i < |m| ==> IsSubtypeChar(m[i]))
  }

  /** A payload as the second group captures it: at least one character, none a line
      terminator (the `$` has no multiline flag, so it is the end of the text). */
  ghost predicate IsPayload(p: string) {
    p != [] && forall i :: 0 <= i < |p| ==> !IsLineTerminator(p[i])
  }

  datatype DataUrl = DataUrl(mimeType: string, payload: string)

  function HasLineTerminator(s: string): (b: bool)
    ensures b <==> exists i :: 0 <= i < |s| && IsLineTerminator(s[i])
  {
    if s == [] then false
    else if IsLineTerminator(s[0]) then true
    else
      var b := HasLineTerminator(s[1..]);
      assert forall i :: 1 <= i < |s| ==> s[i] == s[1..][i - 1];
      b
  }

  /** The match of the anchored pattern, if any. Both runs are maximal: the character
      after a shorter type run would be a letter or digit where `/` is needed, and the
      one after a shorter subtype run a subtype character where `;` is needed. */
  function ParseDataUrl(s: string): (r: Option<DataUrl>)
    ensures r.Some? ==> s == "data:" + r.value.mimeType + ";base64," + r.value.payload
    ensures r.Some? ==> IsMimeType(r.value.mimeType) && IsPayload(r.value.payload)
    ensures r.Some? ==> ';' !in r.value.mimeType
  {
    if !StartsWith(s, "data:") then None
    else
      var r := SplitMime(s[5..]);
      if r.Some? then
        SchemeJoin(s, r.value.mimeType, r.value.payload);
        r
      else r
  }

  /** The part after `data:`: the type run, `/`, then the rest. */
  function SplitMime(rest: string): (r: Option<DataUrl>)
    ensures r.Some? ==> rest == r.value.mimeType + ";base64," + r.value.payload
    ensures r.Some? ==> IsMimeType(r.value.mimeType) && IsPayload(r.value.payload)
    ensures r.Some? ==> ';' !in r.value.mimeType
  {
    var t := Span(rest, IsAlnum);
    if t == 0 || t >= |rest| || rest[t] != '/' then None
    else match SplitSubtype(rest[t + 1..])
      case None => None
      case Some(parts) =>
        MimeOfParts(rest, t, parts.0);
        Regroup(rest, t + 1, parts.0, parts.1);
        Some(DataUrl(rest[..t + 1] + parts.0, parts.1))
  }

  /** A type run and its slash followed by a subtype run form a MIME type without `;`. */
  lemma MimeOfParts(rest: string, t: nat, subtype: string)
    requires 0 < t < |rest| && rest[t] == '/' && forall i :: 0 <= i < t ==> IsAlnum(rest[i])
    requires subtype != [] && forall i :: 0 <= i < |subtype| ==> IsSubtypeChar(subtype[i])
    ensures IsMimeType(rest[..t + 1] + subtype) && ';' !in rest[..t + 1] + subtype
  {
    var m := rest[..t + 1] + subtype;
    assert forall i :: 0 <= i <= t ==> m[i] == rest[i];
    assert forall i :: t < i < |m| ==> m[i] == subtype[i - t - 1];
    assert 0 < t < |m| - 1 && m[t] == '/';
  }

  /** The type run and slash, put back in front of the subtype. */
  lemma Regroup(rest: string, n: nat, subtype: string, payload: string)
    requires n <= |rest| && rest[n..] == subtype + ";base64," + payload
    ensures rest == (rest[..n] + subtype) + ";base64," + payload
  {
    assert rest == rest[..n] + rest[n..];
  }

  /** The part after the slash: the subtype run, `;base64,`, then the payload. */
  function SplitSubtype(after: string): (r: Option<(string, string)>)
    ensures r.Some? ==> after == r.value.0 + ";base64," + r.value.1
    ensures r.Some? ==> r.value.0 != [] && (forall i :: 0 <= i < |r.value.0| ==> IsSubtypeChar(r.value.0[i]))
    ensures r.Some? ==> IsPayload(r.value.1)
  {
    var u := Span(after, IsSubtypeChar);
    if u == 0 || !StartsWith(after[u..], ";base64,") then None
    else
      var payload := after[u + 8..];
      if payload == [] || HasLineTerminator(payload) then None
      else
        assert after == after[..u] + after[u..];
        assert after[u..] == after[u..][..8] + payload;
        Some((after[..u], payload))
  }

  /** A MIME type, such as every extracted one, holds exactly one `/`. */
  lemma MimeTypeOneSlash(m: string)
    requires IsMimeType(m)
    ensures '/' in m && forall i, j :: 0 <= i < |m| && 0 <= j < |m| && m[i] == '/' && m[j] == '/' ==> i == j
  {
    var t: nat :| 0 < t < |m| - 1 && m[t] == '/' &&
      (forall i :: 0 <= i < t ==> IsAlnum(m[i])) && (forall i :: t < i < |m| ==> IsSubtypeChar(m[i]));
    forall i | 0 <= i < |m| && i != t ensures m[i] != '/' {
      if i < t { assert IsAlnum(m[i]); } else { assert IsSubtypeChar(m[i]); }
    }
  }

  lemma SubtypeRoundTrip(subtype: string, payload: string)
    requires subtype != [] && forall i :: 0 <= i < |subtype| ==> IsSubtypeChar(subtype[i])
    requires IsPayload(payload)
    ensures SplitSubtype(subtype + ";base64," + payload) == Some((subtype, payload))
  {
    var tail := ";base64," + payload;
    assert subtype + ";base64," + payload == subtype + tail;
    SpanOfRun(subtype, tail, IsSubtypeChar);
    assert (subtype + tail)[|subtype|..] == tail;
    assert tail[..8] == ";base64,";
    assert (subtype + tail)[|subtype| + 8..] == payload;
    assert (subtype + tail)[..|subtype|] == subtype;
  }

  lemma MimeRoundTrip(mediaType: string, subtype: string, payload: string)
    requires mediaType != [] && forall i :: 0 <= i < |mediaType| ==> IsAlnum(mediaType[i])
    requires subtype != [] && forall i :: 0 <= i < |subtype| ==> IsSubtypeChar(subtype[i])
    requires IsPayload(payload)
    ensures SplitMime(mediaType + "/" + subtype + ";base64," + payload) == Some(DataUrl(mediaType + "/" + subtype, payload))
  {
    var after := subtype + ";base64," + payload;
    AfterSlash(mediaType, after);
    assert mediaType + "/" + subtype + ";base64," + payload == (mediaType + "/") + after;
    SubtypeRoundTrip(subtype, payload);
  }

  /** The type run of `type/…` ends at the slash. */
  lemma AfterSlash(mediaType: string, after: string)
    requires mediaType != [] && forall i :: 0 <= i < |mediaType| ==> IsAlnum(mediaType[i])
    ensures var rest := (mediaType + "/") + after;
      Span(rest, IsAlnum) == |mediaType| && rest[|mediaType|] == '/' &&
      rest[..|mediaType| + 1] == mediaType + "/" && rest[|mediaType| + 1..] == after
  {
    assert (mediaType + "/") + after == mediaType + ("/" + after);
    SpanOfRun(mediaType, "/" + after, IsAlnum);
  }

  /** Round trip: the URL built from a type, a subtype and a payload of the right shape
      splits back into exactly `type/subtype` and the payload. */
  lemma DataUrlRoundTrip(mediaType: string, subtype: string, payload: string)
    requires mediaType != [] && forall i :: 0 <= i < |mediaType| ==> IsAlnum(mediaType[i])
    requires subtype != [] && forall i :: 0 <= i < |subtype| ==> IsSubtypeChar(subtype[i])
    requires IsPayload(payload)
    ensures ParseDataUrl("data:" + mediaType + "/" + subtype + ";base64," + payload) ==
      Some(DataUrl(mediaType + "/" + subtype, payload))
  {
    var rest := mediaType + "/" + subtype + ";base64," + payload;
    SchemeSplit(rest);
    assert "data:" + mediaType + "/" + subtype + ";base64," + payload == "data:" + rest;
    MimeRoundTrip(mediaType, subtype, payload);
  }

  lemma SchemeJoin(s: string, mime: string, payload: string)
    requires StartsWith(s, "data:") && s[5..] == mime + ";base64," + payload
    ensures s == "data:" + mime + ";base64," + payload
  {
    assert s == s[..5] + s[5..];
  }

  lemma SchemeSplit(rest: string)
    ensures StartsWith("data:" + rest, "data:") && ("data:" + rest)[5..] == rest
  {
    assert ("data:" + rest)[..5] == "data:";
  }

  /** A `data:` text whose subtype is not followed by `;base64,` (no marker at all,
      or a parameter such as `;charset=utf-8` before it) does not match. */
  lemma DataUrlNeedsMarker(mediaType: string, subtype: string, rest: string)
    requires mediaType != [] && forall i :: 0 <= i < |mediaType| ==> IsAlnum(mediaType[i])
    requires subtype != [] && forall i :: 0 <= i < |subtype| ==> IsSubtypeChar(subtype[i])
    requires rest == [] || !IsSubtypeChar(rest[0])
    requires !StartsWith(rest, ";base64,")
    ensures ParseDataUrl("data:" + mediaType + "/" + subtype + rest) == None
  {
    var m := (mediaType + "/") + (subtype + rest);
    SchemeSplit(m);
    assert "data:" + mediaType + "/" + subtype + rest == "data:" + m;
    MimeNeedsMarker(mediaType, subtype, rest);
  }

  lemma MimeNeedsMarker(mediaType: string, subtype: string, rest: string)
    requires mediaType != [] && forall i :: 0 <= i < |mediaType| ==> IsAlnum(mediaType[i])
    requires subtype != [] && forall i :: 0 <= i < |subtype| ==> IsSubtypeChar(subtype[i])
    requires rest == [] || !IsSubtypeChar(rest[0])
    requires !StartsWith(rest, ";base64,")
    ensures SplitMime((mediaType + "/") + (subtype + rest)).None?
  {
    AfterSlash(mediaType, subtype + rest);
    SubtypeNeedsMarker(subtype, rest);
  }

  lemma SubtypeNeedsMarker(subtype: string, rest: string)
    requires subtype != [] && forall i :: 0 <= i < |subtype| ==> IsSubtypeChar(subtype[i])
    requires rest == [] || !IsSubtypeChar(rest[0])
    requires !StartsWith(rest, ";base64,")
    ensures SplitSubtype(subtype + rest).None?
  {
    SpanOfRun(subtype, rest, IsSubtypeChar);
    assert (subtype + rest)[|subtype|..] == rest;
  }

  /** An empty payload does not match. */
  lemma DataUrlEmptyPayload(mediaType: string, subtype: string)
    requires mediaType != [] && forall i :: 0 <= i < |mediaType| ==> IsAlnum(mediaType[i])
    requires subtype != [] && forall i :: 0 <= i < |subtype| ==> IsSubtypeChar(subtype[i])
    ensures ParseDataUrl("data:" + mediaType + "/" + subtype + ";base64,") == None
  {
    var m := (mediaType + "/") + (subtype + ";base64,");
    SchemeSplit(m);
    assert "data:" + mediaType + "/" + subtype + ";base64," == "data:" + m;
    AfterSlash(mediaType, subtype + ";base64,");
    SpanOfRun(subtype, ";base64,", IsSubtypeChar);
    assert (subtype + ";base64,")[|subtype| + 8..] == [];
  }

  // ---------------------------------------------------------------------------
  // The handler.
  // ---------------------------------------------------------------------------

  /** The request body: unreadable (`req.json()` threw), or the three fields, each
      absent or a string. */
  datatype Body = Unreadable(reason: string) | Fields(imageBase64: Option<string>, mimeType: Option<string>, language: Option<string>)

  datatype HttpResponse =
    | Ok(result: Json)
    | BadRequest(message: string)
    | ServerError(message: string, error: string)

  const ImageRequiredMessage := "Image data is required"
  const AnalysisFailedMessage := "Failed to analyze image"

  /** What the analysis function receives as its image and MIME type: a matching data
      URL is replaced by its parts, anything else is passed on as it came. */
  function Unwrap(imageBase64: string, mimeType: Option<string>): (string, Option<string>) {
    if StartsWith(imageBase64, "data:") then
      match ParseDataUrl(imageBase64)
      case Some(url) => (url.payload, Some(url.mimeType))
      case None => (imageBase64, mimeType)
    else (imageBase64, mimeType)
  }

  /** Either the image is handed on untouched, or it was a data URL that is exactly
      `data:` + the new MIME type + `;base64,` + the new image, and that MIME type is
      well formed. */
  lemma UnwrapSound(imageBase64: string, mimeType: Option<string>)
    ensures var (image, mime) := Unwrap(imageBase64, mimeType);
      (image, mime) == (imageBase64, mimeType) ||
      (mime.Some? && IsMimeType(mime.value) && IsPayload(image) && imageBase64 == "data:" + mime.value + ";base64," + image)
  {
  }

  /** A well-formed data URL is split into its payload and its MIME type, whatever MIME
      type the body named. */
  lemma UnwrapDataUrl(mediaType: string, subtype: string, payload: string, mimeType: Option<string>)
    requires mediaType != [] && forall i :: 0 <= i < |mediaType| ==> IsAlnum(mediaType[i])
    requires subtype != [] && forall i :: 0 <= i < |subtype| ==> IsSubtypeChar(subtype[i])
    requires IsPayload(payload)
    ensures Unwrap("data:" + mediaType + "/" + subtype + ";base64," + payload, mimeType) ==
      (payload, Some(mediaType + "/" + subtype))
  {
    DataUrlRoundTrip(mediaType, subtype, payload);
  }

  /** Text that does not start with `data:` is handed on as it came. */
  lemma UnwrapPlain(imageBase64: string, mimeType: Option<string>)
    requires !StartsWith(imageBase64, "data:")
    ensures Unwrap(imageBase64, mimeType) == (imageBase64, mimeType)
  {
  }

  /** The default parameter of the analysis function applies only to an absent value;
      any string other than `zh` selects English. */
  function LanguageOf(language: Option<string>): Language {
    match language
    case None => Zh
    case Some(tag) => if tag == "zh" then Zh else En
  }

  /** `POST`: the response, and the image and MIME type handed on (none when the
      handler stopped before calling the analysis). */
  method Post(body: Body, environmentKey: Option<string>, call: CallOutcome, decode: Decoder)
    returns (forwarded: Option<(string, Option<string>)>, response: HttpResponse)
    ensures body.Unreadable? ==> forwarded.None? && response == ServerError(AnalysisFailedMessage, body.reason)
    ensures body.Fields? && body.imageBase64.GetOr("") == "" ==>
      forwarded.None? && response == BadRequest(ImageRequiredMessage)
    ensures body.Fields? && body.imageBase64.GetOr("") != "" ==>
      forwarded == Some(Unwrap(body.imageBase64.value, body.mimeType))
    ensures forwarded.Some? ==>
      var outcome := if environmentKey.GetOr("") == "" then Failure(Gemini.MissingKeyMessage)
                     else Gemini.Attempt(call, decode, Gemini.AnalyzeFailedMessage);
      response == (if outcome.Success? then Ok(outcome.value) else ServerError(AnalysisFailedMessage, outcome.error))
  {
    if body.Unreadable? {
      return None, ServerError(AnalysisFailedMessage, body.reason);
    }
    var imageBase64 := body.imageBase64.GetOr("");
    var mimeType := body.mimeType;
    if imageBase64 == "" {
      return None, BadRequest(ImageRequiredMessage);
    }
    if StartsWith(imageBase64, "data:") {
      var matches := ParseDataUrl(imageBase64);
      if matches.Some? {
        mimeType := Some(matches.value.mimeType);
        imageBase64 := matches.value.payload;
      }
    }
    assert (imageBase64, mimeType) == Unwrap(body.imageBase64.value, body.mimeType);
    forwarded := Some((imageBase64, mimeType));
    var _, result := Gemini.AnalyzeImage(environmentKey, imageBase64, mimeType, Some(LanguageOf(body.language)),
                                         call, decode);
    match result {
      case Success(value) => response := Ok(value);
      case Failure(message) => response := ServerError(AnalysisFailedMessage, message);
    }
  }
}
