/** The decision logic of the correction endpoint, `POST` in
    app/api/fix/route.ts:3-64. The environment, the request body and the
    upstream generative-language service are inputs; what remains is which
    upstream request, if any, is sent and which response comes back.

    Every `throw` inside the handler is caught at lines 60-62 and answered
    with status 500. The throws the model distinguishes: JSON parsing,
    member access on `null` or `undefined`, a value that cannot be turned
    into a primitive, calling a method a value lacks, and a status the
    response constructor refuses. */
module FixRoute {
  import opened Text
  import opened Wrappers
  import opened JsStrings

  /** The `text` field of the request body. */
  datatype TextField =
    | Missing                                         // no such field: `undefined`
    | Str(s: string)                                  // a JSON string
    | NonString(truthy: bool, exceeds: Option<bool>, shown: Option<string>)
      // any other JSON value: whether it is truthy; the outcome of comparing
      // its `length` property with 8000 (false for numbers and booleans,
      // which have none; None when the comparison throws, as for a `length`
      // that is an object with no usable `toString` or `valueOf`); and how a
      // template literal renders it (None when that throws, as for an object
      // whose own `toString` is not a function)

  /** What `await req.json()` and the destructuring of line 5 produce. */
  datatype RequestBody =
    | Malformed        // not JSON, or JSON `null`, whose destructuring throws
    | Json(text: TextField)

  /** `data.candidates?.[0]?.content?.parts?.[0]?.text` of line 56. */
  datatype FirstPart =
    | NoText                 // some link of the chain is `null` or `undefined`
    | TextPart(s: string)
    | NotAString             // a number, boolean, array or object: it has no `trim`

  /** The upstream reply body, read by `geminiRes.json()`. */
  datatype Payload =
    | NotJson                // not JSON, or JSON `null`: reading `candidates` throws
    | Parsed(first: FirstPart)

  /** What `fetch` of lines 34-40 yields. */
  datatype Upstream =
    | Unreachable            // the promise rejects
    | Replied(status: int, statusText: string, payload: Payload)

  /** The request sent upstream: the key goes into the URL of line 20, the
      prompt into the single part of the body of lines 22-32. */
  datatype UpstreamRequest = UpstreamRequest(key: string, prompt: string)

  datatype Body =
    | Error(message: string)     // `{ error }`
    | Fixed(fixedText: string)   // `{ fixedText }`

  datatype Response = Response(status: int, body: Body)

  datatype Outcome = Outcome(sent: Option<UpstreamRequest>, response: Response)

  const MaxLength: nat := 8000

  const KeyMissingMessage := "Gemini API key not found. Please add GEMINI_API_KEY to your .env.local file."

  const TextRequiredMessage := "Text to fix is required."

  const TooLongMessage := "Text is too long. Please limit to 8000 characters."

  const InternalMessage := "An internal server error occurred."

  const Fallback := "Could not fix text."

  const UpstreamErrorPrefix := "Gemini API error: "

  const PromptPrefix := "You are an expert in English grammar. Please correct the following text for any grammatical errors and typos. Keep the tone casual and natural - avoid overly formal punctuation like semicolons unless absolutely necessary. Prefer simple sentences with periods or commas. Only return the corrected text, without any introductory phrases or explanations.\n\nOriginal text: \""

  const PromptSuffix := "\"\n\nCorrected text:"

  const InternalError := Response(500, Error(InternalMessage))

  /** `!text` fails: the value is truthy. */
  predicate Truthy(t: TextField) {
    match t
    case Missing => false
    case Str(s) => s != []
    case NonString(truthy, _, _) => truthy
  }

  /** `text.length > 8000`, with the length of a string in UTF-16 code
      units; None when evaluating it throws (reading `length` of `undefined`
      does). */
  function LengthExceeds(t: TextField): (r: Option<bool>)
    ensures t.Str? ==> r == Some(Utf16Length(t.s) > MaxLength)
  {
    match t
    case Missing => None
    case Str(s) => Some(Utf16Length(s) > MaxLength)
    case NonString(_, exceeds, _) => exceeds
  }

  /** `${text}`; None when the conversion to a string throws. */
  function Rendered(t: TextField): (r: Option<string>)
    ensures t.Str? ==> r == Some(t.s)
  {
    match t
    case Missing => Some("undefined")
    case Str(s) => Some(s)
    case NonString(_, _, shown) => shown
  }

  /** The prompt of line 27: the fixed instructions, then the user text
      between double quotes, then the cue for the answer. */
  function Prompt(text: string): (p: string)
    ensures |p| == |PromptPrefix| + |text| + |PromptSuffix|
    ensures p[..|PromptPrefix|] == PromptPrefix
    ensures p[|PromptPrefix|..|PromptPrefix| + |text|] == text
    ensures p[|PromptPrefix| + |text|..] == PromptSuffix
  {
    PromptPrefix + text + PromptSuffix
  }

  /** The user text inside a prompt: what lies between the instructions and
      the cue. */
  function PromptText(p: string): string
    requires |p| >= |PromptPrefix| + |PromptSuffix|
  {
    p[|PromptPrefix|..|p| - |PromptSuffix|]
  }

  /** The user text is carried verbatim: it can be read back from the prompt,
      so two different texts never share a prompt. */
  lemma PromptRoundTrip(text: string)
    ensures PromptText(Prompt(text)) == text
  {
  }

  lemma PromptInjective(a: string, b: string)
    requires Prompt(a) == Prompt(b)
    ensures a == b
  {
    PromptRoundTrip(a);
    PromptRoundTrip(b);
  }

  /** The error message of line 51. */
  function UpstreamErrorMessage(statusText: string, status: nat): (m: string)
    ensures |m| == |UpstreamErrorPrefix| + |statusText| + |DecimalString(status)| + 3
    ensures m[..|UpstreamErrorPrefix|] == UpstreamErrorPrefix
    ensures m[|UpstreamErrorPrefix|..|UpstreamErrorPrefix| + |statusText|] == statusText
    ensures m[|m| - 1] == ')'
  {
    UpstreamErrorPrefix + statusText + " (" + DecimalString(status) + ")"
  }

  /** The digits between the last " (" and the closing parenthesis of an
      upstream error message. */
  function MessageStatus(m: string, statusTextLength: nat): string
    requires |UpstreamErrorPrefix| + statusTextLength + 3 <= |m|
  {
    m[|UpstreamErrorPrefix| + statusTextLength + 2..|m| - 1]
  }

  /** The relayed message names the upstream status: its digits read back as
      that status. */
  lemma UpstreamErrorNamesStatus(statusText: string, status: nat)
    ensures |UpstreamErrorPrefix| + |statusText| + 3 <= |UpstreamErrorMessage(statusText, status)|
    ensures MessageStatus(UpstreamErrorMessage(statusText, status), |statusText|) == DecimalString(status)
    ensures ParseDecimal(MessageStatus(UpstreamErrorMessage(statusText, status), |statusText|)) == status
  {
    var m := UpstreamErrorMessage(statusText, status);
    var d := DecimalString(status);
    assert m == UpstreamErrorPrefix + statusText + " (" + d + ")";
    assert m[|UpstreamErrorPrefix| + |statusText| + 2..|m| - 1] == d;
    DecimalRoundTrip(status);
  }

  /** A status a Fetch `Response` may have; the constructor throws a
      RangeError for any other. */
  predicate ValidStatus(status: int) { 200 <= status <= 599 }

  /** The null-body statuses of the Fetch standard: a `Response` with one of
      them must not have a body, so `NextResponse.json` throws a TypeError. */
  predicate NullBodyStatus(status: int) {
    status == 101 || status == 103 || status == 204 || status == 205 || status == 304
  }

  /** A status `NextResponse.json` can answer with, body and all. */
  predicate Relayable(status: int) { ValidStatus(status) && !NullBodyStatus(status) }

  /** `Response.ok` */
  predicate IsOk(status: int) { 200 <= status <= 299 }

  /** The `fixedText` of line 56: the trimmed text of the first part, or the
      fallback when that is absent or trims to nothing. */
  function FixedText(first: FirstPart): (r: Option<string>)
    ensures first.NotAString? <==> r.None?
    ensures r.Some? ==> r.value != []
  {
    match first
    case NoText => Some(Fallback)
    case TextPart(s) => if Trim(s) != [] then Some(Trim(s)) else Some(Fallback)
    case NotAString => None
  }

  /** Lines 34-58 once the request is sent: relay an upstream error with its
      own status when a JSON response can carry that status, or answer with
      the extracted text. */
  function Relay(upstream: Upstream): (r: Response)
    ensures ValidStatus(r.status)
    ensures r.body.Fixed? ==> r.status == 200 && r.body.fixedText != []
  {
    match upstream
    case Unreachable => InternalError
    case Replied(status, statusText, payload) =>
      if !IsOk(status) then
        if Relayable(status) then Response(status, Error(UpstreamErrorMessage(statusText, status)))
        else InternalError
      else
        match payload
        case NotJson => InternalError
        case Parsed(first) =>
          match FixedText(first)
          case Some(t) => Response(200, Fixed(t))
          case None => InternalError
  }

  /** The handler: parse the body, then check the key, the presence of the
      text and its length in that order, build the prompt, and only then
      call upstream. */
  function Post(key: Option<string>, body: RequestBody, upstream: Upstream): (o: Outcome)
    ensures ValidStatus(o.response.status)
    ensures o.sent.Some? ==> body.Json? && Rendered(body.text).Some?
    ensures o.sent.Some? ==> o.sent.value.prompt == Prompt(Rendered(body.text).value)
    ensures o.sent.Some? ==> key.Some? && o.sent.value.key == key.value
  {
    match body
    case Malformed => Outcome(None, InternalError)
    case Json(text) =>
      if key.None? || key.value == [] then Outcome(None, Response(500, Error(KeyMissingMessage)))
      else if !Truthy(text) then Outcome(None, Response(400, Error(TextRequiredMessage)))
      else
        match LengthExceeds(text)
        case None => Outcome(None, InternalError)
        case Some(tooLong) =>
          if tooLong then Outcome(None, Response(400, Error(TooLongMessage)))
          else
            match Rendered(text)
            case None => Outcome(None, InternalError)
            case Some(shown) => Outcome(Some(UpstreamRequest(key.value, Prompt(shown))), Relay(upstream))
  }

  /** The checks of lines 8-18 pass and line 27 can render the text. */
  predicate Accepted(key: Option<string>, text: TextField) {
    && key.Some? && key.value != [] && Truthy(text)
    && LengthExceeds(text) == Some(false) && Rendered(text).Some?
  }

  /** An upstream request goes out exactly when the body parses, all three
      checks pass and the text renders, and then it carries the key and the
      prompt for the rendered text. */
  lemma SentIffAccepted(key: Option<string>, body: RequestBody, upstream: Upstream)
    ensures Post(key, body, upstream).sent.Some? <==> body.Json? && Accepted(key, body.text)
    ensures body.Json? && Accepted(key, body.text) ==>
      Post(key, body, upstream).sent == Some(UpstreamRequest(key.value, Prompt(Rendered(body.text).value)))
  {
  }

  /** An accepted request is sent, and its answer is what upstream makes of
      it. */
  lemma AcceptedPost(key: string, text: TextField, upstream: Upstream)
    requires Accepted(Some(key), text)
    ensures Post(Some(key), Json(text), upstream)
      == Outcome(Some(UpstreamRequest(key, Prompt(Rendered(text).value))), Relay(upstream))
  {
  }

  /** A truthy text whose length comparison (line 16) or rendering (line 27)
      throws gets the generic 500, and nothing is sent. */
  lemma ThrowingTextNotSent(key: string, text: TextField, upstream: Upstream)
    requires key != [] && Truthy(text)
    requires ThrowsOnText(text)
    ensures Post(Some(key), Json(text), upstream) == Outcome(None, InternalError)
  {
  }

  /** A rejected request sends nothing, so its response cannot depend on the
      upstream service. */
  lemma RejectionIgnoresUpstream(key: Option<string>, body: RequestBody, u1: Upstream, u2: Upstream)
    requires !(body.Json? && Accepted(key, body.text))
    ensures Post(key, body, u1).sent == None
    ensures Post(key, body, u1) == Post(key, body, u2)
  {
  }

  /** Without a key (unset or empty) every parsed request gets the key error,
      whatever its text. */
  lemma MissingKeyFirst(key: Option<string>, text: TextField, upstream: Upstream)
    requires key.None? || key.value == []
    ensures Post(key, Json(text), upstream) == Outcome(None, Response(500, Error(KeyMissingMessage)))
  {
  }

  /** With a key, a falsy text (missing, empty, or another falsy value) is
      refused as absent, before its length is looked at. */
  lemma FalsyTextRefused(key: string, text: TextField, upstream: Upstream)
    requires key != [] && !Truthy(text)
    ensures Post(Some(key), Json(text), upstream) == Outcome(None, Response(400, Error(TextRequiredMessage)))
  {
  }

  /** A non-empty string text is refused as too long exactly when it has more
      than 8000 UTF-16 code units; 8000 itself still goes upstream. */
  lemma LengthLimit(key: string, s: string, upstream: Upstream)
    requires key != [] && s != []
    ensures Post(Some(key), Json(Str(s)), upstream).response == Response(400, Error(TooLongMessage))
        <==> Utf16Length(s) > 8000
    ensures Utf16Length(s) <= 8000 ==>
      Post(Some(key), Json(Str(s)), upstream).sent == Some(UpstreamRequest(key, Prompt(s)))
  {
    PostOnString(key, s, upstream);
    RelayNeverSaysTooLong(upstream);
  }

  /** With a key and a non-empty string text, only the length decides
      between the refusal and the upstream call. */
  lemma PostOnString(key: string, s: string, upstream: Upstream)
    requires key != [] && s != []
    ensures Post(Some(key), Json(Str(s)), upstream)
      == if Utf16Length(s) > MaxLength then Outcome(None, Response(400, Error(TooLongMessage)))
         else Outcome(Some(UpstreamRequest(key, Prompt(s))), Relay(upstream))
  {
    assert Truthy(Str(s));
  }

  /** Upstream answers never look like the length refusal: an upstream error
      message starts with its own prefix. */
  lemma RelayNeverSaysTooLong(upstream: Upstream)
    ensures Relay(upstream) != Response(400, Error(TooLongMessage))
  {
    var r := Relay(upstream);
    if r.body.Error? && r.status == 400 {
      match upstream
      case Replied(status, statusText, _) =>
        var m := UpstreamErrorMessage(statusText, status);
        assert r.body.message == m;
        assert m[..|UpstreamErrorPrefix|] == UpstreamErrorPrefix;
        assert m[0] == 'G';
        assert r.body.message != TooLongMessage by {
          assert TooLongMessage[0] == "Text is too long. Please limit to 8000 characters."[0];
        }
    }
  }

  /** The boundary itself: 8000 characters of the Basic Multilingual Plane
      pass, one more is refused. */
  lemma LengthBoundary(key: string, s: string, c: char, upstream: Upstream)
    requires key != [] && |s| == 8000 && c as int < 0x10000
    requires forall k :: 0 <= k < |s| ==> s[k] as int < 0x10000
    ensures Post(Some(key), Json(Str(s)), upstream).sent.Some?
    ensures Post(Some(key), Json(Str(s + [c])), upstream).response == Response(400, Error(TooLongMessage))
  {
    Utf16LengthOfBmp(s);
    assert forall k :: 0 <= k < |s + [c]| ==> (s + [c])[k] as int < 0x10000 by {
      forall k | 0 <= k < |s + [c]|
        ensures (s + [c])[k] as int < 0x10000
      {
        if k < |s| {
          assert (s + [c])[k] == s[k];
        }
      }
    }
    Utf16LengthOfBmp(s + [c]);
    PostOnString(key, s, upstream);
    PostOnString(key, s + [c], upstream);
  }

  /** A non-ok upstream reply is relayed with its own status and a message
      naming its status text and code when a JSON response can carry that
      status; for any other status (304, or one outside 200..599) building the
      response throws and the answer is the generic 500. */
  lemma UpstreamErrorRelayed(key: string, text: TextField, status: int, statusText: string, payload: Payload)
    requires Accepted(Some(key), text) && !IsOk(status)
    ensures var r := Post(Some(key), Json(text), Replied(status, statusText, payload)).response;
      && (Relayable(status) ==> r == Response(status, Error(UpstreamErrorMessage(statusText, status))))
      && (!Relayable(status) ==> r == InternalError)
  {
    AcceptedPost(key, text, Replied(status, statusText, payload));
  }

  /** A successful reply yields status 200 and a non-empty text with no
      whitespace at either end: the model's trimmed answer, or the fallback
      when the answer is missing or blank. */
  lemma SuccessExtracts(key: string, text: TextField, status: int, statusText: string, s: string)
    requires Accepted(Some(key), text) && IsOk(status)
    ensures var r := Post(Some(key), Json(text), Replied(status, statusText, Parsed(TextPart(s)))).response;
      && r.status == 200
      && r.body.Fixed?
      && IsTrimmedAnswer(r.body.fixedText)
      && (IsBlank(s) ==> r.body.fixedText == Fallback)
      && (!IsBlank(s) ==> r.body.fixedText == Trim(s))
  {
    AcceptedPost(key, text, Replied(status, statusText, Parsed(TextPart(s))));
    var f := Fallback;
    assert !IsSpace(f[0]) && !IsSpace(f[|f| - 1]);
  }

  /** Non-empty, with no whitespace at either end. */
  predicate IsTrimmedAnswer(t: string) {
    |t| > 0 && !IsSpace(t[0]) && !IsSpace(t[|t| - 1])
  }

  /** A reply with no text at all also yields the fallback. */
  lemma MissingAnswerFallsBack(key: string, text: TextField, status: int, statusText: string)
    requires Accepted(Some(key), text) && IsOk(status)
    ensures Post(Some(key), Json(text), Replied(status, statusText, Parsed(NoText))).response
      == Response(200, Fixed(Fallback))
  {
  }

  /** Every throw the model distinguishes ends in the same generic 500: a
      malformed body (even with no key), a text whose length comparison or
      rendering throws, an unreachable upstream, an unreadable reply, an
      answer that is not a string, or an upstream status a JSON response
      cannot carry. */
  lemma FailuresAreInternal(key: Option<string>, body: RequestBody, upstream: Upstream)
    requires || body.Malformed?
             || (body.Json? && key.Some? && key.value != [] && Truthy(body.text) && ThrowsOnText(body.text))
             || (body.Json? && Accepted(key, body.text) && UpstreamFails(upstream))
    ensures Post(key, body, upstream).response == Response(500, Error(InternalMessage))
  {
  }

  /** Line 16 or line 27 throws on the text. */
  predicate ThrowsOnText(text: TextField) {
    LengthExceeds(text).None? || (LengthExceeds(text) == Some(false) && Rendered(text).None?)
  }

  /** What comes back from upstream makes lines 34-58 throw. */
  predicate UpstreamFails(upstream: Upstream) {
    || upstream.Unreachable?
    || (upstream.Replied? && !IsOk(upstream.status) && !Relayable(upstream.status))
    || (upstream.Replied? && IsOk(upstream.status) && upstream.payload.NotJson?)
    || (upstream.Replied? && IsOk(upstream.status) && upstream.payload == Parsed(NotAString))
  }

  /** The statuses the handler can answer with, and the one it never invents:
      a status other than 200, 400 and 500 always comes from upstream. */
  lemma StatusOrigin(key: Option<string>, body: RequestBody, upstream: Upstream)
    ensures var r := Post(key, body, upstream).response;
      r.status !in {200, 400, 500} ==>
        && Post(key, body, upstream).sent.Some?
        && upstream.Replied? && r.status == upstream.status
        && !IsOk(upstream.status) && Relayable(upstream.status)
    ensures Post(key, body, upstream).response.status == 400 ==>
      Post(key, body, upstream).sent.None? || upstream.Replied?
  {
  }
}
