/** The two remote-model operations of the service layer, with the remote
    calls replaced by scripted answers: building the deck from the text
    model's reply, and the image request with its bounded retry policy. */
module GeminiService {
  import opened Wrappers
  import opened Text
  import opened Types

  // ---------------------------------------------------------------------
  // Deck construction
  // ---------------------------------------------------------------------

  /** One slide outline as the text model returns it. */
  datatype Outline = Outline(title: string, content: seq<string>)

  /** A value thrown by a call: an `Error` instance with its message, or anything else. */
  datatype Thrown = ErrorValue(message: string) | OtherValue

  /** What the text request produced, after `JSON.parse` of the trimmed text. */
  datatype TextReply =
    | CallFailed(thrown: Thrown)        // the remote call itself threw
    | Unparsable(parseMessage: string)  // `JSON.parse` threw a SyntaxError
    | NotAnArray                        // the parsed payload is not an array
    | OutlineArray(outlines: seq<Outline>)

  const ApiFailurePrefix: string := "Gemini API call failed: "
  const NotAnArrayMessage: string := "API did not return an array of slides."
  const UnknownApiMessage: string := "An unknown error occurred while communicating with the Gemini API."

  /** The fixed closing slide appended after the model's slides. */
  const ClosingSlide: SlideContent := SlideContent("Thank You!", ["Any Questions?"], None, None)

  /** A parsed outline as a slide: same title and bullets, no image yet. */
  function FromOutline(o: Outline): SlideContent {
    SlideContent(o.title, o.content, None, None)
  }

  /** `generatePresentation`: fails unless the reply is an array of outlines,
      and otherwise returns those slides, in order, followed by the closing slide. */
  function GeneratePresentation(reply: TextReply): (r: Result<seq<SlideContent>, string>)
    ensures r.Success? <==> reply.OutlineArray?
    ensures r.Success? ==>
      && |r.value| == |reply.outlines| + 1
      && (forall i :: 0 <= i < |reply.outlines| ==> r.value[i] == FromOutline(reply.outlines[i]))
      && r.value[|reply.outlines|] == ClosingSlide
    ensures r.Failure? && reply != CallFailed(OtherValue) ==> StartsWith(r.error, ApiFailurePrefix)
    ensures reply.NotAnArray? ==> r == Failure(ApiFailurePrefix + NotAnArrayMessage)
    ensures reply == CallFailed(OtherValue) ==> r == Failure(UnknownApiMessage)
  {
    match reply
    case CallFailed(ErrorValue(m)) => Failure(ApiFailurePrefix + m)
    case CallFailed(OtherValue) => Failure(UnknownApiMessage)
    case Unparsable(m) => Failure(ApiFailurePrefix + m)
    case NotAnArray => Failure(ApiFailurePrefix + NotAnArrayMessage)
    case OutlineArray(outlines) => Success(seq(|outlines|, i requires 0 <= i < |outlines| => FromOutline(outlines[i])) + [ClosingSlide])
  }

  /** Every slide of a freshly built deck is without image and image error. */
  lemma GeneratedDeckHasNoImages(reply: TextReply)
    requires reply.OutlineArray?
    ensures forall s :: s in GeneratePresentation(reply).value ==> s.imageUrl.None? && s.imageError.None?
  {
  }

  // ---------------------------------------------------------------------
  // Closing-slide detection
  // ---------------------------------------------------------------------

  /** The title test `/^(thank you|q&a|questions|conclusion)/i`: a
      case-insensitive prefix match anchored at the start of the title. */
  predicate IsGenericSlide(title: string) {
    var t := Lower(title);
    StartsWith(t, "thank you") || StartsWith(t, "q&a") || StartsWith(t, "questions") || StartsWith(t, "conclusion")
  }

  /** What the image for a slide depicts: an abstract backdrop for the
      overall topic on a closing slide, the slide's own content otherwise. */
  datatype ImageSubject = TopicBackdrop(topic: string) | SlideSubject(title: string, content: seq<string>)

  function ImageSubjectFor(title: string, content: seq<string>, topic: string): (s: ImageSubject)
    ensures s.TopicBackdrop? <==> IsGenericSlide(title)
    ensures s.TopicBackdrop? ==> s.topic == topic
    ensures s.SlideSubject? ==> s.title == title && s.content == content
  {
    if IsGenericSlide(title) then TopicBackdrop(topic) else SlideSubject(title, content)
  }

  /** The appended closing slide is recognised as generic, so its image is a topic backdrop. */
  lemma ClosingSlideIsGeneric(topic: string)
    ensures IsGenericSlide(ClosingSlide.title)
    ensures ImageSubjectFor(ClosingSlide.title, ClosingSlide.content, topic) == TopicBackdrop(topic)
  {
    var t := Lower(ClosingSlide.title);
    assert t[..9] == "thank you";
  }

  /** The match ignores case: a title and its lower-cased form are classified alike. */
  lemma GenericIgnoresCase(title: string)
    ensures IsGenericSlide(title) <==> IsGenericSlide(Lower(title))
  {
    LowerIdempotent(title);
  }

  /** Lower-casing distributes over concatenation. */
  lemma LowerAppend(a: string, b: string)
    ensures Lower(a + b) == Lower(a) + Lower(b)
  {
    assert forall i :: 0 <= i < |a + b| ==> Lower(a + b)[i] == (Lower(a) + Lower(b))[i];
  }

  /** Only the start of the title matters: anything may follow a generic prefix. */
  lemma GenericIsPrefixClosed(title: string, rest: string)
    requires IsGenericSlide(title)
    ensures IsGenericSlide(title + rest)
  {
    LowerAppend(title, rest);
    var t, u := Lower(title), Lower(title + rest);
    assert u == t + Lower(rest);
    forall p: string | StartsWith(t, p)
      ensures StartsWith(u, p)
    {
      assert u[..|p|] == t[..|p|];
    }
  }

  /** The match is anchored: a keyword later in the title does not count. */
  lemma GenericIsAnchored()
    ensures IsGenericSlide("Questions?")
    ensures !IsGenericSlide("Any Questions?")
  {
    assert Lower("Questions?")[..9] == "questions";
    var t := Lower("Any Questions?");
    assert t[0] == 'a';
    assert !StartsWith(t, "thank you") by { assert t[..9][0] == 'a'; }
    assert !StartsWith(t, "q&a") by { assert t[..3][0] == 'a'; }
    assert !StartsWith(t, "questions") by { assert t[..9][0] == 'a'; }
    assert !StartsWith(t, "conclusion") by { assert t[..10][0] == 'a'; }
  }

  // ---------------------------------------------------------------------
  // Image generation with bounded retry
  // ---------------------------------------------------------------------

  const MaxRetries: nat := 3
  const BackoffBaseMs: nat := 4000
  const ImageDataPrefix: string := "data:image/png;base64,"
  const BlockedMessage: string := "Image generation was blocked due to safety filters."
  const QuotaMessage: string := "API quota exceeded. Please check your plan and try again later."
  const PersistentMessage: string := "A persistent API error occurred. Please try again later."

  /** One part of the first response candidate; `inlineData` holds the
      base64 image data when the part is an image. */
  datatype Part = Part(inlineData: Option<string>)

  /** A thrown error as the retry loop sees it: `JSON.stringify` of it (None
      when that yields `undefined`) and its `message` when that is a string. */
  datatype ThrownError = ThrownError(stringified: Option<string>, message: Option<string>)

  /** The outcome of one image request: a response (with the parts of its
      first candidate, empty when there is none) or a thrown error. */
  datatype AttemptOutcome = Responded(parts: seq<Part>) | Threw(error: ThrownError)

  /** `{ imageUrl, error }`, with `null` as None. */
  datatype ImageResult = ImageResult(imageUrl: Option<string>, error: Option<string>)

  /** The result, the number of requests issued, and the backoff delays awaited, in order. */
  datatype ImageRun = ImageRun(result: ImageResult, attempts: nat, delays: seq<nat>)

  predicate ExactlyOne(r: ImageResult) {
    r.imageUrl.Some? != r.error.Some?
  }

  /** The data of the first part that carries inline image data. */
  function FirstInlineData(parts: seq<Part>): (r: Option<string>)
    ensures r.None? <==> forall i :: 0 <= i < |parts| ==> parts[i].inlineData.None?
    ensures r.Some? ==> exists i :: 0 <= i < |parts| && parts[i].inlineData == r
                                     && forall j :: 0 <= j < i ==> parts[j].inlineData.None?
  {
    if |parts| == 0 then None
    else if parts[0].inlineData.Some? then parts[0].inlineData
    else
      var r := FirstInlineData(parts[1..]);
      assert r.Some? ==> exists i :: 1 <= i < |parts| && parts[i].inlineData == r
                                     && forall j :: 0 <= j < i ==> parts[j].inlineData.None? by {
        if r.Some? {
          var i :| 0 <= i < |parts[1..]| && parts[1..][i].inlineData == r
                   && forall j :: 0 <= j < i ==> parts[1..][j].inlineData.None?;
          assert forall j :: 0 <= j < i + 1 ==> parts[j].inlineData.None? by {
            forall j | 0 <= j < i + 1 ensures parts[j].inlineData.None? {
              if j > 0 { assert parts[j] == parts[1..][j - 1]; }
            }
          }
        }
      }
      r
  }

  /** The lower-cased stringified error, the text the retry decision reads. */
  function ClassificationText(e: ThrownError): string {
    Lower(e.stringified.GetOr(""))
  }

  /** A rate-limit or server error, judged from the stringified error. */
  predicate IsRetriable(e: ThrownError) {
    var text := ClassificationText(e);
    Contains(text, "resource_exhausted") || Contains(text, "429") || Contains(text, "500") || Contains(text, "unknown")
  }

  function Pow2(n: nat): nat {
    if n == 0 then 1 else 2 * Pow2(n - 1)
  }

  /** `Math.pow(2, attempt) * 4000`. */
  function BackoffDelay(attempt: nat): nat {
    Pow2(attempt) * BackoffBaseMs
  }

  /** The delays awaited after the first and second attempts. */
  const BackoffSchedule: seq<nat> := [8000, 16000]

  /** The error text after the loop gave up: the quota message exactly when
      the last error's `message` (not its stringified form) mentions resource exhaustion. */
  function FailureMessage(lastError: ThrownError): (msg: string)
    ensures msg == QuotaMessage || msg == PersistentMessage
    ensures msg == QuotaMessage <==>
      lastError.message.Some? && Contains(Lower(lastError.message.value), "resource_exhausted")
  {
    if lastError.message.Some? && Contains(Lower(lastError.message.value), "resource_exhausted")
    then QuotaMessage
    else PersistentMessage
  }

  /** The result of an attempt that got a response: the first image part, or the fixed safety-filter message. */
  function ResponseResult(parts: seq<Part>): (r: ImageResult)
    ensures ExactlyOne(r)
    ensures r.imageUrl.Some? <==> exists i :: 0 <= i < |parts| && parts[i].inlineData.Some?
    ensures r.imageUrl.Some? ==> r.imageUrl == Some(ImageDataPrefix + FirstInlineData(parts).value)
    ensures r.imageUrl.None? ==> r.error == Some(BlockedMessage)
  {
    match FirstInlineData(parts)
    case Some(data) => ImageResult(Some(ImageDataPrefix + data), None)
    case None => ImageResult(None, Some(BlockedMessage))
  }

  /** Attempt `a` with outcome `o` leads to another attempt. */
  predicate Retries(o: AttemptOutcome, a: nat) {
    o.Threw? && IsRetriable(o.error) && a < MaxRetries
  }

  /** Attempt `a` with outcome `o` ends the loop with `result`. */
  predicate Concludes(o: AttemptOutcome, a: nat, result: ImageResult) {
    match o
    case Responded(parts) => result == ResponseResult(parts)
    case Threw(e) => !Retries(o, a) && result == ImageResult(None, Some(FailureMessage(e)))
  }

  /** The retry loop from attempt `attempt` on; `respond(a)` is the outcome of attempt `a`. */
  function Attempts(respond: nat -> AttemptOutcome, attempt: nat): (run: ImageRun)
    requires 1 <= attempt <= MaxRetries
    ensures attempt <= run.attempts <= MaxRetries
    ensures |run.delays| == run.attempts - attempt
    ensures forall k :: 0 <= k < |run.delays| ==> run.delays[k] == BackoffDelay(attempt + k)
    ensures forall a :: attempt <= a < run.attempts ==> Retries(respond(a), a)
    ensures Concludes(respond(run.attempts), run.attempts, run.result)
    decreases MaxRetries - attempt
  {
    match respond(attempt)
    case Responded(parts) => ImageRun(ResponseResult(parts), attempt, [])
    case Threw(e) =>
      if IsRetriable(e) && attempt < MaxRetries then
        var rest := Attempts(respond, attempt + 1);
        ImageRun(rest.result, rest.attempts, [BackoffDelay(attempt)] + rest.delays)
      else
        ImageRun(ImageResult(None, Some(FailureMessage(e))), attempt, [])
  }

  /** `generateImage`: at most three requests, backoff delays drawn from the
      8 s / 16 s schedule, every attempt but the last a retriable error, and
      exactly one of image and error in the result. */
  function GenerateImage(respond: nat -> AttemptOutcome): (run: ImageRun)
    ensures 1 <= run.attempts <= MaxRetries
    ensures run.delays == BackoffSchedule[..run.attempts - 1]
    ensures forall a :: 1 <= a < run.attempts ==> respond(a).Threw? && IsRetriable(respond(a).error)
    ensures Concludes(respond(run.attempts), run.attempts, run.result)
    ensures ExactlyOne(run.result)
  {
    var run := Attempts(respond, 1);
    assert BackoffDelay(1) == 8000 && BackoffDelay(2) == 16000;
    assert run.delays == BackoffSchedule[..run.attempts - 1];
    run
  }

  /** An image part in the first response ends the call at once with that
      image (the first image part wins), after one request and no delay. */
  lemma FirstResponseWithImage(respond: nat -> AttemptOutcome, i: nat)
    requires respond(1).Responded?
    requires i < |respond(1).parts| && respond(1).parts[i].inlineData.Some?
    requires forall j :: 0 <= j < i ==> respond(1).parts[j].inlineData.None?
    ensures GenerateImage(respond) ==
      ImageRun(ImageResult(Some(ImageDataPrefix + respond(1).parts[i].inlineData.value), None), 1, [])
  {
    var parts := respond(1).parts;
    var r := FirstInlineData(parts);
    var w :| 0 <= w < |parts| && parts[w].inlineData == r && forall j :: 0 <= j < w ==> parts[j].inlineData.None?;
    assert w == i;
  }

  /** A response without an image part is not retried: the call ends on that
      attempt with the safety-filter message and no further delay. */
  lemma MissingImageIsNotRetried(respond: nat -> AttemptOutcome, a: nat)
    requires 1 <= a <= MaxRetries
    requires respond(a).Responded? && forall i :: 0 <= i < |respond(a).parts| ==> respond(a).parts[i].inlineData.None?
    requires forall b :: 1 <= b < a ==> respond(b).Threw? && IsRetriable(respond(b).error)
    ensures GenerateImage(respond) == ImageRun(ImageResult(None, Some(BlockedMessage)), a, BackoffSchedule[..a - 1])
  {
    var run := GenerateImage(respond);
    assert !Retries(respond(a), a);
    assert run.attempts < a ==> Retries(respond(run.attempts), run.attempts);
  }

  /** A first error that is not retriable ends the call after one request and no delay. */
  lemma NonRetriableFirstError(respond: nat -> AttemptOutcome)
    requires respond(1).Threw? && !IsRetriable(respond(1).error)
    ensures GenerateImage(respond) == ImageRun(ImageResult(None, Some(FailureMessage(respond(1).error))), 1, [])
  {
  }

  /** Three retriable errors in a row exhaust the budget: three requests,
      delays of 8 s and 16 s, and the failure text chosen from the third error. */
  lemma RetryBudgetExhausted(respond: nat -> AttemptOutcome)
    requires forall a :: 1 <= a <= MaxRetries ==> respond(a).Threw? && IsRetriable(respond(a).error)
    ensures GenerateImage(respond) ==
      ImageRun(ImageResult(None, Some(FailureMessage(respond(3).error))), 3, [8000, 16000])
  {
    var run := GenerateImage(respond);
    assert run.attempts < 3 ==> Retries(respond(run.attempts), run.attempts);
  }

  /** Two retriable errors and then an image: success on the third request,
      after waiting 8 s and then 16 s. */
  lemma TwoRetriableThenImage(respond: nat -> AttemptOutcome, data: string)
    requires respond(1).Threw? && IsRetriable(respond(1).error)
    requires respond(2).Threw? && IsRetriable(respond(2).error)
    requires respond(3) == Responded([Part(Some(data))])
    ensures GenerateImage(respond) == ImageRun(ImageResult(Some(ImageDataPrefix + data), None), 3, [8000, 16000])
  {
    var run := GenerateImage(respond);
    assert run.attempts < 3 ==> Retries(respond(run.attempts), run.attempts);
  }

  /** The retry test looks for its tokens anywhere in the stringified error,
      in any letter case; an error that does not stringify (`undefined`) is
      never retried. */
  lemma RetriableWhereverTokenAppears(before: string, t: string, after: string, m: Option<string>)
    requires Lower(t) == "resource_exhausted" || Lower(t) == "429" || Lower(t) == "500" || Lower(t) == "unknown"
    ensures IsRetriable(ThrownError(Some(before + t + after), m))
    ensures !IsRetriable(ThrownError(None, m))
  {
    LowerAppend(before + t, after);
    LowerAppend(before, t);
    var text := Lower(before + t + after);
    assert text[|before|..|before| + |t|] == Lower(t);
    ContainsAt(text, Lower(t), |before|);
    assert ClassificationText(ThrownError(None, m)) == "";
  }

  /** The retry decision and the message choice read different fields: an
      error whose stringified form is `{}` but whose message reports
      RESOURCE_EXHAUSTED is not retried, yet gets the quota message. */
  lemma ClassificationIgnoresMessage()
    ensures var e := ThrownError(Some("{}"), Some("RESOURCE_EXHAUSTED"));
      && !IsRetriable(e)
      && GenerateImage(_ => Threw(e)) == ImageRun(ImageResult(None, Some(QuotaMessage)), 1, [])
  {
    var e := ThrownError(Some("{}"), Some("RESOURCE_EXHAUSTED"));
    EmptyObjectIsNotRetriable(e.message);
    UpperCaseQuotaMessage(e.stringified);
  }

  lemma EmptyObjectIsNotRetriable(m: Option<string>)
    ensures !IsRetriable(ThrownError(Some("{}"), m))
  {
    var t := ClassificationText(ThrownError(Some("{}"), m));
    assert t == "{}";
    assert !Contains(t, "429") && !Contains(t, "500") && !Contains(t, "unknown") && !Contains(t, "resource_exhausted");
  }

  lemma UpperCaseQuotaMessage(stringified: Option<string>)
    ensures FailureMessage(ThrownError(stringified, Some("RESOURCE_EXHAUSTED"))) == QuotaMessage
  {
    assert Lower("RESOURCE_EXHAUSTED") == "resource_exhausted";
    ContainsAt(Lower("RESOURCE_EXHAUSTED"), "resource_exhausted", 0);
  }
}
