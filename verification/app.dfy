/** The application state and its handlers: navigation, image uploads, the
    generation run (text, then images one slide at a time), and saving and
    loading the session through browser storage. */
module App {
  import opened Wrappers
  import opened Types
  import GeminiService
  import ControlsPanel
  import PresentationView

  // ---------------------------------------------------------------------
  // State
  // ---------------------------------------------------------------------

  /** The entry stored under the session key, as `JSON.parse` sees it. */
  datatype Blob =
    | EmptyText   // an empty string: falsy, so treated as no entry
    | Unparsable  // `JSON.parse` throws
    | JsonNull    // parses to `null`: reading a field of it throws
    | SessionJson(topic: string, audience: string, slideCount: int, theme: string,
                  slides: seq<SlideContent>, currentSlide: int, generateImages: Option<bool>)

  /** `localStorage.getItem(key)` is truthy: an entry exists and is not empty. */
  predicate HasEntry(storage: Option<Blob>) {
    storage.Some? && storage.value != EmptyText
  }

  /** The component's state, together with the stored session entry. */
  datatype AppState = AppState(
    topic: string,
    audience: string,
    slideCount: int,
    theme: string,
    generateImages: bool,
    slides: seq<SlideContent>,
    isLoading: bool,
    error: Option<string>,
    currentSlide: int,
    isLoadable: bool,
    storage: Option<Blob>)

  /** The initial topic and audience of the form. */
  const DefaultTopic: string := "The Future of Renewable Energy"
  const DefaultAudience: string := "University Students"

  /** The state after mounting: the form defaults, an empty deck, and
      `isLoadable` set exactly when a stored entry exists. */
  function Initial(storage: Option<Blob>): (s: AppState)
    ensures s.isLoadable <==> HasEntry(storage)
    ensures s.storage == storage
    ensures s.slides == [] && s.currentSlide == 0 && !s.isLoading && s.error.None?
    ensures s.topic == DefaultTopic && s.audience == DefaultAudience
    ensures s.generateImages && s.slideCount == 5 && s.theme == ThemeName(Dark)
    ensures ControlsPanel.SubmitCalls(s.topic, s.audience, s.slideCount) == 1
  {
    AppState(DefaultTopic, DefaultAudience, 5, "dark", true,
             [], false, None, 0, HasEntry(storage), storage)
  }

  /** `isLoadable` reports whether a stored entry exists. */
  predicate LoadableAgrees(s: AppState) {
    s.isLoadable <==> HasEntry(s.storage)
  }

  /** The current slide index is a position in a non-empty deck. */
  predicate ValidIndex(s: AppState) {
    0 <= s.currentSlide < |s.slides|
  }

  // ---------------------------------------------------------------------
  // Navigation
  // ---------------------------------------------------------------------

  /** `handleNextSlide`: one slide forward unless on the last; nothing else changes. */
  function NextSlide(s: AppState): (r: AppState)
    ensures s.currentSlide < |s.slides| - 1 ==> r.currentSlide == s.currentSlide + 1
    ensures s.currentSlide >= |s.slides| - 1 ==> r == s
    ensures r.(currentSlide := s.currentSlide) == s
  {
    if s.currentSlide < |s.slides| - 1 then s.(currentSlide := s.currentSlide + 1) else s
  }

  /** `handlePrevSlide`: one slide back unless on the first; nothing else changes. */
  function PrevSlide(s: AppState): (r: AppState)
    ensures s.currentSlide > 0 ==> r.currentSlide == s.currentSlide - 1
    ensures s.currentSlide <= 0 ==> r == s
    ensures r.(currentSlide := s.currentSlide) == s
  {
    if s.currentSlide > 0 then s.(currentSlide := s.currentSlide - 1) else s
  }

  datatype Nav = Next | Prev

  function Navigate(s: AppState, moves: seq<Nav>): AppState
    decreases |moves|
  {
    if |moves| == 0 then s
    else Navigate(if moves[0] == Next then NextSlide(s) else PrevSlide(s), moves[1..])
  }

  /** Any sequence of next/previous moves keeps a valid index valid and
      changes nothing but the index. */
  lemma {:induction false} NavigationKeepsIndexValid(s: AppState, moves: seq<Nav>)
    requires ValidIndex(s)
    ensures ValidIndex(Navigate(s, moves))
    ensures Navigate(s, moves).(currentSlide := s.currentSlide) == s
    decreases |moves|
  {
    if |moves| > 0 {
      var t := if moves[0] == Next then NextSlide(s) else PrevSlide(s);
      NavigationKeepsIndexValid(t, moves[1..]);
    }
  }

  /** Navigating from a shown slide always shows a slide: the view shows
      slide `i` of the deck as number `i + 1`, never the missing-slide error. */
  lemma NavigationAlwaysShowsASlide(s: AppState, moves: seq<Nav>)
    requires ValidIndex(s)
    ensures var r := Navigate(s, moves);
      r.slides == s.slides && 0 <= r.currentSlide < |s.slides| &&
      PresentationView.Render(r.slides, r.currentSlide) ==
        PresentationView.Showing(s.slides[r.currentSlide], r.currentSlide + 1, |s.slides|)
  {
    NavigationKeepsIndexValid(s, moves);
  }

  /** `n` moves forward from a valid index reach `min(index + n, last)`:
      the index rises one step at a time and stops at the last slide. */
  lemma {:induction false} AdvanceRepeatedly(s: AppState, n: nat)
    requires ValidIndex(s)
    ensures Navigate(s, seq(n, _ => Next)).currentSlide ==
      if s.currentSlide + n < |s.slides| - 1 then s.currentSlide + n else |s.slides| - 1
    decreases n
  {
    if n > 0 {
      var moves := seq(n, _ => Next);
      assert moves[0] == Next && moves[1..] == seq(n - 1, _ => Next);
      AdvanceRepeatedly(NextSlide(s), n - 1);
    }
  }

  /** Moving back from the first slide and forward from the last do nothing. */
  lemma NavigationIsClamped(s: AppState)
    requires ValidIndex(s)
    ensures s.currentSlide == 0 ==> PrevSlide(s) == s
    ensures s.currentSlide == |s.slides| - 1 ==> NextSlide(s) == s
  {
  }

  /** Outside an export, the view's next and previous buttons are enabled
      exactly when the handlers they call would move the index. */
  lemma NavButtonsAgreeWithHandlers(s: AppState)
    requires ValidIndex(s)
    ensures PresentationView.NextEnabled(s.currentSlide, |s.slides|, false) <==> NextSlide(s) != s
    ensures PresentationView.PrevEnabled(s.currentSlide, false) <==> PrevSlide(s) != s
  {
    if s.currentSlide < |s.slides| - 1 {
      assert NextSlide(s).currentSlide != s.currentSlide;
    }
    if s.currentSlide > 0 {
      assert PrevSlide(s).currentSlide != s.currentSlide;
    }
  }

  // ---------------------------------------------------------------------
  // Auto-advance, driven by the view's effect and this component's handler
  // ---------------------------------------------------------------------

  /** `steps` evaluations of the auto-advance effect: an armed timer fires
      and calls `handleNextSlide`; a stop turns auto-play off. */
  function AutoPlayRun(s: AppState, playing: bool, interval: nat, steps: nat): (AppState, bool)
    decreases steps
  {
    if steps == 0 then (s, playing)
    else
      match PresentationView.AutoAdvance(playing, s.currentSlide, |s.slides|, interval)
      case ArmTimer(_) => AutoPlayRun(NextSlide(s), playing, interval, steps - 1)
      case StopAutoPlay => AutoPlayRun(s, false, interval, steps - 1)
      case NoTimer => (s, playing)
  }

  /** Auto-play started on a valid slide walks forward to the last slide and
      then switches itself off, changing nothing but the index. */
  lemma {:induction false} AutoPlayReachesLastAndStops(s: AppState, interval: nat)
    requires ValidIndex(s)
    ensures var (r, playing) := AutoPlayRun(s, true, interval, |s.slides| - s.currentSlide);
      && r.currentSlide == |s.slides| - 1
      && !playing
      && r.(currentSlide := s.currentSlide) == s
    decreases |s.slides| - s.currentSlide
  {
    if s.currentSlide < |s.slides| - 1 {
      AutoPlayReachesLastAndStops(NextSlide(s), interval);
    } else {
      assert AutoPlayRun(s, false, interval, 0) == (s, false);
    }
  }

  // ---------------------------------------------------------------------
  // Per-slide image updates
  // ---------------------------------------------------------------------

  /** `handleImageUpload`: slide `index` gets the uploaded image and loses its
      image error; the deck's length and every other slide stay as they were.
      An index outside the deck changes nothing. */
  function ImageUpload(slides: seq<SlideContent>, index: int, url: string): (r: seq<SlideContent>)
    ensures |r| == |slides|
    ensures forall j :: 0 <= j < |slides| && j != index ==> r[j] == slides[j]
    ensures 0 <= index < |slides| ==>
      r[index] == SlideContent(slides[index].title, slides[index].content, Some(url), None)
  {
    seq(|slides|, j requires 0 <= j < |slides| =>
      if j == index then slides[j].(imageUrl := Some(url), imageError := None) else slides[j])
  }

  /** An upload leaves every slide image-consistent, and a later upload to
      the same slide replaces an earlier one. */
  lemma UploadProperties(slides: seq<SlideContent>, index: int, first: string, second: string)
    requires forall j :: 0 <= j < |slides| ==> ImageConsistent(slides[j])
    ensures forall j :: 0 <= j < |slides| ==> ImageConsistent(ImageUpload(slides, index, first)[j])
    ensures ImageUpload(ImageUpload(slides, index, first), index, second) == ImageUpload(slides, index, second)
  {
  }

  /** The generation loop's update: slide `index` takes the result's image
      and error (`null` becoming absent); titles, bullets and every other
      slide stay as they were. */
  function MergeImageResult(slides: seq<SlideContent>, index: int, result: GeminiService.ImageResult)
    : (r: seq<SlideContent>)
    ensures |r| == |slides|
    ensures forall j :: 0 <= j < |slides| && j != index ==> r[j] == slides[j]
    ensures 0 <= index < |slides| ==>
      r[index] == SlideContent(slides[index].title, slides[index].content, result.imageUrl, result.error)
  {
    seq(|slides|, j requires 0 <= j < |slides| =>
      if j == index then slides[j].(imageUrl := result.imageUrl, imageError := result.error) else slides[j])
  }

  // ---------------------------------------------------------------------
  // Generation
  // ---------------------------------------------------------------------

  /** The generation loop's own waits and requests, in order. */
  datatype Effect = ImageRequest(index: nat) | Sleep(ms: nat)

  /** The pause after each image request. */
  const ImagePauseMs: nat := 20000

  const GenerateFailurePrefix: string := "Failed to generate presentation: "

  /** The scripted image service for one slide: `respond(i, a)` is the
      outcome of attempt `a` of the request for slide `i`. */
  function SlideImage(respond: (nat, nat) -> GeminiService.AttemptOutcome, index: nat): GeminiService.ImageResult {
    GeminiService.GenerateImage((a: nat) => respond(index, a)).result
  }

  /** A deck slide with its image result merged in. */
  function WithImage(s: SlideContent, r: GeminiService.ImageResult): SlideContent {
    SlideContent(s.title, s.content, r.imageUrl, r.error)
  }

  datatype Pass = Pass(slides: seq<SlideContent>, effects: seq<Effect>)

  /** The requests and pauses for slides `from` up to `to`: each slide's
      request followed by the pause. */
  function RequestSchedule(from: nat, to: nat): seq<Effect>
    decreases to - from
  {
    if from >= to then [] else [ImageRequest(from), Sleep(ImagePauseMs)] + RequestSchedule(from + 1, to)
  }

  /** The schedule requests each slide from `from` to `to` exactly once, in
      increasing order, each request followed by the 20 s pause. */
  lemma {:induction false} RequestScheduleInOrder(from: nat, to: nat)
    decreases to - from
    requires from <= to
    ensures |RequestSchedule(from, to)| == 2 * (to - from)
    ensures forall k :: 0 <= k < to - from ==> RequestSchedule(from, to)[2 * k] == ImageRequest(from + k)
    ensures forall k :: 0 <= k < to - from ==> RequestSchedule(from, to)[2 * k + 1] == Sleep(ImagePauseMs)
  {
    if from < to {
      RequestScheduleInOrder(from + 1, to);
      var rest := RequestSchedule(from + 1, to);
      var all := RequestSchedule(from, to);
      assert all == [ImageRequest(from), Sleep(ImagePauseMs)] + rest;
      forall k | 1 <= k < to - from
        ensures all[2 * k] == ImageRequest(from + k) && all[2 * k + 1] == Sleep(ImagePauseMs)
      {
        assert all[2 * k] == rest[2 * (k - 1)];
        assert all[2 * k + 1] == rest[2 * (k - 1) + 1];
      }
    }
  }

  /** The image loop from slide `from` on: each slide in turn is requested,
      its result merged into that slide, then the loop pauses. Slides before
      `from` are left alone and every later slide receives its own result. */
  function ImagePass(deck: seq<SlideContent>, respond: (nat, nat) -> GeminiService.AttemptOutcome, from: nat)
    : (p: Pass)
    requires from <= |deck|
    ensures |p.slides| == |deck|
    ensures forall j :: 0 <= j < from ==> p.slides[j] == deck[j]
    ensures forall j :: from <= j < |deck| ==> p.slides[j] == WithImage(deck[j], SlideImage(respond, j))
    ensures p.effects == RequestSchedule(from, |deck|)
    decreases |deck| - from
  {
    if from == |deck| then Pass(deck, [])
    else
      var merged := MergeImageResult(deck, from, SlideImage(respond, from));
      var rest := ImagePass(merged, respond, from + 1);
      Pass(rest.slides, [ImageRequest(from), Sleep(ImagePauseMs)] + rest.effects)
  }

  /** The state handed to the view before, and after, one generation. */
  datatype GenerationRun = GenerationRun(started: AppState, finished: AppState, effects: seq<Effect>)

  /** `handleGenerate`: the deck and index are reset first; on a failed text
      reply the error is shown and no image is requested; otherwise the deck
      is built and, when images are on, each slide in order gets its image
      result. */
  function Generate(s: AppState, reply: GeminiService.TextReply,
                    respond: (nat, nat) -> GeminiService.AttemptOutcome): (run: GenerationRun)
    ensures run.started == s.(isLoading := true, error := None, slides := [], currentSlide := 0)
    ensures !reply.OutlineArray? ==>
      && run.finished == run.started.(isLoading := false,
           error := Some(GenerateFailurePrefix + GeminiService.GeneratePresentation(reply).error))
      && run.effects == []
    ensures reply.OutlineArray? ==>
      var deck := GeminiService.GeneratePresentation(reply).value;
      && run.finished == run.started.(isLoading := false, slides := run.finished.slides)
      && |run.finished.slides| == |deck|
      && (!s.generateImages ==> run.finished.slides == deck && run.effects == [])
      && (s.generateImages ==> forall i :: 0 <= i < |deck| ==> run.finished.slides[i] == WithImage(deck[i], SlideImage(respond, i)))
      && (s.generateImages ==> run.effects == RequestSchedule(0, |deck|))
  {
    var started := s.(isLoading := true, error := None, slides := [], currentSlide := 0);
    match GeminiService.GeneratePresentation(reply)
    case Failure(message) =>
      GenerationRun(started, started.(isLoading := false, error := Some(GenerateFailurePrefix + message)), [])
    case Success(deck) =>
      if s.generateImages then
        var pass := ImagePass(deck, respond, 0);
        GenerationRun(started, started.(isLoading := false, slides := pass.slides), pass.effects)
      else
        GenerationRun(started, started.(isLoading := false, slides := deck), [])
  }

  /** With images on, the loop requests every slide's image exactly once, in
      deck order, pausing 20 s after each; with images off it requests none. */
  lemma ImageRequestsInOrder(s: AppState, reply: GeminiService.TextReply,
                             respond: (nat, nat) -> GeminiService.AttemptOutcome)
    requires reply.OutlineArray?
    ensures var run := Generate(s, reply, respond);
      var n := |reply.outlines| + 1;
      && (s.generateImages ==>
            && |run.effects| == 2 * n
            && forall k :: 0 <= k < n ==> run.effects[2 * k] == ImageRequest(k) && run.effects[2 * k + 1] == Sleep(ImagePauseMs))
      && (!s.generateImages ==> forall e :: e in run.effects ==> !e.ImageRequest?)
  {
    var run := Generate(s, reply, respond);
    var n := |reply.outlines| + 1;
    assert |GeminiService.GeneratePresentation(reply).value| == n;
    if s.generateImages {
      assert run.effects == RequestSchedule(0, n);
      RequestScheduleInOrder(0, n);
    } else {
      assert run.effects == [];
    }
  }

  /** Every slide of a generated deck is image-consistent: with images on
      each slide holds exactly one of an image and an error, with images off
      neither. The deck is the model's slides plus the closing slide. */
  lemma GeneratedDeckIsConsistent(s: AppState, reply: GeminiService.TextReply,
                                  respond: (nat, nat) -> GeminiService.AttemptOutcome)
    requires reply.OutlineArray?
    ensures var deck := Generate(s, reply, respond).finished.slides;
      && |deck| == |reply.outlines| + 1
      && deck[|deck| - 1].title == GeminiService.ClosingSlide.title
      && (forall i :: 0 <= i < |deck| ==> ImageConsistent(deck[i]))
      && (s.generateImages ==> forall i :: 0 <= i < |deck| ==> deck[i].imageUrl.Some? != deck[i].imageError.Some?)
      && (!s.generateImages ==> forall i :: 0 <= i < |deck| ==> deck[i].imageUrl.None? && deck[i].imageError.None?)
  {
    var deck := Generate(s, reply, respond).finished.slides;
    var built := GeminiService.GeneratePresentation(reply).value;
    if s.generateImages {
      forall i | 0 <= i < |deck|
        ensures deck[i].imageUrl.Some? != deck[i].imageError.Some?
      {
        var r := SlideImage(respond, i);
        assert GeminiService.ExactlyOne(r);
      }
    } else {
      GeminiService.GeneratedDeckHasNoImages(reply);
      assert forall i :: 0 <= i < |deck| ==> deck[i] in built;
    }
  }

  /** While a generation runs, Generate, Save and Load are all disabled. */
  lemma ControlsLockedWhileGenerating(s: AppState, reply: GeminiService.TextReply,
                                      respond: (nat, nat) -> GeminiService.AttemptOutcome)
    ensures var t := Generate(s, reply, respond).started;
      && !ControlsPanel.GenerateEnabled(t.isLoading)
      && !ControlsPanel.SaveEnabled(t.isLoading, |t.slides| > 0)
      && !ControlsPanel.LoadEnabled(t.isLoading, t.isLoadable)
  {
  }

  // ---------------------------------------------------------------------
  // Saving and loading
  // ---------------------------------------------------------------------

  const CorruptSessionMessage: string := "Failed to load session. The saved data might be corrupted."

  /** The seven saved fields of the state. */
  function SessionOf(s: AppState): SavedSession {
    SavedSession(s.topic, s.audience, s.slideCount, s.theme, s.slides, s.currentSlide, s.generateImages)
  }

  /** `JSON.stringify` of a session, as the entry it leaves in storage. */
  function Encode(session: SavedSession): (b: Blob)
    ensures HasEntry(Some(b))
  {
    SessionJson(session.topic, session.audience, session.slideCount, session.theme,
                session.slides, session.currentSlide, Some(session.generateImages))
  }

  /** Reading a stored entry: a session object restores, with `generateImages`
      defaulting to true when absent; anything else fails. */
  function Decode(b: Blob): (r: Option<SavedSession>)
    ensures r.Some? <==> b.SessionJson?
    ensures r.Some? ==> r.value.generateImages == b.generateImages.GetOr(true)
  {
    match b
    case SessionJson(topic, audience, count, theme, slides, current, images) =>
      Some(SavedSession(topic, audience, count, theme, slides, current, images.GetOr(true)))
    case _ => None
  }

  /** Decoding an encoded session gives it back. */
  lemma DecodeEncode(session: SavedSession)
    ensures Decode(Encode(session)) == Some(session)
  {
  }

  /** An entry saved without `generateImages` loads with images on. */
  lemma MissingImagesFlagDefaultsToTrue(b: Blob)
    requires b.SessionJson? && b.generateImages.None?
    ensures Decode(b).Some? && Decode(b).value.generateImages
  {
  }

  /** The outcome of writing the session entry: `setItem` stores it, or
      throws because the serialized session does not fit the storage quota. */
  datatype Write = Stored | QuotaExceeded

  /** `handleSaveSession`: with a non-empty deck all seven session fields are
      written. A successful write replaces the entry and sets `isLoadable`; a
      write that throws escapes the handler before either, leaving the state
      and any earlier entry as they were. With an empty deck nothing happens. */
  function SaveSession(s: AppState, w: Write): (r: AppState)
    ensures |s.slides| == 0 || w == QuotaExceeded ==> r == s
    ensures |s.slides| > 0 && w == Stored ==>
      && r.storage == Some(Encode(SessionOf(s)))
      && r.isLoadable
      && r.(storage := s.storage, isLoadable := s.isLoadable) == s
  {
    if |s.slides| > 0 && w == Stored then s.(storage := Some(Encode(SessionOf(s))), isLoadable := true) else s
  }

  /** `handleLoadSession`: without an entry nothing happens; a session entry
      restores all seven fields and clears the error; any other entry shows
      the corruption error, is removed, and `isLoadable` is cleared. */
  function LoadSession(s: AppState): (r: AppState)
    ensures !HasEntry(s.storage) ==> r == s
    ensures HasEntry(s.storage) && Decode(s.storage.value).None? ==>
      r == s.(error := Some(CorruptSessionMessage), storage := None, isLoadable := false)
    ensures HasEntry(s.storage) && Decode(s.storage.value).Some? ==>
      && SessionOf(r) == Decode(s.storage.value).value
      && r.error.None? && !r.isLoading
      && r.storage == s.storage && r.isLoadable == s.isLoadable
  {
    if !HasEntry(s.storage) then s
    else
      match Decode(s.storage.value)
      case None => s.(error := Some(CorruptSessionMessage), storage := None, isLoadable := false)
      case Some(session) =>
        s.(topic := session.topic, audience := session.audience, slideCount := session.slideCount,
           theme := session.theme, generateImages := session.generateImages, slides := session.slides,
           currentSlide := session.currentSlide, error := None, isLoading := false)
  }

  /** Loading after a stored save restores exactly the saved session,
      whatever the state was changed to in between, as long as the entry was
      left alone. */
  lemma SaveThenLoadRestores(s: AppState, later: AppState)
    requires |s.slides| > 0
    requires later.storage == SaveSession(s, Stored).storage
    ensures SessionOf(LoadSession(later)) == SessionOf(s)
    ensures LoadSession(later).error.None?
  {
    DecodeEncode(SessionOf(s));
  }

  /** A save whose write throws is silent: the entry stored before (if any)
      is still the one a load reads, and with no earlier entry the Load
      button stays disabled. */
  lemma FailedSaveKeepsPreviousEntry(s: AppState)
    requires |s.slides| > 0
    ensures SaveSession(s, QuotaExceeded).storage == s.storage
    ensures LoadSession(SaveSession(s, QuotaExceeded)) == LoadSession(s)
    ensures LoadableAgrees(s) && !HasEntry(s.storage) ==>
      !ControlsPanel.LoadEnabled(false, SaveSession(s, QuotaExceeded).isLoadable)
  {
  }

  /** A corrupted entry is forgotten: afterwards nothing is loadable, a
      second load does nothing, and a fresh start finds no entry. */
  lemma CorruptEntryIsForgotten(s: AppState)
    requires HasEntry(s.storage) && !s.storage.value.SessionJson?
    ensures var r := LoadSession(s);
      && !r.isLoadable && r.error == Some(CorruptSessionMessage)
      && LoadSession(r) == r
      && !Initial(r.storage).isLoadable
  {
  }

  /** `isLoadable` keeps agreeing with the stored entry across saves, loads,
      navigation and generation. */
  lemma LoadableStaysInAgreement(s: AppState, reply: GeminiService.TextReply,
                                 respond: (nat, nat) -> GeminiService.AttemptOutcome)
    requires LoadableAgrees(s)
    ensures LoadableAgrees(SaveSession(s, Stored)) && LoadableAgrees(SaveSession(s, QuotaExceeded))
    ensures LoadableAgrees(LoadSession(s))
    ensures LoadableAgrees(NextSlide(s)) && LoadableAgrees(PrevSlide(s))
    ensures LoadableAgrees(Generate(s, reply, respond).finished)
  {
  }

  /** The Save and Load buttons agree with their handlers: an enabled Save
      writes the session, which is then stored unless the write throws, and
      an enabled Load finds an entry to read. */
  lemma ButtonsAgreeWithHandlers(s: AppState)
    requires LoadableAgrees(s)
    ensures ControlsPanel.SaveEnabled(s.isLoading, |s.slides| > 0) ==>
      && SaveSession(s, Stored).storage == Some(Encode(SessionOf(s)))
      && SaveSession(s, QuotaExceeded) == s
    ensures ControlsPanel.LoadEnabled(s.isLoading, s.isLoadable) ==> HasEntry(s.storage)
  {
  }
}
