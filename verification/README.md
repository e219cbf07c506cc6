# AI Presentation Generator — a Dafny model of its decision logic

The AI Presentation Generator is a browser application that asks a
generative-AI text model for slide outlines on a topic, optionally asks an
image model for one picture per slide, and shows the result as a themed,
navigable slideshow that can be saved, reloaded and exported to PPTX or PDF.

Almost all of it is UI glue around two remote calls. This project models the
small, sequential rules that sit in between, as pure functions over immutable
datatypes, and proves properties of them:

- **Image generation with bounded retry** (`GeminiService.GenerateImage`): the
  remote call is replaced by a scripted answer per attempt (`respond(a)` is the
  outcome of attempt `a`: a response with its parts, or a thrown error with its
  stringified form and its `message`). The function returns the
  `{imageUrl, error}` result, the number of requests issued and the backoff
  delays awaited.
- **Deck construction** (`GeminiService.GeneratePresentation`): the reply of
  the text model, already parsed, becomes the deck plus the fixed closing
  slide; the closing-slide title test (`IsGenericSlide`) is a case-insensitive
  prefix match.
- **Application state** (`App`): clamped next/previous navigation, per-slide
  image updates, the generation run (reset, text, then one image request per
  slide in order with a 20 s pause after each), the save guard and the load
  with corruption recovery. Browser storage is a field of the state holding
  the stored entry as `JSON.parse` would see it (`Blob`).
- **Presentation view** (`PresentationView`): the auto-advance decision, the
  render guards, the navigation buttons, the PPTX per-slide layout with the
  theme colour fallback, and the PDF export as an ordered list of steps, from
  which the document's pages are computed (each capture shows the slide
  rendered last into the off-screen container).
- **Controls panel** (`ControlsPanel`): the submit guard, the slide-count
  range control and the button enablement rules.

Modules follow the source files: `Types` (types.ts), `GeminiService`
(services/geminiService.ts), `App` (App.tsx), `PresentationView`
(components/PresentationView.tsx), `ControlsPanel`
(components/ControlsPanel.tsx), plus the helpers `Wrappers` (Option, Result)
and `Text` (lower-casing, substring and prefix tests, join).

Notes on reading the source:

- The retry loop decides whether to retry from `JSON.stringify(error)`, but
  picks the quota message from `error.message`. The two can disagree;
  `GeminiService.ClassificationIgnoresMessage` shows an error that is not
  retried yet reported as a quota error.
- The loop's `for` condition never decides anything: the loop can only end
  by returning or by `break` after a caught error. The `lastError &&` test
  decides only for a falsy thrown value (`throw null`): it keeps the
  handler from reading `.message` of null, and the persistent-error message
  results. The model gives such a value no message, with the same outcome.
- While a generation runs, `isLoading` stays true and App.tsx renders the
  loader, not the deck, until the whole image pass is over. Slides receive
  their images one by one, but the view shows the deck only at the end. The
  model returns the state at the start and at the end of a run.
- `handleGenerate`'s fallback message for non-`Error` values cannot occur:
  `generatePresentation` always throws an `Error`. `generateImage` catches
  every failure of its requests; the only way it can still reject is a
  `TypeError` from `JSON.stringify` inside its `catch`, which is an `Error`
  too (see "Left out").
- Saving writes the whole deck, images included as data URLs, with
  `localStorage.setItem`. When that write throws (the storage quota is
  exceeded), the rest of the handler does not run: no confirmation, no
  change to `isLoadable`, and the earlier entry, if any, stays. The model
  takes the write's outcome as a parameter of `App.SaveSession`.
- The PDF export creates its off-screen container, render root and document
  before its `try`. A throw there skips the `finally`, so the container
  stays in the page and the exporting flag stays on; `PdfFault.SetupFails`
  models it.

## Model

| member | source | states |
|---|---|---|
| `Types.ParseTheme` | types.ts:9 | a name is recognised exactly when it is one of the eight theme names, and then as that theme |
| `Types.ParseThemeName` | types.ts:9 | every theme's name is recognised as that same theme |
| `GeminiService.GeneratePresentation` | services/geminiService.ts:33-79 | success exactly for an array reply; the deck is the replied slides in order plus one trailing `Thank You!` / `Any Questions?` slide (length n+1); a non-array reply fails with the array message; every failure but a non-`Error` throw is prefixed `Gemini API call failed: ` |
| `GeminiService.GeneratedDeckHasNoImages` | services/geminiService.ts:62-68 | a freshly built deck carries no image and no image error |
| `GeminiService.IsGenericSlide` | services/geminiService.ts:101 | a title is generic when, ignoring letter case, it starts with `thank you`, `q&a`, `questions` or `conclusion` |
| `GeminiService.ImageSubjectFor` | services/geminiService.ts:101-105 | a generic title gets an abstract backdrop of the overall topic, any other title an image of the slide's own title and bullets |
| `GeminiService.ClosingSlideIsGeneric` | services/geminiService.ts:101-105 | the appended closing title counts as generic, so its image depicts the topic |
| `GeminiService.GenericIgnoresCase` | services/geminiService.ts:101 | the title test gives the same answer for a title and its lower-cased form |
| `GeminiService.GenericIsPrefixClosed` | services/geminiService.ts:101 | only the start of the title matters: appending text to a generic title keeps it generic |
| `GeminiService.GenericIsAnchored` | services/geminiService.ts:101 | the match is anchored at the start: "Questions?" is generic, "Any Questions?" is not |
| `GeminiService.FirstInlineData` | services/geminiService.ts:129-133 | absent exactly when no part has image data; otherwise the data of the first part that has it |
| `GeminiService.ResponseResult` | services/geminiService.ts:129-137 | a response yields an image URL (data-URI prefix plus the first image part's data) iff some part is an image, else the safety-filter error; never both |
| `GeminiService.IsRetriable` | services/geminiService.ts:143-146 | an error is retriable when its lower-cased `JSON.stringify` form (empty when it does not stringify) contains `resource_exhausted`, `429`, `500` or `unknown` |
| `GeminiService.RetriableWhereverTokenAppears` | services/geminiService.ts:143-146 | a retry token anywhere in the stringified error, in any letter case, makes the error retriable; an error that does not stringify is never retriable |
| `GeminiService.FailureMessage` | services/geminiService.ts:162-165 | the quota message exactly when the last error's `message` lower-cased contains `resource_exhausted`, the persistent-error message otherwise |
| `GeminiService.Attempts` | services/geminiService.ts:116-158 | from a given attempt on: stops by attempt 3, one backoff delay `2^a * 4000` per retried attempt, every attempt before the last was a retriable error below the limit, and the last one concludes the call |
| `GeminiService.GenerateImage` | services/geminiService.ts:116-165 | 1 to 3 requests; the delays are a prefix of [8000, 16000] with one fewer entry than requests; each earlier attempt threw a retriable error; exactly one of image and error is set |
| `GeminiService.FirstResponseWithImage` | services/geminiService.ts:129-133 | an image in the first response ends the call after one request and no delay, with the first image part's data |
| `GeminiService.MissingImageIsNotRetried` | services/geminiService.ts:136-137 | a response without an image part ends the call on that attempt with the safety-filter error and no further delay |
| `GeminiService.NonRetriableFirstError` | services/geminiService.ts:148-156 | a non-retriable first error means exactly one request, no delay, and a failure result |
| `GeminiService.RetryBudgetExhausted` | services/geminiService.ts:143-156 | three retriable errors give three requests, delays 8000 then 16000, no fourth request, and the failure text of the third error |
| `GeminiService.TwoRetriableThenImage` | services/geminiService.ts:143-152 | two retriable errors and then an image succeed on the third request after delays of 8000 and 16000 |
| `GeminiService.ClassificationIgnoresMessage` | services/geminiService.ts:143-163 | an error stringified as `{}` whose message reads RESOURCE_EXHAUSTED is not retried but still receives the quota message |
| `ControlsPanel.SubmitCalls` | components/ControlsPanel.tsx:43-48 | `onGenerate` is called at most once, and exactly when topic and audience are non-empty and the count is positive |
| `ControlsPanel.SlideCountFromRange` | components/ControlsPanel.tsx:86-92 | the slide-count control only reports values from 3 to 15, passing in-range values through |
| `ControlsPanel.RangeCountAlwaysAccepted` | components/ControlsPanel.tsx:43-92 | with a count from the range control, a submission is refused only for an empty topic or audience |
| `ControlsPanel.GenerateEnabled` | components/ControlsPanel.tsx:133 | the Generate button is disabled exactly while a generation runs |
| `ControlsPanel.SaveEnabled` | components/ControlsPanel.tsx:144 | the Save button is enabled only outside a generation and with a deck to save |
| `ControlsPanel.LoadEnabled` | components/ControlsPanel.tsx:153 | the Load button is enabled only outside a generation and with a stored entry |
| `PresentationView.AutoAdvance` | components/PresentationView.tsx:61-74 | a timer with the chosen interval is armed iff playing before the last slide; playing on or past the last slide switches auto-play off |
| `PresentationView.Render` | components/PresentationView.tsx:77-87 | nothing for an empty deck, the error view for an index outside the deck, otherwise slide `i` shown as number `i+1` of the deck's length |
| `PresentationView.PrevEnabled` | components/PresentationView.tsx:281 | the previous button is disabled on the first slide and during an export |
| `PresentationView.NextEnabled` | components/PresentationView.tsx:292 | the next button is disabled on the last slide and during an export |
| `PresentationView.ThemeColors` | components/PresentationView.tsx:117-127 | a recognised theme gets its own colour triple, any other name the dark theme's |
| `PresentationView.HasImage` | components/PresentationView.tsx:137 | a PPTX slide carries an image only when images are on and the slide's URL is non-empty |
| `PresentationView.TextWidth` | components/PresentationView.tsx:138 | the text boxes are 5.5 in wide beside an image and 9 in wide without one |
| `PresentationView.PptxSlideFor` | components/PresentationView.tsx:134-172 | title, bullets joined by newlines and theme colours; an image box iff images are on and the slide has a non-empty image URL; text width 5.5 with an image and 9 without; all boxes on the 10 x 5.625 in slide, text left of the image |
| `PresentationView.CaptureShowsLastRendered` | components/PresentationView.tsx:216-235 | a capture drawn before its slide is rendered shows the previously rendered slide, so page 0 gets slide 1 |
| `PresentationView.ExportPptx` | components/PresentationView.tsx:104-184 | no output without the library; otherwise exactly one PPTX slide per deck slide, in deck order |
| `PresentationView.SlidesOnOwnPages` | components/PresentationView.tsx:212-235 | the expected document after `n` slides gives each slide `k` a page of its own holding only its capture, and the slides rendered are `0..n-1` in order |
| `PresentationView.PagesAfterSlide` | components/PresentationView.tsx:216-235 | with slides `0..i-1` rendered and drawn on pages `0..i-1`, rendering slide `i`, adding a page only when `i > 0`, and drawing the capture of the container puts slide `i` alone on page `i` |
| `PresentationView.RenderSlides` | components/PresentationView.tsx:212-236 | the slides rendered are `0, 1, ...` in order, up to and including one whose capture throws; every capture shows the slide rendered just before it, so page `k` holds exactly slide `k` for each slide drawn; with no throw every slide is drawn |
| `PresentationView.RenderAndSave` | components/PresentationView.tsx:211-250 | after a successful setup: slides rendered in order with page `k` holding slide `k`, the file saved iff no capture and no save threw, and the clean-up steps always last |
| `PresentationView.ExportPdf` | components/PresentationView.tsx:186-250 | nothing without the libraries; a throw while creating the render root or document leaves the container mounted and the exporting flag on; otherwise the run ends with unmount, container removal and clearing the flag; slides are rendered in order and page `k` holds slide `k`; the file is saved iff no step threw, and then every slide has its page |
| `App.Initial` | App.tsx:14-48 | topic "The Future of Renewable Energy", audience "University Students", 5 slides, dark theme, images on (a form that can be submitted as is), an empty deck, and `isLoadable` set exactly when a stored entry exists |
| `App.NextSlide` | App.tsx:138-142 | moves forward one slide only before the last slide, and changes nothing but the index |
| `App.PrevSlide` | App.tsx:144-148 | moves back one slide only after the first slide, and changes nothing but the index |
| `App.NavigationKeepsIndexValid` | App.tsx:138-148 | any sequence of next/previous moves keeps a valid index within the deck |
| `App.NavigationAlwaysShowsASlide` | components/PresentationView.tsx:77-87 | after any next/previous moves from a shown slide, the view shows a slide of the deck, numbered from 1, and never the missing-slide error |
| `App.AdvanceRepeatedly` | App.tsx:138-142 | `n` forward moves reach `min(index + n, last)` |
| `App.NavigationIsClamped` | App.tsx:138-148 | previous on the first slide and next on the last slide change nothing |
| `App.NavButtonsAgreeWithHandlers` | components/PresentationView.tsx:279-297 | outside an export, the next and previous buttons are enabled exactly when their handlers would move the index |
| `App.AutoPlayReachesLastAndStops` | components/PresentationView.tsx:61-74 | auto-play started on a valid slide advances to the last slide and then switches itself off |
| `App.ImageUpload` | App.tsx:150-156 | slide `i` gets the uploaded URL and loses its image error; length and every other slide unchanged |
| `App.UploadProperties` | App.tsx:150-156 | an upload keeps every slide free of an image together with an error, and a later upload to the same slide replaces the earlier one |
| `App.MergeImageResult` | App.tsx:77-79 | slide `index` takes the result's URL and error, absent where null; title, bullets and other slides unchanged |
| `App.RequestScheduleInOrder` | App.tsx:70-82 | each slide's image is requested exactly once, in increasing order, each request followed by a 20000 ms pause |
| `App.ImagePass` | App.tsx:69-83 | every slide from the start index gets its own image result merged in, earlier slides are untouched, and the requests follow the schedule |
| `App.Generate` | App.tsx:58-94 | the run starts with an empty deck, index 0 and the error cleared; a failed text reply ends with the prefixed error and no image request; otherwise the deck is published, unchanged with images off, each slide merged with its own result with images on; with images on, the requests follow the schedule of one request per slide in order |
| `App.ImageRequestsInOrder` | App.tsx:69-83 | with images on the run requests slides 0..n-1 in order with a pause after each; with images off it makes no image request |
| `App.GeneratedDeckIsConsistent` | App.tsx:66-79 | a generated deck has n+1 slides ending with the closing slide; with images on each slide holds exactly one of image and error, with images off neither |
| `App.ControlsLockedWhileGenerating` | components/ControlsPanel.tsx:133-153 | while a generation runs, the Generate, Save and Load buttons are disabled |
| `App.Decode` | App.tsx:117-122 | only a session object loads, with `generateImages` defaulting to true when absent |
| `App.DecodeEncode` | App.tsx:107-124 | reading back a saved session gives the same seven fields |
| `App.MissingImagesFlagDefaultsToTrue` | App.tsx:122 | an entry without `generateImages` loads with images on |
| `App.SaveSession` | App.tsx:96-111 | with a non-empty deck and a successful write all seven session fields are stored and `isLoadable` set, nothing else changes; a write that throws, or an empty deck, changes nothing |
| `App.FailedSaveKeepsPreviousEntry` | App.tsx:96-111 | a save whose write throws leaves the earlier entry as the one a load reads, and with no earlier entry Load stays disabled |
| `App.LoadSession` | App.tsx:113-136 | no entry: nothing happens; a session entry restores all seven fields and clears the error and loading flag; any other entry sets the corruption error, removes the entry and clears `isLoadable` |
| `App.SaveThenLoadRestores` | App.tsx:96-124 | loading after a stored save restores the saved session, whatever else changed in between |
| `App.CorruptEntryIsForgotten` | App.tsx:130-134 | after a corrupted load nothing is loadable, a second load does nothing, and a fresh start finds no entry |
| `App.LoadableStaysInAgreement` | App.tsx:44-136 | `isLoadable` keeps agreeing with whether an entry is stored across save (stored or failed), load, navigation and generation |
| `App.ButtonsAgreeWithHandlers` | components/ControlsPanel.tsx:141-153 | an enabled Save button writes the session, stored unless the write throws, and an enabled Load button has an entry to read |

## Left out

- The remote calls (`generateContent`), prompt wording, style hints, response schemas and the API-key check: remote I/O. Each request's outcome is a parameter.
- Time: `sleep`, `setTimeout`, `requestAnimationFrame`. Waits are returned as lists of durations (backoff delays, the 20 s pause) and the auto-advance timer as a decision.
- `localStorage` and `JSON.stringify`/`JSON.parse`: the stored entry is the parsed form (`Blob`). Only session objects, `null` and unparsable text are modelled. A parsed entry that is some other value, or a session object missing other fields than `generateImages`, is not modelled.
- Lower-casing (`toLowerCase`, the regex `i` flag) is modelled for ASCII letters only. The tokens compared are ASCII, but full Unicode lower-casing can map a few non-ASCII letters to ASCII ones.
- A thrown value that is falsy, or has no string `message`, is modelled as a `ThrownError` with no message; both lead to the persistent-error message, as in the source.
- An inline image part is modelled with string data; an `inlineData` object without `data` is not.
- Parsed outlines are modelled as title plus bullets, as the response schema requires; extra fields the model might add are not.
- The theme-colour lookup does not model object-prototype property names used as a theme (such as `constructor`), which bypass the dark fallback in JavaScript.
- PPTX: the library's own failure while writing the file, the 50 ms delay per slide and the progress messages. PDF: the pixel sizes of the canvas and page are not modelled.
- PresentationView.ExportPdf: faults are a throw during setup (after the container is mounted), during one slide's render or capture, or while saving. A throw from `createElement` or `appendChild` itself, before the container is mounted, is not separated from the setup fault.
- GeminiService.GenerateImage: `JSON.stringify` inside the `catch` throws a `TypeError` for a circular or `BigInt`-holding error value, and `generateImage` then rejects instead of returning a result. The model's thrown errors always stringify or are `undefined`.
- App.Generate: the path where a `generateImage` call rejects (see the previous line) is not modelled. In the source it ends the image pass early with a partly merged deck and the prefixed error.
- App.SaveSession: the uncaught exception of a failed write, which reaches only the console, is not modelled; the state it leaves is.
- The auto-advance interval selector (3, 5, 10 or 15 s, 5 s initially): the auto-advance rules are stated for any interval.
- JSON export (`handleExportJSON`) is a direct `JSON.stringify` of the deck plus a download; it holds no decision.
- The loading texts, `alert` calls and `console` output: messages only.
- The CDN library polling, the click-outside dropdown handler, window resizing and mobile layout, and the `FileReader` reading of uploads: DOM and timer plumbing. Library availability is a boolean parameter of the exports.
- Slide.tsx, Header.tsx, Loader.tsx: rendering only.
- User actions are not interleaved with a running export or generation. Only a generation locks the controls: while it runs, the Generate, Save and Load buttons are disabled and the view shows the loader. An export leaves `isLoading` false, so all three stay enabled. A generation started mid-export replaces the view with the loader, and a load replaces the deck shown. The export keeps working on the deck it captured when it started, so neither changes its output; the model states each export over that captured deck.
