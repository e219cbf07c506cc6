/** The presentation view: the auto-advance decision, the render guards, the
    navigation buttons, and the per-slide decisions of the PPTX and PDF exports. */
module PresentationView {
  import opened Wrappers
  import opened Text
  import opened Types

  // ---------------------------------------------------------------------
  // Auto-advance
  // ---------------------------------------------------------------------

  /** What the auto-advance effect does on one evaluation. */
  datatype AutoPlayEffect =
    | ArmTimer(delayMs: nat)  // schedule `onNext` after the interval
    | StopAutoPlay            // playing on the last slide: switch auto-play off
    | NoTimer                 // not playing: nothing to do

  /** The auto-advance effect: a timer is armed only while playing before the
      last slide, and playing on (or past) the last slide turns auto-play off. */
  function AutoAdvance(isAutoPlaying: bool, currentSlide: int, slideCount: nat, interval: nat): (e: AutoPlayEffect)
    ensures e.ArmTimer? <==> isAutoPlaying && currentSlide < slideCount - 1
    ensures e.ArmTimer? ==> e.delayMs == interval
    ensures e.StopAutoPlay? <==> isAutoPlaying && currentSlide >= slideCount - 1
    ensures e.NoTimer? <==> !isAutoPlaying
  {
    if !isAutoPlaying || currentSlide >= slideCount - 1 then
      if isAutoPlaying && currentSlide >= slideCount - 1 then StopAutoPlay else NoTimer
    else
      ArmTimer(interval)
  }

  // ---------------------------------------------------------------------
  // Rendering guards and navigation buttons
  // ---------------------------------------------------------------------

  /** What the view renders. */
  datatype View =
    | Nothing                                              // empty deck
    | MissingSlide(index: int)                             // index outside the deck
    | Showing(slide: SlideContent, number: int, total: nat) // slide `number` of `total`

  function Render(slides: seq<SlideContent>, currentSlide: int): (v: View)
    ensures v.Nothing? <==> |slides| == 0
    ensures v.MissingSlide? <==> |slides| > 0 && !(0 <= currentSlide < |slides|)
    ensures v.MissingSlide? ==> v.index == currentSlide
    ensures v.Showing? ==> 0 <= currentSlide < |slides| && v.slide == slides[currentSlide]
                           && v.number == currentSlide + 1 && v.total == |slides|
  {
    if |slides| == 0 then Nothing
    else if 0 <= currentSlide < |slides| then Showing(slides[currentSlide], currentSlide + 1, |slides|)
    else MissingSlide(currentSlide)
  }

  /** The previous-slide button is disabled on the first slide and during an export. */
  predicate PrevEnabled(currentSlide: int, isExporting: bool) {
    !(currentSlide == 0 || isExporting)
  }

  /** The next-slide button is disabled on the last slide and during an export. */
  predicate NextEnabled(currentSlide: int, slideCount: nat, isExporting: bool) {
    !(currentSlide == slideCount - 1 || isExporting)
  }

  // ---------------------------------------------------------------------
  // PPTX export
  // ---------------------------------------------------------------------

  /** Background, body text and accent (title) colours, as hex strings. */
  datatype Colors = Colors(bg: string, text: string, accent: string)

  function Palette(t: Theme): Colors {
    match t
    case Dark => Colors("1E293B", "E0F2FE", "22D3EE")
    case Light => Colors("F1F5F9", "334155", "2563EB")
    case Corporate => Colors("EFF6FF", "1E3A8A", "1D4ED8")
    case Creative => Colors("FEFCE8", "701A75", "EC4899")
    case Ocean => Colors("0B4F6C", "FBFBFF", "20BF55")
    case Sunset => Colors("4D194D", "FFFFFF", "FF9505")
    case Forest => Colors("1A4314", "E8F5E9", "9CCC65")
    case Galaxy => Colors("191970", "E6E6FA", "9370DB")
  }

  /** The colour triple for a theme name, falling back to the dark theme's. */
  function ThemeColors(theme: string): (c: Colors)
    ensures ParseTheme(theme).Some? ==> c == Palette(ParseTheme(theme).value)
    ensures ParseTheme(theme).None? ==> c == Palette(Dark)
  {
    match ParseTheme(theme)
    case Some(t) => Palette(t)
    case None => Palette(Dark)
  }

  /** A text box; positions and sizes are in inches. */
  datatype TextBox = TextBox(text: string, x: real, y: real, w: real, h: real,
                             fontSize: nat, bold: bool, color: string, bulleted: bool)

  /** An image box; positions and sizes are in inches. */
  datatype ImageBox = ImageBox(data: string, x: real, y: real, w: real, h: real)

  datatype PptxSlide = PptxSlide(background: string, title: TextBox, body: TextBox, image: Option<ImageBox>)

  /** The 16:9 slide layout is 10 by 5.625 inches. */
  const LayoutWidth: real := 10.0
  const LayoutHeight: real := 5.625

  /** `generateImages && slide.imageUrl`: an empty URL is falsy and counts as no image. */
  predicate HasImage(generateImages: bool, s: SlideContent) {
    generateImages && s.imageUrl.Some? && s.imageUrl.value != ""
  }

  function TextWidth(hasImage: bool): real {
    if hasImage then 5.5 else 9.0
  }

  predicate TextBoxFits(b: TextBox) {
    0.0 <= b.x && 0.0 <= b.y && b.x + b.w <= LayoutWidth && b.y + b.h <= LayoutHeight
  }

  predicate ImageBoxFits(b: ImageBox) {
    0.0 <= b.x && 0.0 <= b.y && b.x + b.w <= LayoutWidth && b.y + b.h <= LayoutHeight
  }

  /** One deck slide as a PPTX slide: title in the accent colour, bullets in
      the text colour, and an image box exactly when the slide has an image to
      show. Every box lies on the slide, and the narrowed text column ends
      left of the image. */
  function PptxSlideFor(s: SlideContent, colors: Colors, generateImages: bool): (p: PptxSlide)
    ensures p.background == colors.bg
    ensures p.title.text == s.title && p.title.color == colors.accent && p.title.bold
    ensures p.body.text == Join(s.content, "\n") && p.body.color == colors.text && p.body.bulleted
    ensures p.title.w == p.body.w == TextWidth(HasImage(generateImages, s))
    ensures p.image.Some? <==> HasImage(generateImages, s)
    ensures p.image.Some? ==> p.image.value.data == s.imageUrl.value
    ensures TextBoxFits(p.title) && TextBoxFits(p.body)
    ensures p.image.Some? ==>
      && ImageBoxFits(p.image.value)
      && p.title.x + p.title.w <= p.image.value.x
      && p.body.x + p.body.w <= p.image.value.x
  {
    var hasImage := HasImage(generateImages, s);
    var w := TextWidth(hasImage);
    PptxSlide(
      colors.bg,
      TextBox(s.title, 0.5, 0.25, w, 1.0, 32, true, colors.accent, false),
      TextBox(Join(s.content, "\n"), 0.5, 1.25, w, 4.0, 18, false, colors.text, true),
      if hasImage then Some(ImageBox(s.imageUrl.value, 6.25, 0.56, 3.5, 4.5)) else None)
  }

  /** `handleExportPPTX`: nothing without the library; otherwise one PPTX
      slide per deck slide, in deck order, all in the theme's colours. */
  method ExportPptx(libLoaded: bool, slides: seq<SlideContent>, theme: string, generateImages: bool)
    returns (deck: Option<seq<PptxSlide>>)
    ensures deck.None? <==> !libLoaded
    ensures deck.Some? ==>
      && |deck.value| == |slides|
      && forall i :: 0 <= i < |slides| ==> deck.value[i] == PptxSlideFor(slides[i], ThemeColors(theme), generateImages)
  {
    if !libLoaded {
      return None;
    }
    var colors := ThemeColors(theme);
    var out: seq<PptxSlide> := [];
    var i := 0;
    while i < |slides|
      invariant 0 <= i <= |slides|
      invariant |out| == i
      invariant forall k :: 0 <= k < i ==> out[k] == PptxSlideFor(slides[k], colors, generateImages)
    {
      out := out + [PptxSlideFor(slides[i], colors, generateImages)];
      i := i + 1;
    }
    return Some(out);
  }

  // ---------------------------------------------------------------------
  // PDF export
  // ---------------------------------------------------------------------

  /** The steps of a PDF export, in the order they happen. */
  datatype PdfOp =
    | SetExporting(on: bool)
    | MountContainer                               // the off-screen container joins the page
    | OpenDocument                                 // the render root and the one-page document
    | RenderSlide(index: nat, slide: SlideContent) // slide `index` is rendered into the container
    | AddPage
    | AddImage                                     // the container is captured and drawn on the last page
    | SavePdf
    | Unmount
    | RemoveContainer

  /** Where an export throws, if it does: while creating the render root or
      the document (before the `try`), while rendering or capturing slide
      `index`, or while saving. */
  datatype PdfFault = NoFault | SetupFails | CaptureFails(index: nat) | SaveFails

  /** The document as the steps build it: its pages, each listing the
      captures drawn on it, and the indices of the slides rendered so far. */
  datatype PdfDoc = PdfDoc(pages: seq<seq<Option<nat>>>, rendered: seq<nat>)

  /** What a capture of the container shows: the slide rendered last, or
      nothing before the first rendering. */
  function Shown(rendered: seq<nat>): Option<nat> {
    if |rendered| == 0 then None else Some(rendered[|rendered| - 1])
  }

  /** The effect of one step on the document. */
  function DocStep(d: PdfDoc, op: PdfOp): PdfDoc
    requires |d.pages| > 0
  {
    match op
    case RenderSlide(i, _) => d.(rendered := d.rendered + [i])
    case AddPage => d.(pages := d.pages + [[]])
    case AddImage => d.(pages := d.pages[..|d.pages| - 1] + [d.pages[|d.pages| - 1] + [Shown(d.rendered)]])
    case _ => d
  }

  /** The document after the given steps; it starts with one empty page. */
  function Doc(ops: seq<PdfOp>): (d: PdfDoc)
    ensures |d.pages| > 0
  {
    if |ops| == 0 then PdfDoc([[]], []) else DocStep(Doc(ops[..|ops| - 1]), ops[|ops| - 1])
  }

  lemma DocAppend(ops: seq<PdfOp>, op: PdfOp)
    ensures Doc(ops + [op]) == DocStep(Doc(ops), op)
  {
    assert (ops + [op])[..|ops|] == ops;
  }

  /** The indices `0, 1, ..., n - 1`. */
  function Upto(n: nat): (r: seq<nat>)
    ensures |r| == n
  {
    if n == 0 then [] else Upto(n - 1) + [n - 1]
  }

  /** The pages after the first `n` slides were drawn: one blank page before
      any, then page `k` holding exactly the capture of slide `k`. */
  function PagesFor(n: nat): (pages: seq<seq<Option<nat>>>)
    ensures |pages| == if n == 0 then 1 else n
  {
    if n == 0 then [[]] else if n == 1 then [[Some(0)]] else PagesFor(n - 1) + [[Some(n - 1)]]
  }

  /** `Upto(n)` lists each index below `n` at its own position, and
      `PagesFor(n)` gives each of those slides a page of its own, holding
      its capture and nothing else. */
  lemma {:induction false} SlidesOnOwnPages(n: nat)
    ensures forall k :: 0 <= k < n ==> Upto(n)[k] == k
    ensures forall k :: 0 <= k < n ==> PagesFor(n)[k] == [Some(k)]
    ensures n == 0 ==> PagesFor(n) == [[]]
  {
    if n > 1 {
      SlidesOnOwnPages(n - 1);
      assert forall k :: 0 <= k < n - 1 ==> PagesFor(n)[k] == PagesFor(n - 1)[k];
      assert forall k :: 0 <= k < n - 1 ==> Upto(n)[k] == Upto(n - 1)[k];
    } else if n == 1 {
      assert Upto(1) == [0];
    }
  }

  /** The steps for slide `i` once its capture succeeded: a new page unless
      it is the first slide, then the capture drawn on the last page. */
  function PlaceSlide(i: nat): seq<PdfOp> {
    (if i > 0 then [AddPage] else []) + [AddImage]
  }

  /** Rendering slide `i` after slides `0..i-1` adds it to the rendered
      slides and leaves the pages alone. */
  lemma RenderNext(ops: seq<PdfOp>, i: nat, s: SlideContent)
    requires Doc(ops) == PdfDoc(PagesFor(i), Upto(i))
    ensures Doc(ops + [RenderSlide(i, s)]) == PdfDoc(PagesFor(i), Upto(i + 1))
  {
    DocAppend(ops, RenderSlide(i, s));
  }

  /** Drawing the capture of slide 0 on the document's first, blank page. */
  lemma DrawFirst(ops: seq<PdfOp>)
    requires Doc(ops) == PdfDoc(PagesFor(0), Upto(1))
    ensures Doc(ops + PlaceSlide(0)) == PdfDoc(PagesFor(1), Upto(1))
  {
    DocAppend(ops, AddImage);
    assert ops + [AddImage] == ops + PlaceSlide(0);
    var one: seq<seq<Option<nat>>> := [[]];
    assert Upto(1) == [0];
    assert one[..0] == [] && one[0] + [Some(0)] == [Some(0)];
  }

  /** Adding a page and drawing the capture of slide `i > 0` on it. */
  lemma DrawLater(ops: seq<PdfOp>, i: nat)
    requires i > 0
    requires Doc(ops) == PdfDoc(PagesFor(i), Upto(i + 1))
    ensures Doc(ops + PlaceSlide(i)) == PdfDoc(PagesFor(i + 1), Upto(i + 1))
  {
    DocAppend(ops, AddPage);
    DocAppend(ops + [AddPage], AddImage);
    assert ops + [AddPage] + [AddImage] == ops + PlaceSlide(i);
    var withPage := PagesFor(i) + [[]];
    assert Doc(ops + [AddPage]).pages == withPage;
    assert withPage[..|withPage| - 1] == PagesFor(i);
    assert withPage[|withPage| - 1] + [Some(i)] == [Some(i)];
  }

  /** Rendering slide `i` after slides `0..i-1` were rendered and drawn on
      pages `0..i-1`, then placing its capture, draws slide `i` alone on page `i`. */
  lemma PagesAfterSlide(ops: seq<PdfOp>, i: nat, s: SlideContent)
    requires Doc(ops) == PdfDoc(PagesFor(i), Upto(i))
    ensures Doc(ops + [RenderSlide(i, s)] + PlaceSlide(i)) == PdfDoc(PagesFor(i + 1), Upto(i + 1))
  {
    RenderNext(ops, i, s);
    if i > 0 {
      DrawLater(ops + [RenderSlide(i, s)], i);
    } else {
      DrawFirst(ops + [RenderSlide(i, s)]);
    }
  }

  /** Steps that neither render, add a page nor draw leave the document as it is. */
  lemma {:induction false} DocIgnore(ops: seq<PdfOp>, tail: seq<PdfOp>)
    requires forall k :: 0 <= k < |tail| ==> !tail[k].RenderSlide? && !tail[k].AddPage? && !tail[k].AddImage?
    ensures Doc(ops + tail) == Doc(ops)
    decreases |tail|
  {
    if |tail| == 0 {
      assert ops + tail == ops;
    } else {
      var init, last := tail[..|tail| - 1], tail[|tail| - 1];
      assert ops + tail == (ops + init) + [last];
      assert !last.RenderSlide? && !last.AddPage? && !last.AddImage?;
      DocAppend(ops + init, last);
      DocIgnore(ops, init);
    }
  }

  /** A capture drawn before the slide it is meant to show was rendered shows
      another slide: drawing first and rendering afterwards does not give
      page `k` the capture of slide `k`. */
  lemma CaptureShowsLastRendered(s0: SlideContent, s1: SlideContent)
    ensures Doc([RenderSlide(1, s1), AddImage, RenderSlide(0, s0), AddPage, AddImage]).pages == [[Some(1)], [Some(0)]]
    ensures Doc([RenderSlide(1, s1), AddImage, RenderSlide(0, s0), AddPage, AddImage]).pages != PagesFor(2)
  {
    var r1, r0 := RenderSlide(1, s1), RenderSlide(0, s0);
    DocAppend([], r1);
    assert [] + [r1] == [r1];
    assert Doc([r1]) == PdfDoc([[]], [1]);
    DocAppend([r1], AddImage);
    var one: seq<seq<Option<nat>>> := [[]];
    var empty: seq<Option<nat>> := [];
    assert one[..0] == [] && one[0] == empty && empty + [Some(1)] == [Some(1)];
    assert Doc([r1, AddImage]) == PdfDoc([[Some(1)]], [1]);
    DocAppend([r1, AddImage], r0);
    assert [r1, AddImage] + [r0] == [r1, AddImage, r0];
    assert Doc([r1, AddImage, r0]) == PdfDoc([[Some(1)]], [1, 0]);
    DocAppend([r1, AddImage, r0], AddPage);
    assert [r1, AddImage, r0] + [AddPage] == [r1, AddImage, r0, AddPage];
    assert Doc([r1, AddImage, r0, AddPage]) == PdfDoc([[Some(1)], []], [1, 0]);
    DocAppend([r1, AddImage, r0, AddPage], AddImage);
    assert [r1, AddImage, r0, AddPage] + [AddImage] == [r1, AddImage, r0, AddPage, AddImage];
    var two: seq<seq<Option<nat>>> := [[Some(1)], []];
    assert two[..1] == [[Some(1)]] && two[1] == empty && empty + [Some(0)] == [Some(0)];
    assert PagesFor(2) == [[Some(0)], [Some(1)]];
  }

  /** A step the render loop may emit: a rendering of the slide at its own
      index, a new page, or a captured image. */
  predicate LoopStep(op: PdfOp, slides: seq<SlideContent>) {
    || (op.RenderSlide? && op.index < |slides| && op.slide == slides[op.index])
    || op.AddPage?
    || op.AddImage?
  }

  /** The loop never saves. */
  lemma NoSaveInLoop(ops: seq<PdfOp>, slides: seq<SlideContent>)
    requires |ops| >= 3 && ops[..3] == PdfStart
    requires forall k :: 3 <= k < |ops| ==> LoopStep(ops[k], slides)
    ensures SavePdf !in ops
  {
    forall k | 0 <= k < |ops| ensures ops[k] != SavePdf {
      if k < 3 { assert ops[k] == PdfStart[k]; }
    }
  }

  /** The opening steps of every export that has its libraries and gets past setup. */
  const PdfStart: seq<PdfOp> := [SetExporting(true), MountContainer, OpenDocument]
  /** The clean-up steps of the `finally` block. */
  const PdfFinish: seq<PdfOp> := [Unmount, RemoveContainer, SetExporting(false)]

  /** How many of `n` slides the loop renders under a fault: up to and
      including the one whose capture throws, or all of them. */
  function Reached(n: nat, fault: PdfFault): nat {
    if fault.CaptureFails? && fault.index < n then fault.index + 1 else n
  }

  /** How many of `n` slides the loop draws under a fault: those before the
      one whose capture throws, or all of them. */
  function Placed(n: nat, fault: PdfFault): nat {
    if fault.CaptureFails? && fault.index < n then fault.index else n
  }

  /** The steps so far open the export and then only render slides at
      their own index, add pages and draw captures. */
  predicate Opened(ops: seq<PdfOp>, slides: seq<SlideContent>) {
    |ops| >= 3 && ops[..3] == PdfStart && forall k :: 3 <= k < |ops| ==> LoopStep(ops[k], slides)
  }

  lemma OpenedExtend(ops: seq<PdfOp>, more: seq<PdfOp>, slides: seq<SlideContent>)
    requires Opened(ops, slides)
    requires forall k :: 0 <= k < |more| ==> LoopStep(more[k], slides)
    ensures Opened(ops + more, slides)
  {
    assert (ops + more)[..3] == ops[..3];
    forall k | 3 <= k < |ops + more| ensures LoopStep((ops + more)[k], slides) {
      if k >= |ops| { assert (ops + more)[k] == more[k - |ops|]; }
    }
  }

  /** The state of the render loop after slides `0..i-1` were drawn and, if
      `failed`, slide `i` was rendered and its capture threw. */
  predicate Rendering(ops: seq<PdfOp>, slides: seq<SlideContent>, fault: PdfFault, i: nat, failed: bool) {
    && i <= |slides|
    && (failed ==> fault == CaptureFails(i) && i < |slides|)
    && !(fault.CaptureFails? && fault.index < i)
    && Opened(ops, slides)
    && Doc(ops) == PdfDoc(PagesFor(i), Upto(if failed then i + 1 else i))
  }

  lemma RenderingStarts(slides: seq<SlideContent>, fault: PdfFault)
    ensures Rendering(PdfStart, slides, fault, 0, false)
  {
    DocIgnore([], PdfStart);
    assert [] + PdfStart == PdfStart;
  }

  lemma RenderingAdvances(ops: seq<PdfOp>, slides: seq<SlideContent>, fault: PdfFault, i: nat)
    requires Rendering(ops, slides, fault, i, false) && i < |slides| && fault != CaptureFails(i)
    ensures Rendering(ops + [RenderSlide(i, slides[i])] + PlaceSlide(i), slides, fault, i + 1, false)
  {
    PagesAfterSlide(ops, i, slides[i]);
    var more := [RenderSlide(i, slides[i])] + PlaceSlide(i);
    assert ops + [RenderSlide(i, slides[i])] + PlaceSlide(i) == ops + more;
    OpenedExtend(ops, more, slides);
  }

  lemma RenderingFails(ops: seq<PdfOp>, slides: seq<SlideContent>, fault: PdfFault, i: nat)
    requires Rendering(ops, slides, fault, i, false) && i < |slides| && fault == CaptureFails(i)
    ensures Rendering(ops + [RenderSlide(i, slides[i])], slides, fault, i, true)
  {
    RenderNext(ops, i, slides[i]);
    OpenedExtend(ops, [RenderSlide(i, slides[i])], slides);
  }

  lemma RenderingEnds(ops: seq<PdfOp>, slides: seq<SlideContent>, fault: PdfFault, i: nat, failed: bool)
    requires Rendering(ops, slides, fault, i, failed) && (i == |slides| || failed)
    ensures failed <==> fault.CaptureFails? && fault.index < |slides|
    ensures Doc(ops) == PdfDoc(PagesFor(Placed(|slides|, fault)), Upto(Reached(|slides|, fault)))
  {
  }

  /** The render-and-capture loop: slides rendered in order, each capture
      drawn on its own page, until one capture throws. */
  method RenderSlides(slides: seq<SlideContent>, fault: PdfFault)
    returns (ops: seq<PdfOp>, failed: bool)
    ensures Opened(ops, slides)
    ensures failed <==> fault.CaptureFails? && fault.index < |slides|
    ensures Doc(ops) == PdfDoc(PagesFor(Placed(|slides|, fault)), Upto(Reached(|slides|, fault)))
  {
    ops := PdfStart;
    RenderingStarts(slides, fault);
    var i := 0;
    failed := false;
    while i < |slides| && !failed
      invariant Rendering(ops, slides, fault, i, failed)
      decreases |slides| - i, if failed then 0 else 1
    {
      if fault == CaptureFails(i) {
        RenderingFails(ops, slides, fault, i);
        ops := ops + [RenderSlide(i, slides[i])];
        failed := true;
      } else {
        RenderingAdvances(ops, slides, fault, i);
        ops := ops + [RenderSlide(i, slides[i])] + PlaceSlide(i);
        i := i + 1;
      }
    }
    RenderingEnds(ops, slides, fault, i, failed);
  }

  /** The tail of an export after the loop: an optional save, then the
      clean-up steps. */
  function Tail(save: bool): (tail: seq<PdfOp>)
    ensures |tail| >= 3 && tail[|tail| - 3..] == PdfFinish
    ensures forall k :: 0 <= k < |tail| ==> !tail[k].RenderSlide? && !tail[k].AddPage? && !tail[k].AddImage?
    ensures SavePdf in tail <==> save
  {
    if save then [SavePdf] + PdfFinish else PdfFinish
  }

  /** Closing an opened export keeps its opening steps and ends with the
      clean-up steps. */
  lemma ClosingShape(body: seq<PdfOp>, save: bool, slides: seq<SlideContent>)
    requires Opened(body, slides)
    ensures |body + Tail(save)| >= 6 && (body + Tail(save))[..3] == PdfStart
    ensures (body + Tail(save))[|body + Tail(save)| - 3..] == PdfFinish
  {
    var tail := Tail(save);
    var ops := body + tail;
    assert ops[..3] == body[..3];
    assert ops[|ops| - 3..] == tail[|tail| - 3..];
  }

  /** A closed export saves exactly when its tail does. */
  lemma ClosingSaves(body: seq<PdfOp>, save: bool, slides: seq<SlideContent>)
    requires Opened(body, slides)
    ensures SavePdf in body + Tail(save) <==> save
  {
    NoSaveInLoop(body, slides);
  }

  /** Every rendering in a closed export shows the slide at its own index. */
  lemma ClosingRenders(body: seq<PdfOp>, save: bool, slides: seq<SlideContent>)
    requires Opened(body, slides)
    ensures forall k :: 0 <= k < |body + Tail(save)| && (body + Tail(save))[k].RenderSlide? ==>
      (body + Tail(save))[k].index < |slides| && (body + Tail(save))[k].slide == slides[(body + Tail(save))[k].index]
  {
    var tail := Tail(save);
    var ops := body + tail;
    forall k | 0 <= k < |ops|
      ensures ops[k].RenderSlide? ==> ops[k].index < |slides| && ops[k].slide == slides[ops[k].index]
    {
      if k >= |body| {
        assert ops[k] == tail[k - |body|];
      } else if k < 3 {
        assert ops[k] == PdfStart[k];
      } else {
        assert LoopStep(body[k], slides);
      }
    }
  }

  /** The export once its setup succeeded: the render loop inside the
      `try`, the save if nothing threw, and the `finally` clean-up. */
  method RenderAndSave(slides: seq<SlideContent>, fault: PdfFault)
    returns (ops: seq<PdfOp>, saved: bool)
    ensures |ops| >= 6 && ops[..3] == PdfStart && ops[|ops| - 3..] == PdfFinish
    ensures saved <==> fault != SaveFails && !(fault.CaptureFails? && fault.index < |slides|)
    ensures saved <==> SavePdf in ops
    ensures Doc(ops) == PdfDoc(PagesFor(Placed(|slides|, fault)), Upto(Reached(|slides|, fault)))
    ensures forall k :: 0 <= k < |ops| && ops[k].RenderSlide? ==>
      ops[k].index < |slides| && ops[k].slide == slides[ops[k].index]
  {
    var body, failed := RenderSlides(slides, fault);
    saved := !failed && fault != SaveFails;
    ops := body + Tail(saved);
    DocIgnore(body, Tail(saved));
    ClosingShape(body, saved, slides);
    ClosingSaves(body, saved, slides);
    ClosingRenders(body, saved, slides);
  }

  /** `handleExportPDF`: without the libraries nothing happens. A throw while
      creating the render root or the document escapes before the `try`:
      the container stays mounted and the exporting flag stays on. Otherwise
      slides are rendered in order, each capture lands on its own page, the
      file is saved only if nothing threw, and the clean-up steps end the run. */
  method ExportPdf(libLoaded: bool, slides: seq<SlideContent>, fault: PdfFault)
    returns (ops: seq<PdfOp>, saved: bool)
    ensures !libLoaded ==> ops == [] && !saved
    ensures libLoaded && fault == SetupFails ==> ops == [SetExporting(true), MountContainer]
    ensures libLoaded && fault != SetupFails ==>
      |ops| >= 6 && ops[..3] == PdfStart && ops[|ops| - 3..] == PdfFinish
    ensures saved <==>
      libLoaded && fault != SetupFails && fault != SaveFails && !(fault.CaptureFails? && fault.index < |slides|)
    ensures saved <==> SavePdf in ops
    ensures libLoaded && fault != SetupFails ==>
      Doc(ops) == PdfDoc(PagesFor(Placed(|slides|, fault)), Upto(Reached(|slides|, fault)))
    ensures saved ==> Doc(ops) == PdfDoc(PagesFor(|slides|), Upto(|slides|))
    ensures forall k :: 0 <= k < |ops| && ops[k].RenderSlide? ==>
      ops[k].index < |slides| && ops[k].slide == slides[ops[k].index]
  {
    if !libLoaded {
      ops, saved := [], false;
    } else if fault == SetupFails {
      ops, saved := [SetExporting(true), MountContainer], false;
    } else {
      ops, saved := RenderAndSave(slides, fault);
    }
  }
}
