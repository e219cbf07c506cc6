/** The input form: the submit guard, the slide-count control and the
    enablement of the Generate, Save and Load buttons. */
module ControlsPanel {

  /** The bounds of the slide-count range input. */
  const SlideCountMin: int := 3
  const SlideCountMax: int := 15

  /** `handleSubmit`: the number of times `onGenerate` is called. A string
      field is truthy exactly when it is non-empty. */
  function SubmitCalls(topic: string, audience: string, slideCount: int): (calls: nat)
    ensures calls <= 1
    ensures calls == 1 <==> topic != "" && audience != "" && slideCount > 0
  {
    if topic != "" && audience != "" && slideCount > 0 then 1 else 0
  }

  /** The value the range input reports: the browser keeps a range input's
      value within its `min`..`max` bounds. */
  function SlideCountFromRange(requested: int): (r: int)
    ensures SlideCountMin <= r <= SlideCountMax
    ensures SlideCountMin <= requested <= SlideCountMax ==> r == requested
    ensures requested < SlideCountMin ==> r == SlideCountMin
    ensures requested > SlideCountMax ==> r == SlideCountMax
  {
    if requested < SlideCountMin then SlideCountMin
    else if requested > SlideCountMax then SlideCountMax
    else requested
  }

  /** Any count the range input can report passes the count check, so with
      it the only reasons a submission is refused are an empty topic or audience. */
  lemma RangeCountAlwaysAccepted(topic: string, audience: string, requested: int)
    ensures SubmitCalls(topic, audience, SlideCountFromRange(requested)) == 1 <==> topic != "" && audience != ""
  {
  }

  /** Generate is disabled while a generation is running. */
  predicate GenerateEnabled(isLoading: bool) {
    !isLoading
  }

  /** Save is disabled while loading or when there is nothing to save. */
  predicate SaveEnabled(isLoading: bool, isSavable: bool) {
    !isLoading && isSavable
  }

  /** Load is disabled while loading or when nothing is stored. */
  predicate LoadEnabled(isLoading: bool, isLoadable: bool) {
    !isLoading && isLoadable
  }
}
