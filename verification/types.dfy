/** The shared data model: themes, slides and the saved session. */
module Types {
  import opened Wrappers

  /** The eight visual themes a presentation can use. */
  datatype Theme = Dark | Light | Corporate | Creative | Ocean | Sunset | Forest | Galaxy

  /** The name under which a theme is stored and selected. */
  function ThemeName(t: Theme): string {
    match t
    case Dark => "dark"
    case Light => "light"
    case Corporate => "corporate"
    case Creative => "creative"
    case Ocean => "ocean"
    case Sunset => "sunset"
    case Forest => "forest"
    case Galaxy => "galaxy"
  }

  /** Recognises a theme name. At run time the theme is a plain string (a
      loaded session may hold any text), so a name need not be one of the eight. */
  function ParseTheme(name: string): (r: Option<Theme>)
    ensures r.Some? ==> ThemeName(r.value) == name
    ensures r.None? ==> forall t: Theme :: ThemeName(t) != name
  {
    if name == "dark" then Some(Dark)
    else if name == "light" then Some(Light)
    else if name == "corporate" then Some(Corporate)
    else if name == "creative" then Some(Creative)
    else if name == "ocean" then Some(Ocean)
    else if name == "sunset" then Some(Sunset)
    else if name == "forest" then Some(Forest)
    else if name == "galaxy" then Some(Galaxy)
    else None
  }

  /** Every theme's name is recognised as that theme. */
  lemma ParseThemeName(t: Theme)
    ensures ParseTheme(ThemeName(t)) == Some(t)
  {
  }

  /** One slide: a title, its bullet points, and optionally a generated or
      uploaded image (a data URI) or the reason image generation failed. */
  datatype SlideContent = SlideContent(
    title: string,
    content: seq<string>,
    imageUrl: Option<string>,
    imageError: Option<string>)

  /** A slide never carries both an image and an image error. */
  predicate ImageConsistent(s: SlideContent) {
    !(s.imageUrl.Some? && s.imageError.Some?)
  }

  /** Everything needed to resume a presentation where it was saved. */
  datatype SavedSession = SavedSession(
    topic: string,
    audience: string,
    slideCount: int,
    theme: string,
    slides: seq<SlideContent>,
    currentSlide: int,
    generateImages: bool)
}
