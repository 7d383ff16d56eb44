/** Which tags become header entries, and how a qualifying tag is rewritten
    into an entry. */
module Classify {
  import opened Text
  import opened AttrScan
  import opened LinkEntry

  /** The resource kinds a caller can switch on or off. */
  datatype Resources = Resources(
    stylesheet: bool,
    preload: bool,
    modulePreload: bool,
    prefetch: bool,
    images: bool,
    fonts: bool,
    scripts: bool,
    dnsPrefetch: bool,
    preconnect: bool)

  /** The options of one call: the switches and the length budget of the
      header value. */
  datatype Options = Options(resources: Resources, headerLength: int)

  /** The options the render hook passes. */
  const HookOptions := Options(
    Resources(
      stylesheet := true, preload := true, modulePreload := true, prefetch := false,
      images := false, fonts := false, scripts := true, dnsPrefetch := true, preconnect := true),
    1990)

  /** The tag qualifies: the decision as the code takes it, a preload
      gate by destination first, then one disjunct per `rel` value. */
  predicate Included(a: Attrs, r: Resources)
  {
    var includePreload :=
      a.rel == "preload" &&
      ((a.destination == "script" && r.scripts)
       || (a.destination == "font" && r.fonts)
       || (a.destination == "image" && r.images)
       || (a.destination == "style" && r.stylesheet));
    || (r.stylesheet && a.rel == "stylesheet")
    || includePreload
    || (r.modulePreload && a.rel == "modulepreload")
    || (r.prefetch && a.rel == "prefetch")
    || (r.dnsPrefetch && a.rel == "dns-prefetch")
    || (r.preconnect && a.rel == "preconnect")
  }

  /** The resource switches, one name per field of `Resources`. */
  datatype Kind = Stylesheet | Preload | ModulePreload | Prefetch | Images | Fonts | Scripts | DnsPrefetch | Preconnect

  function Enabled(r: Resources, k: Kind): bool
  {
    match k
    case Stylesheet => r.stylesheet
    case Preload => r.preload
    case ModulePreload => r.modulePreload
    case Prefetch => r.prefetch
    case Images => r.images
    case Fonts => r.fonts
    case Scripts => r.scripts
    case DnsPrefetch => r.dnsPrefetch
    case Preconnect => r.preconnect
  }

  /** The inclusion rules as a table: the one switch that governs a
      `(rel, as)` pair, if any. */
  function Gate(rel: string, destination: string): Option<Kind>
  {
    if rel == "stylesheet" then Some(Stylesheet)
    else if rel == "preload" then
      if destination == "script" then Some(Scripts)
      else if destination == "font" then Some(Fonts)
      else if destination == "image" then Some(Images)
      else if destination == "style" then Some(Stylesheet)
      else None
    else if rel == "modulepreload" then Some(ModulePreload)
    else if rel == "prefetch" then Some(Prefetch)
    else if rel == "dns-prefetch" then Some(DnsPrefetch)
    else if rel == "preconnect" then Some(Preconnect)
    else None
  }

  /** The code's decision agrees with the table: a tag is included exactly
      when its `(rel, as)` pair has a switch and that switch is on. */
  lemma IncludedMatchesGate(a: Attrs, r: Resources)
    ensures Included(a, r) <==> Gate(a.rel, a.destination).Some? && Enabled(r, Gate(a.rel, a.destination).value)
  {
  }

  /** No `(rel, as)` pair is governed by the `preload` switch. */
  lemma GateNeverPreload(rel: string, destination: string)
    ensures Gate(rel, destination) != Some(Preload)
  {
  }

  /** The `preload` switch is never consulted. */
  lemma PreloadSwitchIgnored(a: Attrs, r: Resources, on: bool)
    ensures Included(a, r) == Included(a, r.(preload := on))
  {
    IncludedMatchesGate(a, r);
    IncludedMatchesGate(a, r.(preload := on));
    GateNeverPreload(a.rel, a.destination);
  }

  /** With every switch off nothing is included. */
  lemma AllOffExcludes(a: Attrs, r: Resources)
    requires !r.stylesheet && !r.modulePreload && !r.prefetch && !r.images && !r.fonts
    requires !r.scripts && !r.dnsPrefetch && !r.preconnect
    ensures !Included(a, r)
  {
  }

  /** The crossorigin segment the template writes: the bare directive for
      no value, an empty value or `anonymous`, the value otherwise. */
  function CrossOriginOf(a: Attrs): CrossOrigin
  {
    if !a.crossorigin then Omitted
    else if a.crossoriginValue == "" || a.crossoriginValue == "anonymous" then Shorthand
    else Explicit(a.crossoriginValue)
  }

  function ToEntry(a: Attrs, blocking: bool): Entry
  {
    Entry(a.href, a.rel, a.destination, CrossOriginOf(a), a.fetchPriority, blocking)
  }

  /** The entry for an included tag: a stylesheet becomes a blocking
      preload of a style; any other tag keeps its attributes. */
  function Rewrite(a: Attrs): (e: Entry)
    ensures e.blocking <==> a.rel == "stylesheet"
    ensures a.rel == "stylesheet" ==> e.rel == "preload" && e.destination == "style"
    ensures a.rel != "stylesheet" ==> e.rel == a.rel && e.destination == a.destination
    ensures e.href == a.href && e.fetchPriority == a.fetchPriority
    ensures e.crossOrigin == Omitted <==> !a.crossorigin
  {
    if a.rel == "stylesheet" then ToEntry(a.(destination := "style", rel := "preload"), true)
    else ToEntry(a, false)
  }

  /** `crossorigin`, `crossorigin=""` and `crossorigin="anonymous"` give the
      same entry, which carries the bare directive; any other value is kept
      and can be read back. */
  lemma CrossOriginNormalised(a: Attrs)
    requires a.crossorigin
    ensures Rewrite(a.(crossoriginValue := "anonymous")) == Rewrite(a.(crossoriginValue := ""))
    ensures CrossOriginSegment(Rewrite(a.(crossoriginValue := "")).crossOrigin) == "; crossorigin"
    ensures a.crossoriginValue !in {"", "anonymous"} ==> Rewrite(a).crossOrigin == Explicit(a.crossoriginValue)
  {
  }

  /** An entry rewritten from extracted attributes is well formed, so it
      round-trips through the entry parser. */
  lemma RewriteWellFormed(text: string)
    requires '>' !in text
    ensures WellFormed(Rewrite(Extract(text)))
  {
    ExtractValues(text, RelField);
    ExtractValues(text, HrefField);
    ExtractValues(text, AsField);
    ExtractValues(text, CrossoriginValueField);
    ExtractValues(text, FetchPriorityField);
  }
}
