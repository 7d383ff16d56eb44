/** Concrete entries the repository's tests expect, and two consequences
    of the options the render hook passes. */
module Examples {
  import opened Text
  import opened TagScan
  import opened AttrScan
  import opened LinkEntry
  import opened Classify
  import opened LinkHeader

  // Serialised entries, one lemma per shape, for any target.

  lemma ScriptPreloadBare(h: string)
    ensures Serialize(Entry(h, "preload", "script", Shorthand, "", false))
      == "<" + h + ">; rel=\"preload\"; as=\"script\"; crossorigin"
  {
    assert Serialize(Entry(h, "preload", "script", Shorthand, "", false))
      == "<" + h + (">; rel=\"" + "preload" + "\"" + ("; as=\"" + "script" + "\"") + "; crossorigin");
    assert ">; rel=\"" + "preload" + "\"" == ">; rel=\"preload\"";
    assert "; as=\"" + "script" + "\"" == "; as=\"script\"";
    assert ">; rel=\"preload\"" + "; as=\"script\"" + "; crossorigin" == ">; rel=\"preload\"; as=\"script\"; crossorigin";
  }

  lemma ScriptPreloadValue(h: string, v: string)
    ensures Serialize(Entry(h, "preload", "script", Explicit(v), "", false))
      == "<" + h + ">; rel=\"preload\"; as=\"script\"; crossorigin=\"" + v + "\""
  {
    assert Serialize(Entry(h, "preload", "script", Explicit(v), "", false))
      == "<" + h + (">; rel=\"" + "preload" + "\"" + ("; as=\"" + "script" + "\"") + "; crossorigin=\"") + v + "\"";
    assert ">; rel=\"" + "preload" + "\"" == ">; rel=\"preload\"";
    assert "; as=\"" + "script" + "\"" == "; as=\"script\"";
    assert ">; rel=\"preload\"" + "; as=\"script\"" + "; crossorigin=\"" == ">; rel=\"preload\"; as=\"script\"; crossorigin=\"";
  }

  lemma ScriptPreloadPlain(h: string)
    ensures Serialize(Entry(h, "preload", "script", Omitted, "", false))
      == "<" + h + ">; rel=\"preload\"; as=\"script\""
  {
    assert Serialize(Entry(h, "preload", "script", Omitted, "", false))
      == "<" + h + (">; rel=\"" + "preload" + "\"" + ("; as=\"" + "script" + "\""));
    assert ">; rel=\"" + "preload" + "\"" == ">; rel=\"preload\"";
    assert "; as=\"" + "script" + "\"" == "; as=\"script\"";
    assert ">; rel=\"preload\"" + "; as=\"script\"" == ">; rel=\"preload\"; as=\"script\"";
  }

  lemma ImagePreloadPriority(h: string, p: string)
    requires p != ""
    ensures Serialize(Entry(h, "preload", "image", Omitted, p, false))
      == "<" + h + ">; rel=\"preload\"; as=\"image\"; fetchpriority=\"" + p + "\""
  {
    assert Serialize(Entry(h, "preload", "image", Omitted, p, false))
      == "<" + h + (">; rel=\"" + "preload" + "\"" + ("; as=\"" + "image" + "\"") + "; fetchpriority=\"") + p + "\"";
    assert ">; rel=\"" + "preload" + "\"" == ">; rel=\"preload\"";
    assert "; as=\"" + "image" + "\"" == "; as=\"image\"";
    assert ">; rel=\"preload\"" + "; as=\"image\"" + "; fetchpriority=\"" == ">; rel=\"preload\"; as=\"image\"; fetchpriority=\"";
  }

  /** The stylesheet of the basic page becomes a blocking style preload. */
  lemma StylesheetEntry()
    ensures Serialize(Rewrite(Attrs("stylesheet", "/_nuxt/entry.xWPGQPTh.css", "", true, "", "")))
      == "<" + "/_nuxt/entry.xWPGQPTh.css" + ">; rel=\"preload\"; as=\"style\"; crossorigin; blocking"
  {
    StylesheetSerialized("/_nuxt/entry.xWPGQPTh.css");
  }

  /** A crossorigin value other than `anonymous` is kept. */
  lemma UseCredentialsEntry()
    ensures Serialize(Rewrite(Attrs("preload", "/test-crossorigin-use-credentials.js", "script", true, "use-credentials", "")))
      == "<" + "/test-crossorigin-use-credentials.js" + ">; rel=\"preload\"; as=\"script\"; crossorigin=\"" + "use-credentials" + "\""
  {
    ScriptPreloadValue("/test-crossorigin-use-credentials.js", "use-credentials");
  }

  /** An empty crossorigin value gives the bare directive. */
  lemma EmptyCrossOriginEntry()
    ensures Serialize(Rewrite(Attrs("preload", "/test-crossorigin-empty.js", "script", true, "", "")))
      == "<" + "/test-crossorigin-empty.js" + ">; rel=\"preload\"; as=\"script\"; crossorigin"
  {
    ScriptPreloadBare("/test-crossorigin-empty.js");
  }

  /** `crossorigin="anonymous"` gives the bare directive. */
  lemma AnonymousEntry()
    ensures Serialize(Rewrite(Attrs("preload", "/test-crossorigin-anonymous.js", "script", true, "anonymous", "")))
      == "<" + "/test-crossorigin-anonymous.js" + ">; rel=\"preload\"; as=\"script\"; crossorigin"
  {
    ScriptPreloadBare("/test-crossorigin-anonymous.js");
  }

  /** Without the attribute there is no crossorigin segment. */
  lemma NoCrossOriginEntry()
    ensures Serialize(Rewrite(Attrs("preload", "/test-crossorigin-none.js", "script", false, "", "")))
      == "<" + "/test-crossorigin-none.js" + ">; rel=\"preload\"; as=\"script\""
  {
    ScriptPreloadPlain("/test-crossorigin-none.js");
  }

  /** An image preload carries its fetch priority verbatim. */
  lemma FetchPriorityEntry()
    ensures Serialize(Rewrite(Attrs("preload", "/_ipx/_/srcset-test-duplicate.jpg", "image", false, "", "low")))
      == "<" + "/_ipx/_/srcset-test-duplicate.jpg" + ">; rel=\"preload\"; as=\"image\"; fetchpriority=\"" + "low" + "\""
  {
    ImagePreloadPriority("/_ipx/_/srcset-test-duplicate.jpg", "low");
  }

  /** A preload of an unknown destination is never included, whatever the
      switches. */
  lemma UnknownDestinationExcluded(r: Resources)
    ensures !Included(Attrs("preload", "/nottobeincluded", "nottobeincluded", false, "", ""), r)
  {
  }

  /** With the options the render hook passes, image preloads are dropped. */
  lemma HookDropsImagePreloads(a: Attrs)
    requires a.rel == "preload" && a.destination == "image"
    ensures !Included(a, HookOptions.resources)
  {
  }

  // One stylesheet tag, from the head fragment to the header value, for
  // any target without `"` and `>`.

  /** The attribute text of `<link rel="stylesheet" href="…" crossorigin>`. */
  function StylesheetTagAttrs(h: string): string
  {
    "rel=\"stylesheet\" href=\"" + h + "\" " + "crossorigin"
  }

  lemma StylesheetRelMatch(h: string)
    ensures |StylesheetTagAttrs(h)| == 36 + |h|
    ensures NextAttr(StylesheetTagAttrs(h), 0) == Some((Rel("stylesheet"), 16))
  {
    var t := StylesheetTagAttrs(h);
    assert t[..16] == "rel=\"stylesheet\"";
    assert t[16] == ' ';
    assert MatchesAt(t, 0, "rel=\"");
    RelAt(t, 0, "stylesheet");
  }

  lemma StylesheetHrefMatch(h: string)
    requires h != [] && '"' !in h
    ensures NextAttr(StylesheetTagAttrs(h), 16) == Some((Href(h), 24 + |h|))
  {
    var t := StylesheetTagAttrs(h);
    var n := |h|;
    assert |t| == 36 + n;
    assert t[16] == ' ';
    NoAttrAt(t, 16);
    assert t[17..23] == "href=\"";
    assert MatchesAt(t, 17, "href=\"");
    assert t[23..23 + n] == h;
    assert t[23 + n] == '"';
    HrefAt(t, 17, h);
  }

  lemma CrossoriginAfter(pre: string)
    ensures MatchesAt(pre + "crossorigin", |pre|, "crossorigin")
  {
    MatchesAfter(pre, "crossorigin");
  }

  lemma StylesheetCrossoriginAt(h: string)
    ensures |StylesheetTagAttrs(h)| == 36 + |h|
    ensures AttrAt(StylesheetTagAttrs(h), 24 + |h|).None?
    ensures AttrAt(StylesheetTagAttrs(h), 25 + |h|) == Some((Crossorigin(""), 36 + |h|))
  {
    var t := StylesheetTagAttrs(h);
    var n := |h|;
    assert t[24 + n] == ' ';
    NoAttrAt(t, 24 + n);
    CrossoriginAfter("rel=\"stylesheet\" href=\"" + h + "\" ");
    BareCrossoriginAt(t, 25 + n);
  }

  lemma StylesheetCrossoriginMatch(h: string)
    ensures NextAttr(StylesheetTagAttrs(h), 24 + |h|) == Some((Crossorigin(""), 36 + |h|))
    ensures NextAttr(StylesheetTagAttrs(h), 36 + |h|).None?
  {
    StylesheetCrossoriginAt(h);
  }

  /** The scan finds the three attributes, in order. */
  lemma StylesheetMatches(h: string)
    requires h != [] && '"' !in h
    ensures MatchesFrom(StylesheetTagAttrs(h), 0) == [Rel("stylesheet"), Href(h), Crossorigin("")]
  {
    StylesheetRelMatch(h);
    StylesheetHrefMatch(h);
    StylesheetCrossoriginMatch(h);
    ThreeMatches(StylesheetTagAttrs(h), 0, 16, 24 + |h|, 36 + |h|, Rel("stylesheet"), Href(h), Crossorigin(""));
  }

  /** The extracted attributes: the bare `crossorigin` is present without
      a value. */
  lemma StylesheetAttrs(h: string)
    requires h != [] && '"' !in h
    ensures Extract(StylesheetTagAttrs(h)) == Attrs("stylesheet", h, "", true, "", "")
  {
    StylesheetMatches(h);
    MergeThree(NoAttrs, Rel("stylesheet"), Href(h), Crossorigin(""));
  }

  lemma StylesheetSerialized(h: string)
    ensures Serialize(Rewrite(Attrs("stylesheet", h, "", true, "", "")))
      == "<" + h + ">; rel=\"preload\"; as=\"style\"; crossorigin; blocking"
  {
    var e := Rewrite(Attrs("stylesheet", h, "", true, "", ""));
    assert e == Entry(h, "preload", "style", Shorthand, "", true);
    assert Serialize(e) == "<" + h + (">; rel=\"" + "preload" + "\"" + ("; as=\"" + "style" + "\"") + "; crossorigin" + "; blocking");
    assert ">; rel=\"" + "preload" == ">; rel=\"preload";
    assert ">; rel=\"preload" + "\"" == ">; rel=\"preload\"";
    assert "; as=\"" + "style" == "; as=\"style";
    assert "; as=\"style" + "\"" == "; as=\"style\"";
    assert ">; rel=\"preload\"" + "; as=\"style\"" == ">; rel=\"preload\"; as=\"style\"";
    assert ">; rel=\"preload\"; as=\"style\"" + "; crossorigin" == ">; rel=\"preload\"; as=\"style\"; crossorigin";
    assert ">; rel=\"preload\"; as=\"style\"; crossorigin" + "; blocking" == ">; rel=\"preload\"; as=\"style\"; crossorigin; blocking";
  }

  lemma StylesheetEntryFor(h: string)
    requires h != [] && '"' !in h
    ensures EntryFor(StylesheetTagAttrs(h), HookOptions.resources)
      == Some("<" + h + ">; rel=\"preload\"; as=\"style\"; crossorigin; blocking")
  {
    StylesheetAttrs(h);
    StylesheetSerialized(h);
  }

  lemma StylesheetTagFound(h: string)
    requires h != [] && '"' !in h && '>' !in h
    ensures TagsFrom("<link " + StylesheetTagAttrs(h) + ">", 0) == [StylesheetTagAttrs(h)]
  {
    assert '>' !in StylesheetTagAttrs(h);
    SingleTag(StylesheetTagAttrs(h));
  }

  lemma StylesheetTagEntries(h: string)
    requires h != [] && '"' !in h && '>' !in h
    ensures Entries(["<link " + StylesheetTagAttrs(h) + ">"], HookOptions.resources)
      == ["<" + h + ">; rel=\"preload\"; as=\"style\"; crossorigin; blocking"]
  {
    StylesheetTagFound(h);
    StylesheetEntryFor(h);
    OneTagEntries("<link " + StylesheetTagAttrs(h) + ">", StylesheetTagAttrs(h), HookOptions.resources);
  }

  /** With the render hook's options, a head made of the one fragment
      `<link rel="stylesheet" href="h" crossorigin>` gives the blocking
      style preload of `h` as the whole header when it is shorter than the
      budget less two, and an empty header otherwise. */
  lemma StylesheetTagHeader(h: string)
    requires h != [] && '"' !in h && '>' !in h
    ensures var e := "<" + h + ">; rel=\"preload\"; as=\"style\"; crossorigin; blocking";
      Header(["<link " + StylesheetTagAttrs(h) + ">"], HookOptions)
        == if Units(e) + 2 < HookOptions.headerLength then e else ""
  {
    var e := "<" + h + ">; rel=\"preload\"; as=\"style\"; crossorigin; blocking";
    StylesheetTagEntries(h);
    FillCons("", e, [], HookOptions.headerLength);
    assert [e] == [e] + [];
  }

  /** Attribute names are compared without regard to letter case. */
  lemma UpperCaseName()
    ensures AttrAt("HREF=\"/a.js\"", 0) == Some((Href("/a.js"), 12))
  {
    var s := "HREF=\"/a.js\"";
    assert Lower(s[0]) == 'h' && Lower(s[1]) == 'r' && Lower(s[2]) == 'e' && Lower(s[3]) == 'f';
    assert MatchesAt(s, 0, "href=\"");
    assert s[6..11] == "/a.js";
    HrefAt(s, 0, "/a.js");
  }

  /** `\b` holds after `-`, so the `rel` inside `data-rel` is matched. */
  lemma DataRelMatchesRel()
    ensures NextAttr("data-rel=\"x\"", 0) == Some((Rel("x"), 12))
  {
    var s := "data-rel=\"x\"";
    NoAttrAt(s, 0);
    NoAttrAt(s, 1);
    NoAttrAt(s, 2);
    NoAttrAt(s, 3);
    NoAttrAt(s, 4);
    assert s[5..10] == "rel=\"";
    assert MatchesAt(s, 5, "rel=\"");
    assert s[10..11] == "x";
    RelAt(s, 5, "x");
    assert NextAttr(s, 4) == NextAttr(s, 5);
    assert NextAttr(s, 3) == NextAttr(s, 4);
    assert NextAttr(s, 2) == NextAttr(s, 3);
    assert NextAttr(s, 1) == NextAttr(s, 2);
  }

  /** …and its value is taken as the tag's `rel`. */
  lemma DataRelReadAsRel()
    ensures Extract("data-rel=\"x\"").rel == "x"
  {
    var s := "data-rel=\"x\"";
    DataRelMatchesRel();
    MatchesFromDone(s, 12);
    MatchesFromStep(s, 0, Rel("x"), 12);
    assert [Rel("x")][1..] == [];
  }
}
