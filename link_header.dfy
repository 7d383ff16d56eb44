/** The `Link` header value built from the head fragments of one render:
    the qualifying entries of every `<link>` tag, fragment by fragment and
    left to right within a fragment, joined with `", "` while the length
    budget allows, stopping for good at the first entry that does not fit. */
module LinkHeader {
  import opened Text
  import opened TagScan
  import opened AttrScan
  import opened LinkEntry
  import opened Classify

  /** The entry one tag contributes, if it has a `rel` and an `href` and
      its kind is switched on. */
  function EntryFor(text: string, r: Resources): (e: Option<string>)
    ensures e.Some? <==> Extract(text).rel != "" && Extract(text).href != "" && Included(Extract(text), r)
    ensures e.Some? ==> e.value != [] && e.value[0] == '<'
  {
    var a := Extract(text);
    if a.rel != "" && a.href != "" && Included(a, r) then Some(Serialize(Rewrite(a))) else None
  }

  /** The entries of a sequence of tags, in order. */
  function Qualifying(texts: seq<string>, r: Resources): seq<string>
  {
    if texts == [] then []
    else
      (match EntryFor(texts[0], r) case Some(e) => [e] case None => [])
      + Qualifying(texts[1..], r)
  }

  /** The entries of all fragments, fragment by fragment. */
  function Entries(head: seq<string>, r: Resources): seq<string>
  {
    if head == [] then [] else Qualifying(TagsFrom(head[0], 0), r) + Entries(head[1..], r)
  }

  /** Entries separated by `", "`, with no separator before the first or
      after the last. */
  function Join(es: seq<string>): string
  {
    if es == [] then ""
    else if |es| == 1 then es[0]
    else es[0] + ", " + Join(es[1..])
  }

  /** The header after appending one entry to `acc`. */
  function Append(acc: string, link: string): string
  {
    if acc != "" then acc + ", " + link else link
  }

  /** The length check: appending `link` to `acc` is refused when the two
      lengths plus two reach the budget, whether or not a separator would
      be written. */
  predicate Fits(acc: string, link: string, cap: int)
  {
    Units(acc) + Units(link) + 2 < cap
  }

  /** The accumulation: entries are appended while they fit; the first one
      that does not fit ends it. */
  function Fill(acc: string, es: seq<string>, cap: int): string
    decreases |es|
  {
    if es == [] then acc
    else if !Fits(acc, es[0], cap) then acc
    else Fill(Append(acc, es[0]), es[1..], cap)
  }

  /** The header value for the given head fragments and options. */
  function Header(head: seq<string>, options: Options): string
  {
    Fill("", Entries(head, options.resources), options.headerLength)
  }

  /** One tag's contribution as the code computes it: extraction into a
      mutable record, the inclusion test, and the in-place stylesheet
      rewrite before the template is filled. */
  method TagEntry(text: string, r: Resources) returns (entry: Option<string>)
    ensures entry == EntryFor(text, r)
  {
    var result := ExtractAttributes(text);
    entry := None;
    if result.rel != "" && result.href != "" && Included(result, r) {
      var blocking := false;
      if result.rel == "stylesheet" {
        result := result.(destination := "style", rel := "preload");
        blocking := true;
      }
      entry := Some(Serialize(ToEntry(result, blocking)));
    }
  }

  /** An optional entry as a list of zero or one entries. */
  function EntryList(e: Option<string>): seq<string>
  {
    match e case Some(x) => [x] case None => []
  }

  /** A fragment holding one tag contributes that tag's entry, if any. */
  lemma OneTagEntries(fragment: string, text: string, r: Resources)
    requires TagsFrom(fragment, 0) == [text]
    ensures Entries([fragment], r) == EntryList(EntryFor(text, r))
  {
    assert [text][1..] == [];
    assert [fragment][1..] == [];
    assert Entries([fragment], r) == Qualifying([text], r) + Entries([], r);
    assert Qualifying([text], r) == EntryList(EntryFor(text, r)) + Qualifying([], r);
  }

  lemma QualifyingStep(s: string, pos: nat, r: Resources, later: seq<string>)
    requires pos <= |s| && NextTag(s, pos).Some?
    ensures Qualifying(TagsFrom(s, pos), r) + later
      == EntryList(EntryFor(NextTag(s, pos).value.attrs, r)) + (Qualifying(TagsFrom(s, NextTag(s, pos).value.end), r) + later)
  {
    var t := NextTag(s, pos).value;
    assert TagsFrom(s, pos) == [t.attrs] + TagsFrom(s, t.end);
    assert ([t.attrs] + TagsFrom(s, t.end))[1..] == TagsFrom(s, t.end);
  }

  lemma QualifyingDone(s: string, pos: nat, r: Resources, later: seq<string>)
    requires pos <= |s| && NextTag(s, pos).None?
    ensures Qualifying(TagsFrom(s, pos), r) + later == later
  {
    assert TagsFrom(s, pos) == [];
  }

  lemma EntriesAt(head: seq<string>, f: nat, r: Resources)
    requires f < |head|
    ensures Entries(head[f..], r) == Qualifying(TagsFrom(head[f], 0), r) + Entries(head[f + 1..], r)
  {
    assert head[f..][1..] == head[f + 1..];
  }

  lemma FillCons(acc: string, link: string, rest: seq<string>, cap: int)
    ensures Fill(acc, [link] + rest, cap)
      == if !Fits(acc, link, cap) then acc else Fill(Append(acc, link), rest, cap)
  {
    assert ([link] + rest)[1..] == rest;
  }

  /** The header builder as the code runs it: a pass over the fragments, in
      each fragment a tag search that resumes after the previous tag, and a
      return as soon as an entry does not fit. */
  method GenerateLinkHeader(head: seq<string>, options: Options) returns (linkHeader: string)
    ensures linkHeader == Header(head, options)
  {
    var r := options.resources;
    var cap := options.headerLength;
    linkHeader := "";
    for f := 0 to |head|
      invariant Fill(linkHeader, Entries(head[f..], r), cap) == Header(head, options)
    {
      var s := head[f];
      ghost var later := Entries(head[f + 1..], r);
      EntriesAt(head, f, r);
      var pos := 0;
      var next := NextTag(s, pos);
      ghost var remaining := Qualifying(TagsFrom(s, pos), r) + later;
      while next.Some?
        invariant pos <= |s|
        invariant next == NextTag(s, pos)
        invariant remaining == Qualifying(TagsFrom(s, pos), r) + later
        invariant Fill(linkHeader, remaining, cap) == Header(head, options)
        decreases |s| - pos
      {
        var tag := next.value;
        QualifyingStep(s, pos, r, later);
        ghost var todo := Qualifying(TagsFrom(s, tag.end), r) + later;
        var entry := TagEntry(tag.attrs, r);
        pos := tag.end;
        next := NextTag(s, pos);
        if entry.Some? {
          var link := entry.value;
          assert remaining == [link] + todo;
          FillCons(linkHeader, link, todo, cap);
          if Units(linkHeader) + Units(link) + 2 >= cap {
            return;
          }
          linkHeader := if linkHeader != "" then linkHeader + ", " + link else link;
        } else {
          assert remaining == todo;
        }
        remaining := todo;
      }
      QualifyingDone(s, pos, r, later);
    }
  }

  // Properties of the accumulation

  predicate NonEmptyEntries(es: seq<string>)
  {
    forall k :: 0 <= k < |es| ==> es[k] != ""
  }

  lemma {:induction false} JoinSnoc(es: seq<string>, e: string)
    requires es != []
    ensures Join(es + [e]) == Join(es) + ", " + e
    decreases |es|
  {
    if |es| == 1 {
      assert es + [e] == [es[0], e];
      assert [es[0], e][1..] == [e];
    } else {
      assert (es + [e])[1..] == es[1..] + [e];
      JoinSnoc(es[1..], e);
    }
  }

  lemma {:induction false} JoinNonEmpty(es: seq<string>)
    requires NonEmptyEntries(es) && es != []
    ensures Join(es) != ""
    decreases |es|
  {
    if |es| > 1 {
      assert |es[0] + ", " + Join(es[1..])| > 0;
    }
  }

  /** Appending to the joined prefix joins the longer prefix. */
  lemma AppendJoin(es: seq<string>, i: nat)
    requires i < |es| && NonEmptyEntries(es)
    ensures Append(Join(es[..i]), es[i]) == Join(es[..i + 1])
  {
    assert es[..i + 1] == es[..i] + [es[i]];
    if i == 0 {
      assert es[..1] == [es[0]];
    } else {
      JoinNonEmpty(es[..i]);
      JoinSnoc(es[..i], es[i]);
    }
  }

  /** The header never reaches the budget: a non-empty result is shorter
      than `headerLength` code units. */
  lemma {:induction false} FillWithinBudget(acc: string, es: seq<string>, cap: int)
    requires acc == "" || Units(acc) < cap
    ensures Fill(acc, es, cap) == "" || Units(Fill(acc, es, cap)) < cap
    decreases |es|
  {
    if es != [] && Fits(acc, es[0], cap) {
      var next := Append(acc, es[0]);
      if acc != "" {
        UnitsAppend(acc, ", ");
        UnitsAppend(acc + ", ", es[0]);
        assert Units(", ") == 2;
      }
      FillWithinBudget(next, es[1..], cap);
    }
  }

  lemma HeaderWithinBudget(head: seq<string>, options: Options)
    ensures Header(head, options) != "" ==> Units(Header(head, options)) < options.headerLength
  {
    FillWithinBudget("", Entries(head, options.resources), options.headerLength);
  }

  /** The accumulation only ever extends what it started from. */
  lemma {:induction false} FillExtends(acc: string, es: seq<string>, cap: int)
    ensures |acc| <= |Fill(acc, es, cap)| && Fill(acc, es, cap)[..|acc|] == acc
    decreases |es|
  {
    if es != [] && Fits(acc, es[0], cap) {
      var next := Append(acc, es[0]);
      assert next[..|acc|] == acc;
      FillExtends(next, es[1..], cap);
      assert Fill(acc, es, cap)[..|acc|] == Fill(acc, es, cap)[..|next|][..|acc|];
    }
  }

  /** The check charges the separator's two units even to the first entry:
      the header is non-empty exactly when the first entry plus two stays
      under the budget. */
  lemma FirstEntryCharged(head: seq<string>, options: Options)
    requires Entries(head, options.resources) != []
    ensures Header(head, options) != ""
      <==> Units(Entries(head, options.resources)[0]) + 2 < options.headerLength
  {
    var es := Entries(head, options.resources);
    EntriesNonEmpty(head, options.resources);
    UnitsAtLeastLength("");
    if Fits("", es[0], options.headerLength) {
      FillExtends(es[0], es[1..], options.headerLength);
    }
  }

  /** While every entry before index `i` fits after the join of its
      predecessors, the accumulation has reached the join of the first `i`
      entries. */
  lemma {:induction false} FillReaches(es: seq<string>, cap: int, i: nat)
    requires i <= |es| && NonEmptyEntries(es)
    requires forall j :: 0 <= j < i ==> Fits(Join(es[..j]), es[j], cap)
    ensures Fill("", es, cap) == Fill(Join(es[..i]), es[i..], cap)
  {
    if i == 0 {
      assert es[..0] == [] && es[0..] == es;
    } else {
      FillReaches(es, cap, i - 1);
      var acc := Join(es[..i - 1]);
      assert es[i - 1..] == [es[i - 1]] + es[i..];
      FillCons(acc, es[i - 1], es[i..], cap);
      AppendJoin(es, i - 1);
    }
  }

  /** The hard stop: the result is exactly the join of the entries before
      the first one that does not fit (all entries when every one fits). No
      entry is cut short and none after the stop is considered. */
  lemma StopsAtFirstMisfit(es: seq<string>, cap: int, k: nat)
    requires k <= |es| && NonEmptyEntries(es)
    requires forall j :: 0 <= j < k ==> Fits(Join(es[..j]), es[j], cap)
    requires k < |es| ==> !Fits(Join(es[..k]), es[k], cap)
    ensures Fill("", es, cap) == Join(es[..k])
  {
    FillReaches(es, cap, k);
    if k < |es| {
      assert es[k..] == [es[k]] + es[k + 1..];
      FillCons(Join(es[..k]), es[k], es[k + 1..], cap);
    }
  }

  /** Every entry of the header is non-empty: it starts with `<`. */
  lemma {:induction false} QualifyingNonEmpty(texts: seq<string>, r: Resources)
    ensures NonEmptyEntries(Qualifying(texts, r))
    decreases |texts|
  {
    if texts != [] {
      QualifyingNonEmpty(texts[1..], r);
    }
  }

  lemma {:induction false} EntriesNonEmpty(head: seq<string>, r: Resources)
    ensures NonEmptyEntries(Entries(head, r))
    decreases |head|
  {
    if head != [] {
      QualifyingNonEmpty(TagsFrom(head[0], 0), r);
      EntriesNonEmpty(head[1..], r);
    }
  }

  /** The entries of one fragment. */
  function FragmentEntries(fragment: string, r: Resources): seq<string>
  {
    Qualifying(TagsFrom(fragment, 0), r)
  }

  /** One unfolding step of `Entries`, stated over `FragmentEntries` so
      that the tag scan stays folded. */
  lemma EntriesCons(head: seq<string>, r: Resources)
    requires head != []
    ensures Entries(head, r) == FragmentEntries(head[0], r) + Entries(head[1..], r)
  {
  }

  /** Concatenation regroups: stated apart so that the step in
      `EntriesAppend` does not reopen the entries. */
  lemma AppendAssoc(a: seq<string>, b: seq<string>, c: seq<string>)
    ensures (a + b) + c == a + (b + c)
  {
  }

  /** Order: the entries of a longer head are those of its first part
      followed by those of the rest. */
  lemma {:induction false} EntriesAppend(h1: seq<string>, h2: seq<string>, r: Resources)
    ensures Entries(h1 + h2, r) == Entries(h1, r) + Entries(h2, r)
    decreases |h1|
  {
    if h1 == [] {
      assert h1 + h2 == h2;
    } else {
      var h := h1 + h2;
      var q := FragmentEntries(h1[0], r);
      assert h[0] == h1[0];
      assert h[1..] == h1[1..] + h2;
      EntriesCons(h, r);
      EntriesCons(h1, r);
      EntriesAppend(h1[1..], h2, r);
      AppendAssoc(q, Entries(h1[1..], r), Entries(h2, r));
    }
  }

  /** The header is the join of a prefix of the entries, cut at the first
      entry that does not fit. */
  lemma HeaderIsFittingPrefix(head: seq<string>, options: Options, k: nat)
    requires var es := Entries(head, options.resources);
      && k <= |es|
      && (forall j :: 0 <= j < k ==> Fits(Join(es[..j]), es[j], options.headerLength))
      && (k < |es| ==> !Fits(Join(es[..k]), es[k], options.headerLength))
    ensures Header(head, options) == Join(Entries(head, options.resources)[..k])
  {
    EntriesNonEmpty(head, options.resources);
    StopsAtFirstMisfit(Entries(head, options.resources), options.headerLength, k);
  }

  /** Once an entry of the first fragments does not fit, later fragments
      change nothing, however many qualifying tags they hold. */
  lemma LaterFragmentsIgnored(h1: seq<string>, h2: seq<string>, options: Options, k: nat)
    requires var es := Entries(h1, options.resources);
      && k < |es|
      && (forall j :: 0 <= j < k ==> Fits(Join(es[..j]), es[j], options.headerLength))
      && !Fits(Join(es[..k]), es[k], options.headerLength)
    ensures Header(h1 + h2, options) == Header(h1, options)
  {
    var r, cap := options.resources, options.headerLength;
    var es := Entries(h1, r);
    var all := Entries(h1 + h2, r);
    EntriesAppend(h1, h2, r);
    assert all == es + Entries(h2, r);
    EntriesNonEmpty(h1 + h2, r);
    EntriesNonEmpty(h1, r);
    forall j | 0 <= j <= k
      ensures all[..j] == es[..j] && all[j] == es[j]
    {
    }
    StopsAtFirstMisfit(all, cap, k);
    StopsAtFirstMisfit(es, cap, k);
  }

  /** Head fragments without `<link` followed by whitespace give no
      header. */
  lemma {:induction false} NoLinkTagsNoHeader(head: seq<string>, options: Options)
    requires forall fragment, i: nat :: fragment in head ==> !OpensLink(fragment, i)
    ensures Header(head, options) == ""
    decreases |head|
  {
    if head != [] {
      NoLinkNoTags(head[0]);
      assert forall fragment :: fragment in head[1..] ==> fragment in head;
      NoLinkTagsNoHeader(head[1..], options);
      assert Entries(head, options.resources) == Entries(head[1..], options.resources);
    }
  }

  lemma {:induction false} AllOffQualifiesNothing(texts: seq<string>, r: Resources)
    requires !r.stylesheet && !r.modulePreload && !r.prefetch && !r.images && !r.fonts
    requires !r.scripts && !r.dnsPrefetch && !r.preconnect
    ensures Qualifying(texts, r) == []
    decreases |texts|
  {
    if texts != [] {
      AllOffExcludes(Extract(texts[0]), r);
      AllOffQualifiesNothing(texts[1..], r);
    }
  }

  /** With every resource switch off (the `preload` switch aside, which is
      never read) the header is empty, whatever the fragments hold. */
  lemma {:induction false} AllOffNoHeader(head: seq<string>, options: Options)
    requires var r := options.resources;
      !r.stylesheet && !r.modulePreload && !r.prefetch && !r.images && !r.fonts
      && !r.scripts && !r.dnsPrefetch && !r.preconnect
    ensures Header(head, options) == ""
    decreases |head|
  {
    if head != [] {
      AllOffQualifiesNothing(TagsFrom(head[0], 0), options.resources);
      AllOffNoHeader(head[1..], options);
      assert Entries(head, options.resources) == Entries(head[1..], options.resources);
    }
  }

  /** The attributes behind an emitted entry: a tag with a `rel` and an
      `href`, switched on, whose rewrite the entry serialises. */
  predicate EmittedFrom(e: string, a: Attrs, r: Resources)
  {
    a.rel != "" && a.href != "" && Included(a, r) && ParseEntry(e) == Some(Rewrite(a))
  }

  lemma EntryForReadBack(text: string, r: Resources)
    requires '>' !in text && EntryFor(text, r).Some?
    ensures EmittedFrom(EntryFor(text, r).value, Extract(text), r)
  {
    RewriteWellFormed(text);
    SerializeRoundTrip(Rewrite(Extract(text)));
  }

  lemma {:induction false} QualifyingReadBack(texts: seq<string>, r: Resources)
    requires forall t :: t in texts ==> '>' !in t
    ensures forall e :: e in Qualifying(texts, r) ==> exists t :: t in texts && EmittedFrom(e, Extract(t), r)
    decreases |texts|
  {
    if texts != [] {
      var head := EntryList(EntryFor(texts[0], r));
      var tail := Qualifying(texts[1..], r);
      assert Qualifying(texts, r) == head + tail;
      assert texts[0] in texts;
      if EntryFor(texts[0], r).Some? {
        EntryForReadBack(texts[0], r);
      }
      assert forall t :: t in texts[1..] ==> t in texts;
      QualifyingReadBack(texts[1..], r);
      forall e | e in head + tail
        ensures exists t :: t in texts && EmittedFrom(e, Extract(t), r)
      {
        if e in head {
          assert EmittedFrom(e, Extract(texts[0]), r);
        } else {
          var t :| t in texts[1..] && EmittedFrom(e, Extract(t), r);
          assert t in texts;
        }
      }
    }
  }

  /** Every entry reads back, through the entry parser, as the rewrite of
      the extracted attributes of a qualifying tag of some fragment of the
      head. */
  lemma {:induction false} EntriesReadBack(head: seq<string>, r: Resources)
    ensures forall e :: e in Entries(head, r) ==>
      exists f, t :: 0 <= f < |head| && t in TagsFrom(head[f], 0) && EmittedFrom(e, Extract(t), r)
    decreases |head|
  {
    if head != [] {
      TagsFromShape(head[0], 0);
      QualifyingReadBack(TagsFrom(head[0], 0), r);
      EntriesReadBack(head[1..], r);
      EntriesCons(head, r);
      forall e | e in Entries(head, r)
        ensures exists f, t :: 0 <= f < |head| && t in TagsFrom(head[f], 0) && EmittedFrom(e, Extract(t), r)
      {
        if e in FragmentEntries(head[0], r) {
          var t :| t in TagsFrom(head[0], 0) && EmittedFrom(e, Extract(t), r);
          assert 0 <= 0 < |head| && t in TagsFrom(head[0], 0);
        } else {
          assert e in Entries(head[1..], r);
          var f, t :| 0 <= f < |head[1..]| && t in TagsFrom(head[1..][f], 0) && EmittedFrom(e, Extract(t), r);
          assert head[1..][f] == head[f + 1];
          assert 0 <= f + 1 < |head| && t in TagsFrom(head[f + 1], 0);
        }
      }
    }
  }
}
