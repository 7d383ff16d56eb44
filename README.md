# nuxt-resource-hints: the `Link` header builder

This project models `generateLinkHeader`, the function that the
nuxt-resource-hints Nitro plugin runs on every rendered page. It takes the
page's head fragments (`html.head`, a list of HTML strings) and an options
record. It returns the value of an HTTP `Link` header (RFC 8288, section 3)
that announces the page's stylesheets, scripts, fonts, images and
connections early. It works in five stages:

1. **Tag scan** (`tag_scan.dfy`). Each fragment is searched, left to right and
   without overlap, for `<link`, one whitespace character, one or more
   characters other than `>`, and `>`. `\s` is JavaScript's whitespace set.
2. **Attribute extraction** (`attr_scan.dfy`). The tag's attribute text is
   scanned for `rel="…"`, `href="…"`, `as="…"`, `crossorigin` with an
   optional `="…"`, and `fetchpriority="…"`.
   - Names are matched regardless of ASCII letter case, after a `\b` word
     boundary.
   - Every non-empty captured value overwrites the one collected so far.
   - `ExtractAttributes` is the loop that does this on a mutable record. It is
     proved equal to the fold `Extract`.
3. **Classification** (`classify.dfy`). A tag qualifies when it has a `rel`
   and an `href` and its kind is switched on. `Included` is the decision as
   the code takes it. `Gate` is a reference table of which switch governs
   which `(rel, as)` pair, and the two are proved to agree.
4. **Rewrite** (`classify.dfy`). An included `stylesheet` becomes
   `rel="preload"`, `as="style"`, with `; blocking`.
5. **Serialisation and cap** (`link_entry.dfy`, `link_header.dfy`).
   - Each entry is `<href>; rel="r"`, then the optional `as`, `crossorigin`,
     `fetchpriority` and `blocking` segments, in that order. `ParseEntry`
     reads an entry back, and serialisation is proved to round-trip through
     it.
   - Entries are joined with `", "`.
   - An entry is refused when the header length plus the entry length plus 2
     reaches `headerLength`. The first refusal ends the whole call.
   - `GenerateLinkHeader` is the nested loop with its early return. It is
     proved equal to the specification `Header`, which is the fold `Fill` over
     the list `Entries`. The cap, the hard stop and the ordering are proved
     about `Header`.

Lengths are JavaScript string lengths, so `Text.Units` counts UTF-16 code
units: a character outside the Basic Multilingual Plane counts two. The
options the render hook passes are `Classify.HookOptions`.

The model follows the code as written. Five consequences of the code are
easy to miss:

- **The `preload` switch is never read.** Preloads are gated only by their
  `as` value and the `scripts`/`fonts`/`images`/`stylesheet` switches
  (`Classify.PreloadSwitchIgnored`).
- **Both `rel` and `href` are required.** A tag missing either one is
  dropped, not only a tag missing both.
- **`imagesrcset` is never extracted or emitted.**
- **The budget counts UTF-16 code units, not bytes.**
- **The render hook switches images off**
  (src/runtime/nitro/plugins/nitro-resource-link.ts:22). Image preloads
  therefore never reach its header (`Examples.HookDropsImagePreloads`), so the
  image entries that test/image.test.ts:33 and :46 look for cannot come from
  this code as written. `Examples.FetchPriorityEntry` shows the entry the code
  would serialise for such a tag once it is included.

## Model

| member | source | states |
|---|---|---|
| TagScan.NextTag | src/runtime/nitro/plugins/nitro-resource-link.ts:98 | the next tag at or after the search position is the leftmost match of `<link` + whitespace + non-`>` text + `>`; no match is skipped; no result means no match at any later position; its attribute text is non-empty and free of `>` |
| TagScan.TagsFromShape | src/runtime/nitro/plugins/nitro-resource-link.ts:112-113 | every attribute text the `exec` loop yields is non-empty, free of `>`, and stands in the fragment between `<link` + whitespace and `>` |
| TagScan.NoLinkNoTags | src/runtime/nitro/plugins/nitro-resource-link.ts:112 | a fragment with no `<link` followed by whitespace yields no tag |
| TagScan.SingleTag | src/runtime/nitro/plugins/nitro-resource-link.ts:98 | the fragment `<link ` + text + `>` yields exactly that text, for any non-empty text without `>` |
| AttrScan.AttrAt | src/runtime/nitro/plugins/nitro-resource-link.ts:106 | a match at a position ends after it, and its value is free of `"` and made of characters of the text |
| AttrScan.NextAttr | src/runtime/nitro/plugins/nitro-resource-link.ts:106 | one `matchAll` step returns the leftmost match from the position, with no match before it; no result means no match at any later position |
| AttrScan.RelAt | src/runtime/nitro/plugins/nitro-resource-link.ts:106 | `rel="v"` at a word boundary, in any letter case, is captured as `v`, and the scan resumes after the closing quote |
| AttrScan.HrefAt | src/runtime/nitro/plugins/nitro-resource-link.ts:106 | `href="v"` likewise |
| AttrScan.AsAt | src/runtime/nitro/plugins/nitro-resource-link.ts:106 | `as="v"` likewise |
| AttrScan.FetchPriorityAt | src/runtime/nitro/plugins/nitro-resource-link.ts:106 | `fetchpriority="v"` likewise |
| AttrScan.CrossoriginValueAt | src/runtime/nitro/plugins/nitro-resource-link.ts:106 | `crossorigin="v"` is captured with its value, which may be empty (`[^"]*`) |
| AttrScan.BareCrossoriginAt | src/runtime/nitro/plugins/nitro-resource-link.ts:106 | a `crossorigin` not followed by `=` is captured without a value, and the scan resumes right after the name |
| AttrScan.NoAttrAt | src/runtime/nitro/plugins/nitro-resource-link.ts:106 | nothing matches where `\b` fails or where the character is not, up to case, the first letter of a name |
| AttrScan.ExtractAttributes | src/runtime/nitro/plugins/nitro-resource-link.ts:114-122 | the merge loop over `matchAll` yields exactly the left fold `Extract` of the match list into the empty record |
| AttrScan.MergeLastWins | src/runtime/nitro/plugins/nitro-resource-link.ts:117-121 | after the merge, an attribute holds the value of the last match that captured it non-empty |
| AttrScan.MergeKeeps | src/runtime/nitro/plugins/nitro-resource-link.ts:120 | an attribute that no match captures non-empty keeps its earlier value: empty values never overwrite |
| AttrScan.MergeCrossoriginPresence | src/runtime/nitro/plugins/nitro-resource-link.ts:117-121 | `crossoriginKey` is set exactly when some crossorigin match occurred, with or without a value |
| AttrScan.ExtractValues | src/runtime/nitro/plugins/nitro-resource-link.ts:106 | no extracted value holds `"`, and none holds `>` when the attribute text holds none |
| Classify.IncludedMatchesGate | src/runtime/nitro/plugins/nitro-resource-link.ts:124-145 | the code's inclusion test holds exactly when the table names a switch for the `(rel, as)` pair and that switch is on (both directions) |
| Classify.PreloadSwitchIgnored | src/runtime/nitro/plugins/nitro-resource-link.ts:139-145 | flipping the `preload` switch never changes the decision |
| Classify.AllOffExcludes | src/runtime/nitro/plugins/nitro-resource-link.ts:139-145 | with every switch except `preload` off, no tag is included |
| Classify.Rewrite | src/runtime/nitro/plugins/nitro-resource-link.ts:157-161 | the entry is blocking exactly for a stylesheet, which becomes `rel="preload"` `as="style"`; any other tag keeps its `rel` and `as`; `href` and `fetchpriority` pass through; the crossorigin segment is absent exactly when the attribute was |
| Classify.CrossOriginNormalised | src/runtime/nitro/plugins/nitro-resource-link.ts:165-172 | `crossorigin`, `crossorigin=""` and `crossorigin="anonymous"` give the same entry, whose crossorigin segment is the bare `; crossorigin`; any other value is kept as an explicit value |
| Classify.RewriteWellFormed | src/runtime/nitro/plugins/nitro-resource-link.ts:163-174 | the entry rewritten from any tag's attribute text can be delimited by the template (no `>` in the target, no `"` in a quoted value) |
| LinkEntry.SerializeRoundTrip | src/runtime/nitro/plugins/nitro-resource-link.ts:163-174 | parsing a serialised well-formed entry gives back the entry; with `EmptyAsRejected` and `EmptyFetchPriorityRejected` (the parser refuses a segment with an empty value), each optional segment appears exactly when its field is set, in the fixed order |
| LinkEntry.EmptyAsRejected | src/runtime/nitro/plugins/nitro-resource-link.ts:164 | an entry text with `; as=""` after `rel` never parses, whatever follows, since the template writes `as` only when it is non-empty |
| LinkEntry.EmptyFetchPriorityRejected | src/runtime/nitro/plugins/nitro-resource-link.ts:173 | an entry text with `; fetchpriority=""` after `rel` never parses, since the template writes `fetchpriority` only when it is non-empty |
| LinkEntry.SerializeInjective | src/runtime/nitro/plugins/nitro-resource-link.ts:163-174 | two well-formed entries with the same text are equal; `; blocking` marks exactly the blocking ones |
| LinkHeader.EntryFor | src/runtime/nitro/plugins/nitro-resource-link.ts:124-147 | a tag contributes an entry exactly when its `rel` and `href` are non-empty and it is included; an entry is non-empty and starts with `<` |
| LinkHeader.TagEntry | src/runtime/nitro/plugins/nitro-resource-link.ts:113-174 | extraction into the mutable record, the test, and the in-place stylesheet rewrite produce exactly `EntryFor` |
| LinkHeader.GenerateLinkHeader | src/runtime/nitro/plugins/nitro-resource-link.ts:97-188 | the nested loops with the early return compute exactly `Header`, the capped fold of the qualifying entries in fragment and tag order |
| LinkHeader.HeaderWithinBudget | src/runtime/nitro/plugins/nitro-resource-link.ts:177-181 | a non-empty header is shorter than `headerLength` UTF-16 code units |
| LinkHeader.FirstEntryCharged | src/runtime/nitro/plugins/nitro-resource-link.ts:177 | the check charges 2 even to the first entry: the header is non-empty exactly when the first entry's length plus 2 is below the budget |
| LinkHeader.StopsAtFirstMisfit | src/runtime/nitro/plugins/nitro-resource-link.ts:177-181 | the result is the `", "`-join of exactly the entries before the first that does not fit; none is cut short and none after it is added |
| LinkHeader.HeaderIsFittingPrefix | src/runtime/nitro/plugins/nitro-resource-link.ts:176-181 | the header is the join of the prefix of the entry list that ends at the first misfit |
| LinkHeader.LaterFragmentsIgnored | src/runtime/nitro/plugins/nitro-resource-link.ts:177-179 | once an entry of the first fragments does not fit, appending further fragments leaves the header unchanged |
| LinkHeader.EntriesAppend | src/runtime/nitro/plugins/nitro-resource-link.ts:110-112 | the entries of concatenated fragment lists are the entries of the first list followed by those of the second |
| LinkHeader.NoLinkTagsNoHeader | src/runtime/nitro/plugins/nitro-resource-link.ts:187 | fragments without `<link` + whitespace give the empty header |
| LinkHeader.AllOffNoHeader | src/runtime/nitro/plugins/nitro-resource-link.ts:139-145 | with every switch except `preload` off, the header is empty whatever the fragments hold |
| LinkHeader.EntriesReadBack | src/runtime/nitro/plugins/nitro-resource-link.ts:163-174 | every entry parses back as the rewrite of the attributes extracted from some tag of some fragment of the head, a tag with a `rel`, an `href` and an enabled kind |
| Examples.StylesheetSerialized | src/runtime/nitro/plugins/nitro-resource-link.ts:157-174 | a stylesheet with a bare `crossorigin` serialises, for any target `h`, as `<h>; rel="preload"; as="style"; crossorigin; blocking` |
| Examples.ScriptPreloadBare | src/runtime/nitro/plugins/nitro-resource-link.ts:163-174 | a script preload with the bare directive serialises as `<h>; rel="preload"; as="script"; crossorigin` |
| Examples.ScriptPreloadValue | src/runtime/nitro/plugins/nitro-resource-link.ts:163-174 | a script preload with crossorigin value `v` serialises as `<h>; rel="preload"; as="script"; crossorigin="v"` |
| Examples.ScriptPreloadPlain | src/runtime/nitro/plugins/nitro-resource-link.ts:163-174 | a script preload without crossorigin serialises as `<h>; rel="preload"; as="script"` |
| Examples.ImagePreloadPriority | src/runtime/nitro/plugins/nitro-resource-link.ts:163-174 | an image preload with a non-empty fetch priority `p` serialises as `<h>; rel="preload"; as="image"; fetchpriority="p"` |
| Examples.StylesheetEntry | test/basic.test.ts:22 | the stylesheet of the basic fixture serialises as the expected blocking style preload |
| Examples.UseCredentialsEntry | test/basic.test.ts:33-35 | `crossorigin="use-credentials"` is kept as a value |
| Examples.EmptyCrossOriginEntry | test/basic.test.ts:36-38 | `crossorigin=""` gives the bare directive |
| Examples.AnonymousEntry | test/basic.test.ts:39-41 | `crossorigin="anonymous"` gives the bare directive |
| Examples.NoCrossOriginEntry | test/basic.test.ts:42-44 | no attribute, no crossorigin segment |
| Examples.FetchPriorityEntry | test/image.test.ts:46 | an image preload with `fetchpriority="low"` serialises with that segment verbatim |
| Examples.UnknownDestinationExcluded | test/basic.test.ts:55-57 | a preload with an unknown `as` is never included, under any switches |
| Examples.HookDropsImagePreloads | src/runtime/nitro/plugins/nitro-resource-link.ts:16-29 | under the options the render hook passes, no image preload is included |
| Examples.StylesheetAttrs | src/runtime/nitro/plugins/nitro-resource-link.ts:114-122 | the attribute text `rel="stylesheet" href="h" crossorigin` extracts to that `rel` and `href` with the bare crossorigin present, for any `h` without `"` |
| Examples.StylesheetTagHeader | src/runtime/nitro/plugins/nitro-resource-link.ts:97-188 | under the hook's options, the head `[<link rel="stylesheet" href="h" crossorigin>]` gives `<h>; rel="preload"; as="style"; crossorigin; blocking` when its length plus 2 is under the budget, and `""` otherwise |
| Examples.UpperCaseName | src/runtime/nitro/plugins/nitro-resource-link.ts:106 | `HREF="…"` is matched as `href` |
| Examples.DataRelReadAsRel | src/runtime/nitro/plugins/nitro-resource-link.ts:106 | the pattern has no boundary check against `-`, so `data-rel="x"` sets the tag's `rel` to `x` |

## Left out

- The Nitro plugin body (src/runtime/nitro/plugins/nitro-resource-link.ts:13-89) is left out. It registers hooks, appends the response header, and saves and restores prerendered headers through the storage layer. All of that is host I/O.
- src/module.ts is not part of this model. It is module registration and configuration merging.
- `imagesrcset` is not modelled, because the attribute pattern never captures it.
- The JavaScript regular-expression engine is not modelled in general. The two fixed patterns are hand-written scanners. The global pattern's `lastIndex` appears only as the position from which each search resumes.
- Lone UTF-16 surrogates are not modelled. JavaScript strings can hold them, but the model's strings are sequences of Unicode scalar values, which cannot. `Units` gives the JavaScript length of every string the model can hold.
- `options` is untyped in the source. It is modelled as a record of the nine switches and an integer `headerLength`.
- An attribute the record never received (`undefined`) is modelled as `""`, and `crossoriginKey` as a flag. The code only tests these for truthiness or compares them with non-empty literals, so nothing is lost.
- Each tag's `result` is a fresh object that no other code can see. It is modelled as a value that the method reassigns.
- The surrounding hooks are asynchronous. The core is synchronous and has no concurrency.
- Examples.StylesheetTagHeader: states the budget condition on the UTF-16 length of the whole entry rather than as a bound on `h`. The verifier cannot count the code units of the long literal suffix within its resource limit.
