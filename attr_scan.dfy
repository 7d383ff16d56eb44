/** Attribute extraction from the text of one `<link>` tag: a left-to-right,
    non-overlapping scan for the alternation
      \brel="…"  |  \bhref="…"  |  \bas="…"  |  \bcrossorigin(="…")?  |  \bfetchpriority="…"
    with attribute names compared case-insensitively, followed by a merge in
    which each non-empty captured value overwrites the one collected so far. */
module AttrScan {
  import opened Text

  /** One match of the alternation, with the value it captured. A
      `Crossorigin` match carries `""` both when it has no `="…"` part and
      when the quoted value is empty: neither is merged. */
  datatype AttrMatch =
    | Rel(value: string)
    | Href(value: string)
    | As(value: string)
    | Crossorigin(value: string)
    | FetchPriority(value: string)

  /** The attributes gathered from one tag. `""` stands for an attribute
      that was never captured with a non-empty value: the code only ever
      tests these values for truthiness or compares them with non-empty
      literals. `destination` is the `as` attribute; `crossorigin` records
      that the bare name was seen at least once. */
  datatype Attrs = Attrs(
    rel: string,
    href: string,
    destination: string,
    crossorigin: bool,
    crossoriginValue: string,
    fetchPriority: string)

  const NoAttrs := Attrs("", "", "", false, "", "")

  /** `\b` before a word character: the start of the text or a character
      outside `[A-Za-z0-9_]` in front of it. */
  predicate BoundaryAt(s: string, p: nat)
  {
    p == 0 || (p <= |s| && !IsWordChar(s[p - 1]))
  }

  /** A quoted value opening at `q` (just after `="`): the characters up to
      the next `"`, and the position after that quote. `nonEmpty` is the
      `+` of `[^"]+` as against the `*` of `[^"]*`. */
  function QuotedAt(s: string, q: nat, nonEmpty: bool): (r: Option<(string, nat)>)
    requires q <= |s|
    ensures r.Some? ==> q < r.value.1 <= |s| && r.value.0 == s[q..r.value.1 - 1] && s[r.value.1 - 1] == '"'
    ensures r.Some? ==> '"' !in r.value.0 && (nonEmpty ==> r.value.0 != "")
  {
    var close := IndexOf(s, '"', q);
    if close < |s| && (!nonEmpty || close > q) then Some((s[q..close], close + 1)) else None
  }

  /** The alternation tried at exactly position `p`: the match and the
      position after it. The five names start with five different letters,
      so at most one alternative can match at a position. */
  function AttrAt(s: string, p: nat): (r: Option<(AttrMatch, nat)>)
    requires p <= |s|
    ensures r.Some? ==> p < r.value.1 <= |s|
    ensures r.Some? ==> '"' !in r.value.0.value
    ensures r.Some? ==> forall c :: c in r.value.0.value ==> c in s
  {
    if !BoundaryAt(s, p) then None
    else if MatchesAt(s, p, "rel=\"") then Captured(s, p + 5, v => Rel(v))
    else if MatchesAt(s, p, "href=\"") then Captured(s, p + 6, v => Href(v))
    else if MatchesAt(s, p, "as=\"") then Captured(s, p + 4, v => As(v))
    else if MatchesAt(s, p, "crossorigin") then
      if MatchesAt(s, p + 11, "=\"") && IndexOf(s, '"', p + 13) < |s| then
        var close := IndexOf(s, '"', p + 13);
        Some((Crossorigin(s[p + 13..close]), close + 1))
      else Some((Crossorigin(""), p + 11))
    else if MatchesAt(s, p, "fetchpriority=\"") then Captured(s, p + 15, v => FetchPriority(v))
    else None
  }

  /** A `name="value"` alternative whose value opens at `q`. */
  function Captured(s: string, q: nat, make: string -> AttrMatch): (r: Option<(AttrMatch, nat)>)
    requires q <= |s|
    ensures r.Some? ==> q < r.value.1 <= |s|
    ensures r.Some? ==> r.value.0 == make(s[q..r.value.1 - 1]) && '"' !in s[q..r.value.1 - 1]
    ensures r.Some? ==> s[q..r.value.1 - 1] != ""
  {
    match QuotedAt(s, q, true)
    case None => None
    case Some((v, e)) => Some((make(v), e))
  }

  /** The next match at or after `pos`: one step of `matchAll`. */
  function NextAttr(s: string, pos: nat): (r: Option<(AttrMatch, nat)>)
    requires pos <= |s|
    ensures r.Some? ==> pos < r.value.1 <= |s|
    ensures r.Some? ==> '"' !in r.value.0.value
    ensures r.Some? ==> forall c :: c in r.value.0.value ==> c in s
    ensures r.None? ==> forall p :: pos <= p < |s| ==> AttrAt(s, p).None?
    ensures r.Some? ==> exists p :: pos <= p < |s| && AttrAt(s, p) == r && forall q :: pos <= q < p ==> AttrAt(s, q).None?
    decreases |s| - pos
  {
    if pos == |s| then None
    else if AttrAt(s, pos).Some? then AttrAt(s, pos)
    else NextAttr(s, pos + 1)
  }

  /** All matches of `s` from `pos` on, in order. */
  function MatchesFrom(s: string, pos: nat): (ms: seq<AttrMatch>)
    requires pos <= |s|
    ensures forall m :: m in ms ==> '"' !in m.value && forall c :: c in m.value ==> c in s
    decreases |s| - pos
  {
    match NextAttr(s, pos)
    case None => []
    case Some((m, e)) => [m] + MatchesFrom(s, e)
  }

  /** Merges one match into the attributes: the captured value overwrites
      its attribute only when it is non-empty; a crossorigin match always
      records the attribute's presence. */
  function Apply(a: Attrs, m: AttrMatch): Attrs
  {
    match m
    case Rel(v) => if v != "" then a.(rel := v) else a
    case Href(v) => if v != "" then a.(href := v) else a
    case As(v) => if v != "" then a.(destination := v) else a
    case Crossorigin(v) =>
      if v != "" then a.(crossorigin := true, crossoriginValue := v) else a.(crossorigin := true)
    case FetchPriority(v) => if v != "" then a.(fetchPriority := v) else a
  }

  /** The matches merged in order into `a`. */
  function Merge(a: Attrs, ms: seq<AttrMatch>): Attrs
    decreases |ms|
  {
    if ms == [] then a else Merge(Apply(a, ms[0]), ms[1..])
  }

  /** The attributes of one tag's attribute text. */
  function Extract(text: string): Attrs
  {
    Merge(NoAttrs, MatchesFrom(text, 0))
  }

  /** The extraction loop: runs `matchAll` over the attribute text and
      merges every match into a mutable record. */
  method ExtractAttributes(text: string) returns (result: Attrs)
    ensures result == Extract(text)
  {
    result := NoAttrs;
    var pos := 0;
    var next := NextAttr(text, pos);
    while next.Some?
      invariant pos <= |text|
      invariant next == NextAttr(text, pos)
      invariant Merge(result, MatchesFrom(text, pos)) == Extract(text)
      decreases |text| - pos
    {
      var (m, end) := next.value;
      result := Apply(result, m);
      pos := end;
      next := NextAttr(text, pos);
    }
  }

  // What the alternation recognises at one position

  /** `v` followed by a quote at `q`: the quoted value that opens at `q`. */
  lemma QuotedValue(s: string, q: nat, v: string)
    requires q + |v| < |s| && s[q..q + |v|] == v && '"' !in v && s[q + |v|] == '"'
    ensures IndexOf(s, '"', q) == q + |v|
    ensures QuotedAt(s, q, v != "") == Some((v, q + |v| + 1))
  {
    assert forall j :: q <= j < q + |v| ==> s[j] == v[j - q];
    IndexOfFirst(s, '"', q, q + |v|);
  }

  /** Which names can match at `p`: the five start with different letters. */
  lemma NamesAt(s: string, p: nat)
    requires p < |s|
    ensures Lower(s[p]) != 'r' ==> !MatchesAt(s, p, "rel=\"")
    ensures Lower(s[p]) != 'h' ==> !MatchesAt(s, p, "href=\"")
    ensures Lower(s[p]) != 'a' ==> !MatchesAt(s, p, "as=\"")
    ensures Lower(s[p]) != 'c' ==> !MatchesAt(s, p, "crossorigin")
    ensures Lower(s[p]) != 'f' ==> !MatchesAt(s, p, "fetchpriority=\"")
  {
    if Lower(s[p]) != 'r' { FirstMismatch(s, p, "rel=\""); }
    if Lower(s[p]) != 'h' { FirstMismatch(s, p, "href=\""); }
    if Lower(s[p]) != 'a' { FirstMismatch(s, p, "as=\""); }
    if Lower(s[p]) != 'c' { FirstMismatch(s, p, "crossorigin"); }
    if Lower(s[p]) != 'f' { FirstMismatch(s, p, "fetchpriority=\""); }
  }

  /** `rel="v"` at a word boundary, the name in any letter case, is
      captured with its value; the scan resumes after the closing quote. */
  lemma RelAt(s: string, p: nat, v: string)
    requires BoundaryAt(s, p) && MatchesAt(s, p, "rel=\"")
    requires p + 5 + |v| < |s| && s[p + 5..p + 5 + |v|] == v
    requires v != "" && '"' !in v && s[p + 5 + |v|] == '"'
    ensures AttrAt(s, p) == Some((Rel(v), p + 5 + |v| + 1))
  {
    QuotedValue(s, p + 5, v);
  }

  /** `href="v"` likewise. */
  lemma HrefAt(s: string, p: nat, v: string)
    requires BoundaryAt(s, p) && MatchesAt(s, p, "href=\"")
    requires p + 6 + |v| < |s| && s[p + 6..p + 6 + |v|] == v
    requires v != "" && '"' !in v && s[p + 6 + |v|] == '"'
    ensures AttrAt(s, p) == Some((Href(v), p + 6 + |v| + 1))
  {
    QuotedValue(s, p + 6, v);
    MatchesAtFirst(s, p, "href=\"");
    NamesAt(s, p);
  }

  /** `as="v"` likewise. */
  lemma AsAt(s: string, p: nat, v: string)
    requires BoundaryAt(s, p) && MatchesAt(s, p, "as=\"")
    requires p + 4 + |v| < |s| && s[p + 4..p + 4 + |v|] == v
    requires v != "" && '"' !in v && s[p + 4 + |v|] == '"'
    ensures AttrAt(s, p) == Some((As(v), p + 4 + |v| + 1))
  {
    QuotedValue(s, p + 4, v);
    MatchesAtFirst(s, p, "as=\"");
    NamesAt(s, p);
  }

  /** `crossorigin="v"` is captured with its value, which may be empty. */
  lemma CrossoriginValueAt(s: string, p: nat, v: string)
    requires BoundaryAt(s, p) && MatchesAt(s, p, "crossorigin=\"")
    requires p + 13 + |v| < |s| && s[p + 13..p + 13 + |v|] == v
    requires '"' !in v && s[p + 13 + |v|] == '"'
    ensures AttrAt(s, p) == Some((Crossorigin(v), p + 13 + |v| + 1))
  {
    QuotedValue(s, p + 13, v);
    MatchesAtFirst(s, p, "crossorigin=\"");
    NamesAt(s, p);
    MatchesAtSplit(s, p, "crossorigin=\"", 11);
    assert "crossorigin=\""[..11] == "crossorigin" && "crossorigin=\""[11..] == "=\"";
  }

  /** A bare `crossorigin` not followed by `=` is captured without a
      value, and the scan resumes right after the name. */
  lemma BareCrossoriginAt(s: string, p: nat)
    requires BoundaryAt(s, p) && MatchesAt(s, p, "crossorigin")
    requires p + 11 == |s| || s[p + 11] != '='
    ensures AttrAt(s, p) == Some((Crossorigin(""), p + 11))
  {
    MatchesAtFirst(s, p, "crossorigin");
    NamesAt(s, p);
    FirstMismatch(s, p + 11, "=\"");
  }

  /** `fetchpriority="v"` likewise. */
  lemma FetchPriorityAt(s: string, p: nat, v: string)
    requires BoundaryAt(s, p) && MatchesAt(s, p, "fetchpriority=\"")
    requires p + 15 + |v| < |s| && s[p + 15..p + 15 + |v|] == v
    requires v != "" && '"' !in v && s[p + 15 + |v|] == '"'
    ensures AttrAt(s, p) == Some((FetchPriority(v), p + 15 + |v| + 1))
  {
    QuotedValue(s, p + 15, v);
    MatchesAtFirst(s, p, "fetchpriority=\"");
    NamesAt(s, p);
  }

  /** Nothing matches at a character that is not, up to case, the first
      letter of one of the names, nor where `\b` fails. */
  lemma NoAttrAt(s: string, p: nat)
    requires p < |s|
    requires !BoundaryAt(s, p) || Lower(s[p]) !in {'r', 'h', 'a', 'c', 'f'}
    ensures AttrAt(s, p).None?
  {
    NamesAt(s, p);
  }

  /** One step of `matchAll`: a match found from `pos` heads the list. */
  lemma MatchesFromStep(s: string, pos: nat, m: AttrMatch, e: nat)
    requires pos <= |s| && NextAttr(s, pos) == Some((m, e))
    ensures MatchesFrom(s, pos) == [m] + MatchesFrom(s, e)
  {
  }

  lemma MatchesFromDone(s: string, pos: nat)
    requires pos <= |s| && NextAttr(s, pos).None?
    ensures MatchesFrom(s, pos) == []
  {
  }

  /** Three successive matches and nothing after them. */
  lemma ThreeMatches(s: string, p0: nat, p1: nat, p2: nat, p3: nat, m1: AttrMatch, m2: AttrMatch, m3: AttrMatch)
    requires p0 <= p1 <= p2 <= p3 <= |s|
    requires NextAttr(s, p0) == Some((m1, p1)) && NextAttr(s, p1) == Some((m2, p2))
    requires NextAttr(s, p2) == Some((m3, p3)) && NextAttr(s, p3).None?
    ensures MatchesFrom(s, p0) == [m1, m2, m3]
  {
    MatchesFromDone(s, p3);
    MatchesFromStep(s, p2, m3, p3);
    MatchesFromStep(s, p1, m2, p2);
    MatchesFromStep(s, p0, m1, p1);
  }

  lemma MergeThree(a: Attrs, m1: AttrMatch, m2: AttrMatch, m3: AttrMatch)
    ensures Merge(a, [m1, m2, m3]) == Apply(Apply(Apply(a, m1), m2), m3)
  {
    var ms := [m1, m2, m3];
    assert ms[1..] == [m2, m3] && ms[1..][1..] == [m3] && ms[1..][1..][1..] == [];
    var a1 := Apply(a, m1);
    var a2 := Apply(a1, m2);
    var a3 := Apply(a2, m3);
    assert Merge(a2, [m3]) == Merge(a3, []) == a3;
    assert Merge(a1, [m2, m3]) == Merge(a2, [m3]);
  }

  /** The attributes a merge can set, so that one lemma covers them all. */
  datatype Field = RelField | HrefField | AsField | CrossoriginValueField | FetchPriorityField

  function Get(a: Attrs, f: Field): string
  {
    match f
    case RelField => a.rel
    case HrefField => a.href
    case AsField => a.destination
    case CrossoriginValueField => a.crossoriginValue
    case FetchPriorityField => a.fetchPriority
  }

  /** The match writes attribute `f` with a non-empty value. */
  predicate Writes(m: AttrMatch, f: Field)
  {
    m.value != "" &&
    match f
    case RelField => m.Rel?
    case HrefField => m.Href?
    case AsField => m.As?
    case CrossoriginValueField => m.Crossorigin?
    case FetchPriorityField => m.FetchPriority?
  }

  lemma ApplyField(a: Attrs, m: AttrMatch, f: Field)
    ensures Get(Apply(a, m), f) == if Writes(m, f) then m.value else Get(a, f)
  {
  }

  /** The last non-empty value wins: after merging, an attribute holds the
      value of the last match that writes it. */
  lemma {:induction false} MergeLastWins(a: Attrs, ms: seq<AttrMatch>, f: Field, i: nat)
    requires i < |ms| && Writes(ms[i], f)
    requires forall j :: i < j < |ms| ==> !Writes(ms[j], f)
    ensures Get(Merge(a, ms), f) == ms[i].value
    decreases |ms|
  {
    ApplyField(a, ms[0], f);
    if i == 0 {
      MergeKeeps(Apply(a, ms[0]), ms[1..], f);
    } else {
      MergeLastWins(Apply(a, ms[0]), ms[1..], f, i - 1);
    }
  }

  /** An attribute no match writes keeps the value it had. */
  lemma {:induction false} MergeKeeps(a: Attrs, ms: seq<AttrMatch>, f: Field)
    requires forall j :: 0 <= j < |ms| ==> !Writes(ms[j], f)
    ensures Get(Merge(a, ms), f) == Get(a, f)
    decreases |ms|
  {
    if ms != [] {
      ApplyField(a, ms[0], f);
      MergeKeeps(Apply(a, ms[0]), ms[1..], f);
    }
  }

  /** The crossorigin presence flag is set exactly when some match was a
      crossorigin match, with or without a value. */
  lemma {:induction false} MergeCrossoriginPresence(a: Attrs, ms: seq<AttrMatch>)
    ensures Merge(a, ms).crossorigin <==> a.crossorigin || exists j :: 0 <= j < |ms| && ms[j].Crossorigin?
    decreases |ms|
  {
    if ms != [] {
      MergeCrossoriginPresence(Apply(a, ms[0]), ms[1..]);
      assert forall j :: 1 <= j < |ms| ==> ms[j] == ms[1..][j - 1];
    }
  }

  /** Every extracted value is free of `"` and made of characters of the
      attribute text, so it holds no `>` when the text holds none. */
  lemma {:induction false} MergeValuesFrom(a: Attrs, ms: seq<AttrMatch>, f: Field, s: string)
    requires '"' !in Get(a, f) && forall c :: c in Get(a, f) ==> c in s
    requires forall m :: m in ms ==> '"' !in m.value && forall c :: c in m.value ==> c in s
    ensures '"' !in Get(Merge(a, ms), f)
    ensures forall c :: c in Get(Merge(a, ms), f) ==> c in s
    decreases |ms|
  {
    if ms != [] {
      ApplyField(a, ms[0], f);
      assert ms[0] in ms;
      assert forall m :: m in ms[1..] ==> m in ms;
      MergeValuesFrom(Apply(a, ms[0]), ms[1..], f, s);
    }
  }

  lemma ExtractValues(text: string, f: Field)
    ensures '"' !in Get(Extract(text), f)
    ensures '>' !in text ==> '>' !in Get(Extract(text), f)
  {
    MergeValuesFrom(NoAttrs, MatchesFrom(text, 0), f, text);
  }
}
