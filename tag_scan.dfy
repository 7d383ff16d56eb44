/** The scan for `<link …>` tags in one head fragment: the pattern
    `<link`, one whitespace character, one or more characters other than
    `>`, then `>`, searched left to right without overlap, each search
    resuming just after the previous tag. */
module TagScan {
  import opened Text

  /** One matched tag: where it starts, the attribute text between the
      whitespace and the closing `>`, and the position just after `>`. */
  datatype Tag = Tag(start: nat, attrs: string, end: nat)

  /** The tag pattern matches at position `i` of `s`. The `>` ending it is
      the first one after the whitespace, since the attribute text cannot
      contain `>`. */
  predicate TagAt(s: string, i: nat)
  {
    OpensLink(s, i) && i + 6 < IndexOf(s, '>', i + 6) < |s|
  }

  /** `<link` followed by one whitespace character starts at `i`. */
  predicate OpensLink(s: string, i: nat)
  {
    i + 6 <= |s| && s[i..i + 5] == "<link" && IsSpace(s[i + 5])
  }

  /** The next tag at or after `pos`: what one `exec` of the global tag
      pattern returns when its `lastIndex` is `pos`. */
  function NextTag(s: string, pos: nat): (r: Option<Tag>)
    requires pos <= |s|
    ensures r.None? ==> forall i :: pos <= i < |s| ==> !TagAt(s, i)
    ensures r.Some? ==>
      && pos <= r.value.start < r.value.end <= |s|
      && TagAt(s, r.value.start)
      && (forall i :: pos <= i < r.value.start ==> !TagAt(s, i))
      && s[r.value.start..r.value.end] == s[r.value.start..r.value.start + 6] + r.value.attrs + ">"
      && r.value.attrs != []
      && '>' !in r.value.attrs
    decreases |s| - pos
  {
    if pos == |s| then None
    else if TagAt(s, pos) then
      var close := IndexOf(s, '>', pos + 6);
      assert s[pos..close + 1] == s[pos..pos + 6] + s[pos + 6..close] + ">";
      Some(Tag(pos, s[pos + 6..close], close + 1))
    else NextTag(s, pos + 1)
  }

  /** The attribute texts of all tags of `s` found from `pos` on, in order. */
  function TagsFrom(s: string, pos: nat): seq<string>
    requires pos <= |s|
    decreases |s| - pos
  {
    match NextTag(s, pos)
    case None => []
    case Some(t) => [t.attrs] + TagsFrom(s, t.end)
  }

  /** `a` is the attribute text of a tag starting at `i`: it follows
      `<link` and whitespace and is closed by `>`. */
  predicate TagTextAt(s: string, i: nat, a: string)
  {
    i + 6 + |a| < |s| && TagAt(s, i) && s[i + 6..i + 6 + |a|] == a && s[i + 6 + |a|] == '>'
  }

  lemma TagShape(s: string, pos: nat)
    requires pos <= |s| && NextTag(s, pos).Some?
    ensures TagTextAt(s, NextTag(s, pos).value.start, NextTag(s, pos).value.attrs)
  {
    var t := NextTag(s, pos).value;
    var n := |t.attrs|;
    assert s[t.start..t.end][6..6 + n] == t.attrs;
    assert s[t.start..t.end][6 + n] == '>';
  }

  /** Every attribute text the scan yields is non-empty, free of `>`, and
      stands in `s` as the text of a tag at or after `pos`. */
  lemma {:induction false} TagsFromShape(s: string, pos: nat)
    requires pos <= |s|
    ensures forall a :: a in TagsFrom(s, pos) ==> a != [] && '>' !in a
    ensures forall a :: a in TagsFrom(s, pos) ==> exists i :: pos <= i && TagTextAt(s, i, a)
    decreases |s| - pos
  {
    match NextTag(s, pos)
    case None =>
    case Some(t) =>
      TagsFromShape(s, t.end);
      TagShape(s, pos);
      var rest := TagsFrom(s, t.end);
      assert TagsFrom(s, pos) == [t.attrs] + rest;
      forall a | a in [t.attrs] + rest
        ensures exists i :: pos <= i && TagTextAt(s, i, a)
      {
        if a == t.attrs {
          assert pos <= t.start && TagTextAt(s, t.start, a);
        } else {
          assert a in rest;
        }
      }
  }

  /** A fragment without the text `<link` followed by whitespace yields no
      tag at all. */
  lemma NoLinkNoTags(s: string)
    requires forall i: nat :: !OpensLink(s, i)
    ensures TagsFrom(s, 0) == []
  {
    assert NextTag(s, 0).None?;
  }

  /** A fragment that is one tag, `<link ` + text + `>`, yields exactly
      that tag's attribute text. */
  lemma SingleTag(text: string)
    requires text != [] && '>' !in text
    ensures TagsFrom("<link " + text + ">", 0) == [text]
  {
    var s := "<link " + text + ">";
    var close := |s| - 1;
    assert s[..5] == "<link" && s[5] == ' ';
    assert forall j :: 6 <= j < close ==> s[j] == text[j - 6];
    IndexOfFirst(s, '>', 6, close);
    assert TagAt(s, 0);
    assert s[6..close] == text;
    assert NextTag(s, 0) == Some(Tag(0, text, |s|));
    assert NextTag(s, |s|).None?;
  }
}
