/** One entry of the `Link` header value (RFC 8288, section 3):
      <href>; rel="r"[; as="a"][; crossorigin[="v"]][; fetchpriority="p"][; blocking]
    with its optional segments in that fixed order, and a parser for that
    shape, which recovers every field of a serialised entry. */
module LinkEntry {
  import opened Text

  /** The crossorigin segment: absent, the bare directive, or a quoted
      value. */
  datatype CrossOrigin = Omitted | Shorthand | Explicit(value: string)

  /** An entry ready to serialise. `""` as `destination` or
      `fetchPriority` means that segment is absent. */
  datatype Entry = Entry(
    href: string,
    rel: string,
    destination: string,
    crossOrigin: CrossOrigin,
    fetchPriority: string,
    blocking: bool)

  function AsSegment(destination: string): string
  {
    if destination != "" then "; as=\"" + destination + "\"" else ""
  }

  function CrossOriginSegment(c: CrossOrigin): string
  {
    match c
    case Omitted => ""
    case Shorthand => "; crossorigin"
    case Explicit(v) => "; crossorigin=\"" + v + "\""
  }

  function FetchPrioritySegment(p: string): string
  {
    if p != "" then "; fetchpriority=\"" + p + "\"" else ""
  }

  function BlockingSegment(blocking: bool): string
  {
    if blocking then "; blocking" else ""
  }

  /** The entry template. */
  function Serialize(e: Entry): string
  {
    "<" + e.href + ">; rel=\"" + e.rel + "\""
      + AsSegment(e.destination)
      + CrossOriginSegment(e.crossOrigin)
      + FetchPrioritySegment(e.fetchPriority)
      + BlockingSegment(e.blocking)
  }

  /** The values the template can delimit: no `>` in the target, no `"` in
      a quoted value. */
  predicate WellFormed(e: Entry)
  {
    && '>' !in e.href
    && '"' !in e.rel
    && '"' !in e.destination
    && '"' !in e.fetchPriority
    && (e.crossOrigin.Explicit? ==> '"' !in e.crossOrigin.value)
  }

  predicate HasPrefix(s: string, prefix: string)
  {
    |prefix| <= |s| && s[..|prefix|] == prefix
  }

  /** `s` is `prefix + value + "\"" + rest`: returns the value and the rest. */
  function TakeQuoted(s: string, prefix: string): Option<(string, string)>
  {
    if HasPrefix(s, prefix) && IndexOf(s, '"', |prefix|) < |s| then
      var close := IndexOf(s, '"', |prefix|);
      Some((s[|prefix|..close], s[close + 1..]))
    else None
  }

  /** An optional quoted segment: its value, or `""` and `s` unchanged when
      the segment is absent. The template never writes an empty value, so
      a segment with one is not consumed, and the entry then fails to
      parse. */
  function OptionalQuoted(s: string, prefix: string): (string, string)
  {
    match TakeQuoted(s, prefix)
    case Some(p) => if p.0 != "" then p else ("", s)
    case None => ("", s)
  }

  function TakeCrossOrigin(s: string): (CrossOrigin, string)
  {
    match TakeQuoted(s, "; crossorigin=\"")
    case Some((v, rest)) => (Explicit(v), rest)
    case None =>
      if HasPrefix(s, "; crossorigin") then (Shorthand, s[13..]) else (Omitted, s)
  }

  /** Reads an entry back, segment by segment in the template's order. */
  function ParseEntry(s: string): Option<Entry>
  {
    if s == [] || s[0] != '<' || IndexOf(s, '>', 1) == |s| then None
    else
      var close := IndexOf(s, '>', 1);
      ParseParams(s[1..close], s[close + 1..])
  }

  /** The parameters that follow `<href>`. */
  function ParseParams(href: string, s: string): Option<Entry>
  {
    match TakeQuoted(s, "; rel=\"")
    case None => None
    case Some((rel, r1)) =>
      var (destination, r2) := OptionalQuoted(r1, "; as=\"");
      var (crossOrigin, r3) := TakeCrossOrigin(r2);
      var (fetchPriority, r4) := OptionalQuoted(r3, "; fetchpriority=\"");
      if r4 == "; blocking" then Some(Entry(href, rel, destination, crossOrigin, fetchPriority, true))
      else if r4 == "" then Some(Entry(href, rel, destination, crossOrigin, fetchPriority, false))
      else None
  }

  lemma TakeQuotedOf(prefix: string, v: string, rest: string)
    requires '"' !in v
    ensures TakeQuoted(prefix + v + "\"" + rest, prefix) == Some((v, rest))
  {
    var s := prefix + v + "\"" + rest;
    var n := |prefix|;
    assert s[..n] == prefix;
    assert forall j :: n <= j < n + |v| ==> s[j] == v[j - n];
    IndexOfFirst(s, '"', n, n + |v|);
    assert s[n..n + |v|] == v;
    assert s[n + |v| + 1..] == rest;
  }

  lemma TakeQuotedMiss(s: string, prefix: string, k: nat)
    requires k < |prefix| && (k >= |s| || s[k] != prefix[k])
    ensures TakeQuoted(s, prefix).None?
  {
    if |prefix| <= |s| {
      assert s[..|prefix|][k] != prefix[k];
    }
  }

  /** What follows the crossorigin segment in a serialised entry. */
  function CrossOriginTail(p: string, blocking: bool): string
  {
    FetchPrioritySegment(p) + BlockingSegment(blocking)
  }

  /** What follows the `as` segment in a serialised entry. */
  function AsTail(e: Entry): string
  {
    CrossOriginSegment(e.crossOrigin) + CrossOriginTail(e.fetchPriority, e.blocking)
  }

  lemma FetchPriorityRoundTrip(p: string, blocking: bool)
    requires '"' !in p
    ensures OptionalQuoted(CrossOriginTail(p, blocking), "; fetchpriority=\"") == (p, BlockingSegment(blocking))
  {
    if p != "" {
      TakeQuotedOf("; fetchpriority=\"", p, BlockingSegment(blocking));
    } else {
      assert CrossOriginTail(p, blocking) == BlockingSegment(blocking);
      TakeQuotedMiss(BlockingSegment(blocking), "; fetchpriority=\"", 2);
    }
  }

  lemma CrossOriginTailShape(p: string, blocking: bool)
    ensures var t := CrossOriginTail(p, blocking); t == [] || (|t| >= 3 && t[..3] in {"; f", "; b"})
  {
    var t := CrossOriginTail(p, blocking);
    if p != "" {
      assert t[..3] == "; f";
    } else if blocking {
      assert t == "; blocking";
      assert t[..3] == "; b";
    }
  }

  lemma CrossOriginRoundTrip(c: CrossOrigin, tail: string)
    requires c.Explicit? ==> '"' !in c.value
    requires tail == [] || (|tail| >= 3 && tail[..3] in {"; f", "; b"})
    ensures TakeCrossOrigin(CrossOriginSegment(c) + tail) == (c, tail)
  {
    var s := CrossOriginSegment(c) + tail;
    match c
    case Omitted =>
      assert s == tail;
      if tail != [] {
        assert s[2] == tail[..3][2];
      }
      TakeQuotedMiss(s, "; crossorigin=\"", if tail == [] then 0 else 2);
      TakeQuotedMiss(s, "; crossorigin", if tail == [] then 0 else 2);
    case Shorthand =>
      assert s == "; crossorigin" + tail;
      assert s[..13] == "; crossorigin";
      assert s[13..] == tail;
      TakeQuotedMiss(s, "; crossorigin=\"", 13);
    case Explicit(v) =>
      TakeQuotedOf("; crossorigin=\"", v, tail);
  }

  lemma AsRoundTrip(e: Entry)
    requires '"' !in e.destination
    ensures OptionalQuoted(AsSegment(e.destination) + AsTail(e), "; as=\"") == (e.destination, AsTail(e))
  {
    var t := AsTail(e);
    if e.destination != "" {
      TakeQuotedOf("; as=\"", e.destination, t);
    } else {
      assert AsSegment(e.destination) + t == t;
      if t != [] {
        CrossOriginTailShape(e.fetchPriority, e.blocking);
        var ct := CrossOriginTail(e.fetchPriority, e.blocking);
        if e.crossOrigin.Omitted? {
          assert t == ct;
          assert t[2] == ct[..3][2];
        } else {
          assert t[..3] == "; c";
        }
        assert t[2] != 'a';
      }
      TakeQuotedMiss(t, "; as=\"", 2);
    }
  }

  lemma SerializeSplit(e: Entry)
    ensures Serialize(e) == "<" + e.href + ">" + ("; rel=\"" + e.rel + "\"" + (AsSegment(e.destination) + AsTail(e)))
  {
  }

  lemma ParamsRoundTrip(e: Entry)
    requires WellFormed(e)
    ensures ParseParams(e.href, "; rel=\"" + e.rel + "\"" + (AsSegment(e.destination) + AsTail(e))) == Some(e)
  {
    TakeQuotedOf("; rel=\"", e.rel, AsSegment(e.destination) + AsTail(e));
    AsRoundTrip(e);
    CrossOriginTailShape(e.fetchPriority, e.blocking);
    CrossOriginRoundTrip(e.crossOrigin, CrossOriginTail(e.fetchPriority, e.blocking));
    FetchPriorityRoundTrip(e.fetchPriority, e.blocking);
  }

  lemma TargetRoundTrip(href: string, params: string)
    requires '>' !in href
    ensures ParseEntry("<" + href + ">" + params) == ParseParams(href, params)
  {
    var s := "<" + href + ">" + params;
    assert forall j :: 1 <= j < 1 + |href| ==> s[j] == href[j - 1];
    IndexOfFirst(s, '>', 1, 1 + |href|);
    assert s[1..1 + |href|] == href;
    assert s[1 + |href| + 1..] == params;
  }

  /** Every well-formed entry is recovered from its serialisation, so the
      segments present are exactly the fields set, in the fixed order. */
  lemma SerializeRoundTrip(e: Entry)
    requires WellFormed(e)
    ensures ParseEntry(Serialize(e)) == Some(e)
  {
    SerializeSplit(e);
    TargetRoundTrip(e.href, "; rel=\"" + e.rel + "\"" + (AsSegment(e.destination) + AsTail(e)));
    ParamsRoundTrip(e);
  }

  /** The parameters after `rel` are not readable when they start with a
      segment that none of the optional readers consumes. */
  lemma UnconsumedParams(href: string, rel: string, x: string)
    requires '"' !in rel
    requires |x| >= 3 && x[..3] in {"; a", "; f"}
    requires OptionalQuoted(x, "; as=\"") == ("", x)
    requires OptionalQuoted(x, "; fetchpriority=\"") == ("", x)
    ensures ParseParams(href, "; rel=\"" + rel + "\"" + x) == None
  {
    TakeQuotedOf("; rel=\"", rel, x);
    assert x[2] == x[..3][2];
    TakeQuotedMiss(x, "; crossorigin=\"", 2);
    TakeQuotedMiss(x, "; crossorigin", 2);
    assert x != "; blocking"[..];
  }

  lemma EmptyAsStuck(tail: string)
    ensures var x := "; as=\"\"" + tail;
      OptionalQuoted(x, "; as=\"") == ("", x) && OptionalQuoted(x, "; fetchpriority=\"") == ("", x)
      && x[..3] == "; a"
  {
    var x := "; as=\"\"" + tail;
    assert "; as=\"" + "" + "\"" + tail == x;
    TakeQuotedOf("; as=\"", "", tail);
    assert x[..3] == "; a";
    TakeQuotedMiss(x, "; fetchpriority=\"", 2);
  }

  lemma EmptyFetchPriorityStuck(tail: string)
    ensures var x := "; fetchpriority=\"\"" + tail;
      OptionalQuoted(x, "; as=\"") == ("", x) && OptionalQuoted(x, "; fetchpriority=\"") == ("", x)
      && x[..3] == "; f"
  {
    var x := "; fetchpriority=\"\"" + tail;
    assert "; fetchpriority=\"" + "" + "\"" + tail == x;
    TakeQuotedOf("; fetchpriority=\"", "", tail);
    assert x[..3] == "; f";
    TakeQuotedMiss(x, "; as=\"", 2);
  }

  /** A segment the template never writes, `; as=""`, makes the entry
      unreadable wherever it follows `rel`: so the round trip above also
      says that `as` is written exactly when it is set. */
  lemma EmptyAsRejected(href: string, rel: string, tail: string)
    requires '>' !in href && '"' !in rel
    ensures ParseEntry("<" + href + ">" + ("; rel=\"" + rel + "\"" + ("; as=\"\"" + tail))) == None
  {
    TargetRoundTrip(href, "; rel=\"" + rel + "\"" + ("; as=\"\"" + tail));
    EmptyAsStuck(tail);
    UnconsumedParams(href, rel, "; as=\"\"" + tail);
  }

  /** Likewise `; fetchpriority=""`: `fetchpriority` is written exactly
      when it is set. */
  lemma EmptyFetchPriorityRejected(href: string, rel: string, tail: string)
    requires '>' !in href && '"' !in rel
    ensures ParseEntry("<" + href + ">" + ("; rel=\"" + rel + "\"" + ("; fetchpriority=\"\"" + tail))) == None
  {
    TargetRoundTrip(href, "; rel=\"" + rel + "\"" + ("; fetchpriority=\"\"" + tail));
    EmptyFetchPriorityStuck(tail);
    UnconsumedParams(href, rel, "; fetchpriority=\"\"" + tail);
  }

  /** Two well-formed entries with the same serialisation are the same
      entry: in particular `; blocking` ends exactly the blocking entries. */
  lemma SerializeInjective(e1: Entry, e2: Entry)
    requires WellFormed(e1) && WellFormed(e2)
    requires Serialize(e1) == Serialize(e2)
    ensures e1 == e2
  {
    SerializeRoundTrip(e1);
    SerializeRoundTrip(e2);
  }
}
