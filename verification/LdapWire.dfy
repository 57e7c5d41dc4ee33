/** Search filters as the tags that are sent (section 4.5.1.7 of RFC 4511), and what a server reads from them. */
module LdapWire {
  import opened Text
  import opened LdapFilter
  import opened LdapFilterGrammar
  import opened LdapTemplate
  import Ber

  function Octets(content: Bytes): Ber.Tag {
    Ber.Primitive(Ber.Universal, 4, content)
  }

  /** The tag that the parser builds for each kind of filter. */
  function FilterTag(f: Filter): Ber.Tag {
    match f
    case Logical(c, children) =>
      Ber.Constructed(Ber.ContextSpecific, if c == And then 0 else 1, FilterTags(children))
    case Not(child) => Ber.Constructed(Ber.ContextSpecific, 2, [FilterTag(child)])
    case Present(a) => Ber.Primitive(Ber.ContextSpecific, 7, a)
    case Equality(a, v) => Ber.Constructed(Ber.ContextSpecific, 3, [Octets(a), Octets(v)])
  }

  function FilterTags(fs: seq<Filter>): seq<Ber.Tag> {
    if fs == [] then [] else [FilterTag(fs[0])] + FilterTags(fs[1..])
  }

  function OctetsOf(t: Ber.Tag): Option<Bytes> {
    if t.Primitive? && t.class_ == Ber.Universal && t.id == 4 then Some(t.content) else None
  }

  /** What a server takes a tag for. */
  function TagFilter(t: Ber.Tag): Option<Filter> {
    if t.class_ != Ber.ContextSpecific then None
    else if t.Primitive? then if t.id == 7 then Some(Present(t.content)) else None
    else if t.id == 0 || t.id == 1 then
      var children := TagFilters(t.children);
      if children.None? then None else Some(Logical(if t.id == 0 then And else Or, children.value))
    else if t.id == 2 && |t.children| == 1 then
      var child := TagFilter(t.children[0]);
      if child.None? then None else Some(Not(child.value))
    else if t.id == 3 && |t.children| == 2 then
      var a, v := OctetsOf(t.children[0]), OctetsOf(t.children[1]);
      if a.None? || v.None? then None else Some(Equality(a.value, v.value))
    else None
  }

  function TagFilters(ts: seq<Ber.Tag>): Option<seq<Filter>> {
    if ts == [] then Some([])
    else
      var first, others := TagFilter(ts[0]), TagFilters(ts[1..]);
      if first.None? || others.None? then None else Some([first.value] + others.value)
  }

  /** Every filter is read back from its tag. */
  lemma {:induction false} TagComesBack(f: Filter)
    ensures TagFilter(FilterTag(f)) == Some(f)
    decreases f
  {
    match f
    case Logical(c, children) => TagsComeBack(children);
    case Not(child) => TagComesBack(child);
    case Present(a) =>
    case Equality(a, v) =>
  }

  lemma {:induction false} TagsComeBack(fs: seq<Filter>)
    ensures TagFilters(FilterTags(fs)) == Some(fs)
    decreases fs
  {
    if fs != [] {
      TagComesBack(fs[0]);
      TagsComeBack(fs[1..]);
      assert fs == [fs[0]] + fs[1..];
      assert FilterTags(fs)[1..] == FilterTags(fs[1..]);
    }
  }

  /** The bytes of a filter decode to it, whatever bytes follow. */
  lemma BytesComeBack(f: Filter, y: Bytes)
    requires Ber.Encode(FilterTag(f)).Some?
    ensures var r := Ber.ParseTag(Ber.Encode(FilterTag(f)).value + y);
            r.Complete? && r.rest == y && TagFilter(r.tag) == Some(f)
  {
    Ber.DecodeEncode(FilterTag(f), y);
    TagComesBack(f);
  }

  /** Different filters are sent as different bytes. */
  lemma BytesDiffer(f: Filter, g: Filter)
    requires Ber.Encode(FilterTag(f)).Some? && Ber.Encode(FilterTag(f)) == Ber.Encode(FilterTag(g))
    ensures f == g
  {
    BytesComeBack(f, []);
    BytesComeBack(g, []);
  }

  /** An upper bound on the bytes of a filter: its content, and a header of at most six bytes for each tag. */
  function Weight(f: Filter): nat {
    match f
    case Logical(_, children) => 6 + Weights(children)
    case Not(child) => 6 + Weight(child)
    case Present(a) => 6 + |a|
    case Equality(a, v) => 18 + |a| + |v|
  }

  function Weights(fs: seq<Filter>): nat {
    if fs == [] then 0 else Weight(fs[0]) + Weights(fs[1..])
  }

  lemma HeaderIsShort(content: Bytes, lead: byte)
    requires |content| < 0x1_0000_0000
    ensures |[lead] + Ber.EncodeLength(|content|) + content| <= 6 + |content|
  {
  }

  lemma OctetsEncode(content: Bytes)
    requires |content| < 0x1_0000_0000
    ensures var e := Ber.Encode(Octets(content)); e.Some? && |e.value| <= 6 + |content|
  {
    HeaderIsShort(content, Ber.ClassBits(Ber.Universal) + 4);
  }

  lemma PairEncodes(a: Ber.Tag, b: Ber.Tag)
    requires Ber.Encode(a).Some? && Ber.Encode(b).Some?
    ensures Ber.EncodeAll([a, b]) == Some(Ber.Encode(a).value + Ber.Encode(b).value)
  {
    assert [a, b][1..] == [b] && [b][1..] == [];
    assert Ber.EncodeAll([b]) == Some(Ber.Encode(b).value + []);
    assert Ber.Encode(b).value + [] == Ber.Encode(b).value;
  }

  lemma ConstructedEncodes(id: nat, children: seq<Ber.Tag>, size: nat)
    requires id < 31 && size < 0x1_0000_0000
    requires var content := Ber.EncodeAll(children); content.Some? && |content.value| <= size
    ensures var e := Ber.Encode(Ber.Constructed(Ber.ContextSpecific, id, children)); e.Some? && |e.value| <= 6 + size
  {
    HeaderIsShort(Ber.EncodeAll(children).value, Ber.ClassBits(Ber.ContextSpecific) + 32 + id);
  }

  /** Every filter of less than 4 GiB can be sent. */
  lemma {:induction false} SmallFiltersEncode(f: Filter)
    requires Weight(f) < 0x1_0000_0000
    ensures var e := Ber.Encode(FilterTag(f)); e.Some? && |e.value| <= Weight(f)
    decreases f
  {
    match f
    case Logical(c, children) =>
      SmallFiltersEncodeAll(children);
      ConstructedEncodes(if c == And then 0 else 1, FilterTags(children), Weights(children));
    case Not(child) =>
      SmallFiltersEncode(child);
      var tag := FilterTag(child);
      assert Ber.EncodeAll([tag]) == Some(Ber.Encode(tag).value + []);
      ConstructedEncodes(2, [tag], Weight(child));
    case Present(a) =>
      HeaderIsShort(a, Ber.ClassBits(Ber.ContextSpecific) + 7);
    case Equality(a, v) =>
      OctetsEncode(a);
      OctetsEncode(v);
      PairEncodes(Octets(a), Octets(v));
      ConstructedEncodes(3, [Octets(a), Octets(v)], 12 + |a| + |v|);
  }

  lemma {:induction false} SmallFiltersEncodeAll(fs: seq<Filter>)
    requires Weights(fs) < 0x1_0000_0000
    ensures var e := Ber.EncodeAll(FilterTags(fs)); e.Some? && |e.value| <= Weights(fs)
    decreases fs
  {
    if fs != [] {
      SmallFiltersEncode(fs[0]);
      SmallFiltersEncodeAll(fs[1..]);
      assert FilterTags(fs)[1..] == FilterTags(fs[1..]);
    }
  }

  /** From the identifier to the server: for a template that parses, what is sent for any identifier reads as the
      template's own filter with exactly the identifier's bytes in the places of the placeholders. */
  lemma IdentifierIsDataOnTheWire(template: Bytes, identifier: Bytes, y: Bytes)
    requires ParseWhole(template).Ok? && Weight(Filled(ParseWhole(template).value, identifier)) < 0x1_0000_0000
    ensures var filter := ParseToFilter(Substitute(template, identifier));
            && filter == Ok(Filled(ParseWhole(template).value, identifier))
            && Ber.Encode(FilterTag(filter.value)).Some?
            && var r := Ber.ParseTag(Ber.Encode(FilterTag(filter.value)).value + y);
            && r.Complete? && r.rest == y && TagFilter(r.tag) == Some(filter.value)
  {
    IdentifierIsData(template, identifier);
    var filter := Filled(ParseWhole(template).value, identifier);
    SmallFiltersEncode(filter);
    BytesComeBack(filter, y);
  }
}
