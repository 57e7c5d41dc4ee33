/** The parser as it runs: a cursor and a nesting counter over a fixed input. */
module LdapParser {
  import opened Text
  import opened LdapFilter
  import opened LdapFilterGrammar
  import opened LdapTemplate

  ghost function Prepend(ts: seq<Syntax>, r: Parsed<seq<Syntax>>): Parsed<seq<Syntax>> {
    match r
    case Got(us, rest) => Got(ts + us, rest)
    case Failed(e) => Failed(e)
  }

  lemma PrependTwice(ts: seq<Syntax>, t: Syntax, r: Parsed<seq<Syntax>>)
    ensures Prepend(ts, Prepend([t], r)) == Prepend(ts + [t], r)
  {
    if r.Got? {
      Regroup(ts, [t], r.value);
    }
  }

  /** What remains to be parsed at `s`, behind the trees already read, comes to `spec`. */
  ghost predicate Continues(spec: Parsed<seq<Syntax>>, trees: seq<Syntax>, s: Bytes, depth: nat) {
    |trees| <= MAX_BRANCHES && spec == Prepend(trees, ParseChildren(s, depth, MAX_BRANCHES - |trees|))
  }

  lemma NothingReadYet(s: Bytes, depth: nat)
    ensures Continues(ParseChildren(s, depth, MAX_BRANCHES), [], s, depth)
  {
    var spec := ParseChildren(s, depth, MAX_BRANCHES);
    assert spec.Got? ==> [] + spec.value == spec.value;
  }

  lemma OneChild(s: Bytes, depth: nat, room: nat)
    requires s != [] && s[0] == OPEN
    ensures var child := ParseFilter(s, depth);
            ParseChildren(s, depth, room)
            == if child.Failed? then Failed(child.error)
               else if room == 0 then Failed(TooManyBranches)
               else Prepend([child.value], ParseChildren(child.rest, depth, room - 1))
  {
  }

  /** One turn of the loop over the children. */
  lemma ChildrenStep(
    spec: Parsed<seq<Syntax>>, trees: seq<Syntax>, s: Bytes, depth: nat, child: Parsed<Syntax>)
    requires Continues(spec, trees, s, depth) && s != [] && s[0] == OPEN && child == ParseFilter(s, depth)
    ensures if child.Failed? then spec == Failed(child.error)
            else if |trees| == MAX_BRANCHES then spec == Failed(TooManyBranches)
            else Continues(spec, trees + [child.value], child.rest, depth)
  {
    OneChild(s, depth, MAX_BRANCHES - |trees|);
    if child.Got? && |trees| < MAX_BRANCHES {
      PrependTwice(trees, child.value, ParseChildren(child.rest, depth, MAX_BRANCHES - |trees| - 1));
    }
  }

  lemma ChildrenEnd(spec: Parsed<seq<Syntax>>, trees: seq<Syntax>, s: Bytes, depth: nat)
    requires Continues(spec, trees, s, depth) && !(s != [] && s[0] == OPEN)
    ensures spec == Got(trees, s)
  {
    assert trees + [] == trees;
  }

  ghost function PrependText(text: Bytes, r: Parsed<Bytes>): Parsed<Bytes> {
    match r
    case Got(more, rest) => Got(text + more, rest)
    case Failed(e) => Failed(e)
  }

  lemma PrependNoText(r: Parsed<Bytes>)
    ensures PrependText([], r) == r
  {
    if r.Got? {
      assert [] + r.value == r.value;
    }
  }

  lemma PrependUnit(text: Bytes, s: Bytes)
    requires s != [] && s[0] != CLOSE && s[0] != STAR && UnitLength(s) > 0
    ensures var n := UnitLength(s);
            PrependText(text, ParseAssertion(s)) == PrependText(text + s[..n], ParseAssertion(s[n..]))
  {
    var tail := ParseAssertion(s[UnitLength(s)..]);
    if tail.Got? {
      Regroup(text, s[..UnitLength(s)], tail.value);
    }
  }

  lemma {:induction false} AppendUnit(text: Bytes, s: Bytes)
    requires IsAssertion(text) && UnitLength(s) > 0
    ensures var more := text + s[..UnitLength(s)];
            IsAssertion(more) && Unescape(more) == Unescape(text) + [UnitByte(s)]
    decreases |text|
  {
    var unit := s[..UnitLength(s)];
    UnitIsLocal(s, []);
    assert unit + [] == unit;
    if text == [] {
      assert text + unit == unit;
    } else {
      var n := UnitLength(text);
      AppendUnit(text[n..], s);
      UnitIsLocal(text, text[n..] + unit);
      assert text + unit == text[..n] + (text[n..] + unit);
    }
  }

  class FilterParser {
    const input: Bytes
    var position: nat
    var depth: nat

    constructor (value: Bytes)
      ensures input == value && position == 0 && depth == 0
    {
      input := value;
      position := 0;
      depth := 0;
    }

    ghost predicate Valid()
      reads this
    {
      position <= |input| && depth <= MAX_DEPTH
    }

    /** The bytes still to be read. */
    ghost function Unread(): Bytes
      requires Valid()
      reads this
    {
      input[position..]
    }

    function Peek(): (b: Option<byte>)
      requires Valid()
      reads this
      ensures b == if Unread() == [] then None else Some(Unread()[0])
    {
      if position < |input| then Some(input[position]) else None
    }

    method Take() returns (b: Option<byte>)
      requires Valid()
      modifies this`position
      ensures Valid() && position >= old(position)
      ensures b == if old(Unread()) == [] then None else Some(old(Unread())[0])
      ensures Unread() == if b.None? then old(Unread()) else old(Unread())[1..]
    {
      b := Peek();
      if b.Some? {
        position := position + 1;
      }
    }

    method Expect(expected: byte) returns (ok: bool)
      requires Valid()
      modifies this`position
      ensures Valid()
      ensures ok <==> old(Unread()) != [] && old(Unread())[0] == expected
      ensures ok ==> Unread() == old(Unread())[1..]
    {
      var b := Take();
      ok := b == Some(expected);
    }

    method Attribute() returns (attribute: Bytes)
      requires Valid()
      modifies this`position
      ensures Valid()
      ensures var n := AttributeLength(old(Unread()));
              attribute == old(Unread())[..n] && Unread() == old(Unread())[n..]
    {
      var start := position;
      ghost var text := Unread();
      while position < |input| && IsAttributeByte(input[position])
        invariant Valid() && start <= position
        invariant AttributeLength(text) == position - start + AttributeLength(Unread())
      {
        position := position + 1;
      }
      attribute := input[start..position];
    }

    /** One turn of the loop over an assertion: a plain byte, or an escape and its two digits. */
    method AssertionByte() returns (b: Option<byte>)
      requires Valid() && Unread() != [] && Unread()[0] != CLOSE && Unread()[0] != STAR
      modifies this`position
      ensures Valid() && position > old(position)
      ensures var n := UnitLength(old(Unread()));
              if n == 0 then b.None?
              else b == Some(UnitByte(old(Unread()))) && Unread() == old(Unread())[n..]
    {
      var value := input[position];
      position := position + 1;
      if value != ESCAPE {
        return Some(value);
      }
      var high := Take();
      if high.None? || HexValue(high.value).None? {
        return None;
      }
      var low := Take();
      if low.None? || HexValue(low.value).None? {
        return None;
      }
      b := Some(HexValue(high.value).value * 16 + HexValue(low.value).value);
    }

    /** The loop over the assertion: bytes pushed one at a time, escapes resolved on the way. */
    method Assertion() returns (r: Result<Bytes, FilterError>)
      requires Valid()
      modifies this`position
      ensures var spec := ParseAssertion(old(Unread()));
              match spec
              case Got(text, rest) => r == Ok(Unescape(text)) && Valid() && Unread() == rest
              case Failed(e) => r == Err(e)
    {
      var assertion: Bytes := [];
      ghost var text: Bytes := [];
      ghost var start := Unread();
      PrependNoText(ParseAssertion(start));
      while position < |input| && input[position] != CLOSE
        invariant Valid() && IsAssertion(text) && assertion == Unescape(text)
        invariant ParseAssertion(start) == PrependText(text, ParseAssertion(Unread()))
        decreases |input| - position
      {
        ghost var before := Unread();
        if input[position] == STAR {
          return Err(SubstringUnsupported);
        }
        var value := AssertionByte();
        if value.None? {
          return Err(BadEscape);
        }
        assertion := assertion + [value.value];
        AppendUnit(text, before);
        PrependUnit(text, before);
        text := text + before[..UnitLength(before)];
      }
      assert text + [] == text;
      r := Ok(assertion);
    }

    method Test(attribute: Bytes) returns (r: Result<Filter, FilterError>)
      requires Valid() && IsAttribute(attribute)
      modifies this`position
      ensures var spec := ParseTest(attribute, old(Unread()));
              match spec
              case Got(t, rest) => r == Ok(Meaning(t)) && Valid() && Unread() == rest
              case Failed(e) => r == Err(e)
    {
      if Peek() == Some(STAR) && position + 1 < |input| && input[position + 1] == CLOSE {
        position := position + 1;
        return Ok(Present(attribute));
      }
      var assertion := Assertion();
      if assertion.Err? {
        return Err(assertion.error);
      }
      r := Ok(Equality(attribute, assertion.value));
    }

    method Item() returns (r: Result<Filter, FilterError>)
      requires Valid()
      modifies this`position
      ensures var spec := ParseItem(old(Unread()));
              match spec
              case Got(t, rest) => r == Ok(Meaning(t)) && Valid() && Unread() == rest
              case Failed(e) => r == Err(e)
    {
      ghost var text := Unread();
      var attribute := Attribute();
      if attribute == [] {
        return Err(BadAttribute);
      }
      var equals := Expect(EQUALS);
      if !equals {
        return Err(BadSyntax);
      }
      assert Unread() == text[AttributeLength(text) + 1..];
      r := Test(attribute);
    }

    /** On success the tree that stands between the old cursor and the new one,
        with the nesting counter back where it was. */
    method Filter() returns (r: Result<Filter, FilterError>)
      requires Valid()
      modifies this`position, this`depth
      ensures var spec := ParseFilter(old(Unread()), old(depth));
              match spec
              case Got(t, rest) => r == Ok(Meaning(t)) && Valid() && Unread() == rest && depth == old(depth)
              case Failed(e) => r == Err(e)
      decreases |input| - position, 0
    {
      if depth + 1 > MAX_DEPTH {
        return Err(TooDeep);
      }
      depth := depth + 1;
      var found := Expect(OPEN);
      if !found {
        return Err(BadSyntax);
      }
      r := Inner();
      if r.Err? {
        return;
      }
      var closed := Expect(CLOSE);
      if !closed {
        return Err(BadSyntax);
      }
      depth := depth - 1;
    }

    method Inner() returns (r: Result<Filter, FilterError>)
      requires Valid()
      modifies this`position, this`depth
      ensures var spec := ParseInner(old(Unread()), old(depth));
              match spec
              case Got(t, rest) => r == Ok(Meaning(t)) && Valid() && Unread() == rest && depth == old(depth)
              case Failed(e) => r == Err(e)
      decreases |input| - position, 2
    {
      var next := Peek();
      if next == Some(AMPERSAND) || next == Some(BAR) {
        var taken := Take();
        r := Children(if taken == Some(AMPERSAND) then And else Or);
      } else if next == Some(BANG) {
        var _ := Take();
        var child := Filter();
        if child.Err? {
          return child;
        }
        r := Ok(Not(child.value));
      } else {
        r := Item();
      }
    }

    method Children(connective: Connective) returns (r: Result<Filter, FilterError>)
      requires Valid()
      modifies this`position, this`depth
      ensures var spec := ParseChildren(old(Unread()), old(depth), MAX_BRANCHES);
              match spec
              case Got(ts, rest) =>
                if ts == [] then r == Err(EmptyLogical)
                else r == Ok(Logical(connective, Meanings(ts))) && Valid() && Unread() == rest && depth == old(depth)
              case Failed(e) => r == Err(e)
      decreases |input| - position, 1
    {
      var children: seq<Filter> := [];
      ghost var trees: seq<Syntax> := [];
      ghost var spec := ParseChildren(Unread(), depth, MAX_BRANCHES);
      NothingReadYet(Unread(), depth);
      while Peek() == Some(OPEN)
        invariant Valid() && depth == old(depth) && position >= old(position)
        invariant AllWellFormed(trees) && children == Meanings(trees)
        invariant Continues(spec, trees, Unread(), depth)
        decreases |input| - position
      {
        ghost var parsed := ParseFilter(Unread(), depth);
        ChildrenStep(spec, trees, Unread(), depth, parsed);
        var child := Filter();
        if child.Err? {
          return child;
        }
        children := children + [child.value];
        if |children| > MAX_BRANCHES {
          return Err(TooManyBranches);
        }
        AppendWellFormed(trees, parsed.value);
        trees := trees + [parsed.value];
      }
      ChildrenEnd(spec, trees, Unread(), depth);
      if children == [] {
        return Err(EmptyLogical);
      }
      r := Ok(Logical(connective, children));
    }
  }

  method ParseFilterText(value: Bytes) returns (r: Result<Filter, FilterError>)
    ensures r == ParseToFilter(value)
  {
    var parser := new FilterParser(value);
    assert parser.Unread() == value;
    var filter := parser.Filter();
    if filter.Err? {
      return filter;
    }
    if parser.position != |parser.input| {
      return Err(TrailingData);
    }
    r := filter;
  }

  datatype TemplateError = MissingPlaceholder | Unparsable(error: FilterError)

  /** The part of `authenticate` that turns the configured template and an identifier into a search
      filter. For a template that parses and holds a placeholder, every identifier but the literal
      placeholder text is looked up as data. */
  method BuildUserFilter(template: Bytes, identifier: Bytes) returns (r: Result<Filter, TemplateError>)
    ensures r == Err(MissingPlaceholder) <==> !Occurs(template, PLACEHOLDER) || identifier == PLACEHOLDER
    ensures ParseWhole(template).Ok? && r != Err(MissingPlaceholder)
        ==> r == Ok(Filled(ParseWhole(template).value, identifier))
    ensures r != Err(MissingPlaceholder) ==>
              match ParseToFilter(Substitute(template, identifier))
              case Ok(f) => r == Ok(f)
              case Err(e) => r == Err(Unparsable(e))
    ensures r.Ok? ==> WellShaped(r.value) && Nesting(r.value) <= MAX_DEPTH
  {
    var escaped := EscapeFilterValue(identifier);
    var text := Replace(template, PLACEHOLDER, escaped);
    UnchangedTextMeansNoPlaceholder(template, identifier);
    if text == template {
      return Err(MissingPlaceholder);
    }
    if ParseWhole(template).Ok? {
      IdentifierIsData(template, identifier);
    }
    var filter := ParseFilterText(text);
    match filter
    case Ok(f) =>
      ParserRange(f);
      r := Ok(f);
    case Err(e) =>
      r := Err(Unparsable(e));
  }
}
