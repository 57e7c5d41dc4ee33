/** Search filters: their syntax trees, the text of a tree, and the bytes an assertion stands for. */
module LdapFilter {
  import opened Text

  const OPEN: byte := 40
  const CLOSE: byte := 41
  const STAR: byte := 42
  const ESCAPE: byte := 92
  const EQUALS: byte := 61
  const AMPERSAND: byte := 38
  const BAR: byte := 124
  const BANG: byte := 33

  const MAX_DEPTH: nat := 16
  const MAX_BRANCHES: nat := 32

  datatype Connective = And | Or

  /** What the client sends: context tags 0 and 1 (and, or), 2 (not), 7 (present), 3 (equality). */
  datatype Filter =
    | Logical(connective: Connective, children: seq<Filter>)
    | Not(child: Filter)
    | Present(attribute: Bytes)
    | Equality(attribute: Bytes, value: Bytes)

  /** A filter as written: an assertion is still the text between `=` and `)`. */
  datatype Syntax =
    | LogicalSyntax(connective: Connective, parts: seq<Syntax>)
    | NotSyntax(part: Syntax)
    | PresentSyntax(attribute: Bytes)
    | EqualitySyntax(attribute: Bytes, text: Bytes)

  predicate IsAttributeByte(b: byte) {
    48 <= b <= 57 || 65 <= b <= 90 || 97 <= b <= 122 || b == 45 || b == 46 || b == 59
  }

  predicate IsAttribute(a: Bytes) {
    a != [] && forall i :: 0 <= i < |a| ==> IsAttributeByte(a[i])
  }

  function HexValue(b: byte): Option<byte> {
    if 48 <= b <= 57 then Some(b - 48)
    else if 97 <= b <= 102 then Some(b - 97 + 10)
    else if 65 <= b <= 70 then Some(b - 65 + 10)
    else None
  }

  /** `s` starts with a backslash and two hexadecimal digits. */
  predicate StartsEscape(s: Bytes) {
    |s| >= 3 && s[0] == ESCAPE && HexValue(s[1]).Some? && HexValue(s[2]).Some?
  }

  function EscapedByte(s: Bytes): byte
    requires StartsEscape(s)
  {
    HexValue(s[1]).value * 16 + HexValue(s[2]).value
  }

  predicate IsPlain(b: byte) {
    b != CLOSE && b != STAR && b != ESCAPE
  }

  /** Length of the plain byte or escape that `s` starts with, 0 if it starts with neither. */
  function UnitLength(s: Bytes): (n: nat)
    ensures n <= |s|
  {
    if s == [] then 0
    else if IsPlain(s[0]) then 1
    else if StartsEscape(s) then 3
    else 0
  }

  function UnitByte(s: Bytes): byte
    requires UnitLength(s) > 0
  {
    if IsPlain(s[0]) then s[0] else EscapedByte(s)
  }

  /** Assertion text: plain bytes and escapes. */
  predicate IsAssertion(text: Bytes)
    decreases |text|
  {
    text == [] || (UnitLength(text) > 0 && IsAssertion(text[UnitLength(text)..]))
  }

  /** The bytes an assertion text stands for. */
  function Unescape(text: Bytes): Bytes
    requires IsAssertion(text)
    decreases |text|
  {
    if text == [] then [] else [UnitByte(text)] + Unescape(text[UnitLength(text)..])
  }

  /** What follows a unit does not change it. */
  lemma UnitIsLocal(s: Bytes, y: Bytes)
    requires UnitLength(s) > 0
    ensures var n := UnitLength(s);
            && UnitLength(s[..n] + y) == n
            && UnitByte(s[..n] + y) == UnitByte(s)
            && (s[..n] + y)[n..] == y
            && (s[..n] + y)[..n] == s[..n]
  {
  }

  function ConnectiveByte(c: Connective): byte {
    if c.And? then AMPERSAND else BAR
  }

  function Render(t: Syntax): Bytes {
    match t
    case LogicalSyntax(c, parts) => [OPEN, ConnectiveByte(c)] + RenderAll(parts) + [CLOSE]
    case NotSyntax(part) => [OPEN, BANG] + Render(part) + [CLOSE]
    case PresentSyntax(a) => [OPEN] + a + [EQUALS, STAR, CLOSE]
    case EqualitySyntax(a, text) => [OPEN] + a + [EQUALS] + text + [CLOSE]
  }

  function RenderAll(ts: seq<Syntax>): Bytes {
    if ts == [] then [] else Render(ts[0]) + RenderAll(ts[1..])
  }

  predicate WellFormed(t: Syntax) {
    match t
    case LogicalSyntax(_, parts) => 1 <= |parts| <= MAX_BRANCHES && AllWellFormed(parts)
    case NotSyntax(part) => WellFormed(part)
    case PresentSyntax(a) => IsAttribute(a)
    case EqualitySyntax(a, text) => IsAttribute(a) && IsAssertion(text)
  }

  predicate AllWellFormed(ts: seq<Syntax>) {
    ts == [] || (WellFormed(ts[0]) && AllWellFormed(ts[1..]))
  }

  function Depth(t: Syntax): nat {
    match t
    case LogicalSyntax(_, parts) => 1 + MaxDepth(parts)
    case NotSyntax(part) => 1 + Depth(part)
    case PresentSyntax(_) => 1
    case EqualitySyntax(_, _) => 1
  }

  function MaxDepth(ts: seq<Syntax>): nat {
    if ts == [] then 0
    else if Depth(ts[0]) > MaxDepth(ts[1..]) then Depth(ts[0])
    else MaxDepth(ts[1..])
  }

  function Meaning(t: Syntax): Filter
    requires WellFormed(t)
  {
    match t
    case LogicalSyntax(c, parts) => Logical(c, Meanings(parts))
    case NotSyntax(part) => Not(Meaning(part))
    case PresentSyntax(a) => Present(a)
    case EqualitySyntax(a, text) => Equality(a, Unescape(text))
  }

  function Meanings(ts: seq<Syntax>): (fs: seq<Filter>)
    requires AllWellFormed(ts)
    ensures |fs| == |ts|
  {
    if ts == [] then [] else [Meaning(ts[0])] + Meanings(ts[1..])
  }

  lemma {:induction false} AppendWellFormed(ts: seq<Syntax>, t: Syntax)
    requires AllWellFormed(ts) && WellFormed(t)
    ensures AllWellFormed(ts + [t])
    ensures Meanings(ts + [t]) == Meanings(ts) + [Meaning(t)]
  {
    if ts == [] {
      assert ts + [t] == [t];
    } else {
      AppendWellFormed(ts[1..], t);
      assert (ts + [t])[1..] == ts[1..] + [t];
    }
  }
}

/** The recursive-descent parser as a function from the bytes still to be read. */
module LdapFilterGrammar {
  import opened Text
  import opened LdapFilter

  datatype FilterError =
    | TooDeep
    | BadSyntax
    | TooManyBranches
    | EmptyLogical
    | BadAttribute
    | SubstringUnsupported
    | BadEscape
    | TrailingData

  datatype Parsed<+T> = Got(value: T, rest: Bytes) | Failed(error: FilterError)

  function AttributeLength(s: Bytes): (n: nat)
    ensures n <= |s|
    ensures forall i :: 0 <= i < n ==> IsAttributeByte(s[i])
    ensures n < |s| ==> !IsAttributeByte(s[n])
  {
    if s == [] || !IsAttributeByte(s[0]) then 0 else 1 + AttributeLength(s[1..])
  }

  function ParseAssertion(s: Bytes): (r: Parsed<Bytes>)
    ensures r.Got? ==> |r.rest| <= |s| && IsAssertion(r.value)
    decreases |s|
  {
    if s == [] || s[0] == CLOSE then Got([], s)
    else if s[0] == STAR then Failed(SubstringUnsupported)
    else
      var n := UnitLength(s);
      if n == 0 then Failed(BadEscape)
      else
        var tail := ParseAssertion(s[n..]);
        if tail.Failed? then tail
        else
          UnitIsLocal(s, tail.value);
          Got(s[..n] + tail.value, tail.rest)
  }

  /** What an attribute is tested for: presence, or equality with an assertion. */
  function ParseTest(attribute: Bytes, s: Bytes): (r: Parsed<Syntax>)
    requires IsAttribute(attribute)
    ensures r.Got? ==> |r.rest| <= |s| && WellFormed(r.value)
  {
    if |s| >= 2 && s[0] == STAR && s[1] == CLOSE then
      Got(PresentSyntax(attribute), s[1..])
    else
      var text := ParseAssertion(s);
      if text.Failed? then Failed(text.error)
      else Got(EqualitySyntax(attribute, text.value), text.rest)
  }

  function ParseItem(s: Bytes): (r: Parsed<Syntax>)
    ensures r.Got? ==> |r.rest| < |s| && WellFormed(r.value)
  {
    var n := AttributeLength(s);
    if n == 0 then Failed(BadAttribute)
    else if n == |s| || s[n] != EQUALS then Failed(BadSyntax)
    else ParseTest(s[..n], s[n + 1..])
  }

  function ParseFilter(s: Bytes, depth: nat): (r: Parsed<Syntax>)
    ensures r.Got? ==> |r.rest| < |s| && WellFormed(r.value)
    decreases |s|, 0
  {
    if depth >= MAX_DEPTH then Failed(TooDeep)
    else if s == [] || s[0] != OPEN then Failed(BadSyntax)
    else
      var inner := ParseInner(s[1..], depth + 1);
      if inner.Failed? then inner
      else if inner.rest == [] || inner.rest[0] != CLOSE then Failed(BadSyntax)
      else Got(inner.value, inner.rest[1..])
  }

  /** What stands between the parentheses. */
  function ParseInner(s: Bytes, depth: nat): (r: Parsed<Syntax>)
    ensures r.Got? ==> |r.rest| <= |s| && WellFormed(r.value)
    decreases |s|, 2
  {
    if s != [] && (s[0] == AMPERSAND || s[0] == BAR) then
      var parts := ParseChildren(s[1..], depth, MAX_BRANCHES);
      if parts.Failed? then Failed(parts.error)
      else if parts.value == [] then Failed(EmptyLogical)
      else Got(LogicalSyntax(if s[0] == AMPERSAND then And else Or, parts.value), parts.rest)
    else if s != [] && s[0] == BANG then
      var part := ParseFilter(s[1..], depth);
      if part.Failed? then part else Got(NotSyntax(part.value), part.rest)
    else ParseItem(s)
  }

  /** As many children as open, at most `room` of them. */
  function ParseChildren(s: Bytes, depth: nat, room: nat): (r: Parsed<seq<Syntax>>)
    ensures r.Got? ==> |r.rest| <= |s| && AllWellFormed(r.value) && |r.value| <= room
    decreases |s|, 1
  {
    if s == [] || s[0] != OPEN then Got([], s)
    else
      var child := ParseFilter(s, depth);
      if child.Failed? then Failed(child.error)
      else if room == 0 then Failed(TooManyBranches)
      else
        var others := ParseChildren(child.rest, depth, room - 1);
        if others.Failed? then others
        else Got([child.value] + others.value, others.rest)
  }

  function ParseWhole(s: Bytes): (r: Result<Syntax, FilterError>)
    ensures r.Ok? ==> WellFormed(r.value)
  {
    var parsed := ParseFilter(s, 0);
    if parsed.Failed? then Err(parsed.error)
    else if parsed.rest != [] then Err(TrailingData)
    else Ok(parsed.value)
  }

  // ----- Everything accepted is the rendering of the tree that is returned -----

  /** The text of a tree without its outer parentheses. */
  function Inside(t: Syntax): (text: Bytes)
    ensures [OPEN] + text + [CLOSE] == Render(t)
  {
    match t
    case LogicalSyntax(c, parts) => [ConnectiveByte(c)] + RenderAll(parts)
    case NotSyntax(part) => [BANG] + Render(part)
    case PresentSyntax(a) => a + [EQUALS, STAR]
    case EqualitySyntax(a, text) => a + [EQUALS] + text
  }

  lemma {:induction false} AssertionIsRendered(s: Bytes)
    ensures var r := ParseAssertion(s);
            r.Got? ==> s == r.value + r.rest
    decreases |s|
  {
    var n := UnitLength(s);
    if ParseAssertion(s).Got? && s != [] && s[0] != CLOSE {
      AssertionIsRendered(s[n..]);
      assert s == s[..n] + s[n..];
    }
  }

  lemma TestIsRendered(attribute: Bytes, s: Bytes)
    requires IsAttribute(attribute)
    ensures var r := ParseTest(attribute, s);
            r.Got? ==> attribute + [EQUALS] + s == Inside(r.value) + r.rest && Depth(r.value) == 1
  {
    if |s| >= 2 && s[0] == STAR && s[1] == CLOSE {
      assert attribute + [EQUALS] + s == attribute + [EQUALS, STAR] + s[1..];
    } else {
      AssertionIsRendered(s);
      var text := ParseAssertion(s);
      if text.Got? {
        assert attribute + [EQUALS] + s == attribute + [EQUALS] + text.value + text.rest;
      }
    }
  }

  lemma ItemIsRendered(s: Bytes)
    ensures var r := ParseItem(s);
            r.Got? ==> s == Inside(r.value) + r.rest && Depth(r.value) == 1
  {
    var n := AttributeLength(s);
    if ParseItem(s).Got? {
      TestIsRendered(s[..n], s[n + 1..]);
      assert s == s[..n] + [EQUALS] + s[n + 1..];
    }
  }

  lemma Wrapped(s: Bytes, inside: Bytes, after: Bytes)
    requires s != [] && s[1..] == inside + after && after != []
    ensures s == [s[0]] + inside + [after[0]] + after[1..]
  {
  }

  lemma {:induction false} FilterIsRendered(s: Bytes, depth: nat)
    ensures var r := ParseFilter(s, depth);
            r.Got? ==> s == Render(r.value) + r.rest && depth + Depth(r.value) <= MAX_DEPTH
    decreases |s|, 0
  {
    var r := ParseFilter(s, depth);
    if r.Got? {
      InnerIsRendered(s[1..], depth + 1);
      var inner := ParseInner(s[1..], depth + 1);
      Wrapped(s, Inside(inner.value), inner.rest);
    }
  }

  lemma Led(s: Bytes, text: Bytes, rest: Bytes)
    requires s != [] && s[1..] == text + rest
    ensures s == [s[0]] + text + rest
  {
  }

  lemma {:induction false} InnerIsRendered(s: Bytes, depth: nat)
    requires 1 <= depth <= MAX_DEPTH
    ensures var r := ParseInner(s, depth);
            r.Got? ==> s == Inside(r.value) + r.rest && depth + Depth(r.value) <= MAX_DEPTH + 1
    decreases |s|, 2
  {
    if s != [] && (s[0] == AMPERSAND || s[0] == BAR) {
      ChildrenAreRendered(s[1..], depth, MAX_BRANCHES);
      var parts := ParseChildren(s[1..], depth, MAX_BRANCHES);
      if parts.Got? {
        Led(s, RenderAll(parts.value), parts.rest);
      }
    } else if s != [] && s[0] == BANG {
      FilterIsRendered(s[1..], depth);
      var part := ParseFilter(s[1..], depth);
      if part.Got? {
        Led(s, Render(part.value), part.rest);
      }
    } else {
      ItemIsRendered(s);
    }
  }

  lemma HeadRendered(t: Syntax, ts: seq<Syntax>, rest: Bytes)
    ensures RenderAll([t] + ts) + rest == Render(t) + (RenderAll(ts) + rest)
    ensures MaxDepth([t] + ts) == if Depth(t) > MaxDepth(ts) then Depth(t) else MaxDepth(ts)
  {
  }

  lemma {:induction false} ChildrenAreRendered(s: Bytes, depth: nat, room: nat)
    ensures var r := ParseChildren(s, depth, room);
            r.Got? ==> && s == RenderAll(r.value) + r.rest
                       && (r.value != [] ==> depth + MaxDepth(r.value) <= MAX_DEPTH)
    decreases |s|, 1
  {
    if s != [] && s[0] == OPEN {
      FilterIsRendered(s, depth);
      var child := ParseFilter(s, depth);
      if child.Got? && room > 0 {
        ChildrenAreRendered(child.rest, depth, room - 1);
        var others := ParseChildren(child.rest, depth, room - 1);
        if others.Got? {
          HeadRendered(child.value, others.value, others.rest);
        }
      }
    }
  }

  // ----- Every rendering within the limits is accepted, and gives its tree back -----

  lemma {:induction false} AttributeEnds(a: Bytes, s: Bytes)
    requires forall i :: 0 <= i < |a| ==> IsAttributeByte(a[i])
    requires s == [] || !IsAttributeByte(s[0])
    ensures AttributeLength(a + s) == |a|
  {
    if a == [] {
      assert a + s == s;
    } else {
      assert (a + s)[1..] == a[1..] + s;
      AttributeEnds(a[1..], s);
    }
  }

  lemma {:induction false} AssertionAccepted(text: Bytes, s: Bytes)
    requires IsAssertion(text) && s != [] && s[0] == CLOSE
    ensures ParseAssertion(text + s) == Got(text, s)
    decreases |text|
  {
    var all := text + s;
    if text == [] {
      assert all == s;
    } else {
      var n := UnitLength(text);
      assert all == text[..n] + (text[n..] + s);
      UnitIsLocal(text, text[n..] + s);
      AssertionAccepted(text[n..], s);
      assert all[0] == text[0];
      assert text == text[..n] + text[n..];
    }
  }

  lemma FilterStep(s: Bytes, t: Syntax, after: Bytes, depth: nat)
    requires depth < MAX_DEPTH && s != [] && s[0] == OPEN && after != [] && after[0] == CLOSE
    requires ParseInner(s[1..], depth + 1) == Got(t, after)
    ensures ParseFilter(s, depth) == Got(t, after[1..])
  {
  }

  lemma Parenthesised(t: Syntax, inside: Bytes, s: Bytes, depth: nat)
    requires depth < MAX_DEPTH
    requires ParseInner(inside + ([CLOSE] + s), depth + 1) == Got(t, [CLOSE] + s)
    ensures ParseFilter([OPEN] + inside + [CLOSE] + s, depth) == Got(t, s)
  {
    var all := [OPEN] + inside + [CLOSE] + s;
    assert all[1..] == inside + ([CLOSE] + s);
    FilterStep(all, t, [CLOSE] + s, depth);
    assert ([CLOSE] + s)[1..] == s;
  }

  lemma {:induction false} FilterAccepted(t: Syntax, s: Bytes, depth: nat)
    requires WellFormed(t) && depth + Depth(t) <= MAX_DEPTH
    ensures ParseFilter(Render(t) + s, depth) == Got(t, s)
    decreases t, 1
  {
    InnerAccepted(t, [CLOSE] + s, depth + 1);
    Parenthesised(t, Inside(t), s, depth);
  }

  lemma InnerIsItem(s: Bytes, depth: nat)
    requires s != [] && IsAttributeByte(s[0])
    ensures ParseInner(s, depth) == ParseItem(s)
  {
  }

  lemma ItemAccepted(a: Bytes, s: Bytes)
    requires IsAttribute(a)
    ensures ParseItem(a + ([EQUALS] + s)) == ParseTest(a, s)
    ensures IsAttributeByte((a + ([EQUALS] + s))[0])
  {
    var tail := [EQUALS] + s;
    AttributeEnds(a, tail);
    assert (a + tail)[|a|] == tail[0];
    assert (a + tail)[..|a|] == a && (a + tail)[|a| + 1..] == tail[1..] == s;
  }

  lemma ItemInside(a: Bytes, s: Bytes, t: Syntax, after: Bytes, depth: nat)
    requires IsAttribute(a) && ParseTest(a, s) == Got(t, after)
    ensures ParseInner(a + ([EQUALS] + s), depth) == Got(t, after)
  {
    ItemAccepted(a, s);
    InnerIsItem(a + ([EQUALS] + s), depth);
  }

  lemma Regroup4(a: Bytes, b: Bytes, c: Bytes, d: Bytes)
    ensures a + b + c + d == a + (b + (c + d))
  {
  }

  lemma TestAccepted(t: Syntax, after: Bytes)
    requires WellFormed(t) && (t.PresentSyntax? || t.EqualitySyntax?)
    requires after != [] && after[0] == CLOSE
    ensures var s := if t.PresentSyntax? then [STAR] + after else t.text + after;
            ParseTest(t.attribute, s) == Got(t, after)
  {
    if t.PresentSyntax? {
      assert ([STAR] + after)[1..] == after;
    } else {
      AssertionAccepted(t.text, after);
      if t.text == [] {
        assert t.text + after == after;
      } else {
        assert (t.text + after)[0] == t.text[0];
      }
    }
  }

  lemma EqualityAccepted(a: Bytes, text: Bytes, after: Bytes, depth: nat)
    requires IsAttribute(a) && IsAssertion(text) && after != [] && after[0] == CLOSE
    ensures ParseInner(a + [EQUALS] + text + after, depth) == Got(EqualitySyntax(a, text), after)
  {
    TestAccepted(EqualitySyntax(a, text), after);
    ItemInside(a, text + after, EqualitySyntax(a, text), after, depth);
    Regroup4(a, [EQUALS], text, after);
  }

  lemma PresentAccepted(a: Bytes, after: Bytes, depth: nat)
    requires IsAttribute(a) && after != [] && after[0] == CLOSE
    ensures ParseInner(a + [EQUALS, STAR] + after, depth) == Got(PresentSyntax(a), after)
  {
    TestAccepted(PresentSyntax(a), after);
    ItemInside(a, [STAR] + after, PresentSyntax(a), after, depth);
    assert a + [EQUALS, STAR] + after == a + ([EQUALS] + ([STAR] + after));
  }

  lemma {:induction false} InnerAccepted(t: Syntax, after: Bytes, depth: nat)
    requires WellFormed(t) && 1 <= depth && depth - 1 + Depth(t) <= MAX_DEPTH
    requires after != [] && after[0] == CLOSE
    ensures ParseInner(Inside(t) + after, depth) == Got(t, after)
    decreases t, 0
  {
    match t
    case LogicalSyntax(c, parts) => LogicalAccepted(c, parts, after, depth);
    case NotSyntax(part) => NotAccepted(part, after, depth);
    case PresentSyntax(a) => PresentAccepted(a, after, depth);
    case EqualitySyntax(a, text) => EqualityAccepted(a, text, after, depth);
  }

  lemma {:induction false} LogicalAccepted(c: Connective, parts: seq<Syntax>, after: Bytes, depth: nat)
    requires 1 <= |parts| <= MAX_BRANCHES && AllWellFormed(parts) && depth + MaxDepth(parts) <= MAX_DEPTH
    requires after != [] && after[0] == CLOSE
    ensures ParseInner([ConnectiveByte(c)] + RenderAll(parts) + after, depth) == Got(LogicalSyntax(c, parts), after)
    decreases parts, 1
  {
    var s := [ConnectiveByte(c)] + RenderAll(parts) + after;
    ChildrenAccepted(parts, after, depth, MAX_BRANCHES);
    assert s[1..] == RenderAll(parts) + after;
  }

  lemma NotStep(s: Bytes, part: Syntax, after: Bytes, depth: nat)
    requires ParseFilter(s, depth) == Got(part, after)
    ensures ParseInner([BANG] + s, depth) == Got(NotSyntax(part), after)
  {
    assert ([BANG] + s)[1..] == s;
  }

  lemma {:induction false} NotAccepted(part: Syntax, after: Bytes, depth: nat)
    requires WellFormed(part) && depth + Depth(part) <= MAX_DEPTH
    ensures ParseInner([BANG] + Render(part) + after, depth) == Got(NotSyntax(part), after)
    decreases part, 2
  {
    FilterAccepted(part, after, depth);
    assert [BANG] + Render(part) + after == [BANG] + (Render(part) + after);
    NotStep(Render(part) + after, part, after, depth);
  }

  lemma ChildThenOthers(s: Bytes, depth: nat, room: nat, t: Syntax, others: Bytes, ts: seq<Syntax>, rest: Bytes)
    requires s != [] && s[0] == OPEN && room > 0
    requires ParseFilter(s, depth) == Got(t, others)
    requires ParseChildren(others, depth, room - 1) == Got(ts, rest)
    ensures ParseChildren(s, depth, room) == Got([t] + ts, rest)
  {
  }

  lemma RenderOpens(t: Syntax)
    ensures Render(t) != [] && Render(t)[0] == OPEN
  {
  }

  lemma {:induction false} ChildrenAccepted(ts: seq<Syntax>, s: Bytes, depth: nat, room: nat)
    requires AllWellFormed(ts) && depth + MaxDepth(ts) <= MAX_DEPTH && |ts| <= room
    requires s != [] && s[0] == CLOSE
    ensures ParseChildren(RenderAll(ts) + s, depth, room) == Got(ts, s)
    decreases ts, 0
  {
    if ts == [] {
      assert RenderAll(ts) + s == s;
    } else {
      var all, others := RenderAll(ts) + s, RenderAll(ts[1..]) + s;
      assert ts == [ts[0]] + ts[1..];
      HeadRendered(ts[0], ts[1..], s);
      FilterAccepted(ts[0], others, depth);
      ChildrenAccepted(ts[1..], s, depth, room - 1);
      RenderOpens(ts[0]);
      assert all[0] == OPEN;
      ChildThenOthers(all, depth, room, ts[0], others, ts[1..], s);
    }
  }

  /** The parser decides the grammar: it returns `t` exactly on the text of `t`,
      for every tree within the nesting and branching limits and for no other. */
  lemma ParsesExactlyTheGrammar(s: Bytes, t: Syntax)
    ensures ParseWhole(s) == Ok(t) <==> s == Render(t) && WellFormed(t) && Depth(t) <= MAX_DEPTH
  {
    FilterIsRendered(s, 0);
    if s == Render(t) && WellFormed(t) && Depth(t) <= MAX_DEPTH {
      FilterAccepted(t, [], 0);
      assert Render(t) + [] == s;
    }
  }

  /** The grammar is unambiguous within the limits. */
  lemma RenderInjective(t: Syntax, u: Syntax)
    requires WellFormed(t) && Depth(t) <= MAX_DEPTH
    requires WellFormed(u) && Depth(u) <= MAX_DEPTH
    requires Render(t) == Render(u)
    ensures t == u
  {
    ParsesExactlyTheGrammar(Render(t), t);
    ParsesExactlyTheGrammar(Render(u), u);
  }
}
