/** Escaping an identifier, printing a filter canonically, and substituting an identifier into a template. */
module LdapTemplate {
  import opened Text
  import opened LdapFilter
  import opened LdapFilterGrammar

  function HexDigit(n: byte): byte
    requires n < 16
  {
    if n < 10 then 48 + n else 87 + n
  }

  predicate MustEscape(b: byte) {
    b <= 0x1f || b >= 0x7f || b == OPEN || b == CLOSE || b == STAR || b == ESCAPE
  }

  function EscapeByte(b: byte): Bytes {
    if MustEscape(b) then [ESCAPE, HexDigit(b / 16), HexDigit(b % 16)] else [b]
  }

  function Escape(value: Bytes): Bytes {
    if value == [] then [] else EscapeByte(value[0]) + Escape(value[1..])
  }

  lemma {:induction false} EscapeAppends(v: Bytes, b: byte)
    ensures Escape(v + [b]) == Escape(v) + EscapeByte(b)
  {
    if v == [] {
      assert v + [b] == [b];
    } else {
      assert (v + [b])[1..] == v[1..] + [b];
      EscapeAppends(v[1..], b);
    }
  }

  method EscapeFilterValue(value: Bytes) returns (escaped: Bytes)
    ensures escaped == Escape(value)
  {
    escaped := [];
    for i := 0 to |value|
      invariant escaped == Escape(value[..i])
    {
      EscapeAppends(value[..i], value[i]);
      assert value[..i + 1] == value[..i] + [value[i]];
      if MustEscape(value[i]) {
        escaped := escaped + [ESCAPE, HexDigit(value[i] / 16), HexDigit(value[i] % 16)];
      } else {
        escaped := escaped + [value[i]];
      }
    }
    assert value[..|value|] == value;
  }

  lemma EscapedInFront(b: byte, w: Bytes)
    requires IsAssertion(w)
    ensures IsAssertion(EscapeByte(b) + w) && Unescape(EscapeByte(b) + w) == [b] + Unescape(w)
  {
  }

  /** An escaped value in front of assertion text is read back as exactly that value. */
  lemma {:induction false} EscapeIsRead(v: Bytes, w: Bytes)
    requires IsAssertion(w)
    ensures IsAssertion(Escape(v) + w) && Unescape(Escape(v) + w) == v + Unescape(w)
  {
    if v == [] {
      assert Escape(v) + w == w;
    } else {
      EscapeIsRead(v[1..], w);
      EscapedInFront(v[0], Escape(v[1..]) + w);
      Regroup(EscapeByte(v[0]), Escape(v[1..]), w);
      Regroup([v[0]], v[1..], Unescape(w));
      assert v == [v[0]] + v[1..];
    }
  }

  /** Unescaping undoes escaping for every byte string. */
  lemma EscapeRoundTrip(v: Bytes)
    ensures IsAssertion(Escape(v)) && Unescape(Escape(v)) == v
  {
    EscapeIsRead(v, []);
    assert Escape(v) + [] == Escape(v);
  }

  // ----- The canonical printer -----

  predicate WellShaped(f: Filter) {
    match f
    case Logical(_, children) => 1 <= |children| <= MAX_BRANCHES && AllWellShaped(children)
    case Not(child) => WellShaped(child)
    case Present(a) => IsAttribute(a)
    case Equality(a, _) => IsAttribute(a)
  }

  predicate AllWellShaped(fs: seq<Filter>) {
    fs == [] || (WellShaped(fs[0]) && AllWellShaped(fs[1..]))
  }

  function Nesting(f: Filter): nat {
    match f
    case Logical(_, children) => 1 + MaxNesting(children)
    case Not(child) => 1 + Nesting(child)
    case Present(_) => 1
    case Equality(_, _) => 1
  }

  function MaxNesting(fs: seq<Filter>): nat {
    if fs == [] then 0
    else if Nesting(fs[0]) > MaxNesting(fs[1..]) then Nesting(fs[0])
    else MaxNesting(fs[1..])
  }

  function Canonical(f: Filter): Syntax {
    match f
    case Logical(c, children) => LogicalSyntax(c, AllCanonical(children))
    case Not(child) => NotSyntax(Canonical(child))
    case Present(a) => PresentSyntax(a)
    case Equality(a, v) => EqualitySyntax(a, Escape(v))
  }

  function AllCanonical(fs: seq<Filter>): (ts: seq<Syntax>)
    ensures |ts| == |fs|
  {
    if fs == [] then [] else [Canonical(fs[0])] + AllCanonical(fs[1..])
  }

  function Print(f: Filter): Bytes {
    Render(Canonical(f))
  }

  function ParseToFilter(s: Bytes): Result<Filter, FilterError> {
    match ParseWhole(s)
    case Ok(t) => Ok(Meaning(t))
    case Err(e) => Err(e)
  }

  lemma {:induction false} CanonicalMeans(f: Filter)
    requires WellShaped(f)
    ensures WellFormed(Canonical(f)) && Meaning(Canonical(f)) == f && Depth(Canonical(f)) == Nesting(f)
    decreases f
  {
    match f
    case Logical(c, children) => AllCanonicalMean(children);
    case Not(child) => CanonicalMeans(child);
    case Present(a) =>
    case Equality(a, v) => EscapeRoundTrip(v);
  }

  lemma {:induction false} AllCanonicalMean(fs: seq<Filter>)
    requires AllWellShaped(fs)
    ensures AllWellFormed(AllCanonical(fs)) && Meanings(AllCanonical(fs)) == fs
    ensures MaxDepth(AllCanonical(fs)) == MaxNesting(fs)
    decreases fs
  {
    if fs != [] {
      CanonicalMeans(fs[0]);
      AllCanonicalMean(fs[1..]);
    }
  }

  lemma {:induction false} MeaningIsWellShaped(t: Syntax)
    requires WellFormed(t)
    ensures WellShaped(Meaning(t)) && Nesting(Meaning(t)) == Depth(t)
    decreases t
  {
    match t
    case LogicalSyntax(c, parts) => MeaningsAreWellShaped(parts);
    case NotSyntax(part) => MeaningIsWellShaped(part);
    case PresentSyntax(a) =>
    case EqualitySyntax(a, text) =>
  }

  lemma {:induction false} MeaningsAreWellShaped(ts: seq<Syntax>)
    requires AllWellFormed(ts)
    ensures AllWellShaped(Meanings(ts)) && MaxNesting(Meanings(ts)) == MaxDepth(ts)
    decreases ts
  {
    if ts != [] {
      MeaningIsWellShaped(ts[0]);
      MeaningsAreWellShaped(ts[1..]);
    }
  }

  /** The parser's results are exactly the filters within the limits, and parsing undoes printing. */
  lemma ParserRange(f: Filter)
    ensures (exists s :: ParseToFilter(s) == Ok(f)) <==> WellShaped(f) && Nesting(f) <= MAX_DEPTH
    ensures WellShaped(f) && Nesting(f) <= MAX_DEPTH ==> ParseToFilter(Print(f)) == Ok(f)
  {
    if WellShaped(f) && Nesting(f) <= MAX_DEPTH {
      CanonicalMeans(f);
      ParsesExactlyTheGrammar(Print(f), Canonical(f));
      assert ParseToFilter(Print(f)) == Ok(f);
    }
    if s :| ParseToFilter(s) == Ok(f) {
      var t := ParseWhole(s).value;
      ParsesExactlyTheGrammar(s, t);
      MeaningIsWellShaped(t);
    }
  }

  /** Parsing, printing and parsing again is parsing once. */
  lemma ParsePrintParse(s: Bytes)
    requires ParseToFilter(s).Ok?
    ensures ParseToFilter(Print(ParseToFilter(s).value)) == ParseToFilter(s)
  {
    ParserRange(ParseToFilter(s).value);
  }

  // ----- Templates -----

  /** The bytes of "{identifier}". */
  const PLACEHOLDER: Bytes := [123, 105, 100, 101, 110, 116, 105, 102, 105, 101, 114, 125]

  function Substitute(template: Bytes, identifier: Bytes): Bytes {
    Replace(template, PLACEHOLDER, Escape(identifier))
  }

  lemma PlainInFront(b: byte, w: Bytes)
    requires IsPlain(b) && IsAssertion([b] + w)
    ensures IsAssertion(w) && Unescape([b] + w) == [b] + Unescape(w)
  {
  }

  lemma {:induction false} PlainPrefix(x: Bytes, w: Bytes)
    requires forall b :: b in x ==> IsPlain(b)
    requires IsAssertion(x + w)
    ensures IsAssertion(w) && Unescape(x + w) == x + Unescape(w)
  {
    if x == [] {
      assert x + w == w;
    } else {
      Regroup([x[0]], x[1..], w);
      assert x == [x[0]] + x[1..];
      PlainInFront(x[0], x[1..] + w);
      PlainPrefix(x[1..], w);
      Regroup([x[0]], x[1..], Unescape(w));
    }
  }

  lemma PlaceholderIsPlain(text: Bytes)
    requires IsAssertion(text) && PLACEHOLDER <= text
    ensures IsAssertion(text[|PLACEHOLDER|..])
    ensures Unescape(text) == PLACEHOLDER + Unescape(text[|PLACEHOLDER|..])
  {
    assert text == PLACEHOLDER + text[|PLACEHOLDER|..];
    PlainPrefix(PLACEHOLDER, text[|PLACEHOLDER|..]);
  }

  /** The bytes an assertion stands for when every placeholder stands for `identifier`. */
  function Fill(text: Bytes, identifier: Bytes): Bytes
    requires IsAssertion(text)
    decreases |text|
  {
    if text == [] then []
    else if PLACEHOLDER <= text then
      PlaceholderIsPlain(text);
      identifier + Fill(text[|PLACEHOLDER|..], identifier)
    else [UnitByte(text)] + Fill(text[UnitLength(text)..], identifier)
  }

  /** The filter a template stands for when every placeholder stands for `identifier`. */
  function Filled(t: Syntax, identifier: Bytes): Filter
    requires WellFormed(t)
  {
    match t
    case LogicalSyntax(c, parts) => Logical(c, AllFilled(parts, identifier))
    case NotSyntax(part) => Not(Filled(part, identifier))
    case PresentSyntax(a) => Present(a)
    case EqualitySyntax(a, text) => Equality(a, Fill(text, identifier))
  }

  function AllFilled(ts: seq<Syntax>, identifier: Bytes): seq<Filter>
    requires AllWellFormed(ts)
  {
    if ts == [] then [] else [Filled(ts[0], identifier)] + AllFilled(ts[1..], identifier)
  }

  function Substituted(t: Syntax, identifier: Bytes): Syntax {
    match t
    case LogicalSyntax(c, parts) => LogicalSyntax(c, AllSubstituted(parts, identifier))
    case NotSyntax(part) => NotSyntax(Substituted(part, identifier))
    case PresentSyntax(a) => t
    case EqualitySyntax(a, text) => EqualitySyntax(a, Substitute(text, identifier))
  }

  function AllSubstituted(ts: seq<Syntax>, identifier: Bytes): (us: seq<Syntax>)
    ensures |us| == |ts|
  {
    if ts == [] then [] else [Substituted(ts[0], identifier)] + AllSubstituted(ts[1..], identifier)
  }

  /** What cannot start a placeholder is copied. */
  lemma HeadIsCopied(b: byte, x: Bytes, tail: Bytes, identifier: Bytes)
    requires PLACEHOLDER[0] !in x && !(PLACEHOLDER <= [b] + (x + tail))
    ensures Substitute([b] + (x + tail), identifier) == [b] + (x + Substitute(tail, identifier))
  {
    assert ([b] + (x + tail))[1..] == x + tail;
    ReplaceSkips(x, tail, PLACEHOLDER, Escape(identifier));
  }

  lemma UnitIsCopied(text: Bytes, identifier: Bytes)
    requires IsAssertion(text) && text != [] && !(PLACEHOLDER <= text)
    ensures var n := UnitLength(text);
            Substitute(text, identifier) == text[..n] + Substitute(text[n..], identifier)
  {
    var n := UnitLength(text);
    var x := text[1..n];
    assert text == [text[0]] + (x + text[n..]) && text[..n] == [text[0]] + x;
    HeadIsCopied(text[0], x, text[n..], identifier);
    Regroup([text[0]], x, Substitute(text[n..], identifier));
  }

  /** Substitution in assertion text: still assertion text, and it stands for the filled bytes. */
  lemma {:induction false} SubstituteText(text: Bytes, identifier: Bytes)
    requires IsAssertion(text)
    ensures IsAssertion(Substitute(text, identifier))
    ensures Unescape(Substitute(text, identifier)) == Fill(text, identifier)
    decreases |text|
  {
    if text == [] {
    } else if PLACEHOLDER <= text {
      PlaceholderIsPlain(text);
      var tail := text[|PLACEHOLDER|..];
      SubstituteText(tail, identifier);
      EscapeIsRead(identifier, Substitute(tail, identifier));
    } else {
      var n := UnitLength(text);
      SubstituteText(text[n..], identifier);
      UnitIsCopied(text, identifier);
      UnitIsLocal(text, Substitute(text[n..], identifier));
    }
  }

  lemma {:induction false} SubstituteTree(t: Syntax, identifier: Bytes)
    requires WellFormed(t)
    ensures var u := Substituted(t, identifier);
            WellFormed(u) && Depth(u) == Depth(t) && Meaning(u) == Filled(t, identifier)
    decreases t
  {
    match t
    case LogicalSyntax(c, parts) => SubstituteTrees(parts, identifier);
    case NotSyntax(part) => SubstituteTree(part, identifier);
    case PresentSyntax(a) =>
    case EqualitySyntax(a, text) => SubstituteText(text, identifier);
  }

  lemma {:induction false} SubstituteTrees(ts: seq<Syntax>, identifier: Bytes)
    requires AllWellFormed(ts)
    ensures var us := AllSubstituted(ts, identifier);
            AllWellFormed(us) && MaxDepth(us) == MaxDepth(ts) && Meanings(us) == AllFilled(ts, identifier)
    decreases ts
  {
    if ts != [] {
      SubstituteTree(ts[0], identifier);
      SubstituteTrees(ts[1..], identifier);
    }
  }

  lemma SubstituteAround(x: Bytes, w: Bytes, y: Bytes, identifier: Bytes)
    requires PLACEHOLDER[0] !in x && y != [] && y[0] !in PLACEHOLDER && PLACEHOLDER[0] !in y
    ensures Substitute(x + w + y, identifier) == x + Substitute(w, identifier) + y
  {
    assert x + w + y == x + (w + y);
    ReplaceSkips(x, w + y, PLACEHOLDER, Escape(identifier));
    ReplaceStops(w, y, PLACEHOLDER, Escape(identifier));
    ReplaceSkips(y, [], PLACEHOLDER, Escape(identifier));
    assert y + [] == y;
  }

  /** Substitution acts on the text of a tree by acting on its assertions alone. */
  lemma {:induction false} SubstituteRendering(t: Syntax, identifier: Bytes)
    requires WellFormed(t)
    ensures Substitute(Render(t), identifier) == Render(Substituted(t, identifier))
    decreases t
  {
    match t
    case LogicalSyntax(c, parts) =>
      SubstituteRenderings(parts, identifier);
      SubstituteAround([OPEN, ConnectiveByte(c)], RenderAll(parts), [CLOSE], identifier);
    case NotSyntax(part) =>
      SubstituteRendering(part, identifier);
      SubstituteAround([OPEN, BANG], Render(part), [CLOSE], identifier);
    case PresentSyntax(a) =>
      ReplaceSkips(Render(t), [], PLACEHOLDER, Escape(identifier));
      assert Render(t) + [] == Render(t);
    case EqualitySyntax(a, text) =>
      SubstituteAround([OPEN] + a + [EQUALS], text, [CLOSE], identifier);
  }

  lemma {:induction false} SubstituteRenderings(ts: seq<Syntax>, identifier: Bytes)
    requires AllWellFormed(ts)
    ensures Substitute(RenderAll(ts), identifier) == RenderAll(AllSubstituted(ts, identifier))
    decreases ts
  {
    if ts != [] {
      SubstituteRendering(ts[0], identifier);
      SubstituteRenderings(ts[1..], identifier);
      var others := RenderAll(ts[1..]);
      if ts[1..] == [] {
        assert others == [];
      } else {
        RenderOpens(ts[1]);
      }
      ReplaceStops(Render(ts[0]), others, PLACEHOLDER, Escape(identifier));
    }
  }

  /** Filling in the placeholder itself gives what the template says as it stands. */
  lemma {:induction false} FillWithPlaceholder(text: Bytes)
    requires IsAssertion(text)
    ensures Fill(text, PLACEHOLDER) == Unescape(text)
    decreases |text|
  {
    if text == [] {
    } else if PLACEHOLDER <= text {
      PlaceholderIsPlain(text);
      FillWithPlaceholder(text[|PLACEHOLDER|..]);
    } else {
      FillWithPlaceholder(text[UnitLength(text)..]);
    }
  }

  /** Same connectives, attributes, presence tests and branching; only assertion values may differ. */
  predicate SameSkeleton(f: Filter, g: Filter) {
    match f
    case Logical(c, children) => g.Logical? && g.connective == c && AllSameSkeleton(children, g.children)
    case Not(child) => g.Not? && SameSkeleton(child, g.child)
    case Present(a) => g == f
    case Equality(a, _) => g.Equality? && g.attribute == a
  }

  predicate AllSameSkeleton(fs: seq<Filter>, gs: seq<Filter>) {
    |fs| == |gs| && (fs == [] || (SameSkeleton(fs[0], gs[0]) && AllSameSkeleton(fs[1..], gs[1..])))
  }

  lemma {:induction false} FilledKeepsSkeleton(t: Syntax, identifier: Bytes)
    requires WellFormed(t)
    ensures SameSkeleton(Meaning(t), Filled(t, identifier))
    decreases t
  {
    match t
    case LogicalSyntax(c, parts) => AllFilledKeepSkeleton(parts, identifier);
    case NotSyntax(part) => FilledKeepsSkeleton(part, identifier);
    case PresentSyntax(a) =>
    case EqualitySyntax(a, text) =>
  }

  lemma {:induction false} AllFilledKeepSkeleton(ts: seq<Syntax>, identifier: Bytes)
    requires AllWellFormed(ts)
    ensures AllSameSkeleton(Meanings(ts), AllFilled(ts, identifier))
    decreases ts
  {
    if ts != [] {
      FilledKeepsSkeleton(ts[0], identifier);
      AllFilledKeepSkeleton(ts[1..], identifier);
    }
  }

  /** An identifier lands in a template as data: whatever its bytes, the substituted template
      parses to the template's own filter with the identifier in the places of the placeholders. */
  lemma IdentifierIsData(template: Bytes, identifier: Bytes)
    requires ParseWhole(template).Ok?
    ensures var t := ParseWhole(template).value;
            && ParseToFilter(Substitute(template, identifier)) == Ok(Filled(t, identifier))
            && SameSkeleton(ParseToFilter(template).value, Filled(t, identifier))
  {
    var t := ParseWhole(template).value;
    ParsesExactlyTheGrammar(template, t);
    SubstituteRendering(t, identifier);
    SubstituteTree(t, identifier);
    ParsesExactlyTheGrammar(Substitute(template, identifier), Substituted(t, identifier));
    FilledKeepsSkeleton(t, identifier);
  }

  lemma {:induction false} NothingToEscape(v: Bytes)
    requires forall b :: b in v ==> !MustEscape(b)
    ensures Escape(v) == v
  {
    if v != [] {
      NothingToEscape(v[1..]);
      assert v == [v[0]] + v[1..];
    }
  }

  lemma EscapePlaceholder()
    ensures Escape(PLACEHOLDER) == PLACEHOLDER
  {
    NothingToEscape(PLACEHOLDER);
  }

  /** A template is accepted for every identifier exactly when it parses by itself.
      (A placeholder in attribute position, say, parses for some identifiers only.) */
  lemma TemplateSafeIffItParses(template: Bytes)
    ensures ParseWhole(template).Ok? <==> forall identifier :: ParseWhole(Substitute(template, identifier)).Ok?
  {
    if ParseWhole(template).Ok? {
      forall identifier
        ensures ParseWhole(Substitute(template, identifier)).Ok?
      {
        IdentifierIsData(template, identifier);
      }
    } else {
      EscapePlaceholder();
      ReplaceUnchanged(template, PLACEHOLDER, PLACEHOLDER);
      assert Substitute(template, PLACEHOLDER) == template;
    }
  }

  /** `authenticate` takes an unchanged text for a missing placeholder. That is right for every
      identifier but one: the text of the placeholder itself. */
  lemma UnchangedTextMeansNoPlaceholder(template: Bytes, identifier: Bytes)
    ensures Substitute(template, identifier) == template
       <==> !Occurs(template, PLACEHOLDER) || identifier == PLACEHOLDER
  {
    ReplaceUnchanged(template, PLACEHOLDER, Escape(identifier));
    EscapePlaceholder();
    EscapeRoundTrip(identifier);
    EscapeRoundTrip(PLACEHOLDER);
  }
}
