/** What the parser makes of given texts, in the characters of the filter language themselves. */
module LdapFilterText {
  import opened Text
  import opened LdapFilter
  import opened LdapFilterGrammar
  import opened LdapTemplate

  /** The bytes of an ASCII text. */
  function Ascii(s: string): (bytes: Bytes)
    requires IsAscii(s)
    ensures |bytes| == |s|
    ensures forall i :: 0 <= i < |s| ==> bytes[i] == s[i] as int
  {
    seq(|s|, i requires 0 <= i < |s| => s[i] as int)
  }

  lemma Marks()
    ensures Ascii("(") == [OPEN] && Ascii(")") == [CLOSE] && Ascii("=") == [EQUALS]
    ensures Ascii("=*)") == [EQUALS, STAR, CLOSE]
    ensures Ascii("(&") == [OPEN, AMPERSAND] && Ascii("(|") == [OPEN, BAR] && Ascii("(!") == [OPEN, BANG]
  {
  }

  predicate IsLetterDigitOrMark(c: char) {
    'A' <= c <= 'Z' || 'a' <= c <= 'z' || '0' <= c <= '9' || c == '-' || c == '.' || c == ';'
  }

  predicate IsDescription(a: Bytes) {
    a != [] && forall i :: 0 <= i < |a| ==> IsLetterDigitOrMark(a[i] as char)
  }

  lemma DescriptionIsAttribute(a: Bytes)
    ensures IsDescription(a) <==> IsAttribute(a)
  {
  }

  // ----- Items -----

  lemma MeansPresence(t: Syntax, a: Bytes)
    requires WellFormed(t) && Meaning(t) == Present(a)
    ensures t == PresentSyntax(a)
  {
  }

  /** Presence of `a` is accepted for the texts of letters, digits, `-`, `.` and `;`, and no others. */
  lemma PresenceAcceptedExactly(a: Bytes)
    ensures ParseToFilter(Ascii("(") + a + Ascii("=*)")) == Ok(Present(a)) <==> IsDescription(a)
  {
    var s := Ascii("(") + a + Ascii("=*)");
    Marks();
    assert s == Render(PresentSyntax(a));
    DescriptionIsAttribute(a);
    ParsesExactlyTheGrammar(s, PresentSyntax(a));
    if ParseToFilter(s) == Ok(Present(a)) {
      MeansPresence(ParseWhole(s).value, a);
    }
  }

  lemma {:induction false} PlainText(v: Bytes)
    requires forall i :: 0 <= i < |v| ==> v[i] as char !in ")*\\"
    ensures IsAssertion(v) && Unescape(v) == v
  {
    if v != [] {
      PlainText(v[1..]);
      assert v[0] as char !in ")*\\";
      assert IsPlain(v[0]);
      assert v == [v[0]] + v[1..];
    }
  }

  lemma EqualityText(a: Bytes, text: Bytes)
    requires IsDescription(a) && IsAssertion(text)
    ensures ParseToFilter(Ascii("(") + a + Ascii("=") + text + Ascii(")")) == Ok(Equality(a, Unescape(text)))
  {
    var s := Ascii("(") + a + Ascii("=") + text + Ascii(")");
    Marks();
    assert s == Render(EqualitySyntax(a, text));
    DescriptionIsAttribute(a);
    ParsesExactlyTheGrammar(s, EqualitySyntax(a, text));
  }

  /** Every byte but `)`, `*` and the backslash stands for itself. */
  lemma PlainValueIsRead(a: Bytes, v: Bytes)
    requires IsDescription(a) && forall i :: 0 <= i < |v| ==> v[i] as char !in ")*\\"
    ensures ParseToFilter(Ascii("(") + a + Ascii("=") + v + Ascii(")")) == Ok(Equality(a, v))
  {
    PlainText(v);
    EqualityText(a, v);
  }

  const LOWER_DIGITS := "0123456789abcdef"
  const UPPER_DIGITS := "0123456789ABCDEF"

  /** Sixteen hexadecimal digits in order, each in either case. */
  predicate AreHexDigits(digits: string) {
    |digits| == 16 && forall i :: 0 <= i < 16 ==> digits[i] == LOWER_DIGITS[i] || digits[i] == UPPER_DIGITS[i]
  }

  function HexCode(digits: string, n: nat): (code: byte)
    requires AreHexDigits(digits) && n < 16
    ensures HexValue(code) == Some(n)
  {
    assert digits[n] == LOWER_DIGITS[n] || digits[n] == UPPER_DIGITS[n];
    digits[n] as int
  }

  /** Every byte written as a backslash and two of the given digits. */
  function HexText(v: Bytes, digits: string): Bytes
    requires AreHexDigits(digits)
  {
    if v == [] then []
    else ['\\' as int, HexCode(digits, v[0] / 16), HexCode(digits, v[0] % 16)] + HexText(v[1..], digits)
  }

  lemma EscapeInFront(escape: Bytes, w: Bytes)
    requires |escape| == 3 && StartsEscape(escape) && IsAssertion(w)
    ensures IsAssertion(escape + w) && Unescape(escape + w) == [EscapedByte(escape)] + Unescape(w)
  {
    assert (escape + w)[3..] == w;
  }

  lemma {:induction false} HexTextIsRead(v: Bytes, digits: string)
    requires AreHexDigits(digits)
    ensures IsAssertion(HexText(v, digits)) && Unescape(HexText(v, digits)) == v
  {
    if v != [] {
      HexTextIsRead(v[1..], digits);
      EscapeInFront(HexText(v, digits)[..3], HexText(v[1..], digits));
      assert v == [v[0]] + v[1..];
    }
  }

  /** Every byte can be written as an escape, its digits in upper or lower case alike. */
  lemma EscapesAreRead(a: Bytes, v: Bytes, digits: string)
    requires IsDescription(a) && AreHexDigits(digits)
    ensures ParseToFilter(Ascii("(") + a + Ascii("=") + HexText(v, digits) + Ascii(")")) == Ok(Equality(a, v))
  {
    HexTextIsRead(v, digits);
    EqualityText(a, HexText(v, digits));
  }

  predicate IsPrintable(c: char) {
    ' ' <= c <= '~'
  }

  lemma OneByteEscaped(b: byte)
    ensures EscapeByte(b) == if IsPrintable(b as char) && b as char !in "()*\\" then [b] else HexText([b], LOWER_DIGITS)
  {
    assert HexText([b][1..], LOWER_DIGITS) == [];
  }

  /** Escaping leaves printable ASCII as it is, but for parentheses, stars and backslashes; those and all other
      bytes it writes in lower-case hexadecimal. */
  lemma EscapeExactly(v: Bytes, b: byte)
    ensures Escape(v + [b])
         == Escape(v) + if IsPrintable(b as char) && b as char !in "()*\\" then [b] else HexText([b], LOWER_DIGITS)
  {
    EscapeAppends(v, b);
    OneByteEscaped(b);
  }

  lemma {:induction false} EscapedIsPrintable(v: Bytes)
    ensures forall i :: 0 <= i < |Escape(v)| ==> IsPrintable(Escape(v)[i] as char) && Escape(v)[i] as char !in "()*"
  {
    if v != [] {
      EscapedIsPrintable(v[1..]);
    }
  }

  lemma SubstituteBehind(front: Bytes, identifier: Bytes, after: Bytes)
    requires PLACEHOLDER[0] !in front && PLACEHOLDER[0] !in after
    ensures Substitute(front + PLACEHOLDER + after, identifier) == front + Escape(identifier) + after
  {
    var tail := PLACEHOLDER + after;
    assert front + PLACEHOLDER + after == front + tail && tail[|PLACEHOLDER|..] == after;
    ReplaceSkips(front, tail, PLACEHOLDER, Escape(identifier));
    ReplaceSkips(after, [], PLACEHOLDER, Escape(identifier));
    assert after + [] == after;
    Regroup(front, Escape(identifier), after);
  }

  /** The template `(a={identifier})` looks up exactly the identifier's bytes under `a`. */
  lemma PlaceholderIsFilled(a: Bytes, identifier: Bytes)
    requires IsDescription(a)
    ensures ParseToFilter(Substitute(Ascii("(") + a + Ascii("=") + Ascii("{identifier}") + Ascii(")"), identifier))
         == Ok(Equality(a, identifier))
  {
    var front, after := Ascii("(") + a + Ascii("="), Ascii(")");
    assert Ascii("{identifier}") == PLACEHOLDER;
    Marks();
    SubstituteBehind(front, identifier, after);
    EscapeRoundTrip(identifier);
    EqualityText(a, Escape(identifier));
  }

  // ----- Connectives -----

  function Concat(texts: seq<Bytes>): Bytes {
    if texts == [] then [] else texts[0] + Concat(texts[1..])
  }

  /** Each text parses to the filter beside it, nested at most `depth` deep. */
  predicate Parse(texts: seq<Bytes>, fs: seq<Filter>, depth: nat) {
    && |texts| == |fs|
    && forall i :: 0 <= i < |texts| ==> ParseToFilter(texts[i]) == Ok(fs[i]) && Nesting(fs[i]) <= depth
  }

  lemma {:induction false} TreesOf(texts: seq<Bytes>, fs: seq<Filter>, depth: nat) returns (ts: seq<Syntax>)
    requires Parse(texts, fs, depth)
    ensures |ts| == |texts| && AllWellFormed(ts) && Meanings(ts) == fs && MaxDepth(ts) <= depth
    ensures RenderAll(ts) == Concat(texts)
  {
    if texts == [] {
      ts := [];
    } else {
      var t := ParseWhole(texts[0]).value;
      ParsesExactlyTheGrammar(texts[0], t);
      MeaningIsWellShaped(t);
      var others := TreesOf(texts[1..], fs[1..], depth);
      ts := [t] + others;
      assert fs == [fs[0]] + fs[1..];
    }
  }

  lemma LogicalText(c: Connective, texts: seq<Bytes>, fs: seq<Filter>)
    requires Parse(texts, fs, 15) && 1 <= |texts| <= 32
    ensures ParseToFilter([OPEN, ConnectiveByte(c)] + Concat(texts) + [CLOSE]) == Ok(Logical(c, fs))
  {
    var ts := TreesOf(texts, fs, 15);
    var t := LogicalSyntax(c, ts);
    ParsesExactlyTheGrammar(Render(t), t);
  }

  /** `&` is a conjunction and `|` a disjunction of the filters behind it, in order. */
  lemma ConnectivesAreRead(texts: seq<Bytes>, fs: seq<Filter>)
    requires Parse(texts, fs, 15) && 1 <= |texts| <= 32
    ensures ParseToFilter(Ascii("(&") + Concat(texts) + Ascii(")")) == Ok(Logical(And, fs))
    ensures ParseToFilter(Ascii("(|") + Concat(texts) + Ascii(")")) == Ok(Logical(Or, fs))
  {
    Marks();
    LogicalText(And, texts, fs);
    LogicalText(Or, texts, fs);
  }

  lemma {:induction false} TooManyChildren(ts: seq<Syntax>, s: Bytes, depth: nat, room: nat)
    requires AllWellFormed(ts) && depth + MaxDepth(ts) <= MAX_DEPTH && |ts| > room
    ensures ParseChildren(RenderAll(ts) + s, depth, room) == Failed(TooManyBranches)
    decreases room
  {
    var all, others := RenderAll(ts) + s, RenderAll(ts[1..]) + s;
    assert ts == [ts[0]] + ts[1..];
    HeadRendered(ts[0], ts[1..], s);
    FilterAccepted(ts[0], others, depth);
    RenderOpens(ts[0]);
    assert all[0] == OPEN;
    if room > 0 {
      TooManyChildren(ts[1..], s, depth, room - 1);
    }
  }

  lemma OverfullInside(c: Connective, s: Bytes)
    requires ParseChildren(s, 1, MAX_BRANCHES) == Failed(TooManyBranches)
    ensures ParseInner([ConnectiveByte(c)] + s, 1) == Failed(TooManyBranches)
  {
    assert ([ConnectiveByte(c)] + s)[1..] == s;
  }

  lemma InsideFails(inside: Bytes, error: FilterError)
    requires ParseInner(inside, 1) == Failed(error)
    ensures ParseToFilter([OPEN] + inside) == Err(error)
  {
    assert ([OPEN] + inside)[1..] == inside;
  }

  lemma HeadApart(a: byte, b: byte, s: Bytes, t: Bytes)
    ensures [a, b] + s + t == [a] + ([b] + (s + t))
  {
  }

  lemma Overfull(c: Connective, texts: seq<Bytes>, fs: seq<Filter>)
    requires Parse(texts, fs, 15) && |texts| > 32
    ensures ParseToFilter([OPEN, ConnectiveByte(c)] + Concat(texts) + [CLOSE]) == Err(TooManyBranches)
  {
    var ts := TreesOf(texts, fs, 15);
    TooManyChildren(ts, [CLOSE], 1, MAX_BRANCHES);
    OverfullInside(c, Concat(texts) + [CLOSE]);
    InsideFails([ConnectiveByte(c)] + (Concat(texts) + [CLOSE]), TooManyBranches);
    HeadApart(OPEN, ConnectiveByte(c), Concat(texts), [CLOSE]);
  }

  /** A 33rd branch is too many. */
  lemma BranchesAreLimited(texts: seq<Bytes>, fs: seq<Filter>)
    requires Parse(texts, fs, 15) && |texts| > 32
    ensures ParseToFilter(Ascii("(&") + Concat(texts) + Ascii(")")) == Err(TooManyBranches)
    ensures ParseToFilter(Ascii("(|") + Concat(texts) + Ascii(")")) == Err(TooManyBranches)
  {
    Marks();
    Overfull(And, texts, fs);
    Overfull(Or, texts, fs);
  }

  /** `text` behind `k` negations. */
  function Negated(k: nat, text: Bytes): Bytes {
    if k == 0 then text else Ascii("(!") + Negated(k - 1, text) + Ascii(")")
  }

  function NegatedFilter(k: nat, f: Filter): Filter {
    if k == 0 then f else Not(NegatedFilter(k - 1, f))
  }

  lemma {:induction false} NegationsAreRendered(k: nat, t: Syntax) returns (u: Syntax)
    requires WellFormed(t)
    ensures WellFormed(u) && Render(u) == Negated(k, Render(t)) && Depth(u) == k + Depth(t)
    ensures Meaning(u) == NegatedFilter(k, Meaning(t))
  {
    if k == 0 {
      u := t;
    } else {
      var v := NegationsAreRendered(k - 1, t);
      u := NotSyntax(v);
      Marks();
    }
  }

  lemma {:induction false} NegationsTooDeep(k: nat, text: Bytes, s: Bytes, depth: nat)
    requires depth <= MAX_DEPTH <= depth + k
    ensures ParseFilter(Negated(k, text) + s, depth) == Failed(TooDeep)
  {
    if depth < MAX_DEPTH {
      var all := Negated(k, text) + s;
      var behind := Negated(k - 1, text) + ([CLOSE] + s);
      Marks();
      assert all[1..] == [BANG] + behind && all[1..][1..] == behind;
      NegationsTooDeep(k - 1, text, [CLOSE] + s, depth + 1);
    }
  }

  /** `!` negates the filter behind it, and a presence test may stand behind 15 of them but no more. */
  lemma NegationsAreRead(k: nat, a: Bytes)
    requires IsDescription(a)
    ensures ParseToFilter(Negated(k, Ascii("(") + a + Ascii("=*)")))
         == if k <= 15 then Ok(NegatedFilter(k, Present(a))) else Err(TooDeep)
  {
    var text := Ascii("(") + a + Ascii("=*)");
    if k <= 15 {
      PresenceAcceptedExactly(a);
      var t := ParseWhole(text).value;
      MeansPresence(t, a);
      ParsesExactlyTheGrammar(text, t);
      var u := NegationsAreRendered(k, t);
      ParsesExactlyTheGrammar(Render(u), u);
    } else {
      NegationsTooDeep(k, text, [], 0);
      assert Negated(k, text) + [] == Negated(k, text);
    }
  }

  // ----- Upper and lower case -----

  function InLowerCase(b: byte): byte {
    var c := b as char;
    if 'A' <= c <= 'Z' then b + 32 else b
  }

  /** The same text up to the case of its letters. */
  predicate Recased(s: Bytes, t: Bytes) {
    |s| == |t| && forall i :: 0 <= i < |s| ==> InLowerCase(s[i]) == InLowerCase(t[i])
  }

  predicate Alike<T>(p: Parsed<T>, q: Parsed<T>) {
    match p
    case Got(_, rest) => q.Got? && Recased(rest, q.rest)
    case Failed(error) => q == Failed(error)
  }

  lemma RecasedByte(b: byte, c: byte)
    requires InLowerCase(b) == InLowerCase(c)
    ensures IsAttributeByte(b) == IsAttributeByte(c)
    ensures HexValue(b) == HexValue(c)
    ensures b == c || (b !in Ascii("()*\\=&|!") && c !in Ascii("()*\\=&|!"))
  {
  }

  lemma RecasedFront(s: Bytes, t: Bytes, n: nat)
    requires Recased(s, t) && n <= |s|
    ensures Recased(s[n..], t[n..])
    ensures s != [] ==> InLowerCase(s[0]) == InLowerCase(t[0])
  {
  }

  lemma {:induction false} RecasedAttribute(s: Bytes, t: Bytes)
    requires Recased(s, t)
    ensures AttributeLength(s) == AttributeLength(t)
  {
    if s != [] {
      RecasedFront(s, t, 1);
      RecasedByte(s[0], t[0]);
      RecasedAttribute(s[1..], t[1..]);
    }
  }

  lemma RecasedUnit(s: Bytes, t: Bytes)
    requires Recased(s, t)
    ensures UnitLength(s) == UnitLength(t)
  {
    if s != [] {
      RecasedByte(s[0], t[0]);
      if |s| >= 3 {
        RecasedByte(s[1], t[1]);
        RecasedByte(s[2], t[2]);
      }
    }
  }

  lemma {:induction false} RecasedAssertion(s: Bytes, t: Bytes)
    requires Recased(s, t)
    ensures Alike(ParseAssertion(s), ParseAssertion(t))
    decreases |s|
  {
    if s != [] {
      RecasedByte(s[0], t[0]);
      RecasedUnit(s, t);
      var n := UnitLength(s);
      RecasedFront(s, t, n);
      if n > 0 {
        RecasedAssertion(s[n..], t[n..]);
      }
    }
  }

  lemma RecasedTest(a: Bytes, b: Bytes, s: Bytes, t: Bytes)
    requires IsAttribute(a) && IsAttribute(b) && Recased(s, t)
    ensures Alike(ParseTest(a, s), ParseTest(b, t))
  {
    RecasedAssertion(s, t);
    if |s| >= 2 {
      RecasedByte(s[0], t[0]);
      RecasedByte(s[1], t[1]);
      RecasedFront(s, t, 1);
    }
  }

  lemma RecasedItem(s: Bytes, t: Bytes)
    requires Recased(s, t)
    ensures Alike(ParseItem(s), ParseItem(t))
  {
    RecasedAttribute(s, t);
    var n := AttributeLength(s);
    if 0 < n < |s| {
      RecasedByte(s[n], t[n]);
      RecasedFront(s, t, n + 1);
      RecasedTest(s[..n], t[..n], s[n + 1..], t[n + 1..]);
    }
  }

  lemma {:induction false} RecasedFilter(s: Bytes, t: Bytes, depth: nat)
    requires Recased(s, t)
    ensures Alike(ParseFilter(s, depth), ParseFilter(t, depth))
    decreases |s|, 0
  {
    if s != [] {
      RecasedByte(s[0], t[0]);
      RecasedFront(s, t, 1);
      RecasedInner(s[1..], t[1..], depth + 1);
      var inner, other := ParseInner(s[1..], depth + 1), ParseInner(t[1..], depth + 1);
      if inner.Got? && inner.rest != [] {
        RecasedByte(inner.rest[0], other.rest[0]);
        RecasedFront(inner.rest, other.rest, 1);
      }
    }
  }

  lemma {:induction false} RecasedInner(s: Bytes, t: Bytes, depth: nat)
    requires Recased(s, t)
    ensures Alike(ParseInner(s, depth), ParseInner(t, depth))
    decreases |s|, 2
  {
    if s == [] {
      RecasedItem(s, t);
    } else {
      RecasedByte(s[0], t[0]);
      RecasedFront(s, t, 1);
      if s[0] == AMPERSAND || s[0] == BAR {
        RecasedChildren(s[1..], t[1..], depth, MAX_BRANCHES);
      } else if s[0] == BANG {
        RecasedFilter(s[1..], t[1..], depth);
      } else {
        RecasedItem(s, t);
      }
    }
  }

  lemma {:induction false} RecasedChildren(s: Bytes, t: Bytes, depth: nat, room: nat)
    requires Recased(s, t)
    ensures var p, q := ParseChildren(s, depth, room), ParseChildren(t, depth, room);
            Alike(p, q) && (p.Got? ==> |p.value| == |q.value|)
    decreases |s|, 1
  {
    if s != [] {
      RecasedByte(s[0], t[0]);
      if s[0] == OPEN {
        RecasedFilter(s, t, depth);
        var child, other := ParseFilter(s, depth), ParseFilter(t, depth);
        if child.Got? && room > 0 {
          RecasedChildren(child.rest, other.rest, depth, room - 1);
        }
      }
    }
  }

  /** Changing the case of letters anywhere in a text changes neither acceptance nor the error. */
  lemma CaseNeverMatters(s: Bytes, t: Bytes)
    requires Recased(s, t)
    ensures match ParseToFilter(s)
            case Ok(_) => ParseToFilter(t).Ok?
            case Err(error) => ParseToFilter(t) == Err(error)
  {
    RecasedFilter(s, t, 0);
  }
}
