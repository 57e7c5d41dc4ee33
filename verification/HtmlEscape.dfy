/** HTML escaping by five successive replacements of the whole text. */
module HtmlEscape {
  import opened Text

  /** The two escapers differ in how they write an apostrophe. */
  datatype Escaper = Presentation | Utility

  function Apostrophe(e: Escaper): string {
    if e.Presentation? then "&#39;" else "&#x27;"
  }

  function EscapeHtml(e: Escaper, input: string): string {
    var s1 := Replace(input, "&", "&amp;");
    var s2 := Replace(s1, "<", "&lt;");
    var s3 := Replace(s2, ">", "&gt;");
    var s4 := Replace(s3, "\"", "&quot;");
    Replace(s4, "'", Apostrophe(e))
  }

  /** What becomes of one character. */
  function Entity(e: Escaper, c: char): string {
    if c == '&' then "&amp;"
    else if c == '<' then "&lt;"
    else if c == '>' then "&gt;"
    else if c == '"' then "&quot;"
    else if c == '\'' then Apostrophe(e)
    else [c]
  }

  function EscapeEach(e: Escaper, input: string): string {
    if input == "" then "" else Entity(e, input[0]) + EscapeEach(e, input[1..])
  }

  /** Reads the entities back, an apostrophe by its number in decimal or hexadecimal; anything else stands for
      itself. */
  function Unescape(s: string): string
    decreases |s|
  {
    if s == "" then ""
    else if "&amp;" <= s then "&" + Unescape(s[5..])
    else if "&lt;" <= s then "<" + Unescape(s[4..])
    else if "&gt;" <= s then ">" + Unescape(s[4..])
    else if "&quot;" <= s then "\"" + Unescape(s[6..])
    else if "&#39;" <= s then "'" + Unescape(s[5..])
    else if "&#x27;" <= s then "'" + Unescape(s[6..])
    else [s[0]] + Unescape(s[1..])
  }

  lemma ReplaceOne(c: char, s: string, d: char, into: string)
    ensures Replace([c] + s, [d], into) == (if c == d then into else [c]) + Replace(s, [d], into)
  {
    assert ([c] + s)[1..] == s;
    if c == d {
      assert [d] <= [c] + s;
    } else {
      assert !([d] <= [c] + s) by {
        assert ([c] + s)[0] == c;
      }
    }
  }

  /** An entity without the replaced character passes through. */
  lemma ReplaceAfter(entity: string, s: string, d: char, into: string)
    requires d !in entity
    ensures Replace(entity + s, [d], into) == entity + Replace(s, [d], into)
  {
    ReplaceSkips(entity, s, [d], into);
  }

  /** The replacements after the first three, character by character in front of `s`. */
  function LastTwo(e: Escaper, s: string): string {
    Replace(Replace(s, "\"", "&quot;"), "'", Apostrophe(e))
  }

  function LastFour(e: Escaper, s: string): string {
    LastTwo(e, Replace(Replace(s, "<", "&lt;"), ">", "&gt;"))
  }

  lemma LastTwoSkips(e: Escaper, x: string, s: string)
    requires '"' !in x && '\'' !in x
    ensures LastTwo(e, x + s) == x + LastTwo(e, s)
  {
    ReplaceAfter(x, s, '"', "&quot;");
    ReplaceAfter(x, Replace(s, "\"", "&quot;"), '\'', Apostrophe(e));
  }

  lemma LastFourSkips(e: Escaper, x: string, s: string)
    requires '<' !in x && '>' !in x && '"' !in x && '\'' !in x
    ensures LastFour(e, x + s) == x + LastFour(e, s)
  {
    ReplaceAfter(x, s, '<', "&lt;");
    ReplaceAfter(x, Replace(s, "<", "&lt;"), '>', "&gt;");
    LastTwoSkips(e, x, Replace(Replace(s, "<", "&lt;"), ">", "&gt;"));
  }

  lemma LastTwoStep(e: Escaper, c: char, s: string)
    requires c == '"' || c == '\''
    ensures LastTwo(e, [c] + s) == Entity(e, c) + LastTwo(e, s)
  {
    ReplaceOne(c, s, '"', "&quot;");
    if c == '"' {
      ReplaceAfter("&quot;", Replace(s, "\"", "&quot;"), '\'', Apostrophe(e));
    } else {
      ReplaceOne(c, Replace(s, "\"", "&quot;"), '\'', Apostrophe(e));
    }
  }

  lemma LastFourStep(e: Escaper, c: char, s: string)
    requires c != '&'
    ensures LastFour(e, [c] + s) == Entity(e, c) + LastFour(e, s)
  {
    var lt := Replace(s, "<", "&lt;");
    if c == '<' {
      ReplaceOne(c, s, '<', "&lt;");
      ReplaceAfter("&lt;", lt, '>', "&gt;");
      LastTwoSkips(e, "&lt;", Replace(lt, ">", "&gt;"));
    } else if c == '>' {
      ReplaceOne(c, s, '<', "&lt;");
      ReplaceOne(c, lt, '>', "&gt;");
      LastTwoSkips(e, "&gt;", Replace(lt, ">", "&gt;"));
    } else if c == '"' || c == '\'' {
      ReplaceAfter([c], s, '<', "&lt;");
      ReplaceAfter([c], lt, '>', "&gt;");
      LastTwoStep(e, c, Replace(lt, ">", "&gt;"));
    } else {
      LastFourSkips(e, [c], s);
    }
  }

  /** The five passes together replace each character once, by its own entity: no pass touches
      what an earlier one wrote. */
  lemma {:induction false} PassesAreOneMap(e: Escaper, input: string)
    ensures EscapeHtml(e, input) == EscapeEach(e, input)
  {
    if input != "" {
      var c, s := input[0], input[1..];
      PassesAreOneMap(e, s);
      var amp := Replace(s, "&", "&amp;");
      ReplaceOne(c, s, '&', "&amp;");
      assert input == [c] + s;
      assert EscapeHtml(e, s) == LastFour(e, amp);
      if c == '&' {
        LastFourSkips(e, "&amp;", amp);
      } else {
        LastFourStep(e, c, amp);
      }
    }
  }

  lemma UnescapePlain(c: char, s: string)
    requires c != '&'
    ensures Unescape([c] + s) == [c] + Unescape(s)
  {
  }

  lemma UnescapeSpecial(e: Escaper, c: char, entity: string, t: string)
    requires entity == Entity(e, c) && entity <= t && entity[0] == '&'
    ensures Unescape(t) == [c] + Unescape(t[|entity|..])
  {
    assert t[1] == entity[1];
    if c == '\'' {
      assert t[2] == entity[2] && t[3] == entity[3];
    }
  }

  lemma UnescapeEntity(e: Escaper, c: char, s: string)
    ensures Unescape(Entity(e, c) + s) == [c] + Unescape(s)
  {
    if Entity(e, c) == [c] {
      UnescapePlain(c, s);
    } else {
      UnescapeSpecial(e, c, Entity(e, c), Entity(e, c) + s);
    }
  }

  lemma {:induction false} UnescapeUndoes(e: Escaper, input: string)
    ensures Unescape(EscapeEach(e, input)) == input
  {
    if input != "" {
      UnescapeUndoes(e, input[1..]);
      UnescapeEntity(e, input[0], EscapeEach(e, input[1..]));
      assert input == [input[0]] + input[1..];
    }
  }

  predicate NoRaw(s: string) {
    '<' !in s && '>' !in s && '"' !in s && '\'' !in s
  }

  lemma EntityNotRaw(e: Escaper, c: char)
    ensures NoRaw(Entity(e, c))
  {
  }

  lemma {:induction false} NothingRaw(e: Escaper, input: string)
    ensures NoRaw(EscapeEach(e, input))
  {
    if input != "" {
      NothingRaw(e, input[1..]);
      EntityNotRaw(e, input[0]);
    }
  }

  /** Escaped text has none of the four raw characters, and reading the entities back gives the input. */
  lemma EscapedIsSafeAndFaithful(e: Escaper, input: string)
    ensures var out := EscapeHtml(e, input);
            NoRaw(out) && Unescape(out) == input
  {
    PassesAreOneMap(e, input);
    NothingRaw(e, input);
    UnescapeUndoes(e, input);
  }

  /** Different texts stay different. */
  lemma EscapeInjective(e: Escaper, a: string, b: string)
    requires EscapeHtml(e, a) == EscapeHtml(e, b)
    ensures a == b
  {
    EscapedIsSafeAndFaithful(e, a);
    EscapedIsSafeAndFaithful(e, b);
  }
}
