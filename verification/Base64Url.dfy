/** The URL-safe base64 alphabet without padding (section 5 of RFC 4648), decoded strictly. */
module Base64Url {
  import opened Text

  type sextet = n: int | 0 <= n < 64

  function Symbol(n: sextet): char {
    if n < 26 then (65 + n) as char
    else if n < 52 then (97 + n - 26) as char
    else if n < 62 then (48 + n - 52) as char
    else if n == 62 then '-'
    else '_'
  }

  function SymbolValue(c: char): Option<sextet> {
    if 'A' <= c <= 'Z' then Some(c as int - 65)
    else if 'a' <= c <= 'z' then Some(c as int - 97 + 26)
    else if '0' <= c <= '9' then Some(c as int - 48 + 52)
    else if c == '-' then Some(62)
    else if c == '_' then Some(63)
    else None
  }

  /** Cutting three bytes into four six-bit values, and putting them together again. */
  lemma CutBytes(a: byte, b: byte, c: byte)
    ensures var v, w, x, y := a / 4, a % 4 * 16 + b / 16, b % 16 * 4 + c / 64, c % 64;
            && v < 64 && w < 64 && x < 64 && y < 64
            && v * 4 + w / 16 == a && w % 16 * 16 + x / 4 == b && x % 4 * 64 + y == c
            && (b == 0 ==> w % 16 == 0) && (c == 0 ==> x % 4 == 0)
  {
  }

  lemma JoinSextets(v: sextet, w: sextet, x: sextet, y: sextet)
    ensures var a, b, c := v * 4 + w / 16, w % 16 * 16 + x / 4, x % 4 * 64 + y;
            && a < 256 && b < 256 && c < 256
            && a / 4 == v && a % 4 * 16 + b / 16 == w && b % 16 * 4 + c / 64 == x && c % 64 == y
            && (w % 16 == 0 ==> a % 4 * 16 == w) && (x % 4 == 0 ==> b % 16 * 4 == x)
  {
  }

  /** One to three bytes cut into six-bit values, the last padded with zero bits. */
  function Sextets(b: Bytes): seq<sextet>
    requires 1 <= |b| <= 3
  {
    var a, c, d := b[0], if |b| > 1 then b[1] else 0, if |b| > 2 then b[2] else 0;
    CutBytes(a, c, d);
    [a / 4, a % 4 * 16 + c / 16, c % 16 * 4 + d / 64, d % 64][..|b| + 1]
  }

  /** Two to four six-bit values joined into bytes; bits beyond the last whole byte must be zero. */
  function Octets(v: seq<sextet>): Option<Bytes>
    requires 2 <= |v| <= 4
  {
    var p: int, q: int := v[0], v[1];
    var x: int, y: int := if |v| > 2 then v[2] else 0, if |v| > 3 then v[3] else 0;
    JoinSextets(p, q, x, y);
    var all: Bytes := [p * 4 + q / 16, q % 16 * 16 + x / 4, x % 4 * 64 + y];
    if (|v| == 2 && q % 16 != 0) || (|v| == 3 && x % 4 != 0) then None else Some(all[..|v| - 1])
  }

  function Symbols(v: seq<sextet>): (s: string)
    ensures |s| == |v|
  {
    if v == [] then "" else [Symbol(v[0])] + Symbols(v[1..])
  }

  function Values(s: string): (v: Option<seq<sextet>>)
    ensures v.Some? ==> |v.value| == |s|
  {
    if s == "" then Some([])
    else
      var first, others := SymbolValue(s[0]), Values(s[1..]);
      if first.None? || others.None? then None else Some([first.value] + others.value)
  }

  function Group(b: Bytes): string
    requires 1 <= |b| <= 3
  {
    Symbols(Sextets(b))
  }

  function Ungroup(s: string): Option<Bytes>
    requires 2 <= |s| <= 4
  {
    var v := Values(s);
    if v.None? then None else Octets(v.value)
  }

  function Encode(b: Bytes): string
    decreases |b|
  {
    if b == [] then ""
    else if |b| <= 3 then Group(b)
    else Group(b[..3]) + Encode(b[3..])
  }

  function Decode(s: string): Option<Bytes>
    decreases |s|
  {
    if s == "" then Some([])
    else if |s| == 1 then None
    else if |s| <= 4 then Ungroup(s)
    else
      var head, tail := Ungroup(s[..4]), Decode(s[4..]);
      if head.None? || tail.None? then None else Some(head.value + tail.value)
  }

  lemma {:induction false} ValuesOfSymbols(v: seq<sextet>)
    ensures Values(Symbols(v)) == Some(v) && '.' !in Symbols(v)
  {
    if v != [] {
      ValuesOfSymbols(v[1..]);
      assert v == [v[0]] + v[1..];
    }
  }

  lemma {:induction false} SymbolsOfValues(s: string)
    requires Values(s).Some?
    ensures Symbols(Values(s).value) == s
  {
    if s != "" {
      SymbolsOfValues(s[1..]);
      assert s == [s[0]] + s[1..];
    }
  }

  lemma OctetsOfSextets(b: Bytes)
    requires 1 <= |b| <= 3
    ensures Octets(Sextets(b)) == Some(b)
  {
    CutBytes(b[0], if |b| > 1 then b[1] else 0, if |b| > 2 then b[2] else 0);
    var octets := Octets(Sextets(b));
    assert octets.Some?;
    assert octets.value == b;
  }

  lemma SextetsOfOctets(v: seq<sextet>)
    requires 2 <= |v| <= 4 && Octets(v).Some?
    ensures |Octets(v).value| == |v| - 1 && Sextets(Octets(v).value) == v
  {
    JoinSextets(v[0], v[1], if |v| > 2 then v[2] else 0, if |v| > 3 then v[3] else 0);
  }

  lemma GroupRoundTrip(b: Bytes)
    requires 1 <= |b| <= 3
    ensures Ungroup(Group(b)) == Some(b) && '.' !in Group(b)
  {
    ValuesOfSymbols(Sextets(b));
    OctetsOfSextets(b);
  }

  lemma UngroupRoundTrip(s: string)
    requires 2 <= |s| <= 4 && Ungroup(s).Some?
    ensures |Ungroup(s).value| == |s| - 1 && Group(Ungroup(s).value) == s
  {
    SymbolsOfValues(s);
    SextetsOfOctets(Values(s).value);
  }

  lemma EncodeNonEmpty(b: Bytes)
    requires b != []
    ensures |Encode(b)| >= 2
  {
  }

  lemma {:induction false} DecodeEncode(b: Bytes)
    ensures Decode(Encode(b)) == Some(b) && '.' !in Encode(b)
    decreases |b|
  {
    if b == [] {
    } else if |b| <= 3 {
      GroupRoundTrip(b);
    } else {
      var head, tail := Group(b[..3]), Encode(b[3..]);
      GroupRoundTrip(b[..3]);
      DecodeEncode(b[3..]);
      EncodeNonEmpty(b[3..]);
      assert (head + tail)[..4] == head && (head + tail)[4..] == tail;
      assert b[..3] + b[3..] == b;
    }
  }

  lemma {:induction false} EncodeDecode(s: string)
    requires Decode(s).Some?
    ensures Encode(Decode(s).value) == s
    decreases |s|
  {
    if s == "" {
    } else if |s| <= 4 {
      UngroupRoundTrip(s);
    } else {
      var head, tail := Ungroup(s[..4]).value, Decode(s[4..]).value;
      UngroupRoundTrip(s[..4]);
      EncodeDecode(s[4..]);
      assert (head + tail)[..3] == head && (head + tail)[3..] == tail;
      assert tail != [];
      assert s[..4] + s[4..] == s;
    }
  }

  /** A text decodes to some bytes exactly when it is their encoding: the code is one to one. */
  lemma DecodesExactly(s: string, b: Bytes)
    ensures Decode(s) == Some(b) <==> s == Encode(b)
  {
    DecodeEncode(b);
    if Decode(s) == Some(b) {
      EncodeDecode(s);
    }
  }

  lemma {:induction false} EncodedLength(b: Bytes)
    ensures |Encode(b)| == (4 * |b| + 2) / 3
    decreases |b|
  {
    if |b| > 3 {
      EncodedLength(b[3..]);
    }
  }

  lemma {:induction false} SymbolsAreAscii(v: seq<sextet>)
    ensures forall i :: 0 <= i < |v| ==> Symbols(v)[i] < '\U{80}'
  {
    if v != [] {
      SymbolsAreAscii(v[1..]);
    }
  }

  lemma {:induction false} EncodedIsAscii(b: Bytes)
    ensures forall i :: 0 <= i < |Encode(b)| ==> Encode(b)[i] < '\U{80}'
    decreases |b|
  {
    if b == [] {
    } else if |b| <= 3 {
      SymbolsAreAscii(Sextets(b));
    } else {
      SymbolsAreAscii(Sextets(b[..3]));
      EncodedIsAscii(b[3..]);
    }
  }
}
