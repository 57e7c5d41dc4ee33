/** Bytes, and the string operations of the standard library the sources lean on. */
module Text {

  type byte = b: int | 0 <= b < 256

  type Bytes = seq<byte>

  datatype Option<+T> = None | Some(value: T)

  datatype Result<+T, +E> = Ok(value: T) | Err(error: E)

  /** `str::replace`: leftmost occurrences first, never overlapping. */
  function Replace<T(==)>(s: seq<T>, pattern: seq<T>, replacement: seq<T>): seq<T>
    requires pattern != []
    decreases |s|
  {
    if s == [] then []
    else if pattern <= s then replacement + Replace(s[|pattern|..], pattern, replacement)
    else [s[0]] + Replace(s[1..], pattern, replacement)
  }

  /** Whether `pattern` starts anywhere in `s`. */
  predicate Occurs<T(==)>(s: seq<T>, pattern: seq<T>)
    decreases |s|
  {
    pattern <= s || (s != [] && Occurs(s[1..], pattern))
  }

  /** A stretch that cannot start an occurrence is copied. */
  lemma {:induction false} ReplaceSkips<T>(x: seq<T>, y: seq<T>, pattern: seq<T>, replacement: seq<T>)
    requires pattern != [] && pattern[0] !in x
    ensures Replace(x + y, pattern, replacement) == x + Replace(y, pattern, replacement)
  {
    if x == [] {
      assert x + y == y;
    } else {
      assert (x + y)[0] == x[0] && (x + y)[1..] == x[1..] + y;
      ReplaceSkips(x[1..], y, pattern, replacement);
    }
  }

  /** No occurrence reaches across an element that is foreign to the pattern. */
  lemma {:induction false} ReplaceStops<T>(w: seq<T>, y: seq<T>, pattern: seq<T>, replacement: seq<T>)
    requires pattern != [] && (y == [] || y[0] !in pattern)
    ensures Replace(w + y, pattern, replacement)
         == Replace(w, pattern, replacement) + Replace(y, pattern, replacement)
    decreases |w|
  {
    if w == [] {
      assert w + y == y;
    } else if pattern <= w {
      assert pattern <= w + y && (w + y)[|pattern|..] == w[|pattern|..] + y;
      ReplaceStops(w[|pattern|..], y, pattern, replacement);
    } else {
      assert |pattern| <= |w| ==> (w + y)[..|pattern|] == w[..|pattern|];
      assert y != [] ==> (w + y)[|w|] == y[0] && y[0] !in pattern;
      assert !(pattern <= w + y);
      assert (w + y)[0] == w[0] && (w + y)[1..] == w[1..] + y;
      ReplaceStops(w[1..], y, pattern, replacement);
    }
  }

  /** Text without an occurrence is unchanged. */
  lemma {:induction false} ReplaceAbsent<T>(s: seq<T>, pattern: seq<T>, replacement: seq<T>)
    requires pattern != [] && !Occurs(s, pattern)
    ensures Replace(s, pattern, replacement) == s
  {
    if s != [] {
      ReplaceAbsent(s[1..], pattern, replacement);
    }
  }

  /** How much longer each occurrence makes the result: the result has the old length
      only when nothing occurs or the two texts are equally long. */
  lemma {:induction false} ReplaceLength<T>(s: seq<T>, pattern: seq<T>, replacement: seq<T>)
    requires pattern != []
    ensures |replacement| >= |pattern| ==> |Replace(s, pattern, replacement)| >= |s|
    ensures |replacement| <= |pattern| ==> |Replace(s, pattern, replacement)| <= |s|
    ensures |replacement| > |pattern| && Occurs(s, pattern) ==> |Replace(s, pattern, replacement)| > |s|
    ensures |replacement| < |pattern| && Occurs(s, pattern) ==> |Replace(s, pattern, replacement)| < |s|
    decreases |s|
  {
    if s == [] {
    } else if pattern <= s {
      ReplaceLength(s[|pattern|..], pattern, replacement);
    } else {
      ReplaceLength(s[1..], pattern, replacement);
    }
  }

  /** Replacement is invisible exactly when nothing occurs or the pattern replaces itself. */
  lemma {:induction false} ReplaceUnchanged<T>(s: seq<T>, pattern: seq<T>, replacement: seq<T>)
    requires pattern != []
    ensures Replace(s, pattern, replacement) == s <==> !Occurs(s, pattern) || replacement == pattern
    decreases |s|
  {
    if !Occurs(s, pattern) {
      ReplaceAbsent(s, pattern, replacement);
    } else if pattern <= s {
      var tail := s[|pattern|..];
      assert s == pattern + tail;
      ReplaceLength(s, pattern, replacement);
      ReplaceUnchanged(tail, pattern, replacement);
      if |replacement| == |pattern| {
        assert (replacement + Replace(tail, pattern, replacement))[..|pattern|] == replacement;
        assert s[..|pattern|] == pattern;
      }
    } else {
      ReplaceUnchanged(s[1..], pattern, replacement);
      assert Replace(s, pattern, replacement)[1..] == Replace(s[1..], pattern, replacement);
      assert s == [s[0]] + s[1..];
    }
  }

  /** `str::split` on one separator: always at least one part. */
  function Split<T(==)>(s: seq<T>, separator: T): (parts: seq<seq<T>>)
    ensures parts != []
    ensures forall i :: 0 <= i < |parts| ==> separator !in parts[i]
  {
    if s == [] then [[]]
    else
      var tail := Split(s[1..], separator);
      if s[0] == separator then [[]] + tail
      else [[s[0]] + tail[0]] + tail[1..]
  }

  /** Splitting undoes joining with a separator no part contains. */
  lemma {:induction false} SplitFirst<T>(part: seq<T>, separator: T, rest: seq<T>)
    requires separator !in part
    ensures Split(part + [separator] + rest, separator) == [part] + Split(rest, separator)
  {
    var s := part + [separator] + rest;
    if part == [] {
      assert s[1..] == rest;
    } else {
      SplitFirst(part[1..], separator, rest);
      assert s[1..] == part[1..] + [separator] + rest;
      assert part == [part[0]] + part[1..];
    }
  }

  lemma {:induction false} SplitOne<T>(part: seq<T>, separator: T)
    requires separator !in part
    ensures Split(part, separator) == [part]
  {
    if part != [] {
      SplitOne(part[1..], separator);
      assert part == [part[0]] + part[1..];
    }
  }

  /** Length in bytes of UTF-8, which is what `len` counts. */
  function ByteLength(s: string): nat {
    if s == "" then 0
    else
      var n := s[0] as int;
      (if n < 0x80 then 1 else if n < 0x800 then 2 else if n < 0x10000 then 3 else 4) + ByteLength(s[1..])
  }

  /** The bytes of a character in UTF-8 (section 3 of RFC 3629). */
  function Utf8(c: char): Bytes {
    var n := c as int;
    if n < 0x80 then [n]
    else if n < 0x800 then [0xC0 + n / 64, 0x80 + n % 64]
    else if n < 0x10000 then [0xE0 + n / 4096, 0x80 + n / 64 % 64, 0x80 + n % 64]
    else [0xF0 + n / 262144, 0x80 + n / 4096 % 64, 0x80 + n / 64 % 64, 0x80 + n % 64]
  }

  function Utf8Text(s: string): Bytes {
    if s == "" then [] else Utf8(s[0]) + Utf8Text(s[1..])
  }

  lemma {:induction false} Utf8HasByteLength(s: string)
    ensures |Utf8Text(s)| == ByteLength(s)
  {
    if s != "" {
      Utf8HasByteLength(s[1..]);
    }
  }

  /** The number that one to four bytes of UTF-8 stand for. */
  function Decoded(u: Bytes): int
    requires 1 <= |u| <= 4
  {
    var a: int := u[0];
    var b: int, c: int, d: int :=
      if |u| > 1 then u[1] else 0, if |u| > 2 then u[2] else 0, if |u| > 3 then u[3] else 0;
    match |u|
    case 1 => a
    case 2 => (a - 0xC0) * 64 + (b - 0x80)
    case 3 => (a - 0xE0) * 4096 + (b - 0x80) * 64 + (c - 0x80)
    case _ => (a - 0xF0) * 262144 + (b - 0x80) * 4096 + (c - 0x80) * 64 + (d - 0x80)
  }

  lemma SixBits(n: nat)
    ensures n == n / 64 * 64 + n % 64
    ensures n == n / 4096 * 4096 + n / 64 % 64 * 64 + n % 64
    ensures n == n / 262144 * 262144 + n / 4096 % 64 * 4096 + n / 64 % 64 * 64 + n % 64
  {
    var q, r := n / 64, n / 4096;
    assert r == q / 64 && n / 262144 == r / 64;
  }

  /** The lead byte tells the number of bytes, and the bytes the character. */
  lemma Utf8IsRead(c: char)
    ensures var u := Utf8(c);
            && 1 <= |u| <= 4 && Decoded(u) == c as int
            && |u| == if u[0] < 0x80 then 1 else if u[0] < 0xE0 then 2 else if u[0] < 0xF0 then 3 else 4
  {
    SixBits(c as int);
  }

  predicate IsAscii(s: string) {
    forall i :: 0 <= i < |s| ==> s[i] < '\U{80}'
  }

  /** There are at least as many bytes as characters, and exactly as many in ASCII text only. */
  lemma {:induction false} BytesAndCharacters(s: string)
    ensures ByteLength(s) >= |s|
    ensures ByteLength(s) == |s| <==> IsAscii(s)
  {
    if s != "" {
      BytesAndCharacters(s[1..]);
      assert s == [s[0]] + s[1..];
      assert IsAscii(s) <==> s[0] < '\U{80}' && IsAscii(s[1..]);
    }
  }

  /** `str::split_once`: the text before the first separator and all the text after it. */
  function SplitOnce(s: string, separator: char): Option<(string, string)> {
    if s == "" then None
    else if s[0] == separator then Some(("", s[1..]))
    else
      var tail := SplitOnce(s[1..], separator);
      if tail.None? then None else Some(([s[0]] + tail.value.0, tail.value.1))
  }

  lemma {:induction false} SplitOnceExactly(s: string, separator: char, before: string, after: string)
    ensures SplitOnce(s, separator) == Some((before, after)) <==>
              separator !in before && s == before + [separator] + after
  {
    var joined := before + [separator] + after;
    if s == "" {
    } else if s[0] == separator {
      assert separator !in before && s == joined ==> before == "" && s[1..] == after;
      assert s == [separator] + s[1..];
    } else {
      var front := if before == "" then "" else before[1..];
      SplitOnceExactly(s[1..], separator, front, after);
      assert s == [s[0]] + s[1..];
      assert before == "" ==> joined[0] == separator;
      assert before != "" ==> before == [before[0]] + front && joined == [before[0]] + (front + [separator] + after);
    }
  }

  lemma Regroup<T>(a: seq<T>, b: seq<T>, c: seq<T>)
    ensures a + (b + c) == a + b + c
  {
  }
}
