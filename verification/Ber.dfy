/** Basic encoding rules as LDAP uses them (section 5.1 of RFC 4511): definite lengths, tag numbers below 31. */
module Ber {
  import opened Text

  datatype TagClass = Universal | Application | ContextSpecific | Private

  datatype Tag =
    | Primitive(class_: TagClass, id: nat, content: Bytes)
    | Constructed(class_: TagClass, id: nat, children: seq<Tag>)

  /** Outcome of looking for one tag at the front of a buffer. */
  datatype Decoded = Complete(tag: Tag, rest: Bytes) | Incomplete | Malformed

  /** The extent of a tag, read off its first bytes: identifier and length octets, then content. */
  datatype Extent = Span(header: nat, content: nat) | Cut | Unsupported

  function BigEndian(digits: Bytes): nat {
    if digits == [] then 0 else BigEndian(digits[..|digits| - 1]) * 256 + digits[|digits| - 1]
  }

  function ExtentOf(s: Bytes): (e: Extent)
    ensures e.Span? ==> 2 <= e.header <= |s|
  {
    if s == [] then Cut
    else if s[0] % 32 == 31 then Unsupported
    else if |s| == 1 then Cut
    else if s[1] < 128 then Span(2, s[1])
    else if s[1] == 128 then Unsupported
    else
      var k := s[1] - 128;
      if |s| < 2 + k then Cut else Span(2 + k, BigEndian(s[2..2 + k]))
  }

  function ClassOf(lead: byte): TagClass {
    if lead < 64 then Universal
    else if lead < 128 then Application
    else if lead < 192 then ContextSpecific
    else Private
  }

  function ParseTag(s: Bytes): (r: Decoded)
    ensures r.Complete? ==> |r.rest| < |s|
    decreases |s|, 0
  {
    match ExtentOf(s)
    case Cut => Incomplete
    case Unsupported => Malformed
    case Span(h, n) =>
      if |s| < h + n then Incomplete
      else
        var tag := Interpret(s[0], s[h..h + n]);
        if tag.None? then Malformed else Complete(tag.value, s[h + n..])
  }

  function Interpret(lead: byte, content: Bytes): Option<Tag>
    decreases |content|, 2
  {
    if lead / 32 % 2 == 0 then Some(Primitive(ClassOf(lead), lead % 32, content))
    else
      var children := ParseAll(content);
      if children.None? then None else Some(Constructed(ClassOf(lead), lead % 32, children.value))
  }

  /** The content of a constructed tag: tags end to end. */
  function ParseAll(s: Bytes): Option<seq<Tag>>
    decreases |s|, 1
  {
    if s == [] then Some([])
    else
      match ParseTag(s)
      case Complete(tag, rest) =>
        var others := ParseAll(rest);
        if others.None? then None else Some([tag] + others.value)
      case _ => None
  }

  /** A byte string that is exactly one tag. */
  predicate IsFrame(s: Bytes) {
    ParseTag(s).Complete? && ParseTag(s).rest == []
  }

  function FrameTag(s: Bytes): Tag
    requires IsFrame(s)
  {
    ParseTag(s).tag
  }

  // ----- Framing: more bytes never change a complete tag, fewer bytes never complete it -----

  lemma ExtentIsLocal(s: Bytes, u: Bytes)
    requires ExtentOf(s).Span?
    ensures var h := ExtentOf(s).header;
            && (h <= |u| && u[..h] == s[..h] ==> ExtentOf(u) == ExtentOf(s))
            && (|u| < h && u == s[..|u|] ==> ExtentOf(u) == Cut)
  {
  }

  /** Bytes that follow a frame are handed back untouched. */
  lemma FrameThenMore(s: Bytes, y: Bytes)
    requires IsFrame(s)
    ensures ParseTag(s + y) == Complete(FrameTag(s), y)
  {
    var e := ExtentOf(s);
    var total := e.header + e.content;
    assert s[total..] == [] && |s| == total;
    assert (s + y)[..e.header] == s[..e.header];
    ExtentIsLocal(s, s + y);
    assert (s + y)[e.header..total] == s[e.header..total];
    assert (s + y)[total..] == y;
  }

  /** A frame that has not wholly arrived reads as incomplete, never as malformed or shorter. */
  lemma FrameCutShort(s: Bytes, n: nat)
    requires IsFrame(s) && n < |s|
    ensures ParseTag(s[..n]) == Incomplete
  {
    var e := ExtentOf(s);
    assert s[e.header + e.content..] == [];
    if e.header <= n {
      assert s[..n][..e.header] == s[..e.header];
    }
    ExtentIsLocal(s, s[..n]);
  }

  /** High tag numbers and indefinite lengths are malformed, and a tag is one only within what has arrived. */
  lemma FormsExactly(s: Bytes)
    ensures ParseTag(s).Complete? ==>
              && |s| >= 2 && s[0] % 32 != 31 && s[1] != 0x80
              && (ParseTag(s).tag.Constructed? <==> s[0] / 32 % 2 == 1)
              && ParseTag(s).tag.id == s[0] % 32
              && (s[1] < 0x80 ==> |s| - |ParseTag(s).rest| == 2 + s[1])
  {
  }

  // ----- The encoder: minimal lengths, and its inverse -----

  function EncodeLength(n: nat): Bytes
    requires n < 0x1_0000_0000
  {
    if n < 128 then [n]
    else if n < 256 then [0x81, n]
    else if n < 65536 then [0x82, n / 256, n % 256]
    else if n < 16777216 then [0x83, n / 65536, n / 256 % 256, n % 256]
    else [0x84, n / 16777216, n / 65536 % 256, n / 256 % 256, n % 256]
  }

  function ClassBits(c: TagClass): byte {
    match c
    case Universal => 0
    case Application => 64
    case ContextSpecific => 128
    case Private => 192
  }

  function Encode(t: Tag): Option<Bytes> {
    if t.id >= 31 then None
    else
      match t
      case Primitive(c, id, content) =>
        if |content| >= 0x1_0000_0000 then None
        else Some([ClassBits(c) + id] + EncodeLength(|content|) + content)
      case Constructed(c, id, children) =>
        var content := EncodeAll(children);
        if content.None? || |content.value| >= 0x1_0000_0000 then None
        else Some([ClassBits(c) + 32 + id] + EncodeLength(|content.value|) + content.value)
  }

  function EncodeAll(ts: seq<Tag>): Option<Bytes> {
    if ts == [] then Some([])
    else
      var first, others := Encode(ts[0]), EncodeAll(ts[1..]);
      if first.None? || others.None? then None else Some(first.value + others.value)
  }

  lemma Quotients(a: nat, b: nat, c: nat, x: byte, y: byte, z: byte)
    requires a == b * 256 + y && b == c * 256 + z
    ensures (a * 256 + x) / 65536 == b && (a * 256 + x) / 16777216 == c
  {
    assert a * 256 + x == b * 65536 + (y * 256 + x);
    assert a * 256 + x == c * 16777216 + (z * 65536 + y * 256 + x);
  }

  lemma Base256(n: nat)
    ensures ((n / 16777216 * 256 + n / 65536 % 256) * 256 + n / 256 % 256) * 256 + n % 256 == n
  {
    var a := n / 256;
    var b := a / 256;
    Quotients(a, b, b / 256, n % 256, a % 256, b % 256);
  }

  lemma BigEndian2(a: byte, b: byte)
    ensures BigEndian([a, b]) == a * 256 + b
  {
    assert [a, b][..1] == [a];
    assert BigEndian([a]) == a by {
      assert [a][..0] == [];
    }
  }

  lemma BigEndian4(a: byte, b: byte, c: byte, d: byte)
    ensures BigEndian([a, b, c, d]) == ((a * 256 + b) * 256 + c) * 256 + d
  {
    BigEndian2(a, b);
    assert [a, b, c, d][..3] == [a, b, c];
    assert [a, b, c][..2] == [a, b];
  }

  lemma DigitsOf(n: nat)
    requires 128 <= n < 0x1_0000_0000
    ensures BigEndian(EncodeLength(n)[1..]) == n
  {
    var d := EncodeLength(n)[1..];
    if n < 256 {
      assert d == [n] && d[..0] == [];
    } else if n < 65536 {
      BigEndian2(d[0], d[1]);
      assert d == [d[0], d[1]];
    } else if n < 16777216 {
      BigEndian2(d[0], d[1]);
      assert d[..2] == [d[0], d[1]];
    } else {
      BigEndian4(d[0], d[1], d[2], d[3]);
      assert d == [d[0], d[1], d[2], d[3]];
      Base256(n);
    }
  }

  lemma ExtentOfEncoding(lead: byte, content: Bytes, y: Bytes)
    requires lead % 32 != 31 && |content| < 0x1_0000_0000
    ensures var length := EncodeLength(|content|);
            ExtentOf([lead] + length + content + y) == Span(1 + |length|, |content|)
  {
    var length := EncodeLength(|content|);
    var s := [lead] + length + content + y;
    assert s[1] == length[0];
    if |content| >= 128 {
      DigitsOf(|content|);
      assert s[2..1 + |length|] == length[1..];
    }
  }

  lemma LeadByte(c: TagClass, id: byte)
    requires id < 31
    ensures ClassOf(ClassBits(c) + id) == c && ClassOf(ClassBits(c) + 32 + id) == c
    ensures (ClassBits(c) + id) % 32 == id && (ClassBits(c) + 32 + id) % 32 == id
    ensures (ClassBits(c) + id) / 32 % 2 == 0 && (ClassBits(c) + 32 + id) / 32 % 2 == 1
  {
  }

  lemma FramedIsParsed(lead: byte, content: Bytes, y: Bytes, tag: Tag)
    requires lead % 32 != 31 && |content| < 0x1_0000_0000 && Interpret(lead, content) == Some(tag)
    ensures ParseTag([lead] + EncodeLength(|content|) + content + y) == Complete(tag, y)
  {
    ExtentOfEncoding(lead, content, y);
    var front := [lead] + EncodeLength(|content|);
    var s := front + content + y;
    assert s[|front|..|front| + |content|] == content;
    assert s[|front| + |content|..] == y;
  }

  /** Decoding undoes encoding, and leaves what follows alone. */
  lemma {:induction false} DecodeEncode(t: Tag, y: Bytes)
    requires Encode(t).Some?
    ensures ParseTag(Encode(t).value + y) == Complete(t, y)
    decreases t
  {
    LeadByte(t.class_, t.id);
    match t
    case Primitive(c, id, content) =>
      FramedIsParsed(ClassBits(c) + id, content, y, t);
    case Constructed(c, id, children) =>
      DecodeEncodeAll(children);
      FramedIsParsed(ClassBits(c) + 32 + id, EncodeAll(children).value, y, t);
  }

  lemma {:induction false} DecodeEncodeAll(ts: seq<Tag>)
    requires EncodeAll(ts).Some?
    ensures ParseAll(EncodeAll(ts).value) == Some(ts)
    decreases ts
  {
    if ts != [] {
      DecodeEncode(ts[0], EncodeAll(ts[1..]).value);
      DecodeEncodeAll(ts[1..]);
      assert ts == [ts[0]] + ts[1..];
      assert EncodeAll(ts).value != [] by {
        assert |Encode(ts[0]).value| > 0;
      }
    }
  }

  /** Every tag within the encoder's range has a frame. */
  lemma EncodingIsFrame(t: Tag)
    requires Encode(t).Some?
    ensures IsFrame(Encode(t).value) && FrameTag(Encode(t).value) == t
  {
    DecodeEncode(t, []);
    assert Encode(t).value + [] == Encode(t).value;
  }
}
