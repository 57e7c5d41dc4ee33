/** Reassembling LDAP messages from whatever pieces the transport delivers. */
module LdapStream {
  import opened Text
  import opened Ber

  const MAX_LDAP_MESSAGE: nat := 4 * 1024 * 1024
  const CHUNK: nat := 8192
  const MAX_I32: int := 0x7fff_ffff

  datatype LdapError =
    | MalformedBer
    | MessageLimit
    | Closed
    | TransportFailed
    | TimedOut
    | NotASequence
    | NotConstructed
    | IncompleteMessage
    | MalformedInteger

  datatype Message = Message(id: int, operation: Tag, controls: seq<Tag>)

  /** What one read of the transport yields: bytes (none when the peer has closed), or a failure. */
  datatype Arrival = Data(bytes: Bytes) | Fault

  /** `parse_uint`: big-endian, in 64 bits. */
  function ParseUint(content: Bytes): nat {
    BigEndian(content) % 0x1_0000_0000_0000_0000
  }

  /** The cast `as i32`. */
  function ToI32(n: nat): int {
    var low := n % 0x1_0000_0000;
    if low > MAX_I32 then low - 0x1_0000_0000 else low
  }

  function ParseLdapMessage(tag: Tag): Result<Message, LdapError> {
    if tag.class_ != Universal || tag.id != 16 then Err(NotASequence)
    else if tag.Primitive? then Err(NotConstructed)
    else if |tag.children| < 2 then Err(IncompleteMessage)
    else if tag.children[0].Constructed? then Err(MalformedInteger)
    else Ok(Message(ToI32(ParseUint(tag.children[0].content)), tag.children[1], tag.children[2..]))
  }

  predicate Fits(arrivals: seq<Arrival>) {
    forall i :: 0 <= i < |arrivals| && arrivals[i].Data? ==> |arrivals[i].bytes| <= CHUNK
  }

  /** What is left after one call: the buffer and what the transport has yet to deliver. */
  datatype Received = Received(result: Result<Tag, LdapError>, incoming: Bytes, arrivals: seq<Arrival>)

  function Receive(incoming: Bytes, arrivals: seq<Arrival>): Received
    decreases |arrivals|
  {
    match ParseTag(incoming)
    case Complete(tag, rest) => Received(Ok(tag), rest, arrivals)
    case Malformed => Received(Err(MalformedBer), incoming, arrivals)
    case Incomplete =>
      if |incoming| >= MAX_LDAP_MESSAGE then Received(Err(MessageLimit), incoming, arrivals)
      else if arrivals == [] then Received(Err(TimedOut), incoming, [])
      else
        match arrivals[0]
        case Fault => Received(Err(TransportFailed), incoming, arrivals[1..])
        case Data(bytes) =>
          if bytes == [] then Received(Err(Closed), incoming, arrivals[1..])
          else Receive(incoming + bytes, arrivals[1..])
  }

  /** The result of a call: the tag it received, read as a message. */
  function AsMessage(received: Result<Tag, LdapError>): Result<Message, LdapError> {
    match received
    case Ok(tag) => ParseLdapMessage(tag)
    case Err(e) => Err(e)
  }

  /** The message number after `id`. */
  function NextId(id: int): int {
    if id >= MAX_I32 then MAX_I32 else if id + 1 < 1 then 1 else id + 1
  }

  lemma ParseTagRest(s: Bytes)
    requires ParseTag(s).Complete?
    ensures var rest := ParseTag(s).rest;
            |rest| <= |s| && rest == s[|s| - |rest|..]
  {
  }

  class LdapConnection {
    var incoming: Bytes
    var nextMessageId: int
    var arrivals: seq<Arrival>

    ghost predicate Valid()
      reads this
    {
      |incoming| < MAX_LDAP_MESSAGE + CHUNK && 1 <= nextMessageId <= MAX_I32 && Fits(arrivals)
    }

    constructor (transport: seq<Arrival>)
      requires Fits(transport)
      ensures Valid() && incoming == [] && nextMessageId == 1 && arrivals == transport
    {
      incoming := [];
      nextMessageId := 1;
      arrivals := transport;
    }

    /** `saturating_add(1).max(1)`. */
    method MessageId() returns (id: int)
      requires Valid()
      modifies this`nextMessageId
      ensures Valid()
      ensures id == old(nextMessageId) && nextMessageId == NextId(id)
    {
      id := nextMessageId;
      var added := if nextMessageId == MAX_I32 then MAX_I32 else nextMessageId + 1;
      nextMessageId := if added < 1 then 1 else added;
    }

    method TimedRead() returns (r: Result<Bytes, LdapError>)
      requires Valid()
      modifies this`arrivals
      ensures Valid()
      ensures r.Ok? ==> |r.value| <= CHUNK
      ensures if old(arrivals) == [] then r == Err(TimedOut) && arrivals == []
              else if old(arrivals)[0].Fault? then r == Err(TransportFailed) && arrivals == old(arrivals)[1..]
              else r == Ok(old(arrivals)[0].bytes) && arrivals == old(arrivals)[1..]
    {
      if arrivals == [] {
        return Err(TimedOut);
      }
      var next := arrivals[0];
      arrivals := arrivals[1..];
      match next
      case Data(bytes) => r := Ok(bytes);
      case Fault => r := Err(TransportFailed);
    }

    /** Reads until the buffer starts with a tag, and takes that tag off it. `Valid` bounds the
        buffer by the message limit plus one chunk at every turn of the loop. */
    method ReadMessage() returns (r: Result<Message, LdapError>)
      requires Valid()
      modifies this`incoming, this`arrivals
      ensures Valid()
      ensures var spec := Receive(old(incoming), old(arrivals));
              && incoming == spec.incoming && arrivals == spec.arrivals
              && r == AsMessage(spec.result)
    {
      while true
        invariant Valid()
        invariant Receive(incoming, arrivals) == Receive(old(incoming), old(arrivals))
        decreases |arrivals|
      {
        match ParseTag(incoming) {
          case Complete(tag, remaining) =>
            var consumed := |incoming| - |remaining|;
            ParseTagRest(incoming);
            incoming := incoming[consumed..];
            return ParseLdapMessage(tag);
          case Malformed =>
            return Err(MalformedBer);
          case Incomplete =>
        }
        if |incoming| >= MAX_LDAP_MESSAGE {
          return Err(MessageLimit);
        }
        var chunk := TimedRead();
        if chunk.Err? {
          return Err(chunk.error);
        }
        if chunk.value == [] {
          return Err(Closed);
        }
        incoming := incoming + chunk.value;
      }
    }
  }

  // ----- Delivery -----

  function Flat(arrivals: seq<Arrival>): Bytes {
    if arrivals == [] then []
    else (if arrivals[0].Data? then arrivals[0].bytes else []) + Flat(arrivals[1..])
  }

  /** Every read brings at least one byte. */
  predicate Flowing(arrivals: seq<Arrival>) {
    forall i :: 0 <= i < |arrivals| ==> arrivals[i].Data? && arrivals[i].bytes != []
  }

  /** Some amount of buffered data on the way, `n` at first, lies in `lo..hi`. */
  predicate Pauses(n: nat, arrivals: seq<Arrival>, lo: nat, hi: nat)
    decreases |arrivals|
  {
    lo <= n < hi
    || (arrivals != [] && arrivals[0].Data? && Pauses(n + |arrivals[0].bytes|, arrivals[1..], lo, hi))
  }

  lemma {:induction false} NoPauseBeyond(n: nat, arrivals: seq<Arrival>, lo: nat, hi: nat)
    requires n >= hi
    ensures !Pauses(n, arrivals, lo, hi)
    decreases |arrivals|
  {
    if arrivals != [] && arrivals[0].Data? {
      NoPauseBeyond(n + |arrivals[0].bytes|, arrivals[1..], lo, hi);
    }
  }

  /** The whole frame is in the buffer. */
  lemma FrameIsHere(frame: Bytes, tail: Bytes, incoming: Bytes, later: Bytes)
    requires IsFrame(frame) && incoming + later == frame + tail && |frame| <= |incoming|
    ensures incoming == frame + incoming[|frame|..] && incoming[|frame|..] + later == tail
    ensures ParseTag(incoming) == Complete(FrameTag(frame), incoming[|frame|..])
  {
    var n, y := |frame|, incoming[|frame|..];
    assert incoming[..n] == (incoming + later)[..n] == (frame + tail)[..n] == frame;
    assert incoming == frame + y;
    assert y + later == (incoming + later)[n..] == (frame + tail)[n..] == tail;
    FrameThenMore(frame, y);
  }

  /** Only a part of the frame is in the buffer. */
  lemma FrameIsCut(frame: Bytes, tail: Bytes, incoming: Bytes, later: Bytes)
    requires IsFrame(frame) && incoming + later == frame + tail && |incoming| < |frame|
    ensures ParseTag(incoming) == Incomplete && later != []
  {
    var whole := incoming + later;
    assert incoming == whole[..|incoming|] == frame[..|incoming|];
    FrameCutShort(frame, |incoming|);
  }

  /** A frame at the front of the stream is delivered exactly when the buffer never pauses at or above
      the limit while the frame is unfinished; what follows it stays in the stream. */
  lemma {:induction false} FrameDelivered(frame: Bytes, tail: Bytes, incoming: Bytes, arrivals: seq<Arrival>)
    requires IsFrame(frame) && Flowing(arrivals) && incoming + Flat(arrivals) == frame + tail
    ensures var r := Receive(incoming, arrivals);
            if Pauses(|incoming|, arrivals, MAX_LDAP_MESSAGE, |frame|) then r.result == Err(MessageLimit)
            else
              && r.result == Ok(FrameTag(frame))
              && r.incoming + Flat(r.arrivals) == tail
              && Flowing(r.arrivals)
    decreases |arrivals|
  {
    if |frame| <= |incoming| {
      FrameIsHere(frame, tail, incoming, Flat(arrivals));
      NoPauseBeyond(|incoming|, arrivals, MAX_LDAP_MESSAGE, |frame|);
    } else {
      FrameIsCut(frame, tail, incoming, Flat(arrivals));
      if |incoming| < MAX_LDAP_MESSAGE {
        Regroup(incoming, arrivals[0].bytes, Flat(arrivals[1..]));
        FrameDelivered(frame, tail, incoming + arrivals[0].bytes, arrivals[1..]);
      }
    }
  }

  /** A frame that outgrows the limit by a whole chunk is refused however it is cut up. */
  lemma {:induction false} OversizedAlwaysPauses(n: nat, arrivals: seq<Arrival>, hi: nat)
    requires Fits(arrivals) && Flowing(arrivals)
    requires n < MAX_LDAP_MESSAGE && MAX_LDAP_MESSAGE + CHUNK <= hi <= n + |Flat(arrivals)|
    ensures Pauses(n, arrivals, MAX_LDAP_MESSAGE, hi)
    decreases |arrivals|
  {
    var m := n + |arrivals[0].bytes|;
    if m < MAX_LDAP_MESSAGE {
      OversizedAlwaysPauses(m, arrivals[1..], hi);
    } else {
      assert Pauses(m, arrivals[1..], MAX_LDAP_MESSAGE, hi);
    }
  }

  lemma {:induction false} NeverPauses(n: nat, arrivals: seq<Arrival>, hi: nat)
    requires hi <= MAX_LDAP_MESSAGE
    ensures !Pauses(n, arrivals, MAX_LDAP_MESSAGE, hi)
    decreases |arrivals|
  {
    if arrivals != [] && arrivals[0].Data? {
      NeverPauses(n + |arrivals[0].bytes|, arrivals[1..], hi);
    }
  }

  /** How a call ends when the reads stop before the message is complete: a read without bytes means that the
      peer has closed, a failed one is reported, and with no read at all the call times out. What had come stays. */
  lemma {:induction false} UnfinishedEnds(frame: Bytes, incoming: Bytes, came: seq<Arrival>, more: seq<Arrival>)
    requires IsFrame(frame) && |frame| <= 4_194_304 && Flowing(came)
    requires incoming + Flat(came) < frame
    ensures Receive(incoming, came + [Data([])] + more) == Received(Err(Closed), incoming + Flat(came), more)
    ensures Receive(incoming, came + [Fault] + more) == Received(Err(TransportFailed), incoming + Flat(came), more)
    ensures Receive(incoming, came) == Received(Err(TimedOut), incoming + Flat(came), [])
    decreases |came|
  {
    assert incoming == frame[..|incoming|];
    FrameCutShort(frame, |incoming|);
    if came == [] {
      assert incoming + [] == incoming;
      assert ([] + [Data([])] + more)[1..] == more && ([] + [Fault] + more)[1..] == more;
    } else {
      Regroup(incoming, came[0].bytes, Flat(came[1..]));
      UnfinishedEnds(frame, incoming + came[0].bytes, came[1..], more);
      assert (came + [Data([])] + more)[1..] == came[1..] + [Data([])] + more;
      assert (came + [Fault] + more)[1..] == came[1..] + [Fault] + more;
    }
  }

  // ----- The band of sizes in which the cut matters -----

  /** Reads that bring exactly `frame`, each of them some bytes and no more than a chunk. */
  predicate CutOf(arrivals: seq<Arrival>, frame: Bytes) {
    Fits(arrivals) && Flowing(arrivals) && Flat(arrivals) == frame
  }

  predicate Refuses(arrivals: seq<Arrival>) {
    Receive([], arrivals).result == Err(MessageLimit)
  }

  function Singles(s: Bytes): seq<Arrival> {
    if s == [] then [] else [Data([s[0]])] + Singles(s[1..])
  }

  lemma ReadFirst(x: Bytes, arrivals: seq<Arrival>, frame: Bytes)
    requires 1 <= |x| <= CHUNK && CutOf(arrivals, frame)
    ensures CutOf([Data(x)] + arrivals, x + frame)
  {
    assert ([Data(x)] + arrivals)[1..] == arrivals;
  }

  lemma {:induction false} SinglesThen(s: Bytes, last: seq<Arrival>, after: Bytes)
    requires CutOf(last, after)
    ensures CutOf(Singles(s) + last, s + after)
  {
    if s == [] {
      assert Singles(s) + last == last && s + after == after;
    } else {
      SinglesThen(s[1..], last, after);
      ReadFirst([s[0]], Singles(s[1..]) + last, s[1..] + after);
      Regroup([Data([s[0]])], Singles(s[1..]), last);
      Regroup([s[0]], s[1..], after);
      assert s == [s[0]] + s[1..];
    }
  }

  lemma {:induction false} SinglesPause(n: nat, s: Bytes, lo: nat, hi: nat)
    requires n <= lo < hi && lo <= n + |s|
    ensures Pauses(n, Singles(s), lo, hi)
    decreases |s|
  {
    if n < lo {
      SinglesPause(n + 1, s[1..], lo, hi);
    }
  }

  lemma {:induction false} SinglesThenJump(n: nat, s: Bytes, last: Bytes, lo: nat, hi: nat)
    requires n + |s| < lo && hi <= n + |s| + |last|
    ensures !Pauses(n, Singles(s) + [Data(last)], lo, hi)
    decreases |s|
  {
    if s != [] {
      SinglesThenJump(n + 1, s[1..], last, lo, hi);
      assert (Singles(s) + [Data(last)])[1..] == Singles(s[1..]) + [Data(last)];
    }
  }

  lemma RefusedByteByByte(frame: Bytes)
    requires IsFrame(frame) && MAX_LDAP_MESSAGE < |frame|
    ensures CutOf(Singles(frame), frame) && Refuses(Singles(frame))
  {
    SinglesThen(frame, [], []);
    assert Singles(frame) + [] == Singles(frame) && frame + [] == frame;
    SinglesPause(0, frame, MAX_LDAP_MESSAGE, |frame|);
    FrameDelivered(frame, [], [], Singles(frame));
  }

  lemma DeliveredInOneLeap(frame: Bytes, front: Bytes, last: Bytes)
    requires IsFrame(frame) && frame == front + last && |front| < MAX_LDAP_MESSAGE && 1 <= |last| <= CHUNK
    ensures var arrivals := Singles(front) + [Data(last)];
            CutOf(arrivals, frame) && Receive([], arrivals).result == Ok(FrameTag(frame))
  {
    var arrivals := Singles(front) + [Data(last)];
    ReadFirst(last, [], []);
    assert [Data(last)] + [] == [Data(last)] && last + [] == last;
    SinglesThen(front, [Data(last)], last);
    SinglesThenJump(0, front, last, MAX_LDAP_MESSAGE, |frame|);
    assert frame + [] == frame;
    FrameDelivered(frame, [], [], arrivals);
  }

  /** A message a little above the limit is refused when its bytes come one by one, and delivered when the
      buffer stops just below the limit and the rest comes at once. */
  lemma BothOutcomes(frame: Bytes) returns (refused: seq<Arrival>, delivered: seq<Arrival>)
    requires IsFrame(frame) && MAX_LDAP_MESSAGE < |frame| < MAX_LDAP_MESSAGE + CHUNK
    ensures CutOf(refused, frame) && Refuses(refused)
    ensures CutOf(delivered, frame) && Receive([], delivered).result == Ok(FrameTag(frame))
  {
    var front, last := frame[..MAX_LDAP_MESSAGE - 1], frame[MAX_LDAP_MESSAGE - 1..];
    RefusedByteByByte(frame);
    DeliveredInOneLeap(frame, front, last);
    refused, delivered := Singles(frame), Singles(front) + [Data(last)];
  }

  /** How the transport cuts a message decides its fate exactly when it is above the limit by less than a chunk. */
  lemma CutMattersExactly(frame: Bytes)
    requires IsFrame(frame)
    ensures (exists a, b :: CutOf(a, frame) && CutOf(b, frame) && Refuses(a) && !Refuses(b))
       <==> 4_194_304 < |frame| < 4_194_304 + 8192
  {
    if MAX_LDAP_MESSAGE < |frame| < MAX_LDAP_MESSAGE + CHUNK {
      var a, b := BothOutcomes(frame);
      assert Refuses(a) && !Refuses(b);
    } else {
      forall a | CutOf(a, frame)
        ensures Refuses(a) <==> |frame| > MAX_LDAP_MESSAGE
      {
        assert [] + Flat(a) == frame + [];
        FrameDelivered(frame, [], [], a);
        if |frame| > MAX_LDAP_MESSAGE {
          OversizedAlwaysPauses(0, a, |frame|);
        } else {
          NeverPauses(0, a, |frame|);
        }
      }
    }
  }

  /** Successive calls: their results, and what is left when they are done. */
  function ReceiveMany(count: nat, incoming: Bytes, arrivals: seq<Arrival>):
    (seq<Result<Tag, LdapError>>, Bytes, seq<Arrival>)
  {
    if count == 0 then ([], incoming, arrivals)
    else
      var first := Receive(incoming, arrivals);
      var others := ReceiveMany(count - 1, first.incoming, first.arrivals);
      ([first.result] + others.0, others.1, others.2)
  }

  function Concat(frames: seq<Bytes>): Bytes {
    if frames == [] then [] else frames[0] + Concat(frames[1..])
  }

  function Tags(frames: seq<Bytes>): seq<Result<Tag, LdapError>>
    requires forall i :: 0 <= i < |frames| ==> IsFrame(frames[i])
  {
    if frames == [] then [] else [Ok(FrameTag(frames[0]))] + Tags(frames[1..])
  }

  /** However the bytes of a run of messages within the limit are cut into reads, the calls return exactly
      those messages in order and leave exactly the bytes that follow. */
  lemma {:induction false} StreamDelivered(frames: seq<Bytes>, tail: Bytes, incoming: Bytes, arrivals: seq<Arrival>)
    requires forall i :: 0 <= i < |frames| ==> IsFrame(frames[i]) && |frames[i]| <= MAX_LDAP_MESSAGE
    requires Flowing(arrivals) && incoming + Flat(arrivals) == Concat(frames) + tail
    ensures var r := ReceiveMany(|frames|, incoming, arrivals);
            r.0 == Tags(frames) && r.1 + Flat(r.2) == tail
    decreases |frames|
  {
    if frames != [] {
      var after := Concat(frames[1..]) + tail;
      Regroup(frames[0], Concat(frames[1..]), tail);
      FrameDelivered(frames[0], after, incoming, arrivals);
      NeverPauses(|incoming|, arrivals, |frames[0]|);
      var first := Receive(incoming, arrivals);
      StreamDelivered(frames[1..], tail, first.incoming, first.arrivals);
    }
  }

  // ----- Messages -----

  /** The content of a non-negative integer: as few bytes as leave the sign bit clear. */
  function IdContent(id: nat): Bytes {
    if id < 0x80 then [id] else IdContent(id / 256) + [id % 256]
  }

  lemma BigEndianAppends(front: Bytes, last: byte)
    ensures BigEndian(front + [last]) == BigEndian(front) * 256 + last
  {
    assert (front + [last])[..|front|] == front;
  }

  lemma {:induction false} IdContentReads(id: nat)
    ensures BigEndian(IdContent(id)) == id
  {
    if id < 0x80 {
      BigEndianAppends([], id);
      assert [] + [id] == [id];
    } else {
      IdContentReads(id / 256);
      BigEndianAppends(IdContent(id / 256), id % 256);
    }
  }

  predicate ValidId(m: Message) {
    0 <= m.id <= MAX_I32
  }

  function MessageTag(m: Message): Tag
    requires ValidId(m)
  {
    Constructed(Universal, 16, [Primitive(Universal, 2, IdContent(m.id)), m.operation] + m.controls)
  }

  /** A message comes back as its number, operation and controls. */
  lemma MessageComesBack(m: Message)
    requires ValidId(m)
    ensures ParseLdapMessage(MessageTag(m)) == Ok(m)
  {
    IdContentReads(m.id);
    assert ToI32(ParseUint(IdContent(m.id))) == m.id;
    assert MessageTag(m).children[2..] == m.controls;
  }

  lemma CastWraps(n: nat)
    ensures var id := ToI32(n % 0x1_0000_0000_0000_0000);
            -2147483648 <= id <= 2147483647 && (id - n) % 4294967296 == 0
  {
    var low := n % 0x1_0000_0000_0000_0000;
    var k := n / 0x1_0000_0000_0000_0000;
    assert low - n == 4294967296 * (-k * 4294967296);
    var id := ToI32(low);
    assert id - low == 4294967296 * (-(low / 4294967296)) || id - low == 4294967296 * (-(low / 4294967296) - 1);
  }

  /** A tag is a message exactly when it is a universal sequence of a primitive number, an operation and controls;
      the number is then its integer modulo 2^32 as a signed 32-bit value, whatever its length. */
  lemma MessagesExactly(tag: Tag)
    ensures var r := ParseLdapMessage(tag);
            && (r.Ok? <==>
                  && tag.Constructed? && tag.class_ == Universal && tag.id == 16
                  && |tag.children| >= 2 && tag.children[0].Primitive?)
            && (r.Ok? ==>
                  && tag.children == [tag.children[0], r.value.operation] + r.value.controls
                  && -2147483648 <= r.value.id <= 2147483647
                  && (r.value.id - BigEndian(tag.children[0].content)) % 4294967296 == 0)
  {
    if ParseLdapMessage(tag).Ok? {
      CastWraps(BigEndian(tag.children[0].content));
      assert tag.children == [tag.children[0], tag.children[1]] + tag.children[2..];
    }
  }

  /** The encodings of messages, one frame each. */
  function Encoded(ms: seq<Message>): seq<Bytes>
    requires forall i :: 0 <= i < |ms| ==> ValidId(ms[i]) && Encode(MessageTag(ms[i])).Some?
  {
    if ms == [] then [] else [Encode(MessageTag(ms[0])).value] + Encoded(ms[1..])
  }

  function AsMessages(received: seq<Result<Tag, LdapError>>): seq<Result<Message, LdapError>> {
    if received == [] then [] else [AsMessage(received[0])] + AsMessages(received[1..])
  }

  function AllOk(ms: seq<Message>): seq<Result<Message, LdapError>> {
    if ms == [] then [] else [Ok(ms[0])] + AllOk(ms[1..])
  }

  lemma {:induction false} EncodedAreFrames(ms: seq<Message>)
    requires forall i :: 0 <= i < |ms| ==> ValidId(ms[i]) && Encode(MessageTag(ms[i])).Some?
    ensures var frames := Encoded(ms);
            && |frames| == |ms|
            && (forall i :: 0 <= i < |ms| ==> frames[i] == Encode(MessageTag(ms[i])).value && IsFrame(frames[i]))
            && AsMessages(Tags(frames)) == AllOk(ms)
  {
    if ms != [] {
      EncodedAreFrames(ms[1..]);
      EncodingIsFrame(MessageTag(ms[0]));
      MessageComesBack(ms[0]);
      assert Encoded(ms)[1..] == Encoded(ms[1..]);
      assert AsMessages(Tags(Encoded(ms))) == [Ok(ms[0])] + AsMessages(Tags(Encoded(ms[1..])));
    }
  }

  /** However the bytes of a run of messages within the limit are cut into reads, successive calls return those
      messages, number, operation and controls, in order, and leave exactly the bytes that follow. */
  lemma MessagesDelivered(ms: seq<Message>, tail: Bytes, incoming: Bytes, arrivals: seq<Arrival>)
    requires forall i :: 0 <= i < |ms| ==>
               && ValidId(ms[i]) && Encode(MessageTag(ms[i])).Some?
               && |Encode(MessageTag(ms[i])).value| <= MAX_LDAP_MESSAGE
    requires Flowing(arrivals) && incoming + Flat(arrivals) == Concat(Encoded(ms)) + tail
    ensures var r := ReceiveMany(|ms|, incoming, arrivals);
            AsMessages(r.0) == AllOk(ms) && r.1 + Flat(r.2) == tail
  {
    EncodedAreFrames(ms);
    StreamDelivered(Encoded(ms), tail, incoming, arrivals);
  }

  // ----- Message numbers -----

  /** The number handed out by the call after `calls` earlier ones. */
  function IdAfter(calls: nat): int {
    if calls == 0 then 1 else NextId(IdAfter(calls - 1))
  }

  lemma {:induction false} IdIs(calls: nat)
    ensures IdAfter(calls) == if calls < 2147483647 then calls + 1 else 2147483647
  {
    if calls > 0 {
      IdIs(calls - 1);
    }
  }

  /** A connection's first `calls` message numbers are distinct exactly up to the largest 32-bit one. */
  lemma IdsDistinct(calls: nat)
    ensures (forall i, j :: 0 <= i < j < calls ==> IdAfter(i) != IdAfter(j)) <==> calls <= 2147483647
  {
    forall i | 0 <= i < calls {
      IdIs(i);
    }
    if calls > MAX_I32 {
      assert IdAfter(MAX_I32 - 1) == IdAfter(MAX_I32);
    }
  }
}
