/** Several requests from one buffer. A broadcast prepares its message once, in the buffer that replies
    are received into; every connection sends as many bytes as the header there states when it opens
    (json_handler.c, tcp_json.c). */
module Broadcast {
  import opened Bytes
  import opened JsonValue
  import opened Mirror
  import opened Transport

  /** The buffer after json_prep_get_counter_value: message, terminator, and what stood there before. */
  ghost predicate Prepared(start: Text, m: Value, junk: Text) {
    Sound(m) && Fits(m) && |start| == MAX_JSON_BUF_SIZE && PrepareMessage(m).Some?
      && start == PrepareMessage(m).value + [0] + junk
  }

  /** tcp_client_json_sending; `beyond` is the memory behind the buffer, as far as it is there. */
  function NextRequest(buffer: Text, beyond: Text): (t: Text)
    requires |buffer| == MAX_JSON_BUF_SIZE
    ensures MessageSize(buffer) <= |buffer| + |beyond| ==> |t| == MessageSize(buffer)
  {
    if MessageSize(buffer) <= |buffer| + |beyond| then (buffer + beyond)[..MessageSize(buffer)] else buffer + beyond
  }

  /** A buddy gets the bytes of a request, cut in any way. */
  ghost predicate Arrives(buffer: Text, segments: seq<Text>, request: Text) {
    |buffer| == MAX_JSON_BUF_SIZE && segments != [] && NoneEmpty(segments) && Joined(segments) == request
  }

  /** A connection that opens first sends the prepared message. */
  lemma FirstRequest(start: Text, m: Value, junk: Text, beyond: Text)
    requires Prepared(start, m, junk)
    ensures MessageSize(start) <= MAX_JSON_BUF_SIZE && NextRequest(start, beyond) == PrepareMessage(m).value
  {
    hide PrepareMessage, MessageSize, Sound, Fits, Count, Adopt, DataVersion;
    var msg := PrepareMessage(m).value;
    MessageRoundTrip(m, [0] + junk);
    assert msg + ([0] + junk) == start;
    PrefixOfJoin(msg, [0] + junk, beyond);
  }

  lemma PrefixOfJoin(a: Text, b: Text, c: Text)
    ensures (a + b + c)[..|a|] == a
  {
  }

  /** A request whose header states its length is handled when it is longer than a header and fits. */
  lemma HandledIff(buffer: Text, segments: seq<Text>, request: Text)
    requires Arrives(buffer, segments, request) && Framed(request)
    ensures var s := ServerAfter(buffer, segments);
            && (ServerComplete(s) <==> HEADER_SIZE < |request| <= MAX_JSON_BUF_SIZE)
            && (ServerComplete(s) ==> s.buffer[..|request|] == request)
  {
    ServerHandlesOnce(buffer, segments, |segments|);
    assert segments[..|segments|] == segments;
  }

  lemma RequestIsFramed(buffer: Text, beyond: Text)
    requires |buffer| == MAX_JSON_BUF_SIZE && HEADER_SIZE <= MessageSize(buffer) <= |buffer| + |beyond|
    requires MessageSize(buffer) < 0x8000_0000
    ensures Framed(NextRequest(buffer, beyond))
  {
    var r := NextRequest(buffer, beyond);
    assert r[..8] == buffer[..8];
    MessageSizeOf(buffer, r);
  }

  /** The size field while a bare header comes in over it. */
  lemma SizeDuringReply(c: Client, start: Text, reply: Text, t: nat)
    requires Framed(reply) && |reply| == HEADER_SIZE && ClientHolds(c, start, reply, t)
    ensures MessageSize(c.buffer)
         == if t <= 4 then MAX_JSON_BUF_SIZE else if t == 5 then MAX_JSON_BUF_SIZE + HEADER_SIZE else HEADER_SIZE
  {
    var b, i := c.buffer, AllSent(start).buffer;
    SizeBytes(reply);
    assert reply[4] == HEADER_SIZE && reply[5] == 0;
    assert i[4] == Le32(MAX_JSON_BUF_SIZE)[0] == 0 && i[5] == Le32(MAX_JSON_BUF_SIZE)[1] == 8;
    assert i[6] == Le32(MAX_JSON_BUF_SIZE)[2] == 0 && i[7] == Le32(MAX_JSON_BUF_SIZE)[3] == 0;
    assert forall k :: 4 <= k < 8 ==> b[k] == if k < t then reply[k] else i[k];
    assert b[4] == (if 4 < t then reply[4] else 0) && b[5] == (if 5 < t then reply[5] else 8) && b[6] == 0 && b[7] == 0;
  }

  /** A server that reads this version and this JSON keeps the fresher of both. */
  lemma ServerTakes(m: Value, mem: Text, other: Value)
    requires Sound(m) && Sound(other) && |mem| >= HEADER_SIZE && DataVersion(mem) == Count(m) && Adopt(mem) == Some(m)
    ensures ServerMirror(other, mem) == Some(Fresher(m, other))
  {
    hide DataVersion, Adopt, Count, Sound;
    CountInRange(other);
    CountInRange(m);
    SoundCount(other);
  }

  /** The whole buffer as a request: the prepared JSON and version, with another size. */
  lemma WholeBufferCarries(start: Text, m: Value, junk: Text, mem: Text, other: Value)
    requires Prepared(start, m, junk) && Sound(other) && |mem| == MAX_JSON_BUF_SIZE && mem[8..] == start[8..]
    ensures ServerMirror(other, mem) == Some(Fresher(m, other))
  {
    hide PrepareMessage, MessageSize, DataVersion, Fits, Count, Sound, Adopt, ServerMirror;
    MessageRoundTrip(m, [0] + junk);
    assert PrepareMessage(m).value + ([0] + junk) == start;
    assert mem[HEADER_SIZE..] == mem[8..][4..] == start[HEADER_SIZE..];
    SameVersion(mem, start);
    SameAdopt(mem, start);
    ServerTakes(m, mem, other);
  }

  lemma SameVersion(a: Text, b: Text)
    requires |a| == |b| >= HEADER_SIZE && a[8..] == b[8..]
    ensures DataVersion(a) == DataVersion(b)
  {
    assert forall k :: 8 <= k < 12 ==> a[k] == a[8..][k - 8] == b[k];
  }

  lemma SameAdopt(a: Text, b: Text)
    requires |a| == |b| >= HEADER_SIZE && a[HEADER_SIZE..] == b[HEADER_SIZE..]
    ensures Adopt(a) == Adopt(b)
  {
  }

  lemma SoundCount(m: Value)
    requires Sound(m)
    ensures Count(m) >= 1
  {
  }

  lemma BareReply(start: Text, m: Value, junk: Text)
    requires Prepared(start, m, junk)
    ensures Framed(BareHeader(start)) && BareHeader(start)[..4] == start[..4]
  {
    hide PrepareMessage, Sound, Fits, MessageSize;
    BareHeaderBehind(m, start, []);
    assert BareHeader(start) + [] == BareHeader(start);
  }

  /** A second request that leaves when `t` bytes of a bare header have come back for the first one: it
      is handled exactly when they have not reached the size field, and then as the prepared message
      would be. */
  lemma SecondRequest(start: Text, m: Value, junk: Text, c: Client, t: nat, beyond: Text, buffer: Text,
                      segments: seq<Text>, other: Value)
    requires Prepared(start, m, junk) && ClientHolds(c, start, BareHeader(start), t)
    requires HEADER_SIZE <= |beyond| < 0x1000_0000
    requires Arrives(buffer, segments, NextRequest(c.buffer, beyond)) && Sound(other)
    ensures ServerComplete(ServerAfter(buffer, segments)) <==> t <= 4
    ensures t <= 4 ==> ServerMirror(other, ServerAfter(buffer, segments).buffer) == Some(Fresher(m, other))
  {
    hide PrepareMessage, MessageSize, Sound, Fits, Framed, Fresher, ServerMirror;
    var reply := BareHeader(start);
    BareReply(start, m, junk);
    SizeDuringReply(c, start, reply, t);
    RequestIsFramed(c.buffer, beyond);
    var r := NextRequest(c.buffer, beyond);
    HandledIff(buffer, segments, r);
    if t <= 4 {
      UntouchedBehind(c, start, reply, t);
      var s := ServerAfter(buffer, segments);
      assert r == c.buffer && s.buffer[..|r|] == s.buffer;
      WholeBufferCarries(start, m, junk, s.buffer, other);
    }
  }

  lemma UntouchedBehind(c: Client, start: Text, reply: Text, t: nat)
    requires ClientHolds(c, start, reply, t) && t <= 4
    ensures c.buffer[8..] == start[8..]
  {
    assert c.buffer[8..] == AllSent(start).buffer[8..];
  }

  /** Exchanges one after the other: behind a bare header the next request is a bare header itself and
      is never handled. */
  lemma NextRequestIsLost(start: Text, m: Value, junk: Text, c: Client, beyond: Text, buffer: Text, segments: seq<Text>)
    requires Prepared(start, m, junk) && ClientHolds(c, start, BareHeader(start), HEADER_SIZE)
    requires HEADER_SIZE <= |beyond| < 0x1000_0000
    requires Arrives(buffer, segments, NextRequest(c.buffer, beyond))
    ensures NextRequest(c.buffer, beyond) == BareHeader(start) && !ServerComplete(ServerAfter(buffer, segments))
  {
    hide PrepareMessage, MessageSize, Sound, Fits, ServerComplete;
    SecondRequest(start, m, junk, c, HEADER_SIZE, beyond, buffer, segments, m);
    BareReply(start, m, junk);
    SizeDuringReply(c, start, BareHeader(start), HEADER_SIZE);
  }

  /** Behind the JSON of a fresher server the next request passes that JSON on. */
  lemma NextRequestForwards(start: Text, c: Client, newer: Value, beyond: Text, buffer: Text, segments: seq<Text>,
                            other: Value)
    requires Sound(newer) && Fits(newer) && Sound(other) && PrepareMessage(newer).Some?
    requires var reply := PrepareMessage(newer).value; ClientHolds(c, start, reply, |reply|)
    requires Arrives(buffer, segments, NextRequest(c.buffer, beyond))
    ensures NextRequest(c.buffer, beyond) == PrepareMessage(newer).value
    ensures ServerComplete(ServerAfter(buffer, segments))
    ensures ServerMirror(other, ServerAfter(buffer, segments).buffer) == Some(Fresher(newer, other))
  {
    hide PrepareMessage, MessageSize, Sound, Fits, ServerComplete, Count, AllSent, ServerMirror, Fresher;
    var reply := PrepareMessage(newer).value;
    var behind := AllSent(start).buffer[|reply|..];
    MessageRoundTrip(newer, behind);
    assert reply[..|reply|] == reply && c.buffer == reply + behind;
    assert (c.buffer + beyond)[..|reply|] == reply;
    MessageRoundTrip(newer, []);
    assert reply + [] == reply;
    assert Framed(reply);
    HandledIff(buffer, segments, reply);
    var mem := ServerAfter(buffer, segments).buffer;
    MessageTaken(newer, mem, other);
  }

  lemma MessageTaken(m: Value, mem: Text, other: Value)
    requires Sound(m) && Fits(m) && Sound(other) && |mem| == MAX_JSON_BUF_SIZE && PrepareMessage(m).Some?
    requires PrepareMessage(m).value <= mem
    ensures ServerMirror(other, mem) == Some(Fresher(m, other))
  {
    hide PrepareMessage, DataVersion, Fits, Count, Sound, Adopt, ServerMirror;
    var msg := PrepareMessage(m).value;
    assert mem == msg + mem[|msg|..];
    MessageRoundTrip(m, mem[|msg|..]);
    ServerTakes(m, mem, other);
  }

  /** The buffer of a device that has taken over the JSON of a request: the request with the bare header in
      front, and with the size set once more when an own request was acknowledged meanwhile. */
  function Served(mem: Text, acknowledged: bool): (t: Text)
    requires |mem| == MAX_JSON_BUF_SIZE
    ensures |t| == MAX_JSON_BUF_SIZE
  {
    var t := BareHeader(mem) + mem[HEADER_SIZE..];
    if acknowledged then AllSent(t).buffer else t
  }

  /** An own request that leaves after that is never handled, or it passes on the JSON taken over. A device
      that has answered with its own JSON has prepared its buffer anew, and `FirstRequest` applies. */
  lemma RequestAfterServing(m: Value, junk: Text, acknowledged: bool, beyond: Text, buffer: Text, segments: seq<Text>,
                            other: Value)
    requires Sound(m) && Fits(m) && Sound(other) && PrepareMessage(m).Some?
    requires |PrepareMessage(m).value + junk| == MAX_JSON_BUF_SIZE
    requires Arrives(buffer, segments, NextRequest(Served(PrepareMessage(m).value + junk, acknowledged), beyond))
    ensures ServerComplete(ServerAfter(buffer, segments)) <==> acknowledged
    ensures acknowledged ==> ServerMirror(other, ServerAfter(buffer, segments).buffer) == Some(Fresher(m, other))
  {
    hide PrepareMessage, MessageSize, Sound, Fits, ServerComplete, Count, Adopt, DataVersion, BareHeader, Framed;
    var mem := PrepareMessage(m).value + junk;
    var now := Served(mem, acknowledged);
    var r := NextRequest(now, beyond);
    ServedSize(m, mem, acknowledged);
    MessageRoundTrip(m, junk);
    RequestIsFramed(now, beyond);
    HandledIff(buffer, segments, r);
    if acknowledged {
      var got := ServerAfter(buffer, segments).buffer;
      assert r == now && got[..|r|] == got;
      ServedCarries(m, mem, got);
      ServerTakes(m, got, other);
    }
  }

  lemma ServedSize(m: Value, mem: Text, acknowledged: bool)
    requires |mem| == MAX_JSON_BUF_SIZE
    ensures MessageSize(Served(mem, acknowledged)) == if acknowledged then MAX_JSON_BUF_SIZE else HEADER_SIZE
  {
    hide MessageSize, BareHeader, Count;
    var t := BareHeader(mem) + mem[HEADER_SIZE..];
    BareHeaderBehind(m, mem, mem[HEADER_SIZE..]);
    if acknowledged { AllSentSize(t); }
  }

  lemma AllSentSize(t: Text)
    requires |t| == MAX_JSON_BUF_SIZE
    ensures MessageSize(AllSent(t).buffer) == MAX_JSON_BUF_SIZE
  {
    Le32RoundTrip(MAX_JSON_BUF_SIZE);
  }

  /** Version and JSON behind the size field are those of the request served. */
  lemma ServedCarries(m: Value, mem: Text, got: Text)
    requires |mem| == MAX_JSON_BUF_SIZE && got == Served(mem, true)
    ensures DataVersion(got) == DataVersion(mem) && Adopt(got) == Adopt(mem)
  {
    hide DataVersion, Adopt;
    var t := BareHeader(mem) + mem[HEADER_SIZE..];
    assert t[8..] == mem[8..];
    assert got[8..] == mem[8..];
    SameVersion(got, mem);
    assert got[HEADER_SIZE..] == got[8..][4..] == mem[HEADER_SIZE..];
    SameAdopt(got, mem);
  }
}
