/** Reassembly of messages from TCP segments (tcp_json.c). */
module Transport {
  import opened Bytes
  import opened Mirror

  /** pbuf_copy_partial into a buffer. */
  function Overwrite(buffer: Text, at: nat, t: Text): (r: Text)
    requires at + |t| <= |buffer|
    ensures |r| == |buffer|
  {
    buffer[..at] + t + buffer[at + |t|..]
  }

  function Min(a: int, b: int): int { if a < b then a else b }

  /** The bytes of the segments, in order. */
  ghost function Joined(segments: seq<Text>): Text {
    if segments == [] then [] else Joined(segments[..|segments| - 1]) + segments[|segments| - 1]
  }

  ghost predicate NoneEmpty(segments: seq<Text>) {
    forall i :: 0 <= i < |segments| ==> |segments[i]| > 0
  }

  /** A message whose header states its length. */
  ghost predicate Framed(m: Text) {
    HEADER_SIZE <= |m| < 0x8000_0000 && MessageSize(m) == |m|
  }

  lemma MessageSizeOf(a: Text, b: Text)
    requires |a| >= 8 && |b| >= HEADER_SIZE && |a| >= HEADER_SIZE && a[..8] == b[..8]
    ensures MessageSize(a) == MessageSize(b)
  {
    assert a[4] == a[..8][4] == b[4] && a[5] == a[..8][5] == b[5] && a[6] == a[..8][6] == b[6]
      && a[7] == a[..8][7] == b[7];
  }

  // ---- server ----

  datatype Server = Server(buffer: Text, recvLen: nat, recvSize: int, headerSeen: bool)

  /** tcp_server_json_accept */
  function Accepted(buffer: Text): Server {
    Server(buffer, 0, MAX_JSON_BUF_SIZE, false)
  }

  /** uint32_t stored in an int. */
  function AsInt(n: nat): int { if n < 0x8000_0000 then n else n - 0x1_0000_0000 }

  predicate ServerReady(s: Server) {
    |s.buffer| == MAX_JSON_BUF_SIZE && s.recvLen <= MAX_JSON_BUF_SIZE
  }

  /** tcp_server_json_recv up to the decision whether the message is complete. */
  function ServerRecv(s: Server, p: Text): (r: Server)
    requires ServerReady(s)
    ensures ServerReady(r)
  {
    if p == [] then s
    else
      var n := Min(|p|, MAX_JSON_BUF_SIZE - s.recvLen);
      var buffer := Overwrite(s.buffer, s.recvLen, p[..n]);
      var len := s.recvLen + n;
      if !s.headerSeen && len > HEADER_SIZE then Server(buffer, len, AsInt(MessageSize(buffer)), true)
      else Server(buffer, len, s.recvSize, s.headerSeen)
  }

  predicate ServerComplete(s: Server) { s.recvLen >= s.recvSize }

  ghost function ServerAfter(buffer: Text, segments: seq<Text>): (s: Server)
    requires |buffer| == MAX_JSON_BUF_SIZE
    ensures ServerReady(s)
  {
    if segments == [] then Accepted(buffer)
    else ServerRecv(ServerAfter(buffer, segments[..|segments| - 1]), segments[|segments| - 1])
  }

  /** The state after the first `t` bytes of `m`, however they were cut. */
  ghost predicate ServerHolds(s: Server, m: Text, t: nat) {
    && ServerReady(s) && t <= |m| && s.recvLen == Min(t, MAX_JSON_BUF_SIZE)
    && s.buffer[..s.recvLen] == m[..s.recvLen]
    && s.headerSeen == (s.recvLen > HEADER_SIZE)
    && s.recvSize == if s.headerSeen then |m| else MAX_JSON_BUF_SIZE
  }

  lemma ServerStep(s: Server, m: Text, t: nat, p: Text)
    requires Framed(m) && ServerHolds(s, m, t) && |p| > 0 && t + |p| <= |m| && p == m[t..t + |p|]
    ensures ServerHolds(ServerRecv(s, p), m, t + |p|)
    ensures ServerComplete(ServerRecv(s, p)) <==> t + |p| == |m| && HEADER_SIZE < |m| <= MAX_JSON_BUF_SIZE
  {
    hide Overwrite, MessageSize;
    var n := Min(|p|, MAX_JSON_BUF_SIZE - s.recvLen);
    var r := ServerRecv(s, p);
    PrefixGrows(s.buffer, s.recvLen, m, t, p, n);
    if !s.headerSeen && r.recvLen > HEADER_SIZE {
      assert r.buffer[..8] == r.buffer[..r.recvLen][..8] == m[..8];
      MessageSizeOf(r.buffer, m);
    }
  }

  /** The next `n` bytes of a message behind those that the buffer holds already. */
  lemma PrefixGrows(b: Text, len: nat, m: Text, t: nat, p: Text, n: nat)
    requires len + n <= |b| && n <= |p| && t + |p| <= |m| && p == m[t..t + |p|] && len <= |m| && b[..len] == m[..len]
    requires n > 0 ==> len == t
    ensures Overwrite(b, len, p[..n])[..len + n] == m[..len + n]
  {
    assert Overwrite(b, len, p[..n])[..len + n] == b[..len] + p[..n];
    if n > 0 { assert m[..len] + p[..n] == m[..len + n]; }
  }

  lemma JoinedPrefix(segments: seq<Text>, k: nat)
    requires k <= |segments|
    ensures |Joined(segments[..k])| <= |Joined(segments)|
    ensures Joined(segments)[..|Joined(segments[..k])|] == Joined(segments[..k])
    decreases |segments|
  {
    if k < |segments| {
      var init := segments[..|segments| - 1];
      assert init[..k] == segments[..k];
      JoinedPrefix(init, k);
    } else {
      assert segments[..k] == segments;
    }
  }

  lemma {:induction false} ServerHoldsAfter(buffer: Text, segments: seq<Text>, m: Text)
    requires |buffer| == MAX_JSON_BUF_SIZE && Framed(m) && NoneEmpty(segments)
    requires |Joined(segments)| <= |m| && m[..|Joined(segments)|] == Joined(segments)
    ensures ServerHolds(ServerAfter(buffer, segments), m, |Joined(segments)|)
    ensures segments != [] ==>
      (ServerComplete(ServerAfter(buffer, segments))
       <==> |Joined(segments)| == |m| && HEADER_SIZE < |m| <= MAX_JSON_BUF_SIZE)
    decreases |segments|
  {
    if segments != [] {
      var init, p := segments[..|segments| - 1], segments[|segments| - 1];
      var t := |Joined(init)|;
      assert m[..t] == m[..|Joined(segments)|][..t] == Joined(init);
      ServerHoldsAfter(buffer, init, m);
      assert p == Joined(segments)[t..] == m[t..t + |p|];
      ServerStep(ServerAfter(buffer, init), m, t, p);
    }
  }

  /** For every cut of a message into segments: the server handles it on the last segment and on no
      earlier one, with the message in its buffer; and it does so at all exactly when the message is
      longer than a bare header and not longer than the buffer. */
  lemma ServerHandlesOnce(buffer: Text, segments: seq<Text>, k: nat)
    requires |buffer| == MAX_JSON_BUF_SIZE && NoneEmpty(segments) && Framed(Joined(segments)) && 0 < k <= |segments|
    ensures var m := Joined(segments);
            var s := ServerAfter(buffer, segments[..k]);
            && (ServerComplete(s) <==> k == |segments| && HEADER_SIZE < |m| <= MAX_JSON_BUF_SIZE)
            && (ServerComplete(s) ==> s.buffer[..|m|] == m)
  {
    var m := Joined(segments);
    JoinedPrefix(segments, k);
    ServerHoldsAfter(buffer, segments[..k], m);
    if k == |segments| {
      assert segments[..k] == segments;
    } else {
      JoinedShorter(segments, k);
    }
  }

  lemma JoinedShorter(segments: seq<Text>, k: nat)
    requires NoneEmpty(segments) && k < |segments|
    ensures |Joined(segments[..k])| < |Joined(segments)|
  {
    var init := segments[..|segments| - 1];
    assert init[..k] == segments[..k];
    JoinedPrefix(init, k);
  }

  /** A stated length of two gigabytes or more is taken for a negative one: the message counts as complete as
      soon as there is a byte behind the header. */
  lemma HugeSizeIsComplete(buffer: Text, p: Text)
    requires |buffer| == MAX_JSON_BUF_SIZE && |p| > HEADER_SIZE && MessageSize(p) >= 0x8000_0000
    ensures ServerComplete(ServerRecv(Accepted(buffer), p)) && ServerRecv(Accepted(buffer), p).recvSize < 0
  {
    var n := Min(|p|, MAX_JSON_BUF_SIZE);
    assert MessageSize(p) < 0x1_0000_0000;
    hide Overwrite, MessageSize;
    assert [] + p[..n] == p[..n] && buffer[..0] == [];
    PrefixGrows(buffer, 0, p, 0, p[..n], n);
    var b := Overwrite(buffer, 0, p[..n]);
    assert p[..n][..n] == p[..n];
    assert b[..8] == b[..n][..8] == p[..n][..8] == p[..8];
    MessageSizeOf(b, p);
  }

  // ---- client ----

  /** The client's header (its `priv` pointer) is the start of the very buffer it receives into,
      so the expected size is whatever the buffer holds there. */
  datatype Client = Client(buffer: Text, recvLen: nat)

  predicate ClientReady(c: Client) {
    |c.buffer| == MAX_JSON_BUF_SIZE && c.recvLen <= MAX_JSON_BUF_SIZE
  }

  /** tcp_client_json_sent when everything is acknowledged. */
  function AllSent(buffer: Text): (c: Client)
    requires |buffer| == MAX_JSON_BUF_SIZE
    ensures ClientReady(c)
  {
    Client(buffer[..4] + Le32(MAX_JSON_BUF_SIZE) + buffer[8..], 0)
  }

  /** Bytes that tcp_client_json_recv copies: buffer_left is a uint16_t. */
  function ClientCopies(c: Client, p: Text): nat
    requires ClientReady(c)
  {
    Min(|p|, (MessageSize(c.buffer) - c.recvLen) % 65536)
  }

  /** A segment is copied whole, or as far as the stated size reaches; with the difference cut to 16 bits. */
  lemma ClientCopiesUpTo(c: Client, p: Text)
    requires ClientReady(c)
    ensures var n, size := ClientCopies(c, p), MessageSize(c.buffer);
            && n <= |p|
            && (c.recvLen <= size < 65536 ==> c.recvLen + n <= size && (n == |p| || c.recvLen + n == size))
            && (n < |p| ==> n < 65536 && (c.recvLen + n - size) % 65536 == 0)
  {
    hide MessageSize;
  }

  function ClientRecv(c: Client, p: Text): (r: Client)
    requires ClientReady(c) && c.recvLen + ClientCopies(c, p) <= MAX_JSON_BUF_SIZE
    ensures ClientReady(r)
  {
    var n := ClientCopies(c, p);
    Client(Overwrite(c.buffer, c.recvLen, p[..n]), c.recvLen + n)
  }

  predicate ClientComplete(c: Client)
    requires ClientReady(c)
  {
    c.recvLen >= MessageSize(c.buffer)
  }

  /** The state after the first `t` bytes of the reply `m`. */
  ghost predicate ClientHolds(c: Client, start: Text, m: Text, t: nat) {
    && ClientReady(c) && |start| == MAX_JSON_BUF_SIZE && t <= |m| <= MAX_JSON_BUF_SIZE && c.recvLen == t
    && c.buffer == m[..t] + AllSent(start).buffer[t..]
  }

  /** While a reply of that length comes in, the aliased size field never falls below it,
      and reads it exactly from the sixth byte on. */
  lemma AliasedSize(c: Client, start: Text, m: Text, t: nat)
    requires Framed(m) && ClientHolds(c, start, m, t)
    ensures |m| <= MessageSize(c.buffer) < MAX_JSON_BUF_SIZE + 256
    ensures t >= 6 ==> MessageSize(c.buffer) == |m|
    ensures t <= 5 ==> MessageSize(c.buffer) >= MAX_JSON_BUF_SIZE
  {
    var b, i := c.buffer, AllSent(start).buffer;
    SizeBytes(m);
    assert i[4] == Le32(MAX_JSON_BUF_SIZE)[0] == 0 && i[5] == Le32(MAX_JSON_BUF_SIZE)[1] == 8;
    assert i[6] == Le32(MAX_JSON_BUF_SIZE)[2] == 0 && i[7] == Le32(MAX_JSON_BUF_SIZE)[3] == 0;
    assert forall k :: 4 <= k < 8 ==> b[k] == if k < t then m[k] else i[k];
    assert b[4] == (if 4 < t then m[4] else 0) && b[5] == (if 5 < t then m[5] else 8) && b[6] == 0 && b[7] == 0;
  }

  lemma SizeBytes(m: Text)
    requires Framed(m) && |m| <= MAX_JSON_BUF_SIZE
    ensures m[6] == 0 && m[7] == 0 && (m[4] as int) + 256 * (m[5] as int) == |m|
  {
  }

  lemma ClientStep(c: Client, start: Text, m: Text, t: nat, p: Text)
    requires Framed(m) && ClientHolds(c, start, m, t) && |p| > 0 && t + |p| <= |m| && p == m[t..t + |p|]
    ensures ClientCopies(c, p) == |p| && c.recvLen + ClientCopies(c, p) <= MAX_JSON_BUF_SIZE
    ensures ClientHolds(ClientRecv(c, p), start, m, t + |p|)
    ensures ClientComplete(ClientRecv(c, p)) <==> t + |p| == |m|
  {
    hide MessageSize, AllSent, Overwrite;
    AliasedSize(c, start, m, t);
    assert (MessageSize(c.buffer) - c.recvLen) % 65536 == MessageSize(c.buffer) - c.recvLen;
    OverwritePrefix(c.buffer, m, AllSent(start).buffer, t, p);
    assert p[..|p|] == p;
    AliasedSize(ClientRecv(c, p), start, m, t + |p|);
  }

  lemma OverwritePrefix(b: Text, m: Text, i: Text, t: nat, p: Text)
    requires t + |p| <= |m| && t + |p| <= |i| == |b| && b == m[..t] + i[t..] && p == m[t..t + |p|]
    ensures Overwrite(b, t, p) == m[..t + |p|] + i[t + |p|..]
  {
    assert b[..t] == m[..t];
    assert b[t + |p|..] == i[t + |p|..];
    assert m[..t] + p == m[..t + |p|];
  }

  ghost function ClientAfter(start: Text, segments: seq<Text>): (r: Option<Client>)
    requires |start| == MAX_JSON_BUF_SIZE
    ensures r.Some? ==> ClientReady(r.value)
  {
    if segments == [] then Some(AllSent(start))
    else
      var p := segments[|segments| - 1];
      match ClientAfter(start, segments[..|segments| - 1])
      case None => None
      case Some(c) => if c.recvLen + ClientCopies(c, p) <= MAX_JSON_BUF_SIZE then Some(ClientRecv(c, p)) else None
  }

  lemma AllSentHolds(start: Text, m: Text)
    requires |start| == MAX_JSON_BUF_SIZE && |m| <= MAX_JSON_BUF_SIZE
    ensures ClientHolds(AllSent(start), start, m, 0)
  {
    assert AllSent(start).buffer == m[..0] + AllSent(start).buffer[0..];
  }

  lemma {:induction false} ClientHoldsAfter(start: Text, segments: seq<Text>, m: Text)
    requires |start| == MAX_JSON_BUF_SIZE && Framed(m) && |m| <= MAX_JSON_BUF_SIZE && NoneEmpty(segments)
    requires |Joined(segments)| <= |m| && m[..|Joined(segments)|] == Joined(segments)
    ensures ClientAfter(start, segments).Some?
    ensures ClientHolds(ClientAfter(start, segments).value, start, m, |Joined(segments)|)
    ensures segments != [] ==> (ClientComplete(ClientAfter(start, segments).value) <==> |Joined(segments)| == |m|)
    decreases |segments|
  {
    hide AllSent, ClientComplete, ClientCopies, ClientRecv, Framed;
    if segments == [] {
      AllSentHolds(start, m);
    } else {
      hide ClientHolds;
      var init, p := segments[..|segments| - 1], segments[|segments| - 1];
      var t := |Joined(init)|;
      assert m[..t] == m[..|Joined(segments)|][..t] == Joined(init);
      ClientHoldsAfter(start, init, m);
      assert p == Joined(segments)[t..] == m[t..t + |p|];
      ClientStep(ClientAfter(start, init).value, start, m, t, p);
    }
  }

  /** For every cut of a reply, also inside its header: the client handles it on the last segment and
      on no earlier one, with the reply in its buffer. */
  lemma ClientHandlesOnce(start: Text, segments: seq<Text>, k: nat)
    requires |start| == MAX_JSON_BUF_SIZE && NoneEmpty(segments) && 0 < k <= |segments|
    requires Framed(Joined(segments)) && |Joined(segments)| <= MAX_JSON_BUF_SIZE
    ensures ClientAfter(start, segments[..k]).Some?
    ensures var c := ClientAfter(start, segments[..k]).value;
            && (ClientComplete(c) <==> k == |segments|)
            && (ClientComplete(c) ==> c.buffer[..|Joined(segments)|] == Joined(segments))
  {
    var m := Joined(segments);
    JoinedPrefix(segments, k);
    ClientHoldsAfter(start, segments[..k], m);
    if k == |segments| {
      assert segments[..k] == segments;
    } else {
      JoinedShorter(segments, k);
    }
  }

  // ---- the callbacks ----

  /** The fields of struct server_per_client that receiving changes, and the shared buffer. */
  class ServerConnection {
    const buffer: array<Byte>
    var recvLen: nat
    var recvSize: int
    var recvFlag: bool

    function View(): Server
      reads this, buffer
    {
      Server(buffer[..], recvLen, recvSize, recvFlag)
    }

    constructor (buffer: array<Byte>)
      requires buffer.Length == MAX_JSON_BUF_SIZE
      ensures this.buffer == buffer && View() == Accepted(buffer[..])
    {
      this.buffer := buffer;
      recvLen, recvSize, recvFlag := 0, MAX_JSON_BUF_SIZE, false;
    }

    /** One data callback; `complete` is the decision to handle the message now. */
    method Recv(p: Text) returns (complete: bool)
      requires ServerReady(View())
      modifies this, buffer
      ensures View() == ServerRecv(old(View()), p) && complete == ServerComplete(View())
    {
      if |p| > 0 {
        var left := MAX_JSON_BUF_SIZE - recvLen;
        var n := if |p| > left then left else |p|;
        CopyIn(buffer, recvLen, p[..n]);
        recvLen := recvLen + n;
        if !recvFlag && recvLen > HEADER_SIZE {
          recvFlag := true;
          recvSize := AsInt(MessageSize(buffer[..]));
        }
      }
      complete := recvLen >= recvSize;
    }
  }

  method CopyIn(buffer: array<Byte>, at: nat, t: Text)
    requires at + |t| <= buffer.Length
    modifies buffer
    ensures buffer[..] == Overwrite(old(buffer[..]), at, t)
  {
    var i := 0;
    while i < |t|
      invariant 0 <= i <= |t|
      invariant forall k :: 0 <= k < i ==> buffer[at + k] == t[k]
      invariant forall k :: 0 <= k < at || at + i <= k < buffer.Length ==> buffer[k] == old(buffer[k])
    {
      buffer[at + i] := t[i];
      i := i + 1;
    }
  }

  class ClientConnection {
    const buffer: array<Byte>
    var recvLen: nat

    function View(): Client
      reads this, buffer
    {
      Client(buffer[..], recvLen)
    }

    constructor (buffer: array<Byte>)
      ensures this.buffer == buffer && recvLen == 0
    {
      this.buffer := buffer;
      recvLen := 0;
    }

    /** tcp_client_json_sent, once everything is acknowledged. */
    method Sent()
      requires buffer.Length == MAX_JSON_BUF_SIZE
      modifies this, buffer
      ensures View() == AllSent(old(buffer[..]))
    {
      recvLen := 0;
      CopyIn(buffer, 4, Le32(MAX_JSON_BUF_SIZE));
    }

    /** tcp_client_json_recv with data; storing the size from the buffer into the header is storing it
        where it already is. */
    method Recv(p: Text) returns (complete: bool)
      requires |p| > 0 && ClientReady(View()) && recvLen + ClientCopies(View(), p) <= MAX_JSON_BUF_SIZE
      modifies this, buffer
      ensures View() == ClientRecv(old(View()), p) && complete == ClientComplete(View())
    {
      var left := (MessageSize(buffer[..]) - recvLen) % 65536;
      var n := if |p| > left then left else |p|;
      CopyIn(buffer, recvLen, p[..n]);
      recvLen := recvLen + n;
      complete := recvLen >= MessageSize(buffer[..]);
    }
  }
}
