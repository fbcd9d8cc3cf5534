/** The DHCP server: lease table, expiry in truncated ticks, option lists (dhcpserver.c). */
module Dhcp {
  import opened Bytes

  const MAX_IP := 8
  const BASE_IP := 16
  const LEASE_MS := 24 * 60 * 60 * 1000
  const WORD := 0x1_0000_0000

  datatype Lease = Lease(mac: Text, expiry: nat)

  const NO_MAC: Text := [0, 0, 0, 0, 0, 0]

  // ---- time: milliseconds since start, unbounded; the hardware counter shows them modulo 2^32 ----

  function Ticks(t: nat): nat { t % WORD }

  /** What a 16-bit expiry field keeps of the end of a lease granted at `t`. */
  function StoredExpiry(t: nat): (e: nat)
    ensures e < 65536
  {
    (Ticks(t) + LEASE_MS) % WORD / 65536
  }

  /** The signed comparison of the reconstructed expiry with the counter. */
  predicate Expired(expiry: nat, t: nat) {
    (expiry * 65536 + 65535 - Ticks(t)) % WORD >= WORD / 2
  }

  /** Whatever wrapped or was cut off: a lease is found expired only when its 24 hours are over. */
  lemma ExpiredOnlyAfterLease(granted: nat, t: nat)
    requires granted <= t && Expired(StoredExpiry(granted), t)
    ensures t - granted > LEASE_MS
  {
    hide Ticks;
    var slack, k := Kept(granted);
    var j := Residues(t);
    var d := t - granted;
    assert StoredExpiry(granted) * 65536 + 65535 - Ticks(t) == LEASE_MS + slack - d + WORD * (j - k);
    if d <= LEASE_MS {
      Residue(LEASE_MS + slack - d, j - k);
    }
  }

  /** The milliseconds by which the stored expiry is rounded up. */
  function Slack(granted: nat): (d: nat)
    ensures d < 65536
  {
    65535 - (Ticks(granted) + LEASE_MS) % WORD % 65536
  }

  /** Exactly when a lease is found expired: in every second half turn of the counter after its end. So
      the slot of a client that is gone reads as taken for half of the time. */
  lemma ExpiredWindow(granted: nat, t: nat)
    ensures Expired(StoredExpiry(granted), t) <==> 1 <= (t - granted - LEASE_MS - Slack(granted)) % WORD <= WORD / 2
  {
    hide Ticks;
    var slack, k := Kept(granted);
    var j := Residues(t);
    var x := t - granted - LEASE_MS - slack;
    assert StoredExpiry(granted) * 65536 + 65535 - Ticks(t) == -x + WORD * (j - k);
    hide StoredExpiry, Slack;
    Opposite(x, j - k);
  }

  lemma Opposite(x: int, k: int)
    ensures (-x + WORD * k) % WORD == if x % WORD == 0 then 0 else WORD - x % WORD
  {
    var q, m := x / WORD, x % WORD;
    assert x == WORD * q + m;
    if m == 0 {
      Residue(0, k - q);
    } else {
      Residue(WORD - m, k - q - 1);
    }
  }

  /** The end of a lease rounded up to what the field keeps, without the wrap-around. */
  lemma Kept(granted: nat) returns (slack: nat, k: int)
    ensures slack == Slack(granted) && StoredExpiry(granted) * 65536 + 65535 == granted + LEASE_MS - WORD * k + slack
  {
    var j := Residues(granted);
    var e := (Ticks(granted) + LEASE_MS) % WORD;
    slack := 65535 - e % 65536;
    k := j + (Ticks(granted) + LEASE_MS) / WORD;
    hide Ticks;
  }

  lemma Residues(t: nat) returns (j: int)
    ensures Ticks(t) == t - WORD * j
  {
    j := t / WORD;
  }

  lemma Residue(x: int, k: int)
    requires 0 <= x < WORD
    ensures (x + WORD * k) % WORD == x
  {
  }

  // ---- the lease table ----

  predicate Table(l: seq<Lease>) { |l| == MAX_IP }

  /** The slot search of DHCPDISCOVER from slot `i` on, with `yi` the slot found so far (MAX_IP for
      none) and `now[i]` the counter reading at slot `i`. */
  function Search(l: seq<Lease>, mac: Text, now: seq<nat>, i: nat, yi: nat): (r: (seq<Lease>, nat))
    requires Table(l) && |now| == MAX_IP && i <= MAX_IP && yi <= MAX_IP
    ensures Table(r.0) && r.1 <= MAX_IP
    decreases MAX_IP - i
  {
    if i == MAX_IP then (l, yi)
    else if l[i].mac == mac then (l, i)
    else if yi != MAX_IP then Search(l, mac, now, i + 1, yi)
    else if Expired(l[i].expiry, now[i]) then Search(l[i := l[i].(mac := NO_MAC)], mac, now, i + 1, i)
    else Search(l, mac, now, i + 1, if l[i].mac == NO_MAC then i else MAX_IP)
  }

  /** DHCPREQUEST for slot `yi` (already reduced from the requested address). */
  function Grant(l: seq<Lease>, mac: Text, yi: nat, t: nat): (r: Option<seq<Lease>>)
    requires Table(l) && yi < MAX_IP
    ensures r.Some? ==> Table(r.value)
  {
    if l[yi].mac == mac || l[yi].mac == NO_MAC then Some(l[yi := Lease(mac, StoredExpiry(t))]) else None
  }

  /** The slot that a requested address stands for: same network, last byte from BASE_IP on. */
  function RequestedSlot(ip: Text, requested: Text): (r: Option<nat>)
    requires |ip| == 4 && |requested| == 4
    ensures r.Some? ==> r.value < MAX_IP
  {
    var yi := (requested[3] as int - BASE_IP) % 256;
    if requested[..3] != ip[..3] || yi >= MAX_IP then None else Some(yi)
  }

  function Address(ip: Text, yi: nat): (a: Text)
    requires |ip| == 4 && yi < MAX_IP
    ensures |a| == 4
  {
    ip[..3] + [BASE_IP + yi]
  }

  // ---- single-call properties ----

  /** A found slot is free or already the client's. */
  lemma {:induction false} SearchUsable(l: seq<Lease>, mac: Text, now: seq<nat>, i: nat, yi: nat)
    requires Table(l) && |now| == MAX_IP && i <= MAX_IP && yi <= MAX_IP
    requires yi < MAX_IP ==> yi < i && l[yi].mac == NO_MAC
    ensures var r := Search(l, mac, now, i, yi); r.1 < MAX_IP ==> r.0[r.1].mac == mac || r.0[r.1].mac == NO_MAC
    decreases MAX_IP - i
  {
    hide Expired;
    if i < MAX_IP && l[i].mac != mac {
      if yi != MAX_IP {
        SearchUsable(l, mac, now, i + 1, yi);
      } else if Expired(l[i].expiry, now[i]) {
        SearchUsable(l[i := l[i].(mac := NO_MAC)], mac, now, i + 1, i);
      } else {
        SearchUsable(l, mac, now, i + 1, if l[i].mac == NO_MAC then i else MAX_IP);
      }
    }
  }

  /** A slot of the client is found before anything else. */
  lemma {:induction false} SearchHolder(l: seq<Lease>, mac: Text, now: seq<nat>, i: nat, yi: nat, k: nat)
    requires Table(l) && |now| == MAX_IP && i <= MAX_IP && yi <= MAX_IP
    requires i <= k < MAX_IP && l[k].mac == mac
    ensures var r := Search(l, mac, now, i, yi);
            i <= r.1 < MAX_IP && l[r.1].mac == mac && r.0[r.1].mac == mac
    decreases MAX_IP - i
  {
    hide Expired;
    if i < MAX_IP && l[i].mac != mac {
      if yi != MAX_IP {
        SearchHolder(l, mac, now, i + 1, yi, k);
      } else if Expired(l[i].expiry, now[i]) {
        SearchHolder(l[i := l[i].(mac := NO_MAC)], mac, now, i + 1, i, k);
      } else {
        SearchHolder(l, mac, now, i + 1, if l[i].mac == NO_MAC then i else MAX_IP, k);
      }
    }
  }

  /** The search only clears addresses of expired slots. */
  lemma {:induction false} SearchClears(l: seq<Lease>, mac: Text, now: seq<nat>, i: nat, yi: nat)
    requires Table(l) && |now| == MAX_IP && i <= MAX_IP && yi <= MAX_IP
    requires yi < MAX_IP ==> yi < i
    ensures var m := Search(l, mac, now, i, yi).0;
            forall k :: 0 <= k < MAX_IP ==>
              m[k] == l[k] || (m[k] == l[k].(mac := NO_MAC) && i <= k && Expired(l[k].expiry, now[k]))
    decreases MAX_IP - i
  {
    hide Expired;
    if i < MAX_IP && l[i].mac != mac {
      if yi != MAX_IP {
        SearchClears(l, mac, now, i + 1, yi);
      } else if Expired(l[i].expiry, now[i]) {
        SearchClears(l[i := l[i].(mac := NO_MAC)], mac, now, i + 1, i);
      } else {
        SearchClears(l, mac, now, i + 1, if l[i].mac == NO_MAC then i else MAX_IP);
      }
    }
  }

  /** Nothing is found exactly when no slot is the client's, free or expired. */
  lemma {:induction false} SearchFails(l: seq<Lease>, mac: Text, now: seq<nat>, i: nat, yi: nat)
    requires Table(l) && |now| == MAX_IP && i <= MAX_IP && yi <= MAX_IP
    requires yi < MAX_IP ==> yi < i
    ensures Search(l, mac, now, i, yi).1 == MAX_IP <==>
            yi == MAX_IP && forall k :: i <= k < MAX_IP ==> Taken(l[k], mac, now[k])
    decreases MAX_IP - i
  {
    hide Expired;
    if i < MAX_IP && l[i].mac != mac {
      if yi != MAX_IP {
        SearchFails(l, mac, now, i + 1, yi);
      } else if Expired(l[i].expiry, now[i]) {
        SearchFails(l[i := l[i].(mac := NO_MAC)], mac, now, i + 1, i);
      } else {
        SearchFails(l, mac, now, i + 1, if l[i].mac == NO_MAC then i else MAX_IP);
      }
    }
  }

  /** A slot leased to someone else and not expired. */
  ghost predicate Taken(lease: Lease, mac: Text, t: nat) {
    lease.mac != mac && lease.mac != NO_MAC && !Expired(lease.expiry, t)
  }

  lemma AddressSlot(ip: Text, yi: nat)
    requires |ip| == 4 && yi < MAX_IP
    ensures RequestedSlot(ip, Address(ip, yi)) == Some(yi)
  {
    assert Address(ip, yi)[..3] == ip[..3];
  }

  /** A request is for a slot exactly when it carries that slot's address. */
  lemma SlotHasAddress(ip: Text, requested: Text, yi: nat)
    requires |ip| == 4 && |requested| == 4 && yi < MAX_IP
    ensures RequestedSlot(ip, requested) == Some(yi) <==> requested == Address(ip, yi)
  {
    AddressSlot(ip, yi);
    if RequestedSlot(ip, requested) == Some(yi) {
      assert requested == requested[..3] + [requested[3]];
    }
  }

  /** An offer followed at once by a request for the offered address is acknowledged. */
  lemma OfferIsAcknowledged(l: seq<Lease>, mac: Text, now: seq<nat>, ip: Text, t: nat)
    requires Table(l) && |now| == MAX_IP && |ip| == 4
    ensures var (m, yi) := Search(l, mac, now, 0, MAX_IP);
            yi < MAX_IP ==> RequestedSlot(ip, Address(ip, yi)) == Some(yi) && Grant(m, mac, yi, t).Some?
  {
    SearchUsable(l, mac, now, 0, MAX_IP);
    hide Search, RequestedSlot, Address, StoredExpiry;
    var yi := Search(l, mac, now, 0, MAX_IP).1;
    if yi < MAX_IP { AddressSlot(ip, yi); }
  }

  /** A client that holds a slot is offered a slot that it holds. */
  lemma HolderIsOfferedItsSlot(l: seq<Lease>, mac: Text, now: seq<nat>, k: nat)
    requires Table(l) && |now| == MAX_IP && k < MAX_IP && l[k].mac == mac
    ensures var (m, yi) := Search(l, mac, now, 0, MAX_IP);
            yi < MAX_IP && l[yi].mac == mac && m[yi].mac == mac
  {
    SearchHolder(l, mac, now, 0, MAX_IP, k);
  }

  /** No offer is made exactly when every slot is leased to someone else and none has expired. */
  lemma NoOfferWhenFull(l: seq<Lease>, mac: Text, now: seq<nat>)
    requires Table(l) && |now| == MAX_IP
    ensures Search(l, mac, now, 0, MAX_IP).1 == MAX_IP <==>
            forall k :: 0 <= k < MAX_IP ==> Taken(l[k], mac, now[k])
  {
    SearchFails(l, mac, now, 0, MAX_IP);
  }

  // ---- runs ----

  datatype Ack = Ack(slot: nat, mac: Text, time: nat)

  /** The table, the acknowledgements sent so far, and for each slot the time of its last one. */
  datatype State = State(lease: seq<Lease>, acks: seq<Ack>, renewed: seq<nat>, now: nat)

  datatype Event =
    | Discover(mac: Text, readings: seq<nat>)
    | Request(mac: Text, requested: Text, time: nat)

  /** Time does not run backwards, within a search or between messages. */
  predicate Timely(e: Event, now: nat) {
    match e
    case Discover(_, readings) =>
      |readings| == MAX_IP && (forall k :: 0 <= k < MAX_IP ==> now <= readings[k])
      && forall k :: 0 <= k < MAX_IP ==> readings[k] <= readings[MAX_IP - 1]
    case Request(_, requested, t) => now <= t && |requested| == 4
  }

  function Next(s: State, ip: Text, e: Event): State
    requires Table(s.lease) && |s.renewed| == MAX_IP && |ip| == 4 && Timely(e, s.now)
  {
    match e
    case Discover(mac, readings) =>
      s.(lease := Search(s.lease, mac, readings, 0, MAX_IP).0, now := readings[MAX_IP - 1])
    case Request(mac, requested, t) =>
      match RequestedSlot(ip, requested)
      case None => s.(now := t)
      case Some(yi) =>
        match Grant(s.lease, mac, yi, t)
        case None => s.(now := t)
        case Some(l) => State(l, s.acks + [Ack(yi, mac, t)], s.renewed[yi := t], t)
  }

  /** dhcp_server_init */
  const START: State := State(seq(MAX_IP, _ => Lease(NO_MAC, 0)), [], seq(MAX_IP, _ => 0), 0)

  /** Who was acknowledged a slot either still has it in the table, with the expiry of its latest
      acknowledgement, or its 24 hours are over. */
  ghost predicate Accounted(s: State, a: Ack) {
    && Table(s.lease) && |s.renewed| == MAX_IP && a.slot < MAX_IP && a.time <= s.renewed[a.slot]
    && (a.mac != NO_MAC ==>
          (s.lease[a.slot].mac == a.mac && s.lease[a.slot].expiry == StoredExpiry(s.renewed[a.slot]))
          || s.now - a.time > LEASE_MS)
  }

  /** The later of two acknowledgements of one address to different clients comes after 24 hours. */
  ghost predicate Apart(a: Ack, b: Ack) {
    a.slot == b.slot && a.mac != b.mac && a.mac != NO_MAC ==> b.time - a.time > LEASE_MS
  }

  ghost predicate Exclusive(acks: seq<Ack>) {
    forall i, j :: 0 <= i < j < |acks| ==> Apart(acks[i], acks[j])
  }

  ghost predicate Inv(s: State) {
    && Table(s.lease) && |s.renewed| == MAX_IP
    && (forall k :: 0 <= k < MAX_IP ==> s.renewed[k] <= s.now)
    && (forall i :: 0 <= i < |s.acks| ==> Accounted(s, s.acks[i]))
    && Exclusive(s.acks)
  }

  lemma DiscoverKeepsInv(s: State, ip: Text, mac: Text, readings: seq<nat>)
    requires Inv(s) && |ip| == 4 && Timely(Discover(mac, readings), s.now)
    ensures Inv(Next(s, ip, Discover(mac, readings)))
  {
    var t := Next(s, ip, Discover(mac, readings));
    SearchClears(s.lease, mac, readings, 0, MAX_IP);
    hide Search;
    forall i | 0 <= i < |s.acks| ensures Accounted(t, s.acks[i]) {
      var a := s.acks[i];
      assert Accounted(s, a);
      if a.mac != NO_MAC && t.lease[a.slot] != s.lease[a.slot] && s.lease[a.slot].mac == a.mac
        && s.now - a.time <= LEASE_MS {
        ExpiredOnlyAfterLease(s.renewed[a.slot], readings[a.slot]);
      }
    }
  }

  lemma RequestKeepsInv(s: State, ip: Text, mac: Text, requested: Text, t: nat)
    requires Inv(s) && |ip| == 4 && Timely(Request(mac, requested, t), s.now)
    ensures Inv(Next(s, ip, Request(mac, requested, t)))
  {
    hide StoredExpiry;
    var n := Next(s, ip, Request(mac, requested, t));
    if n.acks != s.acks {
      var yi := RequestedSlot(ip, requested).value;
      forall i | 0 <= i < |s.acks|
        ensures Accounted(n, s.acks[i])
        ensures Apart(s.acks[i], Ack(yi, mac, t))
      {
        assert Accounted(s, s.acks[i]);
      }
      assert Accounted(n, Ack(yi, mac, t));
    } else {
      forall i | 0 <= i < |s.acks| ensures Accounted(n, s.acks[i]) { assert Accounted(s, s.acks[i]); }
    }
  }

  ghost predicate TimelyRun(s: State, ip: Text, events: seq<Event>)
    requires Inv(s) && |ip| == 4
    decreases |events|
  {
    || events == []
    || (Timely(events[0], s.now)
        && (StepKeepsInv(s, ip, events[0]); TimelyRun(Next(s, ip, events[0]), ip, events[1..])))
  }

  lemma StepKeepsInv(s: State, ip: Text, e: Event)
    requires Inv(s) && |ip| == 4 && Timely(e, s.now)
    ensures Inv(Next(s, ip, e))
  {
    match e
    case Discover(mac, readings) => DiscoverKeepsInv(s, ip, mac, readings);
    case Request(mac, requested, t) => RequestKeepsInv(s, ip, mac, requested, t);
  }

  ghost function After(s: State, ip: Text, events: seq<Event>): State
    requires Inv(s) && |ip| == 4 && TimelyRun(s, ip, events)
    decreases |events|
  {
    if events == [] then s
    else (StepKeepsInv(s, ip, events[0]); After(Next(s, ip, events[0]), ip, events[1..]))
  }

  lemma {:induction false} RunKeepsInv(s: State, ip: Text, events: seq<Event>)
    requires Inv(s) && |ip| == 4 && TimelyRun(s, ip, events)
    ensures Inv(After(s, ip, events))
    decreases |events|
  {
    if events != [] {
      StepKeepsInv(s, ip, events[0]);
      RunKeepsInv(Next(s, ip, events[0]), ip, events[1..]);
    }
  }

  /** In every run from the empty table, two clients are acknowledged for one address only when more
      than 24 hours lie between the two acknowledgements. */
  lemma LeasesAreExclusive(ip: Text, events: seq<Event>, i: nat, j: nat)
    requires |ip| == 4 && TimelyRun(START, ip, events)
    requires i < j < |After(START, ip, events).acks|
    ensures Apart(After(START, ip, events).acks[i], After(START, ip, events).acks[j])
  {
    StartIsFine();
    RunKeepsInv(START, ip, events);
  }

  lemma StartIsFine()
    ensures Inv(START)
  {
  }

  // ---- options ----

  const OPTION_BYTES := 308
  const OPT_SUBNET_MASK: Byte := 1
  const OPT_ROUTER: Byte := 3
  const OPT_DNS: Byte := 6
  const OPT_REQUESTED_IP: Byte := 50
  const OPT_IP_LEASE_TIME: Byte := 51
  const OPT_MSG_TYPE: Byte := 53
  const OPT_SERVER_ID: Byte := 54
  const OPT_END: Byte := 255
  const DHCPDISCOVER: Byte := 1
  const DHCPOFFER: Byte := 2
  const DHCPREQUEST: Byte := 3
  const DHCPACK: Byte := 5

  /** opt_find from offset `i`. `opt` is the memory from the first option on; the length byte of an
      option in the last place is the byte behind the 308. */
  function OptFind(opt: Text, cmd: Byte, i: nat): (r: Option<nat>)
    requires |opt| > OPTION_BYTES
    ensures r.Some? ==> i <= r.value < OPTION_BYTES && opt[r.value] == cmd
    decreases OPTION_BYTES - i
  {
    if i >= OPTION_BYTES || opt[i] == OPT_END then None
    else if opt[i] == cmd then Some(i)
    else OptFind(opt, cmd, i + 2 + opt[i + 1] as int)
  }

  datatype Opt = Opt(cmd: Byte, data: Text)

  predicate Writable(opts: seq<Opt>) {
    forall i :: 0 <= i < |opts| ==> opts[i].cmd != OPT_END && |opts[i].data| < 256
  }

  /** opt_write_n, opt_write_u8 and opt_write_u32 all have this effect. */
  function OptBytes(o: Opt): Text
    requires |o.data| < 256
  {
    [o.cmd, |o.data|] + o.data
  }

  function Written(opts: seq<Opt>): Text
    requires Writable(opts)
  {
    if opts == [] then [] else OptBytes(opts[0]) + Written(opts[1..])
  }

  /** Where option `k` of a written list starts. */
  ghost function OffsetOf(opts: seq<Opt>, k: nat): nat
    requires k <= |opts|
  {
    if k == 0 then 0 else 2 + |opts[0].data| + OffsetOf(opts[1..], k - 1)
  }

  /** The first option with that code, or the length of the list. */
  ghost function FirstWith(opts: seq<Opt>, cmd: Byte): (k: nat)
    ensures k <= |opts|
  {
    if opts == [] || opts[0].cmd == cmd then 0 else 1 + FirstWith(opts[1..], cmd)
  }

  /** What was written is found: the first option of that code, at the place where it was put,
      and nothing for a code that was not written. */
  lemma {:induction false} FindsWhatWasWritten(opt: Text, i: nat, opts: seq<Opt>, cmd: Byte)
    requires |opt| > OPTION_BYTES && Writable(opts) && cmd != OPT_END
    requires At(opt, i, Written(opts) + [OPT_END]) && i + |Written(opts)| < OPTION_BYTES
    ensures OptFind(opt, cmd, i)
         == if FirstWith(opts, cmd) < |opts| then Some(i + OffsetOf(opts, FirstWith(opts, cmd))) else None
    decreases |opts|
  {
    hide At, OptBytes;
    if opts == [] {
      AtByte(opt, i, [] + [OPT_END], 0);
    } else {
      HeadWritten(opt, i, opts);
      hide Written;
      if opts[0].cmd != cmd {
        FindsWhatWasWritten(opt, i + 2 + |opts[0].data|, opts[1..], cmd);
      }
    }
  }

  lemma HeadWritten(opt: Text, i: nat, opts: seq<Opt>)
    requires Writable(opts) && opts != [] && At(opt, i, Written(opts) + [OPT_END])
    ensures At(opt, i, OptBytes(opts[0])) && At(opt, i + |OptBytes(opts[0])|, Written(opts[1..]) + [OPT_END])
    ensures |OptBytes(opts[0])| == 2 + |opts[0].data|
    ensures i + 1 < |opt| && opt[i] == opts[0].cmd && opt[i + 1] == |opts[0].data|
    ensures |Written(opts)| == |OptBytes(opts[0])| + |Written(opts[1..])|
  {
    hide At;
    var head, rest := OptBytes(opts[0]), Written(opts[1..]) + [OPT_END];
    assert Written(opts) + [OPT_END] == head + rest;
    AtSplit(opt, i, head, rest);
    AtByte(opt, i, head, 0);
    AtByte(opt, i, head, 1);
  }

  /** And its bytes stand there. */
  lemma {:induction false} WrittenStaysAt(opt: Text, i: nat, opts: seq<Opt>, k: nat)
    requires Writable(opts) && k < |opts| && At(opt, i, Written(opts) + [OPT_END])
    ensures At(opt, i + OffsetOf(opts, k), OptBytes(opts[k]))
    decreases k
  {
    HeadWritten(opt, i, opts);
    if k > 0 {
      hide At, Written;
      WrittenStaysAt(opt, i + |OptBytes(opts[0])|, opts[1..], k - 1);
    }
  }

  // ---- what a reader of options sees ----

  /** An option list read by its tags and lengths (section 2 of RFC 2132): the data of the first option with
      that code. */
  ghost function Field(t: Text, code: nat): Option<Text>
    decreases |t|
  {
    if |t| < 2 || t[0] == 255 || |t| < 2 + t[1] as int then None
    else if t[0] as int == code then Some(t[2..2 + t[1] as int])
    else Field(t[2 + t[1] as int..], code)
  }

  lemma {:induction false} FieldOfWritten(opts: seq<Opt>, code: Byte, junk: Text)
    requires Writable(opts) && code != 255
    ensures Field(Written(opts) + [OPT_END] + junk, code)
         == if FirstWith(opts, code) < |opts| then Some(opts[FirstWith(opts, code)].data) else None
    decreases |opts|
  {
    hide Field, Written, Writable;
    var t := Written(opts) + [OPT_END] + junk;
    if opts == [] {
      FieldAtEnd(code, junk);
    } else {
      WrittenHead(opts);
      var o, rest := opts[0], Written(opts[1..]) + [OPT_END] + junk;
      FieldOfWritten(opts[1..], code, junk);
      assert t == [o.cmd, |o.data|] + (o.data + rest);
      FieldHead(o, rest, code);
    }
  }

  lemma FieldAtEnd(code: Byte, junk: Text)
    requires code != 255
    ensures Field(Written([]) + [OPT_END] + junk, code) == None
  {
    assert [] + [OPT_END] + junk == [OPT_END] + junk;
  }

  lemma FieldHead(o: Opt, rest: Text, code: Byte)
    requires o.cmd != OPT_END && |o.data| < 256 && code != 255
    ensures Field([o.cmd, |o.data|] + (o.data + rest), code)
         == if o.cmd == code then Some(o.data) else Field(rest, code)
  {
    var t := [o.cmd, |o.data|] + (o.data + rest);
    assert t[2..2 + |o.data|] == o.data && t[2 + |o.data|..] == rest;
  }

  lemma WrittenHead(opts: seq<Opt>)
    requires Writable(opts) && opts != []
    ensures Writable(opts[1..]) && Written(opts) == [opts[0].cmd, |opts[0].data|] + (opts[0].data + Written(opts[1..]))
    ensures opts[0].cmd != OPT_END && |opts[0].data| < 256
  {
  }

  /** The memory of a packet whose options are this list. */
  ghost predicate Packet(opt: Text, opts: seq<Opt>) {
    && |opt| >= OPTION_BYTES + 5 && Writable(opts) && |Written(opts)| < OPTION_BYTES
    && At(opt, 0, Written(opts) + [OPT_END])
  }

  /** The data of the first option with that code. */
  ghost function Carried(opts: seq<Opt>, code: Byte): Option<Text> {
    if FirstWith(opts, code) < |opts| then Some(opts[FirstWith(opts, code)].data) else None
  }

  // ---- the server ----

  /** A reply: its address and its options, up to their end. */
  datatype Reply = Reply(yiaddr: Text, options: Text)

  /** The options of a reply, in the order in which they are written over the request's. */
  function ReplyOptions(kind: Byte, ip: Text, mask: Text): seq<Opt> {
    [Opt(OPT_MSG_TYPE, [kind]), Opt(OPT_SERVER_ID, ip), Opt(OPT_SUBNET_MASK, mask), Opt(OPT_ROUTER, ip),
      Opt(OPT_DNS, ip),
     Opt(OPT_IP_LEASE_TIME, BigEndian(LEASE_MS / 1000))]
  }

  /** opt_write_u32 */
  function BigEndian(n: nat): (t: Text)
    ensures |t| == 4
    ensures n < WORD ==> n == 16777216 * (t[0] as int) + 65536 * (t[1] as int) + 256 * (t[2] as int) + t[3]
  {
    var a := n / 256;
    var b := a / 256;
    assert n == 256 * a + n % 256 && a == 256 * b + a % 256;
    [b / 256 % 256, b % 256, a % 256, n % 256]
  }

  function ReplyTo(kind: Byte, ip: Text, mask: Text, yi: nat): Reply
    requires |ip| == 4 && |mask| == 4 && yi < MAX_IP
  {
    Reply(Address(ip, yi), Written(ReplyOptions(kind, ip, mask)) + [OPT_END])
  }

  lemma NothingWritten()
    ensures Written([]) == []
  {
  }

  lemma {:induction false} WrittenMore(opts: seq<Opt>, o: Opt)
    requires Writable(opts) && o.cmd != OPT_END && |o.data| < 256
    ensures Writable(opts + [o]) && Written(opts + [o]) == Written(opts) + [o.cmd, |o.data|] + o.data
  {
    if opts == [] {
      assert [o][1..] == [] && [] + [o] == [o];
    } else {
      assert (opts + [o])[1..] == opts[1..] + [o];
      WrittenMore(opts[1..], o);
    }
  }

  lemma {:induction false} FirstWithIs(opts: seq<Opt>, k: nat)
    requires k < |opts| && forall i, j :: 0 <= i < j < |opts| ==> opts[i].cmd != opts[j].cmd
    ensures FirstWith(opts, opts[k].cmd) == k
  {
    if k > 0 { FirstWithIs(opts[1..], k - 1); }
  }

  /** What a client reads out of a reply, with the codes of RFC 2132: the kind, the server itself as
      server, router and name server, the mask, and the lease time in seconds. */
  lemma ReplyReads(kind: Byte, ip: Text, mask: Text, yi: nat, junk: Text) returns (seconds: Text)
    requires |ip| == 4 && |mask| == 4 && yi < MAX_IP
    ensures var t := ReplyTo(kind, ip, mask, yi).options + junk;
            && Field(t, 53) == Some([kind]) && Field(t, 54) == Some(ip) && Field(t, 1) == Some(mask)
            && Field(t, 3) == Some(ip) && Field(t, 6) == Some(ip) && Field(t, 51) == Some(seconds)
    ensures |seconds| == 4
    ensures 1000 * (16777216 * (seconds[0] as int) + 65536 * (seconds[1] as int) + 256 * (seconds[2] as int)
                    + seconds[3]) == LEASE_MS
    ensures ReplyTo(kind, ip, mask, yi).yiaddr == [ip[0], ip[1], ip[2], 16 + yi]
  {
    hide BigEndian, Field, FirstWith;
    var opts := ReplyOptions(kind, ip, mask);
    seconds := BigEndian(LEASE_MS / 1000);
    forall k: nat | k < 6
      ensures Field(Written(opts) + [OPT_END] + junk, opts[k].cmd) == Some(opts[k].data)
    {
      FirstWithIs(opts, k);
      FieldOfWritten(opts, opts[k].cmd, junk);
    }
    hide Written;
    assert opts[0].cmd == 53 && opts[1].cmd == 54 && opts[2].cmd == 1 && opts[3].cmd == 3 && opts[4].cmd == 6
      && opts[5].cmd == 51;
  }

  /** What the options of a packet ask for. */
  datatype Asks = Ignored | Discovering | Requesting(requested: Text)

  function Asked(opt: Text): (a: Asks)
    requires |opt| >= OPTION_BYTES + 5
    ensures a.Requesting? ==> |a.requested| == 4
  {
    match OptFind(opt, OPT_MSG_TYPE, 0)
    case None => Ignored
    case Some(i) =>
      if opt[i + 2] == DHCPDISCOVER then Discovering
      else if opt[i + 2] != DHCPREQUEST then Ignored
      else
        match OptFind(opt, OPT_REQUESTED_IP, 0)
        case None => Ignored
        case Some(o) => Requesting(opt[o + 2..o + 6])
  }

  /** The first option of a code stands where it is found. */
  lemma CarriedAt(opt: Text, opts: seq<Opt>, code: Byte)
    requires Packet(opt, opts) && code != 255
    ensures var r := OptFind(opt, code, 0);
            match Carried(opts, code)
            case None => r == None
            case Some(d) => r.Some? && At(opt, r.value + 2, d)
  {
    hide At, Written, OptFind;
    FindsWhatWasWritten(opt, 0, opts, code);
    var k := FirstWith(opts, code);
    if k < |opts| {
      WrittenStaysAt(opt, 0, opts, k);
      AtSplit(opt, OffsetOf(opts, k), [opts[k].cmd, |opts[k].data|], opts[k].data);
    }
  }

  /** What a packet asks for, with the codes of RFC 2132: 53 is the message type, 1 a discovery and 3 a
      request for the address in option 50. */
  lemma PacketAsks(opt: Text, opts: seq<Opt>)
    requires Packet(opt, opts)
    requires Carried(opts, 53).Some? ==> Carried(opts, 53).value != []
    requires Carried(opts, 50).Some? ==> |Carried(opts, 50).value| == 4
    ensures Asked(opt) == match Carried(opts, 53)
                          case None => Ignored
                          case Some(kind) =>
                            if kind[0] == 1 then Discovering
                            else if kind[0] != 3 || Carried(opts, 50).None? then Ignored
                            else Requesting(Carried(opts, 50).value)
  {
    hide Written, OptFind, Carried;
    CarriedAt(opt, opts, 53);
    CarriedAt(opt, opts, 50);
    if Carried(opts, 53).Some? { AtByte(opt, OptFind(opt, 53, 0).value + 2, Carried(opts, 53).value, 0); }
  }

  /** dhcp_server_process behind the length checks: the table and the reply, if any. */
  function Processed(l: seq<Lease>, ip: Text, mask: Text, chaddr: Text, opt: Text, readings: seq<nat>, t: nat)
    : (r: (seq<Lease>, Option<Reply>))
    requires Table(l) && |ip| == 4 && |mask| == 4 && |readings| == MAX_IP && |opt| >= OPTION_BYTES + 5
    ensures Table(r.0)
  {
    match Asked(opt)
    case Ignored => (l, None)
    case Discovering =>
      var (m, yi) := Search(l, chaddr, readings, 0, MAX_IP);
      (m, if yi == MAX_IP then None else Some(ReplyTo(DHCPOFFER, ip, mask, yi)))
    case Requesting(requested) =>
      match RequestedSlot(ip, requested)
      case None => (l, None)
      case Some(yi) =>
        match Grant(l, chaddr, yi, t)
        case None => (l, None)
        case Some(m) => (m, Some(ReplyTo(DHCPACK, ip, mask, yi)))
  }

  /** A discovery whose offer comes back in a request at once is acknowledged, with the address offered:
      whatever the packets hold besides. */
  lemma OfferThenRequest(l: seq<Lease>, ip: Text, mask: Text, chaddr: Text, readings: seq<nat>, t: nat,
                         discover: Text, first: seq<Opt>, request: Text, second: seq<Opt>) returns (yi: nat)
    requires Table(l) && |ip| == 4 && |mask| == 4 && |readings| == MAX_IP
    requires Packet(discover, first) && Carried(first, 53) == Some([1])
    requires Carried(first, 50).Some? ==> |Carried(first, 50).value| == 4
    requires Processed(l, ip, mask, chaddr, discover, readings, t).1.Some?
    requires Packet(request, second) && Carried(second, 53) == Some([3])
    requires Carried(second, 50) == Some(Processed(l, ip, mask, chaddr, discover, readings, t).1.value.yiaddr)
    ensures var (m, offer) := Processed(l, ip, mask, chaddr, discover, readings, t);
            var (n, ack) := Processed(m, ip, mask, chaddr, request, readings, t);
            && Field(offer.value.options, 53) == Some([2])
            && ack.Some? && Field(ack.value.options, 53) == Some([5]) && ack.value.yiaddr == offer.value.yiaddr
            && yi < MAX_IP && n == m[yi := Lease(chaddr, StoredExpiry(t))]
            && ack.value.yiaddr == [ip[0], ip[1], ip[2], 16 + yi]
  {
    hide Search, Packet, Carried, Field, StoredExpiry, Asked;
    PacketAsks(discover, first);
    PacketAsks(request, second);
    OfferIsAcknowledged(l, chaddr, readings, ip, t);
    yi := Search(l, chaddr, readings, 0, MAX_IP).1;
    hide RequestedSlot, Address;
    var offered := ReplyReads(DHCPOFFER, ip, mask, yi, []);
    var granted := ReplyReads(DHCPACK, ip, mask, yi, []);
    NoJunk(ReplyTo(DHCPOFFER, ip, mask, yi).options);
    NoJunk(ReplyTo(DHCPACK, ip, mask, yi).options);
  }

  /** The acknowledgements of a run are the replies to its requests: one with the address of its slot, or
      none. */
  lemma AcksAreReplies(s: State, ip: Text, mask: Text, mac: Text, opt: Text, readings: seq<nat>, t: nat)
    requires Table(s.lease) && |s.renewed| == MAX_IP && |ip| == 4 && |mask| == 4 && |readings| == MAX_IP
    requires |opt| >= OPTION_BYTES + 5 && Asked(opt).Requesting? && s.now <= t
    ensures var (l, reply) := Processed(s.lease, ip, mask, mac, opt, readings, t);
            var n := Next(s, ip, Request(mac, Asked(opt).requested, t));
            && l == n.lease
            && match reply
               case None => n.acks == s.acks
               case Some(r) =>
                 && n.acks != [] && n.acks[..|n.acks| - 1] == s.acks
                 && var a := n.acks[|n.acks| - 1];
                    a.mac == mac && a.time == t && a.slot < MAX_IP && r.yiaddr == [ip[0], ip[1], ip[2], 16 + a.slot]
                    && Field(r.options, 53) == Some([5])
  {
    hide Asked, StoredExpiry, Field, RequestedSlot;
    var slot := RequestedSlot(ip, Asked(opt).requested);
    if slot.Some? {
      var seconds := ReplyReads(DHCPACK, ip, mask, slot.value, []);
      NoJunk(ReplyTo(DHCPACK, ip, mask, slot.value).options);
      hide ReplyTo;
    }
  }

  lemma NoJunk(t: Text)
    ensures t + [] == t
  {
  }

  class Server {
    const ip: Text
    const mask: Text
    const lease: array<Lease>

    constructor (ip: Text, mask: Text)
      requires |ip| == 4 && |mask| == 4
      ensures this.ip == ip && this.mask == mask && lease.Length == MAX_IP && fresh(lease) && lease[..] == START.lease
    {
      this.ip, this.mask := ip, mask;
      lease := new Lease[MAX_IP](_ => Lease(NO_MAC, 0));
    }

    /** The DHCPDISCOVER branch: the lease array is searched, and expired entries cleared, in place. */
    method ProcessDiscover(chaddr: Text, readings: seq<nat>) returns (yi: nat)
      requires lease.Length == MAX_IP && |readings| == MAX_IP
      modifies lease
      ensures (lease[..], yi) == Search(old(lease[..]), chaddr, readings, 0, MAX_IP)
    {
      yi := MAX_IP;
      ghost var goal := Search(lease[..], chaddr, readings, 0, MAX_IP);
      var i := 0;
      while i < MAX_IP
        invariant i <= MAX_IP && yi <= MAX_IP
        invariant goal == Search(lease[..], chaddr, readings, i, yi)
      {
        if lease[i].mac == chaddr {
          yi := i;
          break;
        }
        if yi == MAX_IP {
          if lease[i].mac == NO_MAC { yi := i; }
          if Expired(lease[i].expiry, readings[i]) {
            ghost var before := lease[..];
            lease[i] := lease[i].(mac := NO_MAC);
            assert lease[..] == before[i := lease[i]];
            yi := i;
          }
        }
        i := i + 1;
      }
    }

    /** The DHCPREQUEST branch. */
    method ProcessRequest(chaddr: Text, requested: Text, t: nat) returns (yi: Option<nat>)
      requires lease.Length == MAX_IP && |ip| == 4 && |requested| == 4
      modifies lease
      ensures yi.None? ==> lease[..] == old(lease[..])
      ensures yi.None? <==> (RequestedSlot(ip, requested).None?
                             || Grant(old(lease[..]), chaddr, RequestedSlot(ip, requested).value, t).None?)
      ensures yi.Some? ==>
              RequestedSlot(ip, requested) == yi && Some(lease[..]) == Grant(old(lease[..]), chaddr, yi.value, t)
    {
      if requested[..3] != ip[..3] { return None; }
      var slot := (requested[3] as int - BASE_IP) % 256;
      if slot >= MAX_IP { return None; }
      if lease[slot].mac == chaddr {
      } else if lease[slot].mac == NO_MAC {
        lease[slot] := lease[slot].(mac := chaddr);
      } else {
        return None;
      }
      lease[slot] := lease[slot].(expiry := StoredExpiry(t));
      assert lease[..] == old(lease[..])[slot := Lease(chaddr, StoredExpiry(t))];
      return Some(slot);
    }

    /** opt_write_n, and with its data opt_write_u8 and opt_write_u32: one option behind those written. */
    method WriteOption(t: Text, o: Opt, ghost before: seq<Opt>) returns (u: Text)
      requires Writable(before) && t == Written(before) && o.cmd != OPT_END && |o.data| < 256
      ensures u == Written(before + [o])
    {
      WrittenMore(before, o);
      u := t + [o.cmd, |o.data|] + o.data;
    }

    /** The tail of dhcp_server_process: the options of the reply one by one. */
    method Answer(kind: Byte, yi: nat) returns (reply: Reply)
      requires |ip| == 4 && |mask| == 4 && yi < MAX_IP
      ensures reply == ReplyTo(kind, ip, mask, yi)
    {
      hide BigEndian, Written;
      NothingWritten();
      var t := [];
      t := WriteOption(t, Opt(OPT_MSG_TYPE, [kind]), []);
      ghost var done := [Opt(OPT_MSG_TYPE, [kind])];
      assert [] + done == done;
      t := WriteOption(t, Opt(OPT_SERVER_ID, ip), done);
      done := done + [Opt(OPT_SERVER_ID, ip)];
      t := WriteOption(t, Opt(OPT_SUBNET_MASK, mask), done);
      done := done + [Opt(OPT_SUBNET_MASK, mask)];
      t := WriteOption(t, Opt(OPT_ROUTER, ip), done);
      done := done + [Opt(OPT_ROUTER, ip)];
      t := WriteOption(t, Opt(OPT_DNS, ip), done);
      done := done + [Opt(OPT_DNS, ip)];
      t := WriteOption(t, Opt(OPT_IP_LEASE_TIME, BigEndian(LEASE_MS / 1000)), done);
      done := done + [Opt(OPT_IP_LEASE_TIME, BigEndian(LEASE_MS / 1000))];
      assert done == ReplyOptions(kind, ip, mask);
      reply := Reply(ip[..3] + [BASE_IP + yi], t + [OPT_END]);
    }

    /** dhcp_server_process behind the length checks. `opt` is the memory from the first option on. */
    method Process(chaddr: Text, opt: Text, readings: seq<nat>, t: nat) returns (reply: Option<Reply>)
      requires lease.Length == MAX_IP && |ip| == 4 && |mask| == 4 && |readings| == MAX_IP
      requires |opt| >= OPTION_BYTES + 5
      modifies lease
      ensures (lease[..], reply) == Processed(old(lease[..]), ip, mask, chaddr, opt, readings, t)
    {
      hide Search, Grant, StoredExpiry, RequestedSlot, ReplyTo;
      reply := None;
      var kindAt := OptFind(opt, OPT_MSG_TYPE, 0);
      if kindAt.None? { return; }
      var kind := opt[kindAt.value + 2];
      if kind == DHCPDISCOVER {
        var yi := ProcessDiscover(chaddr, readings);
        if yi == MAX_IP { return; }
        var r := Answer(DHCPOFFER, yi);
        reply := Some(r);
      } else if kind == DHCPREQUEST {
        var o := OptFind(opt, OPT_REQUESTED_IP, 0);
        if o.None? { return; }
        var yi := ProcessRequest(chaddr, opt[o.value + 2..o.value + 6], t);
        if yi.None? { return; }
        var r := Answer(DHCPACK, yi.value);
        reply := Some(r);
      }
    }
  }
}
