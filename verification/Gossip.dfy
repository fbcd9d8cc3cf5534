/** The buddy protocol as a step system: local increments, the main loop's broadcast decision,
    and exchanges for the requests of a broadcast, in any order and interleaving. */
module Gossip {
  import Bytes
  import opened JsonValue
  import opened Mirror

  /** A request of a running broadcast that is not answered yet. All requests of a broadcast are made
      from the mirror at the time of the broadcast. */
  datatype Request = Request(to: nat, message: Value)
  /** `last` is last_update_count of the main loop. `told` is kept for the proofs: the devices that the last
      broadcast was for. */
  datatype Node = Node(mirror: Value, last: int, told: seq<nat>, pending: seq<Request>)
  type System = seq<Node>
  /** The name of each device. */
  type Names = seq<Bytes.Text>

  /** `late` are the other requests of the node that leave only after the reply: when it brings the buddy's
      JSON, they carry that. `back` are the buddy's own requests that leave only after it has served this
      one: they carry what the buddy has by then. `Lose` is the end of a request that its buddy never
      handles. */
  datatype Step =
    | Increment(node: nat)
    | Poll(node: nat)
    | Deliver(node: nat, k: nat, late: set<nat>, back: set<nat>)
    | Lose(node: nat, k: nat)

  function CountOf(n: Node): int { Count(n.mirror) }

  // ---- buddies ----

  /** The device with that name, or the number of devices. */
  function Resolve(names: Names, name: Bytes.Text): (v: nat)
    ensures v <= |names| && (v < |names| ==> names[v] == name)
    ensures forall k :: 0 <= k < v ==> names[k] != name
  {
    if names == [] || names[0] == name then 0 else 1 + Resolve(names[1..], name)
  }

  /** The devices that node `u` opens a connection to for a list of names: its own name is skipped, and a
      name that nobody has gets no connection. */
  function Buddies(names: Names, u: nat, list: seq<Bytes.Text>): (bs: seq<nat>)
    requires u < |names|
    ensures |bs| <= |list|
    ensures forall k :: 0 <= k < |bs| ==> bs[k] < |names| && bs[k] != u && names[bs[k]] in list
  {
    if list == [] then []
    else
      var v, rest := Resolve(names, list[0]), Buddies(names, u, list[1..]);
      if list[0] == names[u] || v == |names| then rest else [v] + rest
  }

  /** The buddies of node `u` with the JSON `m`. */
  function BuddiesIn(names: Names, u: nat, m: Value): seq<nat>
    requires u < |names|
  {
    Buddies(names, u, ListedNames(m))
  }

  // ---- steps ----

  /** The requests that the broadcast of `m` sends. */
  function Requests(buddies: seq<nat>, m: Value): (rs: seq<Request>)
    ensures |rs| == |buddies| && forall k :: 0 <= k < |buddies| ==> rs[k] == Request(buddies[k], m)
  {
    seq(|buddies|, k requires 0 <= k < |buddies| => Request(buddies[k], m))
  }

  function Without(rs: seq<Request>, k: nat): (ts: seq<Request>)
    requires k < |rs|
    ensures |ts| == |rs| - 1
    ensures forall i :: 0 <= i < |ts| ==> ts[i] == rs[if i < k then i else i + 1]
  {
    rs[..k] + rs[k + 1..]
  }

  /** The same requests, some of them with another message. */
  function Redirected(rs: seq<Request>, which: set<nat>, m: Value): (ts: seq<Request>)
    ensures |ts| == |rs| && forall k :: 0 <= k < |rs| ==> ts[k] == if k in which then Request(rs[k].to, m) else rs[k]
  {
    seq(|rs|, k requires 0 <= k < |rs| => if k in which then Request(rs[k].to, m) else rs[k])
  }

  /** The requests left after an answer to request `k` by a buddy with the JSON `answer`. */
  function Remaining(rs: seq<Request>, k: nat, answer: Value, late: set<nat>): (ts: seq<Request>)
    requires k < |rs|
    ensures |ts| == |rs| - 1
    ensures forall i :: 0 <= i < |ts| ==> ts[i].to == rs[if i < k then i else i + 1].to
    ensures forall i :: 0 <= i < |ts| ==> ts[i].message == rs[if i < k then i else i + 1].message
                                          || (ts[i].message == answer && Count(rs[k].message) < Count(answer))
  {
    Without(if Count(rs[k].message) < Count(answer) then Redirected(rs, late, answer) else rs, k)
  }

  /** Increment: the counter is not at its largest value. Poll: the main loop sees a new count.
      Deliver: a complete exchange, so the messages that it needs fit their buffers. */
  predicate Enabled(s: System, step: Step) {
    step.node < |s| &&
    var n := s[step.node];
    match step
    case Increment(_) => CountOf(n) < INT_MAX
    case Poll(_) => n.pending == [] && n.last != CountOf(n)
    case Lose(_, k) => k < |n.pending|
    case Deliver(_, k, _, _) =>
      k < |n.pending| &&
      var r := n.pending[k];
      r.to < |s| && r.to != step.node && Fits(r.message)
        && (CountOf(s[r.to]) <= Count(r.message) || Fits(s[r.to].mirror))
  }

  function Take(s: System, names: Names, step: Step): (t: System)
    requires |s| == |names| && Enabled(s, step)
    ensures |t| == |s|
  {
    var u := step.node;
    var n := s[u];
    match step
    case Increment(_) => s[u := n.(mirror := Mirror.Increment(n.mirror))]
    case Poll(_) =>
      // A mirror that does not fit is not sent to anyone.
      var told := BuddiesIn(names, u, n.mirror);
      s[u := n.(last := CountOf(n), told := told, pending := if Fits(n.mirror) then Requests(told, n.mirror) else [])]
    case Lose(_, k) => s[u := n.(pending := Without(n.pending, k))]
    case Deliver(_, k, late, back) =>
      var r := n.pending[k];
      var b := s[r.to];
      var now := Fresher(r.message, b.mirror);
      s[u := n.(mirror := Answered(n.mirror, r.message, b.mirror), pending := Remaining(n.pending, k, b.mirror, late))]
       [r.to := b.(mirror := now, pending := Redirected(b.pending, back, now))]
  }

  /** `t` is reached from `s` by `steps`. */
  ghost predicate Run(s: System, names: Names, steps: seq<Step>, t: System)
    requires |s| == |names|
    decreases |steps|
  {
    if steps == [] then t == s
    else Enabled(s, steps[0]) && Run(Take(s, names, steps[0]), names, steps[1..], t)
  }

  // ---- what every step keeps ----

  ghost predicate NodeSound(n: Node) {
    Sound(n.mirror) && forall k :: 0 <= k < |n.pending| ==> Sound(n.pending[k].message)
  }

  ghost predicate AllSound(s: System) {
    forall u :: 0 <= u < |s| ==> NodeSound(s[u])
  }

  ghost predicate Waiting(rs: seq<Request>, v: nat) {
    exists k :: 0 <= k < |rs| && rs[k].to == v
  }

  /** Requests for `buddies` that carry version `last` or a newer one. */
  ghost predicate Carry(rs: seq<Request>, buddies: seq<nat>, last: int) {
    forall k :: 0 <= k < |rs| ==> rs[k].to in buddies && Count(rs[k].message) >= last
  }

  /** What every step keeps, whatever is lost: a broadcast is not ahead of its node and is for other
      devices, and its requests go to those and carry its version or a newer one. */
  ghost predicate NodeOrdered(s: System, u: nat)
    requires u < |s|
  {
    && s[u].last <= CountOf(s[u])
    && (forall k :: 0 <= k < |s[u].told| ==> s[u].told[k] < |s| && s[u].told[k] != u)
    && Carry(s[u].pending, s[u].told, s[u].last)
  }

  ghost predicate Ordered(s: System) {
    forall u :: 0 <= u < |s| ==> NodeOrdered(s, u)
  }

  /** Besides, everyone that a broadcast is not still waiting for is not behind it. */
  ghost predicate Spread(s: System) {
    && Ordered(s)
    && (forall u, v: nat :: 0 <= u < |s| && v < |s| && v in s[u].told && !Waiting(s[u].pending, v) ==>
          s[u].last <= CountOf(s[v]))
  }

  ghost predicate Inv(s: System) {
    AllSound(s) && Spread(s)
  }

  /** Devices start with a sound mirror and a broadcast count of zero. */
  lemma InitiallyInv(s: System)
    requires AllSound(s)
    requires forall u :: 0 <= u < |s| ==> s[u].last == 0 && s[u].told == [] && s[u].pending == []
    ensures Inv(s)
  {
    hide Count, Sound;
    forall u | 0 <= u < |s| ensures s[u].last <= CountOf(s[u]) { CountPositive(s[u]); }
  }

  lemma CountPositive(n: Node)
    requires NodeSound(n)
    ensures CountOf(n) >= 1
  {
    hide Count;
  }

  /** The bytes of an exchange have exactly the effect of the Deliver step (tcp_json.c, json_handler.c). */
  lemma DeliverIsExchange(s: System, names: Names, u: nat, k: nat, late: set<nat>, back: set<nat>,
                          serverJunk: Bytes.Text, clientJunk: Bytes.Text)
    requires |s| == |names| && Enabled(s, Deliver(u, k, late, back)) && AllSound(s)
    ensures var r, t := s[u].pending[k], Take(s, names, Deliver(u, k, late, back));
            Exchange(s[u].mirror, r.message, s[r.to].mirror, serverJunk, clientJunk)
            == Bytes.Some((Bytes.Some(t[u].mirror), Bytes.Some(t[r.to].mirror)))
  {
    hide Sound, Count, Fits, Exchange;
    assert NodeSound(s[u]) && NodeSound(s[s[u].pending[k].to]);
    ExchangeResult(s[u].mirror, s[u].pending[k].message, s[s[u].pending[k].to].mirror, serverJunk, clientJunk);
  }

  /** What a delivery leaves of the requests: the one answered is gone, later ones of the same node carry the
      answer when it is fresher and they were caught by it, those of the server that were caught carry its JSON of
      now, and nothing else changes. */
  lemma DeliverLeaves(s: System, names: Names, u: nat, k: nat, late: set<nat>, back: set<nat>)
    requires |s| == |names| && Enabled(s, Deliver(u, k, late, back))
    ensures var t, r := Take(s, names, Deliver(u, k, late, back)), s[u].pending[k];
            var v, answer := r.to, s[r.to].mirror;
            && |t[u].pending| == |s[u].pending| - 1 && |t[v].pending| == |s[v].pending|
            && (forall i :: 0 <= i < |s[u].pending| && i != k ==>
                  t[u].pending[if i < k then i else i - 1]
                  == Request(s[u].pending[i].to, if i in late && Count(answer) > Count(r.message) then answer
                                                 else s[u].pending[i].message))
            && (forall i :: 0 <= i < |s[v].pending| ==>
                  t[v].pending[i] == Request(s[v].pending[i].to, if i in back then t[v].mirror
                                                                 else s[v].pending[i].message))
            && t[u].last == s[u].last && t[u].told == s[u].told && t[v].last == s[v].last && t[v].told == s[v].told
            && forall w: nat :: w < |s| && w != u && w != v ==> t[w] == s[w]
  {
    hide Count, Fits, Answered, Fresher, Remaining, Redirected, Take;
    var v, answer := s[u].pending[k].to, s[s[u].pending[k].to].mirror;
    var now := Fresher(s[u].pending[k].message, answer);
    TakesDelivery(s, names, u, k, late, back);
    RemainingAre(s[u].pending, k, answer, late);
    RedirectedAre(s[v].pending, back, now);
  }

  lemma TakesDelivery(s: System, names: Names, u: nat, k: nat, late: set<nat>, back: set<nat>)
    requires |s| == |names| && Enabled(s, Deliver(u, k, late, back))
    ensures var t, r := Take(s, names, Deliver(u, k, late, back)), s[u].pending[k];
            var v := r.to;
            && t[u].pending == Remaining(s[u].pending, k, s[v].mirror, late)
            && t[v].mirror == Fresher(r.message, s[v].mirror)
            && t[v].pending == Redirected(s[v].pending, back, t[v].mirror)
            && t[u].last == s[u].last && t[u].told == s[u].told && t[v].last == s[v].last && t[v].told == s[v].told
            && forall w: nat :: w < |s| && w != u && w != v ==> t[w] == s[w]
  {
    hide Count, Fits, Answered, Fresher, Remaining, Redirected;
  }

  lemma RemainingAre(rs: seq<Request>, k: nat, answer: Value, late: set<nat>)
    requires k < |rs|
    ensures forall i :: 0 <= i < |rs| && i != k ==>
              Remaining(rs, k, answer, late)[if i < k then i else i - 1]
              == Request(rs[i].to, if i in late && Count(answer) > Count(rs[k].message) then answer else rs[i].message)
  {
    hide Count, Without, Redirected;
    var ts := if Count(rs[k].message) < Count(answer) then Redirected(rs, late, answer) else rs;
    forall i | 0 <= i < |rs| && i != k ensures Without(ts, k)[if i < k then i else i - 1] == ts[i] {
      WithoutAt(ts, k, i);
    }
    RedirectedAre(rs, late, answer);
  }

  lemma WithoutAt(rs: seq<Request>, k: nat, i: nat)
    requires k < |rs| && i < |rs| && i != k
    ensures Without(rs, k)[if i < k then i else i - 1] == rs[i]
  {
  }

  lemma RedirectedAre(rs: seq<Request>, which: set<nat>, m: Value)
    ensures forall i :: 0 <= i < |rs| ==>
              Redirected(rs, which, m)[i] == Request(rs[i].to, if i in which then m else rs[i].message)
  {
  }

  lemma SoundStep(s: System, names: Names, step: Step)
    requires |s| == |names| && AllSound(s) && Enabled(s, step)
    ensures AllSound(Take(s, names, step))
    ensures forall u :: 0 <= u < |s| ==> CountOf(s[u]) <= CountOf(Take(s, names, step)[u])
  {
    hide Sound, Count, Mirror.Increment, Fits, Without, Requests, BuddiesIn;
    assert NodeSound(s[step.node]);
    if step.Increment? { IncrementAddsOne(s[step.node].mirror); }
    if step.Deliver? {
      SoundDelivery(s, names, step);
      hide Take, Remaining, Redirected;
    }
  }

  lemma SoundDelivery(s: System, names: Names, step: Step)
    requires |s| == |names| && AllSound(s) && Enabled(s, step) && step.Deliver?
    ensures AllSound(Take(s, names, step))
    ensures forall u :: 0 <= u < |s| ==> CountOf(s[u]) <= CountOf(Take(s, names, step)[u])
  {
    hide Sound, Count, Fits, Without;
    var t, u, v := Take(s, names, step), step.node, s[step.node].pending[step.k].to;
    assert NodeSound(s[u]) && NodeSound(s[v]);
    assert NodeSound(t[u]);
    assert NodeSound(t[v]);
  }

  lemma NobodyWaits(v: nat)
    ensures !Waiting([], v)
  {
  }

  lemma AnotherRequest(rs: seq<Request>, k: nat)
    requires k < |rs|
    ensures Waiting(Without(rs, k), rs[k].to) <==> exists i :: 0 <= i < |rs| && i != k && rs[i].to == rs[k].to
  {
    var ts := Without(rs, k);
    if Waiting(ts, rs[k].to) {
      var j :| 0 <= j < |ts| && ts[j].to == rs[k].to;
      assert rs[if j < k then j else j + 1].to == rs[k].to;
    }
    if i :| 0 <= i < |rs| && i != k && rs[i].to == rs[k].to {
      assert ts[if i < k then i else i - 1].to == rs[k].to;
    }
  }

  lemma RequestsWait(buddies: seq<nat>, m: Value, v: nat)
    requires v in buddies
    ensures Waiting(Requests(buddies, m), v)
  {
    var k :| 0 <= k < |buddies| && buddies[k] == v;
    assert Requests(buddies, m)[k].to == v;
  }

  lemma WaitsForBuddies(names: Names, u: nat, m: Value, v: nat)
    requires u < |names|
    ensures v in BuddiesIn(names, u, m) ==> Waiting(Requests(BuddiesIn(names, u, m), m), v)
  {
    if v in BuddiesIn(names, u, m) { RequestsWait(BuddiesIn(names, u, m), m, v); }
  }

  /** Requests to the same devices. */
  ghost predicate Alike(rs: seq<Request>, ts: seq<Request>) {
    |rs| == |ts| && forall k :: 0 <= k < |rs| ==> rs[k].to == ts[k].to
  }

  lemma WaitingAlike(rs: seq<Request>, ts: seq<Request>, v: nat)
    requires Alike(rs, ts)
    ensures Waiting(rs, v) <==> Waiting(ts, v)
  {
    if Waiting(rs, v) { var k :| 0 <= k < |rs| && rs[k].to == v; assert ts[k].to == v; }
    if Waiting(ts, v) { var k :| 0 <= k < |ts| && ts[k].to == v; assert rs[k].to == v; }
  }

  /** What a delivery does to counters and requests. */
  lemma Delivered(s: System, names: Names, u: nat, k: nat, late: set<nat>, back: set<nat>)
    requires |s| == |names| && Enabled(s, Deliver(u, k, late, back))
    ensures u < |s| && k < |s[u].pending| && s[u].pending[k].to < |s|
    ensures var t, r := Take(s, names, Deliver(u, k, late, back)), s[u].pending[k];
            && (forall w :: 0 <= w < |s| ==> CountOf(s[w]) <= CountOf(t[w]) && s[w].last == t[w].last)
            && (forall w :: 0 <= w < |s| && w != u ==> Alike(t[w].pending, s[w].pending))
            && t[u].pending == Remaining(s[u].pending, k, s[r.to].mirror, late) && Count(r.message) <= CountOf(t[r.to])
  {
    hide Count, Fits;
  }

  /** A mirror that is broadcast can be sent, unless no buddy needs it; and a request that is lost is
      not needed any more. */
  predicate Smooth(s: System, names: Names, step: Step)
    requires |s| == |names| && Enabled(s, step)
  {
    var n := s[step.node];
    match step
    case Poll(u) =>
      Fits(n.mirror)
      || forall v :: 0 <= v < |s| && v in BuddiesIn(names, u, n.mirror) ==> CountOf(n) <= CountOf(s[v])
    case Lose(u, k) =>
      var to := n.pending[k].to;
      (to < |s| && n.last <= CountOf(s[to])) || exists i :: 0 <= i < |n.pending| && i != k && n.pending[i].to == to
    case _ => true
  }

  // ---- what a device owes its buddies ----

  /** Node `u` has broadcast a version that its buddy `v` does not have, and no request brings it. */
  ghost predicate Owes(s: System, u: nat, v: nat) {
    u < |s| && v < |s| && v in s[u].told && !Waiting(s[u].pending, v) && s[u].last > CountOf(s[v])
  }

  /** The invariant says that nothing is owed. */
  lemma InvOwesNothing(s: System)
    requires AllSound(s)
    ensures Inv(s) <==> Ordered(s) && forall u: nat, v: nat :: !Owes(s, u, v)
  {
    hide AllSound, CountOf, Count, Waiting;
    if Ordered(s) && forall u: nat, v: nat :: !Owes(s, u, v) {
      forall u, v: nat | 0 <= u < |s| && v < |s| && v in s[u].told && !Waiting(s[u].pending, v)
        ensures s[u].last <= CountOf(s[v])
      {
        assert !Owes(s, u, v);
      }
    }
  }

  lemma FewerCarry(rs: seq<Request>, k: nat, answer: Value, late: set<nat>, buddies: seq<nat>, last: int)
    requires k < |rs| && Carry(rs, buddies, last)
    ensures Carry(Without(rs, k), buddies, last) && Carry(Remaining(rs, k, answer, late), buddies, last)
  {
    hide Count;
    var ts := Without(rs, k);
    assert Count(rs[k].message) >= last;
    assert forall i :: 0 <= i < |ts| ==> ts[i] == rs[if i < k then i else i + 1];
  }

  lemma RedirectedCarry(rs: seq<Request>, which: set<nat>, m: Value, buddies: seq<nat>, last: int)
    requires Carry(rs, buddies, last) && Count(m) >= last
    ensures Carry(Redirected(rs, which, m), buddies, last)
  {
    hide Count;
  }

  lemma PollOrders(s: System, names: Names, u: nat)
    requires |s| == |names| && Enabled(s, Poll(u))
    ensures u < |s| && NodeOrdered(Take(s, names, Poll(u)), u)
  {
    hide Count, Fits, Resolve, ListedNames;
  }

  /** Apart from its own broadcast a node keeps what it has broadcast, and its requests still carry that. */
  lemma StepCarries(s: System, names: Names, step: Step, w: nat)
    requires |s| == |names| && Enabled(s, step) && step != Poll(w) && w < |s| && NodeOrdered(s, w)
    ensures var n := Take(s, names, step)[w];
            n.last == s[w].last && n.told == s[w].told && Carry(n.pending, n.told, n.last)
  {
    hide Count, Fits, Mirror.Increment, Remaining, Without, Redirected, Carry, BuddiesIn, Requests;
    match step
    case Increment(_) =>
    case Poll(_) =>
    case Lose(u, k) => if w == u { FewerCarry(s[w].pending, k, s[w].mirror, {}, s[w].told, s[w].last); }
    case Deliver(u, k, late, back) =>
      if w == u {
        FewerCarry(s[w].pending, k, s[s[w].pending[k].to].mirror, late, s[w].told, s[w].last);
      } else if w == s[u].pending[k].to {
        RedirectedCarry(s[w].pending, back, Fresher(s[u].pending[k].message, s[w].mirror), s[w].told, s[w].last);
      }
  }

  lemma StepKeepsOrdered(s: System, names: Names, step: Step)
    requires |s| == |names| && AllSound(s) && Ordered(s) && Enabled(s, step)
    ensures Ordered(Take(s, names, step))
  {
    hide CountOf, Take, Enabled, AllSound, Carry;
    var t := Take(s, names, step);
    SoundStep(s, names, step);
    forall w: nat | w < |t| ensures NodeOrdered(t, w) {
      assert NodeOrdered(s, w);
      if step == Poll(w) { PollOrders(s, names, w); } else { StepCarries(s, names, step, w); }
    }
  }

  /** Exactly what `u` owes `v` after a step. */
  lemma OwesAfter(s: System, names: Names, step: Step, u: nat, v: nat)
    requires |s| == |names| && Ordered(s) && Enabled(s, step) && u < |s| && v < |s|
    ensures var t := Take(s, names, step);
            Owes(t, u, v) <==>
            if step == Poll(u) then
              v in BuddiesIn(names, u, s[u].mirror) && !Fits(s[u].mirror) && CountOf(s[u]) > CountOf(s[v])
            else if step.Lose? && step.node == u && s[u].pending[step.k].to == v then
              !Waiting(Without(s[u].pending, step.k), v) && s[u].last > CountOf(s[v])
            else v in s[u].told && !Waiting(s[u].pending, v) && s[u].last > CountOf(t[v])
  {
    hide Count, Fits, Mirror.Increment, Waiting, Remaining;
    var t := Take(s, names, step);
    assert NodeOrdered(s, u);
    match step
    case Increment(w) =>
    case Poll(w) =>
      if w == u { if Fits(s[u].mirror) { WaitsForBuddies(names, u, s[u].mirror, v); } else { NobodyWaits(v); } }
    case Lose(w, k) =>
      if w == u && s[u].pending[k].to != v { WaitingAfter(s[u].pending, t[u].pending, k, v); }
    case Deliver(w, k, late, back) =>
      Delivered(s, names, w, k, late, back);
      if w == u {
        if s[u].pending[k].to == v {
          assert Count(s[u].pending[k].message) >= s[u].last;
          IsWaiting(s[u].pending, k);
        } else {
          WaitingAfter(s[u].pending, t[u].pending, k, v);
        }
      } else {
        WaitingAlike(t[u].pending, s[u].pending, v);
      }
  }

  lemma IsWaiting(rs: seq<Request>, k: nat)
    requires k < |rs|
    ensures Waiting(rs, rs[k].to)
  {
  }

  lemma WaitingAfter(rs: seq<Request>, ts: seq<Request>, k: nat, v: nat)
    requires k < |rs| && v != rs[k].to && |ts| == |rs| - 1
    requires forall i :: 0 <= i < |ts| ==> ts[i].to == rs[if i < k then i else i + 1].to
    ensures Waiting(ts, v) <==> Waiting(rs, v)
  {
    if Waiting(rs, v) {
      var i :| 0 <= i < |rs| && rs[i].to == v;
      assert ts[if i < k then i else i - 1].to == rs[i].to;
    }
    if Waiting(ts, v) {
      var i :| 0 <= i < |ts| && ts[i].to == v;
      assert rs[if i < k then i else i + 1].to == v;
    }
  }

  /** Only a broadcast that cannot be sent, or the loss of a request that is still needed, makes a debt. */
  lemma OwedByUnsmooth(s: System, names: Names, step: Step, u: nat, v: nat)
    requires |s| == |names| && AllSound(s) && Ordered(s) && Enabled(s, step)
    requires Owes(Take(s, names, step), u, v) && !Owes(s, u, v)
    ensures step.node == u && (step.Poll? || step.Lose?) && !Smooth(s, names, step)
  {
    hide Count, Fits, Waiting, Take, Enabled, CountOf, AllSound;
    SoundStep(s, names, step);
    OwesAfter(s, names, step, u, v);
    if step.Lose? && step.node == u { LoseBounds(s, names, u, step.k); AnotherRequest(s[u].pending, step.k); }
  }

  lemma LoseBounds(s: System, names: Names, u: nat, k: nat)
    requires |s| == |names| && Enabled(s, Lose(u, k))
    ensures u < |s| && k < |s[u].pending|
  {
  }

  /** And such a step always makes one. */
  lemma UnsmoothOwes(s: System, names: Names, step: Step) returns (v: nat)
    requires |s| == |names| && Ordered(s) && Enabled(s, step) && !Smooth(s, names, step)
    ensures Owes(Take(s, names, step), step.node, v)
  {
    hide Count, Fits, Waiting, Take, Sound, Owes;
    var u := step.node;
    if step.Poll? {
      v :| 0 <= v < |s| && v in BuddiesIn(names, u, s[u].mirror) && CountOf(s[u]) > CountOf(s[v]);
    } else {
      AnotherRequest(s[u].pending, step.k);
      v := s[u].pending[step.k].to;
      assert NodeOrdered(s, u) && v in s[u].told;
    }
    OwesAfter(s, names, step, u, v);
  }

  /** A debt is gone when the buddy has got that version, from wherever, or with the next broadcast. */
  lemma OwedUntil(s: System, names: Names, step: Step, u: nat, v: nat)
    requires |s| == |names| && AllSound(s) && Ordered(s) && Enabled(s, step) && Owes(s, u, v)
    ensures var t := Take(s, names, step);
            step != Poll(u) ==> (Owes(t, u, v) <==> CountOf(t[v]) < s[u].last)
  {
    hide Count, Fits, Waiting, Take, CountOf, AllSound;
    OwesAfter(s, names, step, u, v);
    if step.Lose? && step.node == u && s[u].pending[step.k].to == v { IsWaiting(s[u].pending, step.k); }
  }

  /** A step keeps the invariant exactly when it is smooth. */
  lemma StepKeepsInv(s: System, names: Names, step: Step)
    requires |s| == |names| && Inv(s) && Enabled(s, step)
    ensures Inv(Take(s, names, step)) <==> Smooth(s, names, step)
  {
    hide Spread, Ordered, Take, Sound, Count, Fits, AllSound, Owes, Smooth, Enabled;
    var t := Take(s, names, step);
    SoundStep(s, names, step);
    InvOwesNothing(s);
    StepKeepsOrdered(s, names, step);
    InvOwesNothing(t);
    if Smooth(s, names, step) {
      forall u: nat, v: nat ensures !Owes(t, u, v) {
        if Owes(t, u, v) { OwedByUnsmooth(s, names, step, u, v); }
      }
    } else {
      var v := UnsmoothOwes(s, names, step);
    }
  }

  // ---- runs ----

  ghost predicate AllSmooth(s: System, names: Names, steps: seq<Step>)
    requires |s| == |names|
    decreases |steps|
  {
    steps == [] || (Enabled(s, steps[0]) ==>
      Smooth(s, names, steps[0]) && AllSmooth(Take(s, names, steps[0]), names, steps[1..]))
  }

  lemma {:induction false} RunKeepsInv(s: System, names: Names, steps: seq<Step>, t: System)
    requires |s| == |names| && Inv(s) && Run(s, names, steps, t) && AllSmooth(s, names, steps)
    ensures Inv(t)
    decreases |steps|
  {
    hide Take, Enabled, Inv, Fits;
    if steps != [] {
      InvSound(s);
      StepKeepsInv(s, names, steps[0]);
      RunKeepsInv(Take(s, names, steps[0]), names, steps[1..], t);
    }
  }

  /** No counter ever goes down, whatever is lost. */
  lemma {:induction false} CountsNeverDecrease(s: System, names: Names, steps: seq<Step>, t: System)
    requires |s| == |names| && AllSound(s) && Run(s, names, steps, t)
    ensures |t| == |s| && AllSound(t)
    ensures forall u :: 0 <= u < |s| ==> CountOf(s[u]) <= CountOf(t[u])
    decreases |steps|
  {
    if steps != [] {
      var r := Take(s, names, steps[0]);
      SoundStep(s, names, steps[0]);
      CountsNeverDecrease(r, names, steps[1..], t);
    }
  }

  /** Whatever was lost on the way: what is owed in the end goes back to an unsmooth step of the debtor. */
  lemma {:induction false} OwedHasCause(s: System, names: Names, steps: seq<Step>, t: System, u: nat, v: nat)
    returns (i: nat, mid: System)
    requires |s| == |names| && AllSound(s) && Ordered(s) && Run(s, names, steps, t)
    requires !Owes(s, u, v) && |t| == |names| && Owes(t, u, v)
    ensures i < |steps| && |mid| == |names| && Run(s, names, steps[..i], mid)
    ensures Enabled(mid, steps[i]) && steps[i].node == u && !Smooth(mid, names, steps[i])
    decreases |steps|
  {
    hide Take, Enabled, Owes, AllSound, Ordered, Smooth;
    assert steps != [];
    var r := Take(s, names, steps[0]);
    if Owes(r, u, v) {
      OwedByUnsmooth(s, names, steps[0], u, v);
      i, mid := 0, s;
      assert steps[..0] == [];
    } else {
      SoundStep(s, names, steps[0]);
      StepKeepsOrdered(s, names, steps[0]);
      var j;
      j, mid := OwedHasCause(r, names, steps[1..], t, u, v);
      i := j + 1;
      assert steps[..i] == [steps[0]] + steps[1..][..j];
      RunStep(s, names, steps[0], steps[1..][..j], steps[..i], mid);
    }
  }

  // ---- quiescence ----

  /** No node has a change that it has not broadcast completely. */
  ghost predicate Quiescent(s: System) {
    forall u :: 0 <= u < |s| ==> s[u].pending == [] && s[u].last == CountOf(s[u])
  }

  /** Each device of the path has broadcast to the next one. */
  ghost predicate Path(s: System, p: seq<nat>) {
    |p| > 0 && (forall i :: 0 <= i < |p| ==> p[i] < |s|)
    && forall i :: 0 <= i < |p| - 1 ==> p[i + 1] in s[p[i]].told
  }

  ghost predicate Linked(s: System, u: nat, v: nat) {
    exists p :: Path(s, p) && p[0] == u && p[|p| - 1] == v
  }

  ghost predicate StronglyConnected(s: System) {
    forall u: nat, v: nat :: u < |s| && v < |s| ==> Linked(s, u, v)
  }

  lemma {:induction false} CountsRiseAlong(s: System, p: seq<nat>)
    requires Inv(s) && Quiescent(s) && Path(s, p)
    ensures CountOf(s[p[0]]) <= CountOf(s[p[|p| - 1]])
    decreases |p|
  {
    if |p| > 1 {
      assert p[1] in s[p[0]].told;
      assert Path(s, p[1..]) by {
        forall i | 0 <= i < |p[1..]| - 1 ensures p[1..][i + 1] in s[p[1..][i]].told {
          assert p[i + 2] in s[p[i + 1]].told;
        }
      }
      CountsRiseAlong(s, p[1..]);
    }
  }

  /** Once every change has been broadcast, the counters of devices whose last broadcasts connect them all
      are equal exactly when the invariant holds. */
  lemma QuiescentCountsEqual(s: System)
    requires AllSound(s) && Ordered(s) && Quiescent(s) && StronglyConnected(s)
    ensures Inv(s) <==> forall u, v :: 0 <= u < |s| && 0 <= v < |s| ==> CountOf(s[u]) == CountOf(s[v])
  {
    hide AllSound, CountOf;
    if Inv(s) {
      forall u, v | 0 <= u < |s| && 0 <= v < |s|
        ensures CountOf(s[u]) <= CountOf(s[v])
      {
        assert Linked(s, u, v);
        var p :| Path(s, p) && p[0] == u && p[|p| - 1] == v;
        CountsRiseAlong(s, p);
      }
    }
  }

  // ---- equal counters and equal contents ----

  /** A content that is somewhere in the system: a device's JSON, or under way in a request. */
  ghost predicate Held(s: System, x: Value) {
    exists u :: 0 <= u < |s| && HeldBy(s[u], x)
  }

  ghost predicate HeldBy(n: Node, x: Value) {
    x == n.mirror || UnderWay(n, x)
  }

  ghost predicate UnderWay(n: Node, x: Value) {
    exists k :: 0 <= k < |n.pending| && x == n.pending[k].message
  }

  /** A counter value stands for one content. */
  ghost predicate Versioned(s: System) {
    forall x, y :: Held(s, x) && Held(s, y) && Count(x) == Count(y) ==> x == y
  }

  /** A content that is still there after node `u` has changed its own JSON. */
  ghost predicate HeldElsewhere(s: System, u: nat, x: Value) {
    exists v :: 0 <= v < |s| && (UnderWay(s[v], x) || (v != u && x == s[v].mirror))
  }

  /** An increment makes a version that nothing else in the system is in the way of. */
  ghost predicate FreshIncrement(s: System, step: Step) {
    step.Increment? && step.node < |s| && CountOf(s[step.node]) < INT_MAX ==>
      forall x :: HeldElsewhere(s, step.node, x) && Count(x) == CountOf(s[step.node]) + 1 ==>
        x == Mirror.Increment(s[step.node].mirror)
  }

  ghost predicate FreshIncrements(s: System, names: Names, steps: seq<Step>)
    requires |s| == |names|
    decreases |steps|
  {
    steps == [] || (Enabled(s, steps[0]) ==>
      FreshIncrement(s, steps[0]) && FreshIncrements(Take(s, names, steps[0]), names, steps[1..]))
  }

  lemma HeldAt(s: System, u: nat, x: Value)
    requires u < |s| && HeldBy(s[u], x)
    ensures Held(s, x)
  {
  }

  lemma UnderWayIs(n: Node, k: nat)
    requires k < |n.pending|
    ensures UnderWay(n, n.pending[k].message)
  {
  }

  lemma LessUnderWay(n: Node, m: Node, k: nat, answer: Value, x: Value)
    requires k < |n.pending| && |m.pending| == |n.pending| - 1 && UnderWay(m, x)
    requires forall i :: 0 <= i < |m.pending| ==>
               m.pending[i].message == n.pending[if i < k then i else i + 1].message || m.pending[i].message == answer
    ensures UnderWay(n, x) || x == answer
  {
    var i :| 0 <= i < |m.pending| && x == m.pending[i].message;
    if x != answer { assert n.pending[if i < k then i else i + 1].message == x; }
  }

  /** Broadcasts, deliveries and losses bring no new content. */
  lemma NothingNew(s: System, names: Names, step: Step, x: Value)
    requires |s| == |names| && Enabled(s, step) && !step.Increment? && Held(Take(s, names, step), x)
    ensures Held(s, x)
  {
    hide Count, Fits, Held, HeldBy, UnderWay;
    var t := Take(s, names, step);
    var w := Holder(t, x);
    var u := step.node;
    if step.Poll? {
      PollHolds(s, names, u, w, x);
    } else if w == u {
      SenderHolds(s, names, step, x);
    } else if step.Deliver? && w == s[u].pending[step.k].to {
      ServerHolds(s, names, step, x);
    } else {
      HeldAt(s, w, x);
    }
  }

  lemma Holder(s: System, x: Value) returns (w: nat)
    requires Held(s, x)
    ensures w < |s| && HeldBy(s[w], x)
  {
    w :| 0 <= w < |s| && HeldBy(s[w], x);
  }

  lemma PollHolds(s: System, names: Names, u: nat, w: nat, x: Value)
    requires |s| == |names| && Enabled(s, Poll(u)) && w < |s| && HeldBy(Take(s, names, Poll(u))[w], x)
    ensures Held(s, x)
  {
    hide Count, Fits;
    assert HeldBy(s[w], x);
  }

  lemma MirrorHeld(s: System, u: nat)
    requires u < |s|
    ensures Held(s, s[u].mirror)
  {
    assert HeldBy(s[u], s[u].mirror);
  }

  lemma MessageHeld(s: System, u: nat, k: nat)
    requires u < |s| && k < |s[u].pending|
    ensures Held(s, s[u].pending[k].message)
  {
    UnderWayIs(s[u], k);
    assert HeldBy(s[u], s[u].pending[k].message);
  }

  lemma SenderHolds(s: System, names: Names, step: Step, x: Value)
    requires |s| == |names| && Enabled(s, step) && (step.Deliver? || step.Lose?)
    requires HeldBy(Take(s, names, step)[step.node], x)
    ensures Held(s, x)
  {
    hide Count, Fits, UnderWay, Held, Redirected;
    var u, k := step.node, step.k;
    var n := Take(s, names, step)[u];
    var answer := if step.Deliver? then s[s[u].pending[k].to].mirror else s[u].mirror;
    MirrorHeld(s, u);
    if step.Deliver? { MirrorHeld(s, s[u].pending[k].to); }
    if UnderWay(n, x) {
      LessUnderWay(s[u], n, k, answer, x);
      if UnderWay(s[u], x) { HeldAt(s, u, x); }
    }
  }

  lemma ServerHolds(s: System, names: Names, step: Step, x: Value)
    requires |s| == |names| && Enabled(s, step) && step.Deliver?
    requires HeldBy(Take(s, names, step)[s[step.node].pending[step.k].to], x)
    ensures Held(s, x)
  {
    hide Count, Fits, Held, Remaining;
    var r := s[step.node].pending[step.k];
    var n := Take(s, names, step)[r.to];
    MirrorHeld(s, r.to);
    MessageHeld(s, step.node, step.k);
    if UnderWay(n, x) {
      var i :| 0 <= i < |n.pending| && x == n.pending[i].message;
      MessageHeld(s, r.to, i);
    }
  }

  lemma QuietKeepsVersioned(s: System, names: Names, step: Step)
    requires |s| == |names| && Versioned(s) && Enabled(s, step) && !step.Increment?
    ensures Versioned(Take(s, names, step))
  {
    hide Count, Take, Enabled, Held;
    forall x | Held(Take(s, names, step), x) ensures Held(s, x) { NothingNew(s, names, step, x); }
  }

  /** What is there after an increment: the new content, and what was elsewhere. */
  lemma HeldAfterIncrement(s: System, names: Names, u: nat, x: Value)
    requires |s| == |names| && Enabled(s, Increment(u))
    ensures Held(Take(s, names, Increment(u)), x) <==> x == Mirror.Increment(s[u].mirror) || HeldElsewhere(s, u, x)
  {
    hide Count, Mirror.Increment, Fits, UnderWay;
    var t := Take(s, names, Increment(u));
    assert t[u].pending == s[u].pending;
    UnderWaySame(s[u], t[u], x);
    if Held(t, x) { var w := Holder(t, x); }
    if x == Mirror.Increment(s[u].mirror) { assert HeldBy(t[u], x); }
    if HeldElsewhere(s, u, x) {
      var v :| 0 <= v < |s| && (UnderWay(s[v], x) || (v != u && x == s[v].mirror));
      assert HeldBy(t[v], x);
    }
  }

  lemma UnderWaySame(n: Node, m: Node, x: Value)
    requires n.pending == m.pending
    ensures UnderWay(n, x) == UnderWay(m, x)
  {
  }

  lemma ElsewhereIsHeld(s: System, u: nat, x: Value)
    requires HeldElsewhere(s, u, x)
    ensures Held(s, x)
  {
    hide UnderWay;
    var v :| 0 <= v < |s| && (UnderWay(s[v], x) || (v != u && x == s[v].mirror));
    assert HeldBy(s[v], x);
  }

  /** An increment keeps one content to a version exactly when it is fresh. */
  lemma IncrementKeepsVersioned(s: System, names: Names, u: nat)
    requires |s| == |names| && AllSound(s) && Versioned(s) && Enabled(s, Increment(u))
    ensures Versioned(Take(s, names, Increment(u))) <==> FreshIncrement(s, Increment(u))
  {
    hide Sound, Count, Mirror.Increment, Fits, Held, HeldElsewhere, Take;
    var t, n := Take(s, names, Increment(u)), Mirror.Increment(s[u].mirror);
    assert NodeSound(s[u]);
    IncrementAddsOne(s[u].mirror);
    forall x ensures Held(t, x) <==> x == n || HeldElsewhere(s, u, x) { HeldAfterIncrement(s, names, u, x); }
    forall x | HeldElsewhere(s, u, x) ensures Held(s, x) { ElsewhereIsHeld(s, u, x); }
    assert Held(t, n);
    assert Count(n) == CountOf(s[u]) + 1;
  }

  lemma StepKeepsVersioned(s: System, names: Names, step: Step)
    requires |s| == |names| && AllSound(s) && Versioned(s) && Enabled(s, step) && FreshIncrement(s, step)
    ensures Versioned(Take(s, names, step))
  {
    hide Take, Enabled, AllSound, Versioned, FreshIncrement;
    if step.Increment? {
      IncrementKeepsVersioned(s, names, step.node);
    } else {
      QuietKeepsVersioned(s, names, step);
    }
  }

  lemma {:induction false} RunKeepsVersioned(s: System, names: Names, steps: seq<Step>, t: System)
    requires |s| == |names| && AllSound(s) && Versioned(s)
    requires Run(s, names, steps, t) && FreshIncrements(s, names, steps)
    ensures |t| == |s| && Versioned(t)
    decreases |steps|
  {
    hide Take, Enabled, Versioned, AllSound, FreshIncrement;
    if steps != [] {
      SoundStep(s, names, steps[0]);
      StepKeepsVersioned(s, names, steps[0]);
      RunKeepsVersioned(Take(s, names, steps[0]), names, steps[1..], t);
    }
  }

  /** With nothing left to broadcast, all devices have identical JSON exactly when a counter value
      stands for one content. */
  lemma QuiescentContentsEqual(s: System)
    requires Inv(s) && Quiescent(s) && StronglyConnected(s)
    ensures Versioned(s) <==> forall u, v :: 0 <= u < |s| && 0 <= v < |s| ==> s[u].mirror == s[v].mirror
  {
    hide StronglyConnected, Count, Spread, AllSound;
    InvSound(s);
    QuiescentCountsEqual(s);
    if Versioned(s) {
      forall u, v | 0 <= u < |s| && 0 <= v < |s| ensures s[u].mirror == s[v].mirror {
        assert HeldBy(s[u], s[u].mirror) && HeldBy(s[v], s[v].mirror);
        HeldAt(s, u, s[u].mirror);
        HeldAt(s, v, s[v].mirror);
      }
    }
  }

  /** When every increment of a run is fresh, all devices end with identical JSON. */
  lemma ContentsConverge(s: System, names: Names, steps: seq<Step>, t: System)
    requires |s| == |names| && Inv(s) && Versioned(s)
    requires Run(s, names, steps, t) && AllSmooth(s, names, steps) && FreshIncrements(s, names, steps)
    requires Quiescent(t) && StronglyConnected(t)
    ensures forall u, v :: 0 <= u < |t| && 0 <= v < |t| ==> t[u].mirror == t[v].mirror
  {
    hide Run, AllSmooth, FreshIncrements, Versioned, Quiescent, StronglyConnected, Spread, AllSound;
    RunKeepsInv(s, names, steps, t);
    RunKeepsVersioned(s, names, steps, t);
    QuiescentContentsEqual(t);
  }

  // ---- broadcasts stop ----

  /** Counter values that a node can still gain below `top`, and one for a change not yet broadcast. */
  ghost function NodeDebt(n: Node, top: int): int {
    top - CountOf(n) + if n.last == CountOf(n) then 0 else 1
  }

  ghost function Debt(s: System, top: int): int {
    if s == [] then 0 else NodeDebt(s[0], top) + Debt(s[1..], top)
  }

  ghost function Backlog(s: System): nat {
    if s == [] then 0 else |s[0].pending| + Backlog(s[1..])
  }

  lemma {:induction false} DebtUpdate(s: System, i: nat, n: Node, top: int)
    requires i < |s|
    ensures Debt(s[i := n], top) == Debt(s, top) - NodeDebt(s[i], top) + NodeDebt(n, top)
    ensures Backlog(s[i := n]) == Backlog(s) - |s[i].pending| + |n.pending|
    decreases |s|
  {
    hide NodeDebt;
    if i == 0 {
      assert s[i := n][1..] == s[1..];
    } else {
      assert s[i := n][1..] == s[1..][i - 1 := n];
      DebtUpdate(s[1..], i - 1, n, top);
    }
  }

  /** A counter up to `top` and a list of up to `d` names. */
  ghost predicate Small(m: Value, top: int, d: nat) {
    Count(m) <= top && |ListedNames(m)| <= d
  }

  ghost predicate NodeBelow(n: Node, top: int, d: nat) {
    Small(n.mirror, top, d) && forall k :: 0 <= k < |n.pending| ==> Small(n.pending[k].message, top, d)
  }

  /** So small is all JSON, on devices and under way. */
  ghost predicate Below(s: System, top: int, d: nat) {
    forall u :: 0 <= u < |s| ==> NodeBelow(s[u], top, d)
  }

  lemma {:induction false} DebtIsNatural(s: System, top: int, d: nat)
    requires Below(s, top, d)
    ensures Debt(s, top) >= 0
  {
    if s != [] {
      assert NodeBelow(s[0], top, d);
      DebtIsNatural(s[1..], top, d);
    }
  }

  lemma PollPays(s: System, names: Names, u: nat, top: int, d: nat)
    requires |s| == |names| && Enabled(s, Poll(u)) && Below(s, top, d)
    ensures Below(Take(s, names, Poll(u)), top, d)
    ensures Debt(Take(s, names, Poll(u)), top) == Debt(s, top) - 1
    ensures Backlog(Take(s, names, Poll(u))) <= Backlog(s) + d
  {
    hide Count, Fits, Debt, Backlog;
    assert NodeBelow(s[u], top, d);
    DebtUpdate(s, u, Take(s, names, Poll(u))[u], top);
  }

  lemma LosePays(s: System, names: Names, u: nat, k: nat, top: int, d: nat)
    requires |s| == |names| && Enabled(s, Lose(u, k)) && Below(s, top, d)
    ensures Below(Take(s, names, Lose(u, k)), top, d)
    ensures Debt(Take(s, names, Lose(u, k)), top) == Debt(s, top)
    ensures Backlog(Take(s, names, Lose(u, k))) == Backlog(s) - 1
  {
    hide Count, Fits, Debt, Backlog;
    assert NodeBelow(s[u], top, d);
    DebtUpdate(s, u, Take(s, names, Lose(u, k))[u], top);
  }

  lemma DeliverPays(s: System, names: Names, u: nat, k: nat, late: set<nat>, back: set<nat>, top: int, d: nat)
    requires |s| == |names| && Enabled(s, Deliver(u, k, late, back)) && Below(s, top, d)
    ensures Below(Take(s, names, Deliver(u, k, late, back)), top, d)
    ensures Debt(Take(s, names, Deliver(u, k, late, back)), top) <= Debt(s, top)
    ensures Backlog(Take(s, names, Deliver(u, k, late, back))) == Backlog(s) - 1
  {
    hide Count, Fits, Debt, Backlog;
    var v, t := s[u].pending[k].to, Take(s, names, Deliver(u, k, late, back));
    assert NodeBelow(s[u], top, d) && NodeBelow(s[v], top, d);
    var mid := s[u := t[u]];
    DebtUpdate(s, u, t[u], top);
    DebtUpdate(mid, v, t[v], top);
    assert t == mid[v := t[v]];
    assert mid[v] == s[v];
    assert NodeBelow(t[u], top, d) && NodeBelow(t[v], top, d);
    hide Take, Enabled;
  }

  /** Steps that can still happen without local increments. */
  ghost function Budget(s: System, top: int, d: nat): int {
    (d + 1) * Debt(s, top) + Backlog(s)
  }

  lemma StepPays(s: System, names: Names, step: Step, top: int, d: nat)
    requires |s| == |names| && Enabled(s, step) && !step.Increment? && Below(s, top, d)
    ensures Below(Take(s, names, step), top, d) && Budget(Take(s, names, step), top, d) < Budget(s, top, d)
  {
    hide Take, Debt, Backlog, Below;
    var t := Take(s, names, step);
    if step.Poll? {
      PollPays(s, names, step.node, top, d);
      Scaled(d + 1, Debt(t, top), Debt(s, top) - 1);
      OneLess(d + 1, Debt(s, top));
    } else {
      if step.Deliver? {
        DeliverPays(s, names, step.node, step.k, step.late, step.back, top, d);
      } else {
        LosePays(s, names, step.node, step.k, top, d);
      }
      Scaled(d + 1, Debt(t, top), Debt(s, top));
    }
  }

  lemma BudgetIsNatural(s: System, top: int, d: nat)
    requires Below(s, top, d)
    ensures Budget(s, top, d) >= 0
  {
    DebtIsNatural(s, top, d);
    Scaled(d + 1, 0, Debt(s, top));
  }

  lemma OneLess(k: nat, a: int)
    ensures k * (a - 1) == k * a - k
  {
  }

  lemma Scaled(k: nat, a: int, b: int)
    requires a <= b
    ensures k * a <= k * b
  {
  }

  ghost predicate Quiet(steps: seq<Step>) {
    forall i :: 0 <= i < |steps| ==> !steps[i].Increment?
  }

  /** Without local increments only so many steps, and so many broadcasts, can follow. */
  lemma {:induction false} QuietRunsEnd(s: System, names: Names, steps: seq<Step>, t: System, top: int, d: nat)
    requires |s| == |names| && Run(s, names, steps, t) && Quiet(steps) && Below(s, top, d)
    ensures |t| == |s| && Below(t, top, d) && |steps| <= Budget(s, top, d) - Budget(t, top, d)
    ensures Budget(t, top, d) >= 0
    decreases |steps|
  {
    if steps == [] {
      BudgetIsNatural(s, top, d);
    } else {
      StepPays(s, names, steps[0], top, d);
      QuietRunsEnd(Take(s, names, steps[0]), names, steps[1..], t, top, d);
      hide Budget, Take, Enabled;
    }
  }

  ghost predicate NodeFits(n: Node) {
    Fits(n.mirror) && forall k :: 0 <= k < |n.pending| ==> Fits(n.pending[k].message)
  }

  /** Everything on a device or under way fits a message. */
  ghost predicate AllFit(s: System) {
    forall u :: 0 <= u < |s| ==> NodeFits(s[u])
  }

  lemma StepKeepsFit(s: System, names: Names, step: Step)
    requires |s| == |names| && Enabled(s, step) && !step.Increment? && AllFit(s)
    ensures AllFit(Take(s, names, step))
  {
    hide Fits, Count;
    assert NodeFits(s[step.node]);
    if step.Deliver? { assert NodeFits(s[s[step.node].pending[step.k].to]); }
  }

  /** As long as something is not broadcast, and everything can be sent, a smooth step is possible. */
  lemma SomethingToDo(s: System, names: Names) returns (step: Step)
    requires |s| == |names| && Inv(s) && !Quiescent(s) && AllFit(s)
    ensures Enabled(s, step) && !step.Increment? && Smooth(s, names, step)
    ensures AllFit(Take(s, names, step)) && Inv(Take(s, names, step))
  {
    hide Fits, Count, AllSound, Take;
    var u :| 0 <= u < |s| && !(s[u].pending == [] && s[u].last == CountOf(s[u]));
    assert NodeFits(s[u]);
    if s[u].pending == [] {
      step := Poll(u);
    } else {
      step := Deliver(u, 0, {}, {});
      var v := s[u].pending[0].to;
      assert NodeOrdered(s, u) && v in s[u].told;
      assert NodeFits(s[v]);
    }
    assert Enabled(s, step) && Smooth(s, names, step);
    hide Inv, Enabled, AllFit, Smooth;
    StepKeepsInv(s, names, step);
    StepKeepsFit(s, names, step);
  }

  lemma InvSound(s: System)
    requires Inv(s)
    ensures AllSound(s) && Ordered(s)
  {
  }

  /** Whatever there is has bounds. */
  lemma {:induction false} PendingBounds(rs: seq<Request>) returns (top: int, d: nat)
    ensures forall k :: 0 <= k < |rs| ==> Small(rs[k].message, top, d)
  {
    hide Count, ListedNames;
    if rs == [] {
      top, d := 0, 0;
    } else {
      top, d := PendingBounds(rs[1..]);
      top, d := Higher(top, Count(rs[0].message)), Higher(d, |ListedNames(rs[0].message)|);
    }
  }

  function Higher(a: int, b: int): int { if a < b then b else a }

  lemma {:induction false} Bounds(s: System) returns (top: int, d: nat)
    ensures Below(s, top, d)
  {
    hide Count, ListedNames;
    if s == [] {
      top, d := 0, 0;
    } else {
      top, d := Bounds(s[1..]);
      var b, e := PendingBounds(s[0].pending);
      ghost var rest, below := top, d;
      top, d := Higher(Higher(top, b), CountOf(s[0])), Higher(Higher(d, e), |ListedNames(s[0].mirror)|);
      forall u | 0 <= u < |s| ensures NodeBelow(s[u], top, d) {
        if u > 0 { assert NodeBelow(s[1..][u - 1], rest, below); }
      }
    }
  }

  lemma {:induction false} SettlesWithin(s: System, names: Names, top: int, d: nat)
    returns (steps: seq<Step>, t: System)
    requires |s| == |names| && Inv(s) && AllFit(s) && Below(s, top, d)
    ensures Run(s, names, steps, t) && Quiet(steps) && AllSmooth(s, names, steps) && Quiescent(t) && Inv(t)
    decreases Budget(s, top, d)
  {
    hide Take, Enabled, Inv, Budget, Quiescent, AllFit, Run, Below, CountOf, Smooth, AllSmooth;
    BudgetIsNatural(s, top, d);
    if Quiescent(s) {
      steps, t := [], s;
      RunEnd(s, names);
      SmoothEnd(s, names);
    } else {
      var step := SomethingToDo(s, names);
      StepPays(s, names, step, top, d);
      var next := Take(s, names, step);
      BudgetIsNatural(next, top, d);
      var rest;
      rest, t := SettlesWithin(next, names, top, d);
      steps := [step] + rest;
      RunStep(s, names, step, rest, steps, t);
      SmoothStep(s, names, step, rest, steps);
    }
  }

  /** So, left alone, every system of devices has a run to a state with nothing left to broadcast and
      nothing owed. */
  lemma Settles(s: System, names: Names) returns (steps: seq<Step>, t: System)
    requires |s| == |names| && Inv(s) && AllFit(s)
    ensures Run(s, names, steps, t) && Quiet(steps) && AllSmooth(s, names, steps) && Quiescent(t) && Inv(t)
  {
    hide *;
    var top, d := Bounds(s);
    steps, t := SettlesWithin(s, names, top, d);
  }

  lemma {:induction false} RunKeepsFit(s: System, names: Names, steps: seq<Step>, t: System)
    requires |s| == |names| && AllFit(s) && Run(s, names, steps, t) && Quiet(steps)
    ensures AllFit(t)
    decreases |steps|
  {
    hide Take, Enabled, AllFit;
    if steps != [] {
      StepKeepsFit(s, names, steps[0]);
      RunKeepsFit(Take(s, names, steps[0]), names, steps[1..], t);
    }
  }

  /** Nothing but local increments and losses that are still needed can happen. */
  ghost predicate Stuck(s: System, names: Names)
    requires |s| == |names|
  {
    forall step :: Enabled(s, step) && !step.Increment? ==> !Smooth(s, names, step)
  }

  /** And every run without increments and harmful losses that cannot go on has come to such a state; by
      `QuietRunsEnd` no such run goes on for ever. */
  lemma EveryRunSettles(s: System, names: Names, steps: seq<Step>, t: System)
    requires |s| == |names| && Inv(s) && AllFit(s)
    requires Run(s, names, steps, t) && Quiet(steps) && AllSmooth(s, names, steps) && |t| == |names| && Stuck(t, names)
    ensures Quiescent(t) && Inv(t)
  {
    hide Run, AllSmooth, Quiescent, Inv, AllFit, Smooth, Enabled, CountOf, Quiet;
    RunKeepsInv(s, names, steps, t);
    RunKeepsFit(s, names, steps, t);
    if !Quiescent(t) {
      var step := SomethingToDo(t, names);
      assert false;
    }
  }

  lemma SmoothEnd(s: System, names: Names)
    requires |s| == |names|
    ensures AllSmooth(s, names, [])
  {
  }

  lemma SmoothStep(s: System, names: Names, step: Step, rest: seq<Step>, steps: seq<Step>)
    requires |s| == |names| && Enabled(s, step) && Smooth(s, names, step)
    requires AllSmooth(Take(s, names, step), names, rest) && steps == [step] + rest
    ensures AllSmooth(s, names, steps)
  {
    assert steps[1..] == rest;
    hide Enabled, Take;
  }

  lemma RunEnd(s: System, names: Names)
    requires |s| == |names|
    ensures Run(s, names, [], s)
  {
  }

  lemma RunStep(s: System, names: Names, step: Step, rest: seq<Step>, steps: seq<Step>, end: System)
    requires |s| == |names| && Enabled(s, step) && Run(Take(s, names, step), names, rest, end) && steps == [step] + rest
    ensures Run(s, names, steps, end)
  {
    assert steps[1..] == rest;
    hide Enabled, Take;
  }
}
