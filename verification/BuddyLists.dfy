/** What the buddy list inside the JSON means for the devices. Whoever takes over a JSON takes over its
    list, and a broadcast goes to the devices on the list of the JSON that it sends (json_handler.c). */
module BuddyLists {
  import Bytes
  import opened JsonValue
  import opened Mirror
  import opened Gossip

  /** With distinct names the buddies are the other devices on the list. */
  lemma {:induction false} BuddiesOfList(names: Names, u: nat, list: seq<Bytes.Text>, v: nat)
    requires u < |names| && v < |names| && Bytes.Distinct(names)
    ensures v in Buddies(names, u, list) <==> v != u && names[v] in list
  {
    if list != [] {
      BuddiesOfList(names, u, list[1..], v);
      assert list == [list[0]] + list[1..];
      var w := Resolve(names, list[0]);
      if names[v] == list[0] { assert w == v; }
    }
  }

  /** So a broadcast goes to exactly the other devices whose names are strings in the array of the first
      member "buddy_ip" of the JSON. */
  lemma BuddiesAre(names: Names, u: nat, m: Value, i: nat, items: seq<Value>, v: nat)
    requires u < |names| && v < |names| && Bytes.Distinct(names)
    requires m.Object? && i < |m.members| && m.members[i] == Member(Bytes.Ascii("buddy_ip"), Array(items))
    requires forall k :: 0 <= k < i ==> m.members[k].key != Bytes.Ascii("buddy_ip")
    ensures v in BuddiesIn(names, u, m) <==> v != u && String(names[v]) in items
  {
    ListedAre(m, i, items);
    BuddiesOfList(names, u, ListedNames(m), v);
  }

  lemma OneBuddy(names: Names, u: nat, list: seq<Bytes.Text>)
    requires u < |names|
    ensures list == [] ==> Buddies(names, u, list) == []
    ensures list != [] && list[0] in names && list[0] != names[u] ==>
              var v := Resolve(names, list[0]);
              v < |names| && names[v] == list[0] && Buddies(names, u, list) == [v] + Buddies(names, u, list[1..])
  {
    if list != [] && list[0] in names {
      var k :| 0 <= k < |names| && names[k] == list[0];
    }
    hide Resolve;
  }

  /** In the order of the list, each as often as it stands there. */
  lemma {:induction false} BuddiesInOrder(names: Names, u: nat, list: seq<Bytes.Text>)
    requires u < |names| && forall k :: 0 <= k < |list| ==> list[k] in names && list[k] != names[u]
    ensures var bs := Buddies(names, u, list);
            |bs| == |list| && forall k :: 0 <= k < |list| ==> bs[k] < |names| && names[bs[k]] == list[k]
  {
    if list != [] {
      hide Buddies;
      OneBuddy(names, u, list);
      BuddiesInOrder(names, u, list[1..]);
    } else {
      OneBuddy(names, u, list);
    }
  }

  /** The devices that have one of these names, in the order of the names. */
  function Resolved(names: Names, list: seq<Bytes.Text>): (bs: seq<nat>) {
    if list == [] then []
    else (if Resolve(names, list[0]) < |names| then [Resolve(names, list[0])] else []) + Resolved(names, list[1..])
  }

  /** They are the devices behind the names that the loop of `Device.Node.UpdateBuddies` opens connections to. */
  lemma {:induction false} BuddiesAreOpened(names: Names, u: nat, list: seq<Bytes.Text>)
    requires u < |names|
    ensures Buddies(names, u, list) == Resolved(names, Others(list, names[u]))
  {
    if list != [] {
      BuddiesAreOpened(names, u, list[1..]);
      var o, rest := if list[0] != names[u] then [list[0]] else [], Others(list[1..], names[u]);
      assert Others(list, names[u]) == o + rest;
      if list[0] != names[u] {
        assert (o + rest)[1..] == rest;
      } else {
        assert o + rest == rest;
      }
    }
  }

  // ---- what is kept about lists ----

  /** A node that has broadcast its version has told the buddies of its JSON. */
  ghost predicate Current(s: System, names: Names)
    requires |s| == |names|
  {
    forall u :: 0 <= u < |s| && s[u].last == CountOf(s[u]) ==> s[u].told == BuddiesIn(names, u, s[u].mirror)
  }

  /** JSON of the same version has the same list. */
  ghost predicate OneListPerVersion(s: System) {
    forall x, y :: Held(s, x) && Held(s, y) && Count(x) == Count(y) ==> ListedNames(x) == ListedNames(y)
  }

  lemma StepKeepsCurrent(s: System, names: Names, step: Step)
    requires |s| == |names| && AllSound(s) && Ordered(s) && Current(s, names) && OneListPerVersion(s)
    requires Enabled(s, step)
    ensures Current(Take(s, names, step), names)
  {
    hide Sound, Count, Fits, ListedNames, Buddies, Mirror.Increment, Held, Carry;
    assert NodeOrdered(s, step.node) && NodeSound(s[step.node]);
    MirrorHeld(s, step.node);
    if step.Increment? { IncrementAddsOne(s[step.node].mirror); }
    if step.Deliver? {
      var v := s[step.node].pending[step.k].to;
      assert NodeOrdered(s, v);
      MirrorHeld(s, v);
      MessageHeld(s, step.node, step.k);
    }
  }

  /** All JSON, on devices and under way, has this list. */
  ghost predicate OneList(s: System, list: seq<Bytes.Text>) {
    forall x :: Held(s, x) ==> ListedNames(x) == list
  }

  /** Nothing that devices do ever brings a new list. */
  lemma NoNewList(s: System, names: Names, step: Step, x: Value) returns (y: Value)
    requires |s| == |names| && Enabled(s, step) && Held(Take(s, names, step), x)
    ensures Held(s, y) && ListedNames(y) == ListedNames(x)
  {
    hide Count, ListedNames, Mirror.Increment, Fits, Held, HeldElsewhere, Take;
    y := x;
    if step.Increment? {
      var u := step.node;
      HeldAfterIncrement(s, names, u, x);
      if HeldElsewhere(s, u, x) {
        ElsewhereIsHeld(s, u, x);
      } else {
        y := s[u].mirror;
        MirrorHeld(s, u);
        IncrementKeepsList(y);
      }
    } else {
      NothingNew(s, names, step, x);
    }
  }

  lemma StepKeepsOneList(s: System, names: Names, step: Step, list: seq<Bytes.Text>)
    requires |s| == |names| && OneList(s, list) && Enabled(s, step)
    ensures OneList(Take(s, names, step), list)
  {
    hide Held, ListedNames, Take, Enabled;
    forall x | Held(Take(s, names, step), x) ensures ListedNames(x) == list {
      var y := NoNewList(s, names, step, x);
    }
  }

  /** Devices that start with one list keep it for good, over every run, whatever is lost, and what they
      have broadcast they have broadcast to that list. */
  lemma {:induction false} RunKeepsOneList(s: System, names: Names, steps: seq<Step>, t: System,
                                           list: seq<Bytes.Text>)
    requires |s| == |names| && AllSound(s) && Ordered(s) && Current(s, names) && OneList(s, list)
    requires Run(s, names, steps, t)
    ensures |t| == |s| && OneList(t, list) && Current(t, names) && AllSound(t) && Ordered(t)
    decreases |steps|
  {
    hide Take, Enabled, AllSound, Ordered, Current, Held, Count, ListedNames;
    if steps != [] {
      assert OneListPerVersion(s);
      SoundStep(s, names, steps[0]);
      StepKeepsOrdered(s, names, steps[0]);
      StepKeepsCurrent(s, names, steps[0]);
      StepKeepsOneList(s, names, steps[0], list);
      RunKeepsOneList(Take(s, names, steps[0]), names, steps[1..], t, list);
    }
  }

  /** With fresh increments one content to a version is kept, and with it one list. */
  lemma {:induction false} RunKeepsCurrent(s: System, names: Names, steps: seq<Step>, t: System)
    requires |s| == |names| && AllSound(s) && Ordered(s) && Current(s, names) && Versioned(s)
    requires Run(s, names, steps, t) && FreshIncrements(s, names, steps)
    ensures |t| == |s| && Current(t, names) && Versioned(t) && AllSound(t) && Ordered(t)
    decreases |steps|
  {
    hide Take, Enabled, AllSound, Ordered, Current, Held, Count, ListedNames, FreshIncrement;
    if steps != [] {
      assert OneListPerVersion(s);
      SoundStep(s, names, steps[0]);
      StepKeepsOrdered(s, names, steps[0]);
      StepKeepsCurrent(s, names, steps[0]);
      StepKeepsVersioned(s, names, steps[0]);
      RunKeepsCurrent(Take(s, names, steps[0]), names, steps[1..], t);
    }
  }

  // ---- nothing left to broadcast ----

  ghost predicate Freshest(s: System, u: nat) {
    u < |s| && forall v :: 0 <= v < |s| ==> CountOf(s[v]) <= CountOf(s[u])
  }

  /** With nothing left to broadcast, nothing is owed exactly when nobody is behind a device that has it
      on its list. */
  lemma QuiescentListed(s: System, names: Names)
    requires |s| == |names| && AllSound(s) && Ordered(s) && Current(s, names) && Quiescent(s)
    ensures Inv(s) <==> forall u, v :: 0 <= u < |s| && 0 <= v < |s| && v in BuddiesIn(names, u, s[u].mirror) ==>
                                         CountOf(s[u]) <= CountOf(s[v])
  {
    hide AllSound, CountOf, BuddiesIn, NodeOrdered;
    forall v: nat ensures !Waiting([], v) { NobodyWaits(v); }
    hide Waiting;
  }

  /** The freshest JSON, with one content to a version and nothing left to broadcast: its holder owes
      nothing exactly when every device on its list has this JSON. */
  lemma FreshestIsShared(s: System, names: Names, u: nat)
    requires |s| == |names| && Bytes.Distinct(names) && Current(s, names) && Quiescent(s) && Versioned(s)
    requires Freshest(s, u)
    ensures (forall v: nat :: !Owes(s, u, v))
       <==> (forall v :: 0 <= v < |s| && names[v] in ListedNames(s[u].mirror) ==> s[v].mirror == s[u].mirror)
  {
    hide Count, ListedNames, Held, Buddies, Waiting;
    MirrorHeld(s, u);
    forall v | 0 <= v < |s|
      ensures Owes(s, u, v) <==> names[v] in ListedNames(s[u].mirror) && s[v].mirror != s[u].mirror
    {
      MirrorHeld(s, v);
      NobodyWaits(v);
      BuddiesOfList(names, u, ListedNames(s[u].mirror), v);
    }
  }

  /** With one list for all: nothing is owed exactly when every device on the list has the highest counter. */
  lemma ListedAreFreshest(s: System, names: Names, list: seq<Bytes.Text>)
    requires |s| == |names| && Bytes.Distinct(names) && AllSound(s) && Ordered(s) && Current(s, names)
    requires Quiescent(s) && OneList(s, list)
    ensures Inv(s) <==> forall v: nat :: v < |s| && names[v] in list ==> Freshest(s, v)
  {
    hide AllSound, CountOf, Current, Quiescent, Ordered, Buddies, ListedNames, Held, Inv;
    QuiescentListed(s, names);
    forall u, v | 0 <= u < |s| && 0 <= v < |s|
      ensures v in BuddiesIn(names, u, s[u].mirror) <==> v != u && names[v] in list
    {
      MirrorHeld(s, u);
      BuddiesOfList(names, u, list, v);
    }
    if forall v: nat :: v < |s| && names[v] in list ==> Freshest(s, v) {
      forall u, v | 0 <= u < |s| && 0 <= v < |s| && v in BuddiesIn(names, u, s[u].mirror)
        ensures CountOf(s[u]) <= CountOf(s[v])
      {
        assert Freshest(s, v);
      }
    }
  }

  /** Every device is on the list. */
  ghost predicate AllListed(names: Names, list: seq<Bytes.Text>) {
    forall v :: 0 <= v < |names| ==> names[v] in list
  }

  ghost predicate CountsEqual(s: System) {
    forall u, v :: 0 <= u < |s| && 0 <= v < |s| ==> CountOf(s[u]) == CountOf(s[v])
  }

  ghost predicate ContentsEqual(s: System) {
    forall u, v :: 0 <= u < |s| && 0 <= v < |s| ==> s[u].mirror == s[v].mirror
  }

  /** Then with nothing left to broadcast all counters are equal exactly when nothing is owed, and all JSON
      exactly when there is besides one content to a version. */
  lemma AllListedAgree(s: System, names: Names, list: seq<Bytes.Text>)
    requires |s| == |names| && Bytes.Distinct(names) && AllSound(s) && Ordered(s) && Current(s, names)
    requires Quiescent(s) && OneList(s, list) && AllListed(names, list)
    ensures Inv(s) <==> CountsEqual(s)
    ensures Inv(s) && Versioned(s) <==> ContentsEqual(s)
  {
    hide AllSound, Current, Ordered, Inv, Count, ListedNames;
    ListedAreFreshest(s, names, list);
    if CountsEqual(s) {
      forall v: nat | v < |s| ensures Freshest(s, v) {}
    }
    if Inv(s) {
      forall u, v | 0 <= u < |s| && 0 <= v < |s| ensures CountOf(s[v]) <= CountOf(s[u]) { assert Freshest(s, u); }
    }
    QuietContents(s);
  }

  /** Without requests under way, equal counters and one content to a version are equal JSON. */
  lemma QuietContents(s: System)
    requires Quiescent(s)
    ensures CountsEqual(s) && Versioned(s) <==> ContentsEqual(s)
  {
    hide Count;
    if CountsEqual(s) && Versioned(s) {
      forall u, v | 0 <= u < |s| && 0 <= v < |s| ensures s[u].mirror == s[v].mirror {
        MirrorHeld(s, u);
        MirrorHeld(s, v);
      }
    }
  }

  // ---- over runs ----

  /** Over every run of fresh increments that loses nothing it needs: with nothing left to broadcast, every
      device on the list of the freshest JSON has it. Lists may differ and change on the way. */
  lemma UpdatesReachTheList(s: System, names: Names, steps: seq<Step>, t: System, u: nat)
    requires |s| == |names| && Bytes.Distinct(names) && Inv(s) && Current(s, names) && Versioned(s)
    requires Run(s, names, steps, t) && AllSmooth(s, names, steps) && FreshIncrements(s, names, steps)
    requires |t| == |names| && Quiescent(t) && Freshest(t, u)
    ensures forall v :: 0 <= v < |t| && names[v] in ListedNames(t[u].mirror) ==> t[v].mirror == t[u].mirror
  {
    hide *;
    InvSound(s);
    RunKeepsInv(s, names, steps, t);
    RunKeepsCurrent(s, names, steps, t);
    InvSound(t);
    InvOwesNothing(t);
    FreshestIsShared(t, names, u);
  }

  lemma {:induction false} QuietIncrements(s: System, names: Names, steps: seq<Step>)
    requires |s| == |names| && Quiet(steps)
    ensures FreshIncrements(s, names, steps)
    decreases |steps|
  {
    hide Take, Enabled;
    if steps != [] && Enabled(s, steps[0]) { QuietIncrements(Take(s, names, steps[0]), names, steps[1..]); }
  }

  /** Left alone, every run that cannot go on has brought the freshest JSON to everyone on its list. */
  lemma FreshestSettles(s: System, names: Names, steps: seq<Step>, t: System, u: nat)
    requires |s| == |names| && Bytes.Distinct(names) && Inv(s) && AllFit(s) && Current(s, names) && Versioned(s)
    requires Run(s, names, steps, t) && Quiet(steps) && AllSmooth(s, names, steps)
    requires |t| == |names| && Stuck(t, names) && Freshest(t, u)
    ensures Quiescent(t)
    ensures forall v :: 0 <= v < |t| && names[v] in ListedNames(t[u].mirror) ==> t[v].mirror == t[u].mirror
  {
    hide *;
    EveryRunSettles(s, names, steps, t);
    QuietIncrements(s, names, steps);
    UpdatesReachTheList(s, names, steps, t, u);
  }

  /** And with one list that has every device on it, all counters are equal. */
  lemma AllListedSettle(s: System, names: Names, steps: seq<Step>, t: System, list: seq<Bytes.Text>)
    requires |s| == |names| && Bytes.Distinct(names) && Inv(s) && AllFit(s) && Current(s, names)
    requires OneList(s, list) && AllListed(names, list)
    requires Run(s, names, steps, t) && Quiet(steps) && AllSmooth(s, names, steps)
    requires |t| == |names| && Stuck(t, names)
    ensures Quiescent(t) && CountsEqual(t)
  {
    hide *;
    InvSound(s);
    EveryRunSettles(s, names, steps, t);
    RunKeepsOneList(s, names, steps, t, list);
    AllListedAgree(t, names, list);
  }

  // ---- a device that is on nobody's list ----

  ghost predicate Unlisted(s: System, names: Names, w: nat) {
    && w < |s| == |names|
    && (forall x :: Held(s, x) ==> names[w] !in ListedNames(x))
    && forall u :: 0 <= u < |s| ==> !Waiting(s[u].pending, w)
  }

  ghost predicate Idle(n: Node) {
    n.pending == [] && n.last == CountOf(n)
  }

  lemma NobodyAsks(s: System, names: Names, step: Step, w: nat, u: nat)
    requires Unlisted(s, names, w) && Enabled(s, step) && u < |s|
    ensures !Waiting(Take(s, names, step)[u].pending, w)
  {
    hide Count, ListedNames, Fits, Mirror.Increment, Held, Waiting, Buddies, Remaining, Without;
    var t := Take(s, names, step);
    if u == step.node {
      match step
      case Increment(_) =>
      case Poll(_) =>
        MirrorHeld(s, u);
        NobodyWaits(w);
        NotRequested(names, u, s[u].mirror, w);
      case Lose(_, k) => FewerWait(s[u].pending, t[u].pending, k, w);
      case Deliver(_, k, _, _) => FewerWait(s[u].pending, t[u].pending, k, w);
    } else {
      assert Alike(t[u].pending, s[u].pending);
      WaitingAlike(t[u].pending, s[u].pending, w);
    }
  }

  lemma NotRequested(names: Names, u: nat, m: Value, w: nat)
    requires u < |names| && w < |names| && names[w] !in ListedNames(m)
    ensures !Waiting(Requests(BuddiesIn(names, u, m), m), w)
  {
    hide ListedNames;
    var bs := Buddies(names, u, ListedNames(m));
    assert forall k :: 0 <= k < |bs| ==> names[bs[k]] in ListedNames(m);
  }

  lemma FewerWait(rs: seq<Request>, ts: seq<Request>, k: nat, w: nat)
    requires k < |rs| && |ts| == |rs| - 1 && !Waiting(rs, w)
    requires forall i :: 0 <= i < |ts| ==> ts[i].to == rs[if i < k then i else i + 1].to
    ensures !Waiting(ts, w)
  {
    IsWaiting(rs, k);
    WaitingAfter(rs, ts, k, w);
  }

  lemma StepLeavesUnlisted(s: System, names: Names, step: Step, w: nat)
    requires Unlisted(s, names, w) && Idle(s[w]) && Enabled(s, step) && step != Increment(w)
    ensures Take(s, names, step)[w] == s[w] && Unlisted(Take(s, names, step), names, w)
  {
    hide Count, ListedNames, Fits, Mirror.Increment, Held, Waiting;
    var t := Take(s, names, step);
    if step.Deliver? { IsWaiting(s[step.node].pending, step.k); }
    assert t[w] == s[w];
    hide Take;
    forall x | Held(t, x) ensures names[w] !in ListedNames(x) { var y := NoNewList(s, names, step, x); }
    forall u | 0 <= u < |t| ensures !Waiting(t[u].pending, w) { NobodyAsks(s, names, step, w, u); }
  }

  /** A device that is on nobody's list, and has broadcast what it has, is left alone by every run in which
      it does not increment. */
  lemma {:induction false} RunLeavesUnlisted(s: System, names: Names, steps: seq<Step>, t: System, w: nat)
    requires Unlisted(s, names, w) && Idle(s[w]) && Run(s, names, steps, t)
    requires forall i :: 0 <= i < |steps| ==> steps[i] != Increment(w)
    ensures |t| == |s| && t[w] == s[w] && Unlisted(t, names, w)
    decreases |steps|
  {
    hide Take, Enabled, Idle;
    if steps != [] {
      StepLeavesUnlisted(s, names, steps[0], w);
      hide Unlisted;
      RunLeavesUnlisted(Take(s, names, steps[0]), names, steps[1..], t, w);
    }
  }

  lemma IncrementRaises(s: System, names: Names, u: nat)
    requires |s| == |names| && AllSound(s) && Enabled(s, Increment(u))
    ensures u < |s| && CountOf(Take(s, names, Increment(u))[u]) == CountOf(s[u]) + 1
  {
    hide Count, Mirror.Increment, Sound;
    assert NodeSound(s[u]);
    IncrementAddsOne(s[u].mirror);
  }

  /** So it stays behind every device that increments, until it increments itself. */
  lemma UnlistedStaysBehind(s: System, names: Names, rest: seq<Step>, t: System, u: nat, w: nat)
    requires Unlisted(s, names, w) && Idle(s[w]) && AllSound(s) && u < |s| && u != w && CountOf(s[w]) <= CountOf(s[u])
    requires Run(s, names, [Increment(u)] + rest, t) && forall i :: 0 <= i < |rest| ==> rest[i] != Increment(w)
    ensures |t| == |s| && CountOf(t[w]) < CountOf(t[u])
  {
    hide Count, ListedNames, Held, Idle, AllSound, Mirror.Increment, Sound, Take, Enabled;
    var steps := [Increment(u)] + rest;
    var r := Take(s, names, Increment(u));
    assert steps[0] == Increment(u) && steps[1..] == rest;
    SoundStep(s, names, Increment(u));
    IncrementRaises(s, names, u);
    CountsNeverDecrease(r, names, rest, t);
    RunLeavesUnlisted(s, names, steps, t, w);
  }

  /** With one list for all devices, a device that is not on it falls behind although nothing is lost: from
      any state with nothing left to broadcast, another one increments and everything settles again. */
  lemma UnlistedFallsBehind(s: System, names: Names, list: seq<Bytes.Text>, u: nat, w: nat)
    returns (steps: seq<Step>, t: System)
    requires |s| == |names| && Inv(s) && Quiescent(s) && AllFit(s) && OneList(s, list)
    requires u < |s| && w < |s| && u != w && names[w] !in list && CountOf(s[w]) <= CountOf(s[u]) < INT_MAX
    requires Fits(Mirror.Increment(s[u].mirror))
    ensures Run(s, names, steps, t) && AllSmooth(s, names, steps) && |t| == |s| && Quiescent(t) && Inv(t)
    ensures CountOf(t[w]) < CountOf(t[u])
  {
    hide Count, ListedNames, Mirror.Increment, Fits, Held, Run, AllSmooth, Take, Enabled, Inv, AllSound, Spread,
         Waiting, AllFit;
    InvSound(s);
    forall v | 0 <= v < |s| ensures !Waiting(s[v].pending, w) { NobodyWaits(w); }
    assert Unlisted(s, names, w);
    var r := AfterIncrement(s, names, u);
    var rest;
    rest, t := Settles(r, names);
    steps := [Increment(u)] + rest;
    RunStep(s, names, Increment(u), rest, steps, t);
    SmoothStep(s, names, Increment(u), rest, steps);
    UnlistedStaysBehind(s, names, rest, t, u, w);
  }

  lemma AfterIncrement(s: System, names: Names, u: nat) returns (r: System)
    requires |s| == |names| && Inv(s) && AllFit(s) && u < |s| && CountOf(s[u]) < INT_MAX
    requires Fits(Mirror.Increment(s[u].mirror))
    ensures Enabled(s, Increment(u)) && Smooth(s, names, Increment(u)) && r == Take(s, names, Increment(u))
    ensures |r| == |s| && Inv(r) && AllFit(r)
  {
    hide Count, Mirror.Increment, Fits, Inv;
    r := Take(s, names, Increment(u));
    StepKeepsInv(s, names, Increment(u));
    forall v | 0 <= v < |r| ensures NodeFits(r[v]) { assert NodeFits(s[v]); }
  }

  // ---- devices as they start ----

  const GEORGE: Bytes.Text := Bytes.Ascii("george.local")
  const FREDDY: Bytes.Text := Bytes.Ascii("freddy.local")

  ghost predicate IsName(name: Bytes.Text) {
    Bytes.NulFree(name) && |name| < NAME_SIZE
  }

  /** Devices that are switched on, with their names. */
  function Started(names: Names): (s: System)
    ensures |s| == |names| && forall u :: 0 <= u < |s| ==> s[u] == Node(DefaultMirror(names[u]), 0, [], [])
  {
    seq(|names|, u requires 0 <= u < |names| => Node(DefaultMirror(names[u]), 0, [], []))
  }

  /** Every default JSON has the same list. */
  lemma DefaultList(name: Bytes.Text)
    ensures ListedNames(DefaultMirror(name)) == [GEORGE, FREDDY]
  {
    hide Entry, StringValue;
    var ms := DefaultMirror(name).members;
    DefaultKeys(name);
    FirstMember(ms, 3, BUDDY_KEY);
    DefaultBuddies();
  }

  lemma DefaultKeys(name: Bytes.Text)
    ensures var ms := DefaultMirror(name).members;
            && ms[3].key == BUDDY_KEY
            && ms[3].value == Array([StringValue("george.local"), StringValue("freddy.local")])
            && forall i :: 0 <= i < 3 ==> |ms[i].key| != |BUDDY_KEY|
  {
    hide StringValue;
  }

  lemma DefaultBuddies()
    ensures Strings([StringValue("george.local"), StringValue("freddy.local")]) == [GEORGE, FREDDY]
  {
    var items := [StringValue("george.local"), StringValue("freddy.local")];
    assert items[1..] == [StringValue("freddy.local")] && items[1..][1..] == [];
    hide Bytes.Ascii;
  }

  ghost predicate AllNames(names: Names) {
    forall u :: 0 <= u < |names| ==> IsName(names[u])
  }

  lemma StartedHeld(names: Names, x: Value) returns (u: nat)
    requires Held(Started(names), x)
    ensures u < |names| && x == DefaultMirror(names[u])
  {
    hide DefaultMirror;
    u := Holder(Started(names), x);
  }

  /** Devices just switched on satisfy everything that is asked of a state, with one list for all. */
  lemma StartedWell(names: Names)
    requires AllNames(names)
    ensures var s := Started(names);
            Inv(s) && AllFit(s) && Current(s, names) && OneList(s, [GEORGE, FREDDY])
  {
    hide Sound, Count, Fits, DefaultMirror, ListedNames, Held, Inv;
    var s := Started(names);
    forall u | 0 <= u < |s| ensures NodeSound(s[u]) && NodeFits(s[u]) && CountOf(s[u]) == 1 {
      DefaultIsSound(names[u]);
    }
    InitiallyInv(s);
    forall x | Held(s, x) ensures ListedNames(x) == [GEORGE, FREDDY] {
      var u := StartedHeld(names, x);
      DefaultList(names[u]);
    }
  }

  lemma {:induction false} NothingNewInRun(s: System, names: Names, steps: seq<Step>, t: System, x: Value)
    requires |s| == |names| && Run(s, names, steps, t) && Quiet(steps) && Held(t, x)
    ensures Held(s, x)
    decreases |steps|
  {
    hide Take, Enabled, Held;
    if steps != [] {
      NothingNewInRun(Take(s, names, steps[0]), names, steps[1..], t, x);
      NothingNew(s, names, steps[0], x);
    }
  }

  /** The device whose default JSON node `u` has after a run without increments. */
  lemma StillDefault(names: Names, steps: seq<Step>, t: System, u: nat) returns (v: nat)
    requires Run(Started(names), names, steps, t) && Quiet(steps) && |t| == |names| && u < |t|
    ensures v < |names| && t[u].mirror == DefaultMirror(names[v])
  {
    hide Run, Held, DefaultMirror;
    MirrorHeld(t, u);
    NothingNewInRun(Started(names), names, steps, t, t[u].mirror);
    v := StartedHeld(names, t[u].mirror);
  }

  /** Any devices, switched on and left alone until nothing is left to broadcast: then another one
      increments, and whoever is neither george nor freddy falls behind for good, with nothing lost. */
  lemma StrangerFallsBehind(names: Names, u: nat, w: nat)
    returns (first: seq<Step>, mid: System, steps: seq<Step>, t: System)
    requires AllNames(names) && u < |names| && w < |names| && u != w && names[w] != GEORGE && names[w] != FREDDY
    ensures Run(Started(names), names, first, mid) && Quiet(first) && AllSmooth(Started(names), names, first)
    ensures |mid| == |names| && Quiescent(mid)
    ensures Run(mid, names, steps, t) && AllSmooth(mid, names, steps) && |t| == |names| && Quiescent(t)
    ensures CountOf(t[w]) < CountOf(t[u])
  {
    hide Run, AllSmooth, Inv, AllFit, Current, OneList, Quiescent, Quiet, DefaultMirror, Count, Fits, Mirror.Increment,
         Sound, AllSound, Ordered;
    var s := Started(names);
    StartedWell(names);
    InvSound(s);
    first, mid := Settles(s, names);
    RunKeepsOneList(s, names, first, mid, [GEORGE, FREDDY]);
    RunKeepsFit(s, names, first, mid);
    var a := StillDefault(names, first, mid, u);
    var b := StillDefault(names, first, mid, w);
    DefaultIsSound(names[a]);
    DefaultIsSound(names[b]);
    IncrementedDefault(names[a]);
    steps, t := UnlistedFallsBehind(mid, names, [GEORGE, FREDDY], u, w);
  }

  // ---- runs written out ----

  /** One step to a given state. */
  ghost predicate Goes(s: System, names: Names, step: Step, t: System)
    requires |s| == |names|
  {
    Enabled(s, step) && Take(s, names, step) == t
  }

  /** A list of states with the steps between them is a run. */
  lemma {:induction false} RunThrough(states: seq<System>, names: Names, steps: seq<Step>)
    requires |states| == |steps| + 1 && forall i :: 0 <= i < |states| ==> |states[i]| == |names|
    requires forall i :: 0 <= i < |steps| ==> Goes(states[i], names, steps[i], states[i + 1])
    ensures Run(states[0], names, steps, states[|steps|])
    decreases |steps|
  {
    hide Enabled, Take;
    if steps != [] {
      forall i | 0 <= i < |steps[1..]| ensures Goes(states[1..][i], names, steps[1..][i], states[1..][i + 1]) {
        assert Goes(states[i + 1], names, steps[i + 1], states[i + 2]);
      }
      assert Goes(states[0], names, steps[0], states[1]);
      RunThrough(states[1..], names, steps[1..]);
    }
  }

  // ---- requests that cross ----

  lemma BothPoll(names: Names, x: Value, y: Value, c: int, p: seq<nat>, q: seq<nat>)
    requires |names| == 2 && BuddiesIn(names, 0, x) == [1] && BuddiesIn(names, 1, y) == [0]
    requires Count(x) == Count(y) == c + 1 && Fits(x) && Fits(y)
    ensures var s1 := [Node(x, c + 1, [1], [Request(1, x)]), Node(y, c, q, [])];
            && Goes([Node(x, c, p, []), Node(y, c, q, [])], names, Poll(0), s1)
            && Goes(s1, names, Poll(1), [Node(x, c + 1, [1], [Request(1, x)]), Node(y, c + 1, [0], [Request(0, y)])])
  {
    hide Count, Fits, BuddiesIn;
    OneRequest(1, x);
    OneRequest(0, y);
  }

  lemma BothDeliver(names: Names, x: Value, y: Value, c: int)
    requires |names| == 2 && Count(x) == Count(y) == c && Fits(x) && Fits(y)
    ensures var s2 := [Node(x, c, [1], [Request(1, x)]), Node(y, c, [0], [Request(0, y)])];
            var s3 := [Node(x, c, [1], []), Node(x, c, [0], [Request(0, y)])];
            && Goes(s2, names, Deliver(0, 0, {}, {}), s3)
            && Goes(s3, names, Deliver(1, 0, {}, {}), [Node(y, c, [1], []), Node(x, c, [0], [])])
  {
    hide Count, Fits;
    OneRequest(1, x);
    OneRequest(0, y);
    NotRedirected([Request(0, y)], x);
  }

  lemma OneRequest(v: nat, m: Value)
    ensures Requests([v], m) == [Request(v, m)] && Without([Request(v, m)], 0) == []
  {
  }

  lemma NotRedirected(rs: seq<Request>, m: Value)
    ensures Redirected(rs, {}, m) == rs
  {
  }

  const CROSSING: seq<Step> := [Poll(0), Poll(1), Deliver(0, 0, {}, {}), Deliver(1, 0, {}, {})]

  /** Two buddies with JSON of one version that broadcast at the same time exchange it, and then neither
      has anything left to broadcast. */
  lemma CrossedRequestsSwap(names: Names, x: Value, y: Value, c: int, p: seq<nat>, q: seq<nat>)
    requires |names| == 2 && BuddiesIn(names, 0, x) == [1] && BuddiesIn(names, 1, y) == [0]
    requires Count(x) == Count(y) == c + 1 && Fits(x) && Fits(y)
    ensures var t := [Node(y, c + 1, [1], []), Node(x, c + 1, [0], [])];
            Run([Node(x, c, p, []), Node(y, c, q, [])], names, CROSSING, t) && Quiescent(t)
  {
    hide Count, Fits, BuddiesIn, Goes, Run;
    BothPoll(names, x, y, c, p, q);
    BothDeliver(names, x, y, c + 1);
    RunThrough([[Node(x, c, p, []), Node(y, c, q, [])],
                [Node(x, c + 1, [1], [Request(1, x)]), Node(y, c, q, [])],
                [Node(x, c + 1, [1], [Request(1, x)]), Node(y, c + 1, [0], [Request(0, y)])],
                [Node(x, c + 1, [1], []), Node(x, c + 1, [0], [Request(0, y)])],
                [Node(y, c + 1, [1], []), Node(x, c + 1, [0], [])]], names, CROSSING);
  }

  /** Two buddies that increment different JSON at the same count stay different, with equal counters and
      nothing left to broadcast or lost. */
  lemma RacingIncrementsDiverge(names: Names, m0: Value, m1: Value, c: int, p: seq<nat>, q: seq<nat>)
    requires |names| == 2 && BuddiesIn(names, 0, m0) == [1] && BuddiesIn(names, 1, m1) == [0]
    requires Sound(m0) && Sound(m1) && Count(m0) == Count(m1) == c < INT_MAX
    requires Fits(Mirror.Increment(m0)) && Fits(Mirror.Increment(m1))
    ensures var a, b := Mirror.Increment(m0), Mirror.Increment(m1);
            var t := [Node(b, c + 1, [1], []), Node(a, c + 1, [0], [])];
            && Run([Node(m0, c, p, []), Node(m1, c, q, [])], names, [Increment(0), Increment(1)] + CROSSING, t)
            && Quiescent(t) && (m0 != m1 ==> t[0].mirror != t[1].mirror)
  {
    hide Sound, Count, Fits, Mirror.Increment, ListedNames, Buddies, Run, Quiescent;
    var a, b := Mirror.Increment(m0), Mirror.Increment(m1);
    IncrementAddsOne(m0);
    IncrementAddsOne(m1);
    IncrementKeepsList(m0);
    IncrementKeepsList(m1);
    if a == b { IncrementInjective(m0, m1); }
    CrossedRequestsSwap(names, a, b, c, p, q);
    var t := [Node(b, c + 1, [1], []), Node(a, c + 1, [0], [])];
    var s0, s1 := [Node(m0, c, p, []), Node(m1, c, q, [])], [Node(a, c, p, []), Node(m1, c, q, [])];
    assert Take(s1, names, Increment(1)) == [Node(a, c, p, []), Node(b, c, q, [])];
    RunStep(s1, names, Increment(1), CROSSING, [Increment(1)] + CROSSING, t);
    assert Take(s0, names, Increment(0)) == s1;
    assert [Increment(0), Increment(1)] + CROSSING == [Increment(0)] + ([Increment(1)] + CROSSING);
    RunStep(s0, names, Increment(0), [Increment(1)] + CROSSING, [Increment(0), Increment(1)] + CROSSING, t);
  }

  /** George and freddy as they are switched on: their first broadcasts cross, and they stay different
      without any increment or loss. */
  lemma GeorgeAndFreddySwap()
    ensures var t := [Node(DefaultMirror(FREDDY), 1, [1], []), Node(DefaultMirror(GEORGE), 1, [0], [])];
            && Run(Started([GEORGE, FREDDY]), [GEORGE, FREDDY], CROSSING, t) && Quiescent(t)
            && t[0].mirror != t[1].mirror
  {
    hide Count, Fits, Sound, Run, DefaultMirror, Buddies, Quiescent;
    var names: Names := [GEORGE, FREDDY];
    TwoNames();
    DefaultList(GEORGE);
    DefaultList(FREDDY);
    DefaultIsSound(GEORGE);
    DefaultIsSound(FREDDY);
    DefaultsDiffer();
    CrossedRequestsSwap(names, DefaultMirror(GEORGE), DefaultMirror(FREDDY), 0, [], []);
    assert Started(names) == [Node(DefaultMirror(GEORGE), 0, [], []), Node(DefaultMirror(FREDDY), 0, [], [])];
  }

  lemma TwoNames()
    ensures IsName(GEORGE) && IsName(FREDDY) && GEORGE != FREDDY
    ensures Buddies([GEORGE, FREDDY], 0, [GEORGE, FREDDY]) == [1]
    ensures Buddies([GEORGE, FREDDY], 1, [GEORGE, FREDDY]) == [0]
  {
    var names: Names := [GEORGE, FREDDY];
    assert GEORGE[0] != FREDDY[0];
    assert names[1..] == [FREDDY] && |names[1..][1..]| == 0;
    hide Bytes.Ascii;
  }

  lemma DefaultsDiffer()
    ensures DefaultMirror(GEORGE) != DefaultMirror(FREDDY)
  {
    hide StringValue;
    assert GEORGE[0] != FREDDY[0];
    assert DefaultMirror(GEORGE).members[4].value == String(GEORGE);
  }

  // ---- requests that are lost ----

  lemma ResolveOwn(names: Names, u: nat)
    requires u < |names| && Bytes.Distinct(names)
    ensures Resolve(names, names[u]) == u
  {
  }

  lemma BuddiesOfThree(names: Names)
    requires |names| == 3 && Bytes.Distinct(names)
    ensures Buddies(names, 0, names) == [1, 2] && Buddies(names, 1, names) == [0, 2]
  {
    hide Resolve, Buddies;
    var b, c := names[1..], [names[2]];
    assert b[1..] == c && c[1..] == [] && names[0] != names[1] && names[0] != names[2] && names[1] != names[2];
    ResolveOwn(names, 0);
    ResolveOwn(names, 1);
    ResolveOwn(names, 2);
    hide Bytes.Distinct;
    forall u: nat | u < 2 ensures Buddies(names, u, names) == if u == 0 then [1, 2] else [0, 2] {
      BuddiesStep(names, u, names);
      BuddiesStep(names, u, b);
      BuddiesStep(names, u, c);
      NoBuddies(names, u);
    }
  }

  lemma NoBuddies(names: Names, u: nat)
    requires u < |names|
    ensures Buddies(names, u, []) == []
  {
  }

  lemma {:induction false} BuddiesStep(names: Names, u: nat, list: seq<Bytes.Text>)
    requires u < |names| && list != [] && Resolve(names, list[0]) < |names|
    ensures Buddies(names, u, list)
         == if list[0] == names[u] then Buddies(names, u, list[1..])
            else [Resolve(names, list[0])] + Buddies(names, u, list[1..])
  {
    hide Resolve;
  }

  /** Three devices with one JSON that they all have broadcast. */
  function Agreed(m: Value, c: int): System {
    [Node(m, c, [1, 2], []), Node(m, c, [0, 2], []), Node(m, c, [0, 1], [])]
  }

  const LOSING: seq<Step> := [Increment(0), Poll(0), Deliver(0, 0, {}, {}), Lose(0, 0), Poll(1), Deliver(1, 0, {}, {}),
                              Lose(1, 0)]

  lemma FirstTells(names: Names, m: Value, a: Value, c: int)
    requires |names| == 3 && BuddiesIn(names, 0, a) == [1, 2]
    requires Count(m) == c < INT_MAX && a == Mirror.Increment(m) && Count(a) == c + 1 && Fits(a)
    ensures var rest := Agreed(m, c)[1..];
            var s1 := [Node(a, c, [1, 2], [])] + rest;
            var s2 := [Node(a, c + 1, [1, 2], [Request(1, a), Request(2, a)])] + rest;
            var s3 := [Node(a, c + 1, [1, 2], [Request(2, a)]), Node(a, c, [0, 2], []), Node(m, c, [0, 1], [])];
            && Goes(Agreed(m, c), names, Increment(0), s1) && Goes(s1, names, Poll(0), s2)
            && Goes(s2, names, Deliver(0, 0, {}, {}), s3)
            && Goes(s3, names, Lose(0, 0), [Node(a, c + 1, [1, 2], []), Node(a, c, [0, 2], []), Node(m, c, [0, 1], [])])
  {
    hide Count, Fits, Mirror.Increment, BuddiesIn;
    TwoRequests(1, 2, a);
    OneRequest(2, a);
  }

  lemma SecondTells(names: Names, m: Value, a: Value, c: int)
    requires |names| == 3 && BuddiesIn(names, 1, a) == [0, 2] && Count(m) == c && Count(a) == c + 1 && Fits(a)
    ensures var n0, n2 := Node(a, c + 1, [1, 2], []), Node(m, c, [0, 1], []);
            var s5, s6 := [n0, Node(a, c + 1, [0, 2], [Request(0, a), Request(2, a)]), n2],
                          [n0, Node(a, c + 1, [0, 2], [Request(2, a)]), n2];
            && Goes([n0, Node(a, c, [0, 2], []), n2], names, Poll(1), s5) && Goes(s5, names, Deliver(1, 0, {}, {}), s6)
            && Goes(s6, names, Lose(1, 0), [n0, Node(a, c + 1, [0, 2], []), n2])
  {
    hide Count, Fits, BuddiesIn;
    TwoRequests(0, 2, a);
    OneRequest(2, a);
  }

  lemma TwoRequests(v: nat, w: nat, m: Value)
    ensures Requests([v, w], m) == [Request(v, m), Request(w, m)]
    ensures Without([Request(v, m), Request(w, m)], 0) == [Request(w, m)]
  {
  }

  /** Three devices on the list of the JSON that they all have. The first one increments; its second request
      leaves after the first reply and is lost, and so is that of its first buddy. The third device stays
      behind with nothing left to broadcast. */
  lemma LostRequestsSplit(names: Names, m: Value, c: int)
    requires |names| == 3 && Bytes.Distinct(names) && ListedNames(m) == names
    requires Sound(m) && Count(m) == c < INT_MAX && Fits(Mirror.Increment(m))
    ensures var a := Mirror.Increment(m);
            var t := [Node(a, c + 1, [1, 2], []), Node(a, c + 1, [0, 2], []), Node(m, c, [0, 1], [])];
            Run(Agreed(m, c), names, LOSING, t) && Quiescent(t) && CountOf(t[2]) < CountOf(t[0])
  {
    hide Sound, Count, Fits, Mirror.Increment, ListedNames, Buddies, Goes, Run;
    var a := Mirror.Increment(m);
    IncrementAddsOne(m);
    IncrementKeepsList(m);
    BuddiesOfThree(names);
    FirstTells(names, m, a, c);
    SecondTells(names, m, a, c);
    var n0, n2 := Node(a, c + 1, [1, 2], []), Node(m, c, [0, 1], []);
    var rest := [Node(m, c, [0, 2], []), n2];
    assert Agreed(m, c)[1..] == rest;
    RunThrough([Agreed(m, c), [Node(a, c, [1, 2], [])] + rest,
                [Node(a, c + 1, [1, 2], [Request(1, a), Request(2, a)])] + rest,
                [Node(a, c + 1, [1, 2], [Request(2, a)]), Node(a, c, [0, 2], []), n2],
                [n0, Node(a, c, [0, 2], []), n2],
                [n0, Node(a, c + 1, [0, 2], [Request(0, a), Request(2, a)]), n2],
                [n0, Node(a, c + 1, [0, 2], [Request(2, a)]), n2],
                [n0, Node(a, c + 1, [0, 2], []), n2]], names, LOSING);
  }
}
