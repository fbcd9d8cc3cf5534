/** The credentials kept in the log: which password a network name has, and what writing and pruning
    do to that (flash_io.c). */
module SsidStore {
  import opened Bytes
  import opened RingFormat
  import opened RingWalk
  import opened RingRead
  import opened RingRecords
  import opened RingDelete

  const SSID_ID: Byte := 1
  /** Size of the buffer in which an entry is put together. */
  const ENTRY_LIMIT := 64

  /** Name and password as two C strings. */
  function Entry(ss: Text, pw: Text): Text { ss + [0] + pw + [0] }

  /** What is searched for: the name with its terminator. */
  function Key(ss: Text): (k: Text)
    ensures |k| == |ss| + 1
  {
    ss + [0]
  }

  function Name(t: Text): Text { CString(t) }

  function Password(t: Text): Text
    requires |Name(t)| < |t|
  {
    CString(t[|Name(t)| + 1..])
  }

  /** A record that was written as an entry. */
  predicate Tidy(t: Text) {
    |Name(t)| < |t| <= ENTRY_LIMIT && t == Entry(Name(t), Password(t))
  }

  lemma {:induction false} CStringStops(a: Text, b: Text)
    requires NulFree(a)
    ensures CString(a + [0] + b) == a
  {
    if a != [] {
      assert (a + [0] + b)[1..] == a[1..] + [0] + b;
      CStringStops(a[1..], b);
    }
  }

  lemma EntryRoundTrip(ss: Text, pw: Text)
    requires NulFree(ss) && NulFree(pw)
    ensures Name(Entry(ss, pw)) == ss && Password(Entry(ss, pw)) == pw
    ensures |ss| + |pw| + 2 <= ENTRY_LIMIT ==> Tidy(Entry(ss, pw))
  {
    var t := Entry(ss, pw);
    assert t == ss + [0] + (pw + [0]);
    CStringStops(ss, pw + [0]);
    assert t[|ss| + 1..] == pw + [0] + [];
    CStringStops(pw, []);
  }

  /** A tidy record starts with a name and its terminator just when that is its name. */
  lemma KeyIsName(t: Text, ss: Text)
    requires NulFree(ss) && |Name(t)| < |t|
    ensures Key(ss) <= t <==> Name(t) == ss
  {
    if Key(ss) <= t {
      var b := t[|ss| + 1..];
      assert t == ss + [0] + b;
      CStringStops(ss, b);
    }
    if Name(t) == ss {
      assert t[..|ss|] == ss && t[|ss|] == 0;
      assert t[..|ss| + 1] == Key(ss);
    }
  }

  /** A tidy record is never a proper part of a search text that has no terminator before its end. */
  lemma NeverInside(t: Text, ss: Text)
    requires NulFree(ss) && |Name(t)| < |t|
    ensures !(t < Key(ss)) && !(t < ss)
  {
    var n := |Name(t)|;
    assert t[n] == 0;
    assert forall i :: 0 <= i < |ss| ==> Key(ss)[i] == ss[i] && ss[i] != 0;
  }

  /** All credentials in the log are whole and tidy. */
  ghost predicate Stored(ps: seq<Piece>) {
    Whole(ps, SSID_ID) && forall i :: 0 <= i < |ps| && Matches(ps[i], SSID_ID) ==> Tidy(ps[i].data)
  }

  lemma StoredTail(ps: seq<Piece>, k: nat)
    requires Stored(ps) && k <= |ps|
    ensures Stored(ps[k..])
  {
    hide Tidy, Matches, IsSplit;
  }

  lemma StoredDecides(ps: seq<Piece>, ss: Text)
    requires Stored(ps) && NulFree(ss)
    ensures Decided(ps, SSID_ID, Key(ss)) && Decided(ps, SSID_ID, ss)
  {
    hide Matches, Key;
    forall i | 0 <= i < |ps| && Matches(ps[i], SSID_ID)
      ensures !(ps[i].data < Key(ss)) && !(ps[i].data < ss)
    {
      NeverInside(ps[i].data, ss);
    }
  }

  // ---- looking up ----

  predicate Holds(p: Piece, ss: Text) { Hit(p, SSID_ID, Key(ss)) }

  function Count(ps: seq<Piece>, ss: Text): nat {
    if ps == [] then 0 else (if Holds(ps[0], ss) then 1 else 0) + Count(ps[1..], ss)
  }

  /** The password of the first entry with that name. */
  function Lookup(ps: seq<Piece>, ss: Text): Option<Text> {
    if ps == [] then None
    else if Holds(ps[0], ss) && |Name(ps[0].data)| < |ps[0].data| then Some(Password(ps[0].data))
    else Lookup(ps[1..], ss)
  }

  lemma {:induction false} LookupAppend(a: seq<Piece>, b: seq<Piece>, ss: Text)
    ensures Lookup(a + b, ss) == if Lookup(a, ss).Some? then Lookup(a, ss) else Lookup(b, ss)
    ensures Count(a + b, ss) == Count(a, ss) + Count(b, ss)
  {
    hide Holds;
    if a == [] {
      assert [] + b == b;
    } else {
      assert (a + b)[1..] == a[1..] + b;
      LookupAppend(a[1..], b, ss);
    }
  }

  /** A tidy entry holds exactly the name it was written for. */
  lemma HoldsIs(p: Piece, ss: Text)
    requires Matches(p, SSID_ID) && Tidy(p.data) && NulFree(ss)
    ensures Holds(p, ss) <==> Name(p.data) == ss
  {
    KeyIsName(p.data, ss);
  }

  lemma {:induction false} NoneHolds(ps: seq<Piece>, ss: Text)
    requires Stored(ps)
    ensures Lookup(ps, ss) == None <==> Count(ps, ss) == 0
  {
    hide Tidy;
    if ps != [] {
      StoredTail(ps, 1);
      NoneHolds(ps[1..], ss);
      if Holds(ps[0], ss) { assert Tidy(ps[0].data); TidyHasName(ps[0].data); }
    }
  }

  lemma TidyHasName(t: Text)
    requires Tidy(t)
    ensures |Name(t)| < |t| <= ENTRY_LIMIT
  {
  }

  // ---- pruning ----

  /** All but the last entry of a name deleted. */
  function Pruned(ps: seq<Piece>, ss: Text): (qs: seq<Piece>)
    ensures |qs| == |ps|
  {
    if ps == [] then []
    else [if Holds(ps[0], ss) && Count(ps[1..], ss) > 0 then Smudged(ps[0]) else ps[0]] + Pruned(ps[1..], ss)
  }

  lemma SmudgedHolds(p: Piece, ss: Text)
    ensures !Holds(Smudged(p), ss)
  {
  }

  /** At most one entry of that name is left. */
  lemma {:induction false} PrunedCount(ps: seq<Piece>, ss: Text)
    ensures Count(Pruned(ps, ss), ss) == if Count(ps, ss) > 0 then 1 else 0
  {
    hide Holds, Smudged;
    if ps != [] {
      PrunedCount(ps[1..], ss);
      SmudgedHolds(ps[0], ss);
      assert Pruned(ps, ss)[1..] == Pruned(ps[1..], ss);
    }
  }

  /** Other names keep their entries. */
  lemma {:induction false} PrunedOthers(ps: seq<Piece>, ss: Text, other: Text)
    requires Stored(ps) && NulFree(ss) && NulFree(other) && ss != other
    ensures Lookup(Pruned(ps, ss), other) == Lookup(ps, other) && Count(Pruned(ps, ss), other) == Count(ps, other)
  {
    hide Tidy, Smudged, Key;
    if ps != [] {
      StoredTail(ps, 1);
      PrunedOthers(ps[1..], ss, other);
      assert Pruned(ps, ss)[1..] == Pruned(ps[1..], ss);
      if Holds(ps[0], ss) {
        assert Tidy(ps[0].data);
        HoldsIs(ps[0], ss);
        HoldsIs(ps[0], other);
        SmudgedHolds(ps[0], other);
      }
    }
  }

  /** The entry that is left is the last one. */
  lemma {:induction false} PrunedKeepsLast(ps: seq<Piece>, np: Piece, ss: Text)
    requires Holds(np, ss) && Tidy(np.data)
    ensures Lookup(Pruned(ps + [np], ss), ss) == Some(Password(np.data))
  {
    hide Holds, Smudged, Password, Tidy;
    TidyHasName(np.data);
    if ps == [] {
      assert [np][1..] == [];
      assert ps + [np] == [np];
      assert Pruned([np], ss) == [np];
    } else {
      var qs := ps + [np];
      assert qs[1..] == ps[1..] + [np];
      PrunedKeepsLast(ps[1..], np, ss);
      LookupAppend(ps[1..], [np], ss);
      assert [np][1..] == [];
      SmudgedHolds(ps[0], ss);
      assert Pruned(qs, ss)[1..] == Pruned(qs[1..], ss);
    }
  }

  lemma {:induction false} PrunedStored(ps: seq<Piece>, ss: Text)
    requires Stored(ps)
    ensures Stored(Pruned(ps, ss))
  {
    hide Tidy, Holds;
    if ps != [] {
      StoredTail(ps, 1);
      PrunedStored(ps[1..], ss);
      var q := Pruned(ps, ss);
      assert q[1..] == Pruned(ps[1..], ss);
      assert forall i :: 0 < i < |q| ==> q[i] == q[1..][i - 1];
    }
  }

  /** With at most one entry nothing is deleted. */
  lemma {:induction false} PrunedOnce(ps: seq<Piece>, ss: Text)
    requires Count(ps, ss) <= 1
    ensures Pruned(ps, ss) == ps
  {
    hide Holds, Smudged;
    if ps != [] { PrunedOnce(ps[1..], ss); }
  }

  /** Deleting the first of several entries is a step of pruning. */
  lemma {:induction false} PrunedStep(a: seq<Piece>, p: Piece, b: seq<Piece>, ss: Text)
    requires Holds(p, ss) && Count(b, ss) > 0 && Count(a, ss) == 0
    ensures Pruned(a + ([p] + b), ss) == Pruned(a + ([Smudged(p)] + b), ss)
  {
    hide Holds, Smudged;
    SmudgedHolds(p, ss);
    if a == [] {
      assert a + ([p] + b) == [p] + b && a + ([Smudged(p)] + b) == [Smudged(p)] + b;
      assert ([p] + b)[1..] == b && ([Smudged(p)] + b)[1..] == b;
    } else {
      assert (a + ([p] + b))[1..] == a[1..] + ([p] + b);
      assert (a + ([Smudged(p)] + b))[1..] == a[1..] + ([Smudged(p)] + b);
      PrunedStep(a[1..], p, b, ss);
    }
  }

  // ---- last write wins ----

  /** `last` gives the password last written for each name: every name has at most one entry, and that
      holds the last password. */
  ghost predicate LastWins(ps: seq<Piece>, last: map<Text, Text>) {
    && Stored(ps)
    && forall ss :: NulFree(ss) ==>
         Count(ps, ss) <= 1 && (Lookup(ps, ss).Some? ==> ss in last && Lookup(ps, ss) == Some(last[ss]))
  }

  /** A lookup, which prunes first, gives the last password or none, and deletes nothing. */
  lemma FoundIsLast(ps: seq<Piece>, ss: Text, last: map<Text, Text>)
    requires LastWins(ps, last) && NulFree(ss)
    ensures Pruned(ps, ss) == ps
    ensures Lookup(ps, ss) == None || (ss in last && Lookup(ps, ss) == Some(last[ss]))
  {
    hide Pruned, Count, Lookup, Stored;
    PrunedOnce(ps, ss);
  }

  lemma {:induction false} CountTail(ps: seq<Piece>, k: nat, ss: Text)
    requires k <= |ps| && Stored(ps) && Count(ps, ss) <= 1
    ensures Count(ps[k..], ss) <= 1 && (Lookup(ps[k..], ss).Some? ==> Lookup(ps[k..], ss) == Lookup(ps, ss))
  {
    hide Holds, Stored;
    LookupAppend(ps[..k], ps[k..], ss);
    assert ps[..k] + ps[k..] == ps;
    StoredTail(ps, k);
    StoredHead(ps, k);
    NoneHolds(ps[k..], ss);
    NoneHolds(ps[..k], ss);
  }

  lemma StoredHead(ps: seq<Piece>, k: nat)
    requires Stored(ps) && k <= |ps|
    ensures Stored(ps[..k])
  {
    hide Tidy, Matches, IsSplit;
  }

  lemma StoredSnoc(ps: seq<Piece>, np: Piece)
    requires Stored(ps) && !IsSplit(np.flags) && Tidy(np.data)
    ensures Stored(ps + [np])
  {
    hide Tidy, Matches, IsSplit;
  }

  /** Losing the oldest records, adding an entry and pruning its name: that name has the new password,
      every other one has its last password or is gone. */
  lemma WriteWins(ps: seq<Piece>, d: nat, np: Piece, ss: Text, pw: Text, last: map<Text, Text>)
    requires LastWins(ps, last) && d <= |ps| && NulFree(ss) && NulFree(pw) && |ss| + |pw| + 2 <= ENTRY_LIMIT
    requires Matches(np, SSID_ID) && !IsSplit(np.flags) && np.data == Entry(ss, pw)
    ensures var qs := Pruned(ps[d..] + [np], ss); LastWins(qs, last[ss := pw]) && Lookup(qs, ss) == Some(pw)
  {
    hide Holds, Lookup, Count, Pruned, Stored, Tidy, Matches, Entry;
    var qs := Pruned(ps[d..] + [np], ss);
    EntryRoundTrip(ss, pw);
    HoldsIs(np, ss);
    StoredTail(ps, d);
    StoredSnoc(ps[d..], np);
    PrunedStored(ps[d..] + [np], ss);
    PrunedCount(ps[d..] + [np], ss);
    PrunedKeepsLast(ps[d..], np, ss);
    forall other | NulFree(other) && other != ss
      ensures Count(qs, other) <= 1
      ensures Lookup(qs, other).Some? ==> other in last && Lookup(qs, other) == Some(last[other])
    {
      PrunedOthers(ps[d..] + [np], ss, other);
      LookupAppend(ps[d..], [np], other);
      CountTail(ps, d, other);
      HoldsIs(np, other);
      OtherEntry(np, other);
    }
  }

  /** A record of another id, and the loss of the oldest records, leave it so. */
  lemma OtherIdKeepsWins(ps: seq<Piece>, d: nat, np: Piece, last: map<Text, Text>)
    requires LastWins(ps, last) && d <= |ps| && np.id != SSID_ID
    ensures LastWins(ps[d..] + [np], last)
  {
    hide Holds, Lookup, Count, Tidy;
    StoredTail(ps, d);
    assert Stored(ps[d..] + [np]);
    hide Stored;
    forall ss | NulFree(ss)
      ensures Count(ps[d..] + [np], ss) <= 1
      ensures Lookup(ps[d..] + [np], ss).Some? ==> Lookup(ps[d..] + [np], ss) == Lookup(ps, ss)
    {
      LookupAppend(ps[d..], [np], ss);
      CountTail(ps, d, ss);
      assert !Holds(np, ss) by { NotHeld(np, ss); }
      OtherEntry(np, ss);
    }
  }

  lemma NotHeld(np: Piece, ss: Text)
    requires np.id != SSID_ID
    ensures !Holds(np, ss)
  {
  }

  lemma OtherEntry(np: Piece, other: Text)
    requires !Holds(np, other)
    ensures Count([np], other) == 0 && Lookup([np], other) == None
  {
    hide Holds;
    assert [np][1..] == [];
  }

  /** Whether and where a search for the name with its terminator hits. */
  lemma {:induction false} FirstHitCounts(ps: seq<Piece>, ss: Text)
    ensures var k := FirstHit(ps, SSID_ID, Key(ss));
            && Count(ps[..k], ss) == 0
            && Count(ps, ss) == if k == |ps| then 0 else 1 + Count(ps[k + 1..], ss)
  {
    hide Hit, Key;
    var k := FirstHit(ps, SSID_ID, Key(ss));
    if ps == [] || Holds(ps[0], ss) {
      assert ps[..0] == [];
    } else {
      FirstHitCounts(ps[1..], ss);
      assert ps[1..][..k - 1] == ps[..k][1..] && ps[..k][0] == ps[0];
      assert k < |ps| ==> ps[1..][k..] == ps[k + 1..];
    }
  }

  /** Behind pieces without an entry of the name the first hit is the same. */
  lemma {:induction false} FirstHitBehind(done: seq<Piece>, ps: seq<Piece>, ss: Text)
    requires Count(done, ss) == 0
    ensures FirstHit(done + ps, SSID_ID, Key(ss)) == |done| + FirstHit(ps, SSID_ID, Key(ss))
  {
    hide Hit, Key;
    if done == [] {
      assert [] + ps == ps;
    } else {
      assert (done + ps)[1..] == done[1..] + ps;
      FirstHitBehind(done[1..], ps, ss);
    }
  }

  // ---- reading an entry out of the page buffer ----

  lemma CStringExtends(d: Text, x: Text)
    requires |CString(d)| < |d|
    ensures CString(d + x) == CString(d)
  {
    hide CString;
    var a := CString(d);
    assert d == a + [0] + d[|a| + 1..];
    assert d + x == a + [0] + (d[|a| + 1..] + x);
    CStringStops(a, d[|a| + 1..] + x);
  }

  /** A tidy record in front of anything: its strings are read as they were written. */
  lemma PageStrings(d: Text, x: Text)
    requires Tidy(d)
    ensures CString(d + x) == Name(d) && CString((d + x)[|Name(d)| + 1..]) == Password(d)
  {
    hide CString, Entry;
    var n, pw := |Name(d)|, Password(d);
    CStringExtends(d, x);
    EntryTail(Name(d), pw);
    assert (d + x)[n + 1..] == d[n + 1..] + x;
    CStringExtends(d[n + 1..], x);
  }

  lemma EntryTail(ss: Text, pw: Text)
    ensures Entry(ss, pw)[|ss| + 1..] == pw + [0]
  {
  }

  /** A record found by the name without its terminator is the one looked for when its name has the
      same length. */
  lemma PrefixFound(p: Piece, ss: Text)
    requires Matches(p, SSID_ID) && Tidy(p.data) && NulFree(ss) && ss <= p.data
    ensures Holds(p, ss) <==> |Name(p.data)| == |ss|
  {
    hide Matches;
    HoldsIs(p, ss);
  }

  lemma HoldsPrefix(p: Piece, ss: Text)
    ensures Holds(p, ss) ==> Hit(p, SSID_ID, ss)
  {
    if Holds(p, ss) {
      assert p.data[..|ss|] == p.data[..|ss| + 1][..|ss|] == ss;
    }
  }

  /** Records that do not start with the name cannot be looked up. */
  lemma {:induction false} LookupFrom(ps: seq<Piece>, ss: Text, k: nat)
    requires k <= |ps| && forall i :: 0 <= i < k ==> !Hit(ps[i], SSID_ID, ss)
    ensures Lookup(ps, ss) == Lookup(ps[k..], ss)
    decreases k
  {
    hide Hit, Holds;
    if k == 0 {
      assert ps[0..] == ps;
    } else {
      HoldsPrefix(ps[0], ss);
      LookupFrom(ps[1..], ss, k - 1);
      assert ps[1..][k - 1..] == ps[k..];
    }
  }

  // ---- a repeated write ----

  lemma {:induction false} EntryCounts(ps: seq<Piece>, ss: Text, pw: Text)
    requires Stored(ps) && NulFree(ss) && NulFree(pw) && Entry(ss, pw) in Records(ps, SSID_ID)
    ensures Count(ps, ss) > 0 && (Count(ps, ss) <= 1 ==> Lookup(ps, ss) == Some(pw))
  {
    hide Tidy, Matches, Entry, Password, Holds, Stored;
    EntryRoundTrip(ss, pw);
    StoredTail(ps, 1);
    if Matches(ps[0], SSID_ID) { StoredFirst(ps, ss); }
    if Matches(ps[0], SSID_ID) && ps[0].data == Entry(ss, pw) {
      TidyHasName(ps[0].data);
    } else {
      EntryCounts(ps[1..], ss, pw);
    }
  }

  lemma StoredFirst(ps: seq<Piece>, ss: Text)
    requires Stored(ps) && ps != [] && Matches(ps[0], SSID_ID) && NulFree(ss)
    ensures Tidy(ps[0].data) && (Holds(ps[0], ss) <==> Name(ps[0].data) == ss)
  {
    hide Tidy, Holds;
    HoldsIs(ps[0], ss);
  }

  /** The records of a store are all shorter than a page, so they are read whole. */
  lemma {:induction false} RecordsShort(ps: seq<Piece>, i: nat)
    requires Stored(ps) && i < |Records(ps, SSID_ID)|
    ensures |Records(ps, SSID_ID)[i]| <= ENTRY_LIMIT
  {
    hide Tidy, Matches;
    StoredTail(ps, 1);
    if Matches(ps[0], SSID_ID) {
      assert Tidy(ps[0].data);
      TidyHasName(ps[0].data);
      if i > 0 { RecordsShort(ps[1..], i - 1); }
    } else {
      RecordsShort(ps[1..], i);
    }
  }

  /** Writing what a name already has changes nothing. */
  lemma RepeatWins(ps: seq<Piece>, ss: Text, pw: Text, last: map<Text, Text>)
    requires LastWins(ps, last) && NulFree(ss) && NulFree(pw) && Entry(ss, pw) in Records(ps, SSID_ID)
    ensures LastWins(ps, last[ss := pw]) && Lookup(ps, ss) == Some(pw)
  {
    hide Lookup, Count, Records, Entry, Stored;
    EntryCounts(ps, ss, pw);
  }

  // ---- the host name ----

  const HOSTNAME_ID: Byte := 2

  /** `host` is the name last written: host names are read whole, and the last one in the log is it. */
  ghost predicate HostWins(ps: seq<Piece>, host: Option<Text>) {
    && Whole(ps, HOSTNAME_ID)
    && var rs := Records(ps, HOSTNAME_ID);
       && (forall i :: 0 <= i < |rs| ==> |rs[i]| <= PAGE)
       && (rs != [] ==> host == Some(rs[|rs| - 1]))
  }

  /** A series of reads gives the host names of the log, so the latest one is the one last written. */
  lemma LatestIsHost(ps: seq<Piece>, host: Option<Text>)
    requires HostWins(ps, host)
    ensures var rs := ReadAll(ps, HOSTNAME_ID, PAGE);
            rs == Records(ps, HOSTNAME_ID) && (rs != [] ==> ps != [] && host == Some(rs[|rs| - 1]))
  {
    hide Whole, ReadAll;
    WholeReads(ps, HOSTNAME_ID, PAGE);
    assert ps == [] ==> Records(ps, HOSTNAME_ID) == [];
    hide Records;
    var rs := Records(ps, HOSTNAME_ID);
    forall i | 0 <= i < |rs| ensures Cut(rs, PAGE)[i] == rs[i] { assert rs[i][..|rs[i]|] == rs[i]; }
  }

  lemma {:induction false} RecordsAppend(a: seq<Piece>, b: seq<Piece>, id: Byte)
    ensures Records(a + b, id) == Records(a, id) + Records(b, id)
  {
    hide Matches;
    if a == [] {
      assert [] + b == b;
    } else {
      assert (a + b)[1..] == a[1..] + b;
      RecordsAppend(a[1..], b, id);
    }
  }

  lemma OneRecord(np: Piece, id: Byte)
    ensures Records([np], id) == if Matches(np, id) then [np.data] else []
  {
    assert [np][1..] == [];
  }

  /** A new record behind what is left of the log: the new host name, or the same one as before. */
  lemma HostAfter(ps: seq<Piece>, d: nat, np: Piece, host: Option<Text>)
    requires HostWins(ps, host) && d <= |ps| && !IsSplit(np.flags) && (np.id == HOSTNAME_ID ==> |np.data| <= PAGE)
    ensures HostWins(ps[d..] + [np], if Matches(np, HOSTNAME_ID) then Some(np.data) else host)
    ensures Matches(np, HOSTNAME_ID) ==>
              Records(ps[d..] + [np], HOSTNAME_ID) == Records(ps[d..], HOSTNAME_ID) + [np.data]
  {
    hide Records, Matches, IsSplit;
    RecordsAppend(ps[..d], ps[d..], HOSTNAME_ID);
    assert ps[..d] + ps[d..] == ps;
    RecordsAppend(ps[d..], [np], HOSTNAME_ID);
    OneRecord(np, HOSTNAME_ID);
    assert Whole(ps[d..] + [np], HOSTNAME_ID) by { WholeTail(ps, HOSTNAME_ID, d); }
    OnlyOfId(np);
    SuffixOf(Records(ps, HOSTNAME_ID), Records(ps[..d], HOSTNAME_ID), Records(ps[d..], HOSTNAME_ID));
  }

  lemma OnlyOfId(np: Piece)
    ensures Matches(np, HOSTNAME_ID) ==> np.id == HOSTNAME_ID
  {
  }

  lemma SuffixOf(rs: seq<Text>, a: seq<Text>, b: seq<Text>)
    requires rs == a + b
    ensures forall i :: 0 <= i < |b| ==> b[i] == rs[|a| + i]
  {
  }

  /** Pruning a network name touches no host name. */
  lemma {:induction false} PrunedHost(ps: seq<Piece>, ss: Text)
    ensures Records(Pruned(ps, ss), HOSTNAME_ID) == Records(ps, HOSTNAME_ID)
    ensures Whole(ps, HOSTNAME_ID) ==> Whole(Pruned(ps, ss), HOSTNAME_ID)
  {
    if ps != [] {
      PrunedHost(ps[1..], ss);
      var qs := Pruned(ps, ss);
      assert qs[1..] == Pruned(ps[1..], ss);
      PrunedFirst(ps, ss);
      hide Pruned, Matches, IsSplit;
      if Whole(ps, HOSTNAME_ID) {
        WholeTail(ps, HOSTNAME_ID, 1);
        forall i | 0 <= i < |qs| && qs[i].id == HOSTNAME_ID ensures !IsSplit(qs[i].flags) {
          if i > 0 { assert qs[i] == qs[1..][i - 1]; }
        }
      }
    }
  }

  lemma PrunedFirst(ps: seq<Piece>, ss: Text)
    requires ps != []
    ensures var q := Pruned(ps, ss)[0];
            q.id == ps[0].id && q.data == ps[0].data && (q.id == HOSTNAME_ID ==> q == ps[0])
  {
  }

  /** Every host name that the log `ps` remembers is remembered by `qs`. */
  ghost predicate HostKept(ps: seq<Piece>, qs: seq<Piece>) {
    forall host :: HostWins(ps, host) ==> HostWins(qs, host)
  }

  /** So writing a credential keeps the host name. */
  lemma WriteKeepsHost(ps: seq<Piece>, d: nat, np: Piece, ss: Text)
    requires d <= |ps| && np.id == SSID_ID && !IsSplit(np.flags)
    ensures HostKept(ps, Pruned(ps[d..] + [np], ss))
  {
    hide Records, Matches, IsSplit, Whole, Pruned;
    forall host | HostWins(ps, host) ensures HostWins(Pruned(ps[d..] + [np], ss), host) {
      HostAfter(ps, d, np, host);
      OnlyOfId(np);
      PrunedHost(ps[d..] + [np], ss);
    }
  }
}
