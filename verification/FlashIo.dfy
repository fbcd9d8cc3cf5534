/** The credential store of the program on its flash: reading the latest record, writing, pruning and
    looking up (flash_io.c). Each operation sets up its own ring buffer control block. */
module FlashIo {
  import opened Bytes
  import opened RingFormat
  import opened RingWalk
  import opened RingImage
  import opened RingFlash
  import opened RingSpec
  import opened RingAppend
  import opened RingRead
  import opened RingRecords
  import opened RingDelete
  import opened RingDevice
  import opened RingCheck
  import opened SsidStore
  import opened RingHistory

  /** A ring that the program wrote, with erased room, so that reads and searches end. */
  ghost predicate Searchable(f: Flash, o: nat) {
    Settled(f, o) && Lead(Laid(f, o)) < |f|
  }

  function LogOf(f: Flash, o: nat): seq<Piece>
    requires IsFlash(f) && o < |f|
  {
    LaidImage(f, o);
    Log(Laid(f, o))
  }

  /** Sector 0 is in use as soon as anything is stored. */
  lemma SectorZero(f: Flash, o: nat)
    requires Settled(f, o)
    ensures SectorStatus(f[0], 0) == if Used(Laid(f, o)) > 0 then Good else Blank
  {
    hide Shape, Lead, Used, SectorStatus, Full;
    var j := PlaceInRing(o, 0, |f|);
    LaidSectors(f, o, j);
    UsedSector(Laid(f, o), Lead(Laid(f, o)), Used(Laid(f, o)), j);
  }

  lemma EmptyLog(f: Flash, o: nat)
    requires Settled(f, o) && Used(Laid(f, o)) == 0
    ensures LogOf(f, o) == []
  {
    var r := Laid(f, o);
    hide Shape, Lead, Used, Full;
    UsedSector(r, Lead(r), Used(r), 0);
  }

  // ---- pruning ----

  /** The state of a search for the entries of a name: `done` lies behind the cursor without one. */
  ghost predicate Searching(f: Flash, o: nat, done: seq<Piece>, ps: seq<Piece>, ss: Text) {
    Searchable(f, o) && LogOf(f, o) == done + ps && Stored(done + ps) && Count(done, ss) == 0
  }

  /** What the search for the name and its terminator finds from there. */
  lemma SearchFinds(done: seq<Piece>, ps: seq<Piece>, ss: Text, scratch: Text)
    requires Stored(done + ps) && NulFree(ss) && Count(done, ss) == 0 && |scratch| > |ss|
    ensures var k := FirstHit(ps, SSID_ID, Key(ss));
            var s := FindFrom(ps, SSID_ID, Key(ss), scratch);
            && Count(done + ps[..k], ss) == 0 && done + ps == (done + ps[..k]) + ps[k..]
            && if k == |ps| then s.NotFound? && Count(done + ps, ss) == 0
               else s.Found? && s.at == ps[k..] && s.rest == ps[k + 1..]
                    && Count(done + ps, ss) == 1 + Count(ps[k + 1..], ss)
  {
    hide Stored, Key, Count, FirstHit, FindFrom, Lookup, Decided, Whole, NulFree, Hit;
    var k := FirstHit(ps, SSID_ID, Key(ss));
    SearchStored(done, ps, ss);
    FindIsFirst(ps, SSID_ID, Key(ss), scratch);
    FirstHitCounts(ps, ss);
    LookupAppend(done, ps, ss);
    LookupAppend(done, ps[..k], ss);
  }

  lemma SearchStored(done: seq<Piece>, ps: seq<Piece>, ss: Text)
    requires Stored(done + ps) && NulFree(ss)
    ensures Whole(ps, SSID_ID) && Decided(ps, SSID_ID, Key(ss))
  {
    hide Stored, Key, NulFree;
    assert (done + ps)[|done|..] == ps;
    StoredTail(done + ps, |done|);
    StoredWhole(ps);
    StoredDecides(ps, ss);
  }

  /** The first entry found, and the state of the search there. */
  lemma FirstFound(f: Flash, o: nat, done: seq<Piece>, ps: seq<Piece>, ss: Text, scratch: Text)
    requires Searching(f, o, done, ps, ss) && NulFree(ss) && |scratch| > |ss|
    ensures Searchable(f, o) && IsFlash(f) && o < |f|
    ensures var s := FindFrom(ps, SSID_ID, Key(ss), scratch);
            if s.NotFound? then Count(LogOf(f, o), ss) == 0
            else
              && s.rest == s.at[1..] && Holds(s.at[0], ss) && |s.at| <= |ps|
              && Searching(f, o, done + ps[..|ps| - |s.at|], s.at, ss)
              && Count(LogOf(f, o), ss) == 1 + Count(s.rest, ss)
  {
    hide RingOf, Log, Stored, Key, Count, FindFrom, Lookup, Lead, Used, FirstHit, Full;
    var k := FirstHit(ps, SSID_ID, Key(ss));
    SearchFinds(done, ps, ss, scratch);
    assert k < |ps| ==> ps[k..][1..] == ps[k + 1..];
  }

  /** A second entry is found when there is one. */
  lemma SecondFound(f: Flash, o: nat, done: seq<Piece>, at: seq<Piece>, ss: Text, scratch: Text)
    requires Searching(f, o, done, at, ss) && NulFree(ss) && at != [] && |scratch| > |ss|
    ensures FindFrom(at[1..], SSID_ID, Key(ss), scratch).Found? <==> Count(at[1..], ss) > 0
  {
    hide RingOf, LogOf, Log, Stored, Key, Count, FindFrom, Lead, Used, Searchable, NulFree, Full;
    SecondSearch(done, at, 0, ss, scratch);
  }

  lemma StoredWhole(ps: seq<Piece>)
    requires Stored(ps)
    ensures Whole(ps, SSID_ID)
  {
  }

  /** The same search over the whole log finds the same record. */
  lemma SameFound(done: seq<Piece>, ps: seq<Piece>, ss: Text, scratch: Text)
    requires Stored(done + ps) && NulFree(ss) && Count(done, ss) == 0 && |scratch| > |ss|
    requires FirstHit(ps, SSID_ID, Key(ss)) < |ps|
    ensures var s := FindFrom(done + ps, SSID_ID, Key(ss), scratch);
            s.Found? && s.at == ps[FirstHit(ps, SSID_ID, Key(ss))..]
  {
    hide Stored, Key, Count, FirstHit, FindFrom, Decided, Whole, NulFree, Hit;
    var k := FirstHit(ps, SSID_ID, Key(ss));
    assert (done + ps)[|done| + k..] == ps[k..];
    FirstHitBehind(done, ps, ss);
    StoredWhole(done + ps);
    StoredDecides(done + ps, ss);
    FindIsFirst(done + ps, SSID_ID, Key(ss), scratch);
  }

  /** Deleting the first of several entries of a name. */
  lemma PruneOne(f: Flash, o: nat, i: nat, q: nat, done: seq<Piece>, ps: seq<Piece>, ss: Text)
    requires Searching(f, o, done, ps, ss) && ps != [] && Holds(ps[0], ss) && Count(ps[1..], ss) > 0
    requires PlaceOf(f, o, i, q, ps)
    ensures var g := Deleted(f, o, i, q);
            && Searching(g, o, done, [Smudged(ps[0])] + ps[1..], ss)
            && Pruned(LogOf(g, o), ss) == Pruned(LogOf(f, o), ss) && Count(LogOf(g, o), ss) < Count(LogOf(f, o), ss)
  {
    hide PlaceOf, RingOf, Lead, Used, Log, Stored, Holds, Pruned, Count, Live, Smudged, Deleted, Behind, Full;
    LiveHeld(ps[0], ss);
    DeleteFacts(f, o, i, q, ps, done);
    assert ps == [ps[0]] + ps[1..];
    PrunedStep(done, ps[0], ps[1..], ss);
    SmudgedStored(done, ps[0], ps[1..]);
    CountDrops(done, ps[0], ps[1..], ss);
  }

  lemma LiveHeld(p: Piece, ss: Text)
    requires Holds(p, ss)
    ensures IsLive(p.flags)
  {
  }

  lemma DeleteFacts(f: Flash, o: nat, i: nat, q: nat, ps: seq<Piece>, done: seq<Piece>)
    requires Searchable(f, o) && PlaceOf(f, o, i, q, ps) && ps != [] && IsLive(ps[0].flags) && LogOf(f, o) == done + ps
    ensures IsFlash(f) && o < |f| && i < |f| && q <= LAST_START
    ensures var g := Deleted(f, o, i, q); Searchable(g, o) && LogOf(g, o) == done + ([Smudged(ps[0])] + ps[1..])
  {
    hide RingOf, Lead, Used, Log, Live, Smudged, Behind, Deleted, Readable, CursorAt, Ahead, RecordStatus, IsLive,
         Laid, Full;
    DeleteResult(f, o, i, q, ps);
    LogAtCursorHidden(Laid(f, o), i, q);
    SamePrefix(done, Behind(Laid(f, o), i, q), ps);
  }

  lemma SamePrefix(a: seq<Piece>, b: seq<Piece>, c: seq<Piece>)
    requires a + c == b + c
    ensures a == b
  {
    assert |a| == |b|;
    assert a == (a + c)[..|a|] && b == (b + c)[..|b|];
  }

  lemma SmudgedStored(a: seq<Piece>, p: Piece, b: seq<Piece>)
    requires Stored(a + ([p] + b))
    ensures Stored(a + ([Smudged(p)] + b))
  {
    var s, t := a + ([p] + b), a + ([Smudged(p)] + b);
    hide Tidy, IsSplit, Matches;
    SmudgedPiece(p);
    assert s[|a|] == p && t[|a|] == Smudged(p);
    assert forall i :: 0 <= i < |s| && i != |a| ==> t[i] == s[i];
  }

  lemma SmudgedPiece(p: Piece)
    ensures !Matches(Smudged(p), SSID_ID) && (IsSplit(Smudged(p).flags) <==> IsSplit(p.flags)) && Smudged(p).id == p.id
  {
  }

  lemma CountDrops(a: seq<Piece>, p: Piece, b: seq<Piece>, ss: Text)
    requires Holds(p, ss)
    ensures Count(a + ([Smudged(p)] + b), ss) < Count(a + ([p] + b), ss)
  {
    hide Holds, Smudged;
    LookupAppend(a, [p] + b, ss);
    LookupAppend(a, [Smudged(p)] + b, ss);
    SmudgedHolds(p, ss);
    assert ([p] + b)[1..] == b && ([Smudged(p)] + b)[1..] == b;
  }

  /** The search for a second entry. */
  lemma SecondSearch(done: seq<Piece>, ps: seq<Piece>, k: nat, ss: Text, scratch: Text)
    requires Stored(done + ps) && NulFree(ss) && k < |ps| && |scratch| > |ss|
    ensures FindFrom(ps[k + 1..], SSID_ID, Key(ss), scratch).Found? <==> Count(ps[k + 1..], ss) > 0
  {
    hide Stored, Key, Count, FirstHit, FindFrom, Lookup, NulFree;
    var rest := ps[k + 1..];
    assert (done + ps)[|done| + k + 1..] == rest;
    StoredTail(done + ps, |done| + k + 1);
    assert [] + rest == rest;
    NothingCounted(ss);
    SearchFinds([], rest, ss, scratch);
  }

  lemma FoundFirst(done: seq<Piece>, ps: seq<Piece>, ss: Text, scratch: Text)
    requires Stored(done + ps) && NulFree(ss) && Count(done, ss) == 0
    requires |scratch| > |ss| && ps != [] && Holds(ps[0], ss)
    ensures var s := FindFrom(done + ps, SSID_ID, Key(ss), scratch); s.Found? && s.at == ps
  {
    hide Stored, Key, Count, FindFrom, Hit;
    SameFound(done, ps, ss, scratch);
    assert ps[0..] == ps;
  }

  lemma InUse(f: Flash, o: nat)
    requires Settled(f, o) && LogOf(f, o) != []
    ensures SectorStatus(f[0], 0) == Good
  {
    hide RingOf, Log, Used, Lead, SectorStatus, Full;
    SectorZero(f, o);
    if Used(Laid(f, o)) == 0 { EmptyLog(f, o); }
  }

  // ---- looking up ----

  /** The search for the name without its terminator, from anywhere in the log. */
  lemma PrefixSearch(ps: seq<Piece>, ss: Text, scratch: Text)
    requires Stored(ps) && NulFree(ss) && |scratch| >= |ss|
    ensures var s := FindFrom(ps, SSID_ID, ss, scratch);
            if s.NotFound? then Lookup(ps, ss) == None
            else
              && |s.at| <= |ps| && s.rest == s.at[1..] && Stored(s.at) && Lookup(ps, ss) == Lookup(s.at, ss)
              && Matches(s.at[0], SSID_ID) && Tidy(s.at[0].data) && ss <= s.at[0].data
  {
    hide Stored, FindFrom, Lookup, FirstHit, Tidy;
    var k := FirstHit(ps, SSID_ID, ss);
    StoredWhole(ps);
    StoredDecides(ps, ss);
    FindIsFirst(ps, SSID_ID, ss, scratch);
    LookupFrom(ps, ss, k);
    if k < |ps| {
      StoredTail(ps, k);
      assert ps[k..][1..] == ps[k + 1..];
      StoredFirst(ps[k..], ss);
    } else {
      assert ps[k..] == [];
      NoLookup(ss);
    }
  }

  lemma NoLookup(ss: Text)
    ensures Lookup([], ss) == None
  {
  }

  /** The record found, read into the page buffer, decides the lookup or is passed over. */
  lemma LookupAt(ps: seq<Piece>, ss: Text, page: Text)
    requires Stored(ps) && NulFree(ss) && ps != [] && Matches(ps[0], SSID_ID) && Tidy(ps[0].data) && ss <= ps[0].data
    requires |page| == PAGE
    ensures ReadFrom(ps, SSID_ID, PAGE) == Reading(true, ps[0].data, ps[1..]) && |ps[0].data| <= PAGE && Stored(ps[1..])
    ensures var now := ps[0].data + page[|ps[0].data|..];
            && |CString(now)| < PAGE
            && Lookup(ps, ss) ==
               if |CString(now)| == |ss| then Some(CString(now[|CString(now)| + 1..])) else Lookup(ps[1..], ss)
  {
    hide Stored, Tidy, CString, Matches, ReadFrom, Holds;
    TidyHasName(ps[0].data);
    StoredWhole(ps);
    WholeRead(ps, SSID_ID, PAGE);
    StoredTail(ps, 1);
    PageStrings(ps[0].data, page[|ps[0].data|..]);
    PrefixFound(ps[0], ss);
  }

  // ---- writing ----

  /** The record stays in one sector. */
  predicate StaysWhole(f: Flash, o: nat, size: nat)
    requires IsFlash(f) && o < |f|
  {
    var (g, p) := RoomMade(f, o, size);
    size + HEADER < SECTOR - Offset(Laid(g, p))
  }

  /** The oldest sector after the append. */
  function OldestAfter(f: Flash, o: nat, size: nat): (p: nat)
    requires IsFlash(f) && o < |f|
    ensures p < |f|
  {
    RoomMade(f, o, size).1
  }

  /** Every append that may erase keeps a ring settled, cut records included. */
  lemma AppendKeepsSettled(f: Flash, o: nat, index: nat, id: Byte, data: Text, beyond: Text)
    requires Settled(f, o) && Writable(id, data, beyond) && MaxIndex(f, 0, index) + 1 < INDEX_MASK
    ensures NoBad(f)
    ensures var out := Appended(f, index, id, data, beyond, true);
            out.code == Ok && Settled(out.flash, OldestAfter(f, o, |data|))
  {
    hide RingOf, Appended, Log, MaxIndex, Offset, NewPieces, Lead, Used, Full, UsedAfter, NeedsRoom, Laid;
    AppendAdds(f, o, index, id, data, beyond, true);
    if NeedsRoom(Laid(f, o), |data|) {
      NeedsAll(Laid(f, o), |data|);
      RoomAfterEviction(f, o, |data|);
    } else {
      StaysFull(Laid(f, o), |data|);
    }
  }

  /** An append whose record stays in one sector: the log loses at most its oldest part and gets the
      record, and the ring stays settled. */
  lemma AppendSettles(f: Flash, o: nat, index: nat, id: Byte, data: Text, beyond: Text) returns (d: nat, np: Piece)
    requires Settled(f, o) && Writable(id, data, beyond)
    requires MaxIndex(f, 0, index) + 1 < INDEX_MASK && StaysWhole(f, o, |data|)
    ensures NoBad(f) && d <= |LogOf(f, o)| && np.data == data && !IsSplit(np.flags) && Matches(np, id)
    ensures var out, p := Appended(f, index, id, data, beyond, true), OldestAfter(f, o, |data|);
            && out.code == Ok && Settled(out.flash, p) && LogOf(out.flash, p) == LogOf(f, o)[d..] + [np]
            && (Searchable(out.flash, p) <==> LeavesRoom(f, o, |data|))
  {
    hide RingOf, Appended, Log, MaxIndex, Offset, NewPiece, Lead, Used, Full, Matches, IsSplit, UsedAfter,
         NeedsRoom, Laid, LeavesRoom;
    AppendAdds(f, o, index, id, data, beyond, true);
    RoomIsLeft(f, o, index, id, data, beyond, true);
    d := RoomMadeLog(f, o, |data|);
    var (g, p) := RoomMade(f, o, |data|);
    var e := Offset(Laid(g, p));
    np := NewPiece(id, LIVE_FLAG, data, if e == 0 then HEADER else e);
    NewPieceIs(id, data, if e == 0 then HEADER else e);
    AppendKeepsSettled(f, o, index, id, data, beyond);
  }

  lemma StaysFull(r: seq<Text>, size: nat)
    requires Image(r)
    ensures UsedAfter(r, size) >= Used(r)
  {
  }

  lemma WritableFits(id: Byte, data: Text, beyond: Text, f: Flash)
    requires Writable(id, data, beyond) && IsFlash(f)
    ensures |data| <= Size(f) - HEADER && |data| > 0 && id != 255 && |beyond| >= |data|
  {
  }

  lemma EntryLength(ss: Text, pw: Text)
    ensures |Entry(ss, pw)| == |ss| + |pw| + 2
  {
  }

  lemma LatestWins(ps: seq<Piece>, ss: Text, pw: Text, last: map<Text, Text>)
    requires LastWins(ps, last) && NulFree(ss) && NulFree(pw)
    requires var rs := ReadAll(ps, SSID_ID, PAGE); rs != [] && rs[|rs| - 1] == Entry(ss, pw)
    ensures LastWins(ps, last[ss := pw]) && Lookup(ps, ss) == Some(pw)
  {
    hide Records, Stored, ReadAll, Lookup, Count, Entry;
    StoredWhole(ps);
    WholeReads(ps, SSID_ID, PAGE);
    var rs := Records(ps, SSID_ID);
    RecordsShort(ps, |rs| - 1);
    assert Entry(ss, pw) == rs[|rs| - 1];
    RepeatWins(ps, ss, pw, last);
  }

  lemma OfId(np: Piece, id: Byte)
    requires Matches(np, id)
    ensures np.id == id
  {
  }

  lemma WinsStored(ps: seq<Piece>, last: map<Text, Text>)
    requires LastWins(ps, last)
    ensures Stored(ps)
  {
  }

  lemma AppendedStored(ps: seq<Piece>, d: nat, np: Piece, ss: Text, pw: Text, last: map<Text, Text>)
    requires LastWins(ps, last) && d <= |ps| && NulFree(ss) && NulFree(pw) && |ss| + |pw| + 2 <= ENTRY_LIMIT
    requires !IsSplit(np.flags) && np.data == Entry(ss, pw)
    ensures Stored(ps[d..] + [np])
  {
    hide Stored, IsSplit, Entry, Tidy;
    EntryRoundTrip(ss, pw);
    StoredTail(ps, d);
    StoredSnoc(ps[d..], np);
  }

  /** A write to the store: a credential, or a host name of these bytes. */
  datatype Write = Ssid(ss: Text, pw: Text) | Hostname(name: Text)

  /** What the record of a write holds. */
  function RecordOf(w: Write): Text {
    match w
    case Ssid(ss, pw) => Entry(ss, pw)
    case Hostname(name) => name
  }

  /** A host name that one page holds, and whose C string fits a search text. */
  ghost predicate HostFits(name: Text, beyond: Text) {
    0 < |name| <= PAGE && |CString(name + beyond)| < ENTRY_LIMIT
  }

  /** Two C strings that fit the buffer in which an entry is put together, or a host name. */
  ghost predicate Storable(w: Write, beyond: Text) {
    match w
    case Ssid(ss, pw) => NulFree(ss) && NulFree(pw) && |ss| + |pw| + 2 <= ENTRY_LIMIT
    case Hostname(name) => HostFits(name, beyond)
  }

  /** The record can be written whole, leaves erased room, and the sector index has not reached its limit. */
  predicate Writes(f: Flash, o: nat, junk: nat, size: nat)
    requires IsFlash(f) && o < |f|
  {
    MaxIndex(f, 0, junk) + 1 < INDEX_MASK && StaysWhole(f, o, size) && LeavesRoom(f, o, size)
  }

  /** The last password of each network name, and the last host name. */
  datatype Memory = Memory(last: map<Text, Text>, host: Option<Text>)

  ghost function Remembered(m: Memory, w: Write): Memory {
    match w
    case Ssid(ss, pw) => m.(last := m.last[ss := pw])
    case Hostname(name) => m.(host := Some(name))
  }

  ghost function AfterWrites(writes: seq<Write>, m: Memory): Memory {
    if writes == [] then m
    else Remembered(AfterWrites(writes[..|writes| - 1], m), writes[|writes| - 1])
  }

  lemma NoneWritten(m: Memory)
    ensures AfterWrites([], m) == m
  {
  }

  lemma AfterNext(writes: seq<Write>, n: nat, m: Memory)
    requires n < |writes|
    ensures AfterWrites(writes[..n + 1], m) == Remembered(AfterWrites(writes[..n], m), writes[n])
  {
    assert writes[..n + 1][..n] == writes[..n];
  }

  lemma OldestIs(f: Flash, o: nat)
    requires Settled(f, o)
    ensures Oldest(f) == o
  {
    hide RingOf, Oldest;
    OldestFound(f, o);
  }

  /** A store on erased flash: no name has a password, and there is no host name. */
  lemma ErasedStore(f: Flash)
    requires IsFlash(f) && forall i :: 0 <= i < |f| ==> ErasedOk(f[i])
    ensures Searchable(f, 0) && LastWins(LogOf(f, 0), map[]) && HostWins(LogOf(f, 0), None)
  {
    hide Erased, Lead, Used, Full;
    ErasedRing(f);
    assert Laid(f, 0) == f;
    assert Shape(f, 0, 0);
    RingImage.ShapeIs(f, 0, 0);
  }

  lemma NothingCounted(ss: Text)
    ensures Count([], ss) == 0
  {
  }

  class Credentials {
    var flash: Flash
    /** The page buffer that all operations share. */
    var page: Text
    /** The memory right behind the area. */
    const past: Text

    /** What stands behind the area does not look like a sector header, so that the check of the ring
        passes whenever it is done. */
    ghost predicate Valid(o: nat)
      reads this
    {
      Settled(flash, o) && |page| == PAGE && |past| >= HEADER && SectorStatus(past, 0) != Good
    }

    constructor (flash: Flash, past: Text, ghost o: nat)
      requires Settled(flash, o) && |past| >= HEADER && SectorStatus(past, 0) != Good
      ensures Valid(o) && this.flash == flash
    {
      this.flash, this.past := flash, past;
      page := BlankPage();
    }

    /** A control block at the oldest sector: the check of the ring passes, so nothing is erased. Its
        running index starts from whatever stood in memory. */
    method Reopen(junk: nat, choice: InitChoice, ghost o: nat) returns (rb: RingBuffer, code: Code)
      requires Valid(o) && choice != InitAlways
      ensures fresh(rb) && rb.Valid() && rb.flash == flash && rb.next == SECTOR * o
      ensures rb.sectorIndex == MaxIndex(flash, 0, junk) && code == AsCode(SectorStatus(flash[0], 0))
    {
      hide SectorStatus, MaxIndex, Oldest, RingOf, CheckRing;
      OldestFound(flash, o);
      CheckPasses(flash, o, past);
      rb := new RingBuffer(flash, junk);
      code := rb.Recreate(past, choice);
    }

    /** read_flash_ids: how many records of an id can be read. */
    method CountIds(id: Byte, junk: nat, ghost o: nat) returns (code: Code, n: nat)
      requires Valid(o) && Searchable(flash, o) && id != 0 && id != 255
      modifies this`page
      ensures |page| == PAGE && code == AsCode(SectorStatus(flash[0], 0))
      ensures n == if code == Ok then |ReadAll(LogOf(flash, o), id, PAGE)| else 0
    {
      hide SectorStatus, MaxIndex, RingOf, Log, ReadFrom, Lead, Used, Laid, Readable, CursorAt, Ahead, Full;
      n := 0;
      var rb;
      rb, code := Reopen(junk, InitIfFail, o);
      if code != Ok { return; }
      rb.StandingAtOldest(o);
      ghost var j, p: nat := 0, 0;
      while true
        invariant rb.Standing(o, j, p) && rb.flash == flash && |page| == PAGE && fresh(rb)
        invariant |ReadAll(LogOf(flash, o), id, PAGE)| == n + |ReadAll(rb.Pieces(o, j, p), id, PAGE)|
        decreases |rb.Pieces(o, j, p)|
      {
        var c, out;
        c, out, j, p := rb.Read(id, PAGE, o, j, p);
        if c != Ok { break; }
        page := out + page[|out|..];
        n := n + 1;
      }
    }

    /** read_flash_id_n for the `n`th record, counted from 1. */
    method ReadNth(id: Byte, n: nat, junk: nat, ghost o: nat) returns (code: Code, len: nat)
      requires Valid(o) && Searchable(flash, o) && id != 0 && id != 255 && n > 0
      modifies this`page
      ensures |page| == PAGE
      ensures var rs := ReadAll(LogOf(flash, o), id, PAGE);
              if SectorStatus(flash[0], 0) == Good && n <= |rs|
              then code == Ok && len == |rs[n - 1]| && len <= PAGE && page[..len] == rs[n - 1]
              else code == BlankHdr
    {
      hide SectorStatus, MaxIndex, RingOf, Log, ReadFrom, Lead, Used, Full;
      len := 0;
      SectorZero(flash, o);
      var rb;
      rb, code := Reopen(junk, InitIfFail, o);
      if code != Ok { return; }
      rb.StandingAtOldest(o);
      ghost var rs := ReadAll(LogOf(flash, o), id, PAGE);
      ghost var j, p: nat := 0, 0;
      var i := 1;
      while true
        invariant rb.Standing(o, j, p) && rb.flash == flash && |page| == PAGE && fresh(rb) && 1 <= i <= n
        invariant i - 1 <= |rs| && ReadAll(rb.Pieces(o, j, p), id, PAGE) == rs[i - 1..]
        decreases n - i
      {
        var out;
        code, out, j, p := rb.Read(id, PAGE, o, j, p);
        if code != Ok { return; }
        page := out + page[|out|..];
        assert rs[i - 1..][0] == rs[i - 1] == out && rs[i - 1..][1..] == rs[i..];
        if i == n {
          len := |out|;
          assert page[..len] == out;
          return;
        }
        i := i + 1;
      }
    }

    /** read_flash_id_latest: the last record that a series of reads returns, in the page buffer. */
    method ReadLatest(id: Byte, junk: nat, ghost o: nat) returns (len: nat)
      requires Valid(o) && Searchable(flash, o) && id != 0 && id != 255
      modifies this`page
      ensures |page| == PAGE && len <= PAGE
      ensures var rs := ReadAll(LogOf(flash, o), id, PAGE);
              if SectorStatus(flash[0], 0) == Good && rs != []
              then len == |rs[|rs| - 1]| && page[..len] == rs[|rs| - 1]
              else len == 0
    {
      hide SectorStatus, MaxIndex, RingOf, Log, ReadFrom, Lead, Used, ReadAll, Full;
      var code, n := CountIds(id, junk, o);
      if code != Ok || n == 0 { return 0; }
      code, len := ReadNth(id, n, junk, o);
    }

    /** One round of flash_io_erase_redundant_ssids: find an entry and a second one, delete the first. */
    method EraseOne(rb: RingBuffer, ss: Text, ghost o: nat, ghost done0: seq<Piece>, ghost j0: nat, ghost p0: nat)
      returns (more: bool, ghost done: seq<Piece>, ghost j: nat, ghost p: nat)
      requires rb.Standing(o, j0, p0) && Searching(rb.flash, o, done0, rb.Pieces(o, j0, p0), ss)
      requires |page| == PAGE && NulFree(ss) && |ss| < ENTRY_LIMIT
      modifies this`page, rb
      ensures |page| == PAGE && |rb.flash| == |old(rb.flash)| && Searchable(rb.flash, o)
      ensures if more then
                && rb.Standing(o, j, p) && Searching(rb.flash, o, done, rb.Pieces(o, j, p), ss)
                && Pruned(LogOf(rb.flash, o), ss) == Pruned(old(LogOf(rb.flash, o)), ss)
                && Count(LogOf(rb.flash, o), ss) < Count(old(LogOf(rb.flash, o)), ss)
              else rb.flash == old(rb.flash) && Count(LogOf(rb.flash, o), ss) <= 1
    {
      hide SectorStatus, RecordStatus, RingOf, LogOf, Log, Lead, Used, Stored, Key, Count, FindFrom, Pruned,
           PlaceOf, Readable, CursorAt, Ahead, Laid, Holds, Searching, Searchable, NulFree, Full;
      more, done := false, done0;
      ghost var ps := rb.Pieces(o, j0, p0);
      FirstFound(rb.flash, o, done, ps, ss, page);
      ghost var s := FindFrom(ps, SSID_ID, Key(ss), page);
      var code, at;
      ghost var i, q;
      code, at, page, i, q, j, p := rb.Find(SSID_ID, Key(ss), page, o, j0, p0);
      if code != Ok { return; }
      rb.SightedAt(o, i, q, at, s.at);
      done := done + ps[..|ps| - |s.at|];
      SecondFound(rb.flash, o, done, s.at, ss, page);
      var second, other;
      ghost var i2, q2;
      second, other, page, i2, q2, j, p := rb.Find(SSID_ID, Key(ss), page, o, j, p);
      if second != Ok { return; }
      rb.next := at;
      more, j, p := true, i, q;
      DeleteFirst(rb, ss, o, done, s.at, i, q);
    }

    /** rb_delete of the entry at the cursor, the first one of its name in the log. */
    method DeleteFirst(rb: RingBuffer, ss: Text, ghost o: nat, ghost done: seq<Piece>, ghost ps: seq<Piece>,
                       ghost i: nat, ghost q: nat)
      requires rb.Valid() && Searching(rb.flash, o, done, ps, ss) && PlaceOf(rb.flash, o, i, q, ps)
      requires rb.next == SECTOR * RingSector(o, i, |rb.flash|) + q
      requires ps != [] && Holds(ps[0], ss) && Count(ps[1..], ss) > 0
      requires |page| == PAGE && NulFree(ss) && |ss| < ENTRY_LIMIT
      modifies this`page, rb
      ensures |page| == PAGE && |rb.flash| == |old(rb.flash)| && Searchable(rb.flash, o)
      ensures rb.Standing(o, i, q) && Searching(rb.flash, o, done, rb.Pieces(o, i, q), ss)
      ensures Pruned(LogOf(rb.flash, o), ss) == Pruned(old(LogOf(rb.flash, o)), ss)
      ensures Count(LogOf(rb.flash, o), ss) < Count(old(LogOf(rb.flash, o)), ss)
    {
      hide SectorStatus, MaxIndex, RingOf, Log, Lead, Used, Stored, Key, Count, FindFrom, Pruned, PlaceOf, Readable,
           CursorAt, Ahead, FirstHit, Laid, Holds, Full;
      ghost var f := rb.flash;
      InUse(f, o);
      FoundFirst(done, ps, ss, page);
      var code;
      ghost var i2, q2;
      code, page, i2, q2 := rb.Delete(SSID_ID, Key(ss), page, o);
      SamePlace(f, o, i, q, i2, q2, ps);
      PruneOne(f, o, i, q, done, ps, ss);
      DeletedAhead(f, o, i, q, ps);
      PlaceBounded(f, o, i, q, ps);
    }

    /** flash_io_erase_redundant_ssids: all entries of a name but the last are deleted. */
    method EraseRedundant(ss: Text, junk: nat, ghost o: nat)
      requires Valid(o) && Searchable(flash, o) && Stored(LogOf(flash, o)) && NulFree(ss) && |ss| < ENTRY_LIMIT
      modifies this`flash, this`page
      ensures Valid(o) && Searchable(flash, o) && |flash| == |old(flash)|
      ensures LogOf(flash, o) == Pruned(old(LogOf(flash, o)), ss)
    {
      hide SectorStatus, MaxIndex, RingOf, Log, Lead, Used, Stored, Key, Count, FindFrom, Pruned, PlaceOf, Readable,
           CursorAt, Ahead, FirstHit, Laid, Holds, Full;
      var rb, code := Reopen(junk, InitFail, o);
      rb.StandingAtOldest(o);
      ghost var done, j, p: nat := [], 0, 0;
      NothingCounted(ss);
      assert [] + LogOf(flash, o) == LogOf(flash, o);
      ghost var was := LogOf(flash, o);
      while true
        invariant fresh(rb) && rb.Standing(o, j, p) && |page| == PAGE && |rb.flash| == |old(flash)|
        invariant Searching(rb.flash, o, done, rb.Pieces(o, j, p), ss)
        invariant Pruned(LogOf(rb.flash, o), ss) == Pruned(was, ss)
        decreases Count(LogOf(rb.flash, o), ss)
      {
        var more;
        more, done, j, p := EraseOne(rb, ss, o, done, j, p);
        if !more { break; }
      }
      PrunedOnce(LogOf(rb.flash, o), ss);
      flash := rb.flash;
    }

    /** The loop of flash_io_find_matching_ssid: records that start with the name, until one of them
        has just that name. */
    method Search(rb: RingBuffer, ss: Text, ghost o: nat, ghost all: seq<Piece>) returns (pw: Option<Text>)
      requires rb.Standing(o, 0, 0) && rb.Pieces(o, 0, 0) == all && Stored(all)
      requires NulFree(ss) && 0 < |ss| < ENTRY_LIMIT && |page| == PAGE
      modifies this`page, rb`next
      ensures |page| == PAGE && pw == Lookup(all, ss)
    {
      hide SectorStatus, RecordStatus, Log, Lead, Used, Stored, FindFrom, ReadFrom, Readable, CursorAt, Ahead, Laid,
           Lookup, Tidy, Matches, CString, NulFree, PlaceOf, Full;
      pw := None;
      ghost var j, p: nat := 0, 0;
      while true
        invariant rb.Standing(o, j, p) && |page| == PAGE
        invariant Stored(rb.Pieces(o, j, p)) && Lookup(rb.Pieces(o, j, p), ss) == Lookup(all, ss)
        decreases |rb.Pieces(o, j, p)|
      {
        ghost var ps := rb.Pieces(o, j, p);
        PrefixSearch(ps, ss, page);
        ghost var s := FindFrom(ps, SSID_ID, ss, page);
        var code, at;
        ghost var i, q;
        code, at, page, i, q, j, p := rb.Find(SSID_ID, ss, page, o, j, p);
        if code != Ok { return; }
        rb.next := at;
        rb.Revisit(o, i, q, at, s.at);
        LookupAt(s.at, ss, page);
        var out;
        code, out, j, p := rb.Read(SSID_ID, PAGE, o, i, q);
        page := out + page[|out|..];
        var name := CString(page);
        if |name| == |ss| {
          pw := Some(CString(page[|name| + 1..]));
          return;
        }
      }
    }

    /** flash_io_find_matching_ssid: the password stored for a name. */
    method FindMatching(ss: Text, junk: nat, ghost o: nat) returns (pw: Option<Text>)
      requires Valid(o) && Searchable(flash, o) && Stored(LogOf(flash, o)) && NulFree(ss) && |ss| < ENTRY_LIMIT
      modifies this`flash, this`page
      ensures Valid(o) && Searchable(flash, o) && |flash| == |old(flash)|
      ensures LogOf(flash, o) == Pruned(old(LogOf(flash, o)), ss)
      ensures pw == if ss == [] then None else Lookup(LogOf(flash, o), ss)
    {
      hide SectorStatus, MaxIndex, RingOf, Log, Lead, Used, Stored, Pruned, Laid, Lookup, NulFree, Full;
      PrunedStored(LogOf(flash, o), ss);
      EraseRedundant(ss, junk, o);
      if |ss| == 0 { return None; }
      var rb, code := Reopen(junk, InitFail, o);
      rb.StandingAtOldest(o);
      pw := Search(rb, ss, o, LogOf(flash, o));
    }

    /** Last write wins, so far. */
    ghost predicate Faithful(o: nat, last: map<Text, Text>)
      reads this
    {
      Valid(o) && Searchable(flash, o) && LastWins(LogOf(flash, o), last)
    }

    /** And the host name last written is the one to be read. */
    ghost predicate Remembers(o: nat, m: Memory)
      reads this
    {
      Faithful(o, m.last) && HostWins(LogOf(flash, o), m.host)
    }

    /** flash_io_write_flash_id: the record is appended unless it repeats the latest one. */
    method WriteId(id: Byte, data: Text, beyond: Text, junk: nat, ghost o: nat)
      returns (written: bool, ghost d: nat, ghost np: Piece)
      requires Valid(o) && Searchable(flash, o) && id != 0 && Writable(id, data, beyond)
      requires MaxIndex(flash, 0, junk) + 1 < INDEX_MASK && StaysWhole(flash, o, |data|)
      modifies this`flash, this`page
      ensures |page| == PAGE && IsFlash(flash) && |flash| == |old(flash)|
      ensures var f, p := old(flash), OldestAfter(old(flash), o, |data|);
              var rs := ReadAll(LogOf(f, o), id, PAGE);
              if !written then flash == f && rs != [] && rs[|rs| - 1] == data
              else
                && NoBad(f) && flash == Appended(f, MaxIndex(f, 0, junk), id, data, beyond, true).flash
                && Settled(flash, p) && d <= |LogOf(f, o)| && LogOf(flash, p) == LogOf(f, o)[d..] + [np]
                && (Searchable(flash, p) <==> LeavesRoom(f, o, |data|))
                && np.data == data && !IsSplit(np.flags) && Matches(np, id)
    {
      hide SectorStatus, MaxIndex, RingOf, Log, Lead, Used, ReadAll, Appended, StaysWhole, LeavesRoom, Matches,
           IsSplit, OldestAfter, Full;
      d, np := 0, Piece(0, 0, [], false);
      var len := ReadLatest(id, junk, o);
      if len == |data| && page[..len] == data { return false, d, np; }
      MaxIndexAgain(flash, junk);
      d, np := AppendSettles(flash, o, MaxIndex(flash, 0, junk), id, data, beyond);
      var rb, code := Reopen(junk, InitIfFail, o);
      WritableFits(id, data, beyond, flash);
      code := rb.Append(id, data, beyond, true);
      flash := rb.flash;
      page := BlankPage();
      written := true;
    }

    /** flash_io_write_ssid, for an entry that stays in one sector and leaves erased room behind: the
        name has the new password from then on, and every other name its last one or none. */
    method WriteSsid(ss: Text, pw: Text, beyond: Text, junk: nat, ghost o: nat, ghost last: map<Text, Text>)
      returns (written: bool, ghost p: nat)
      requires Faithful(o, last) && NulFree(ss) && NulFree(pw) && |ss| + |pw| + 2 <= ENTRY_LIMIT
      requires |beyond| >= |Entry(ss, pw)| && MaxIndex(flash, 0, junk) + 1 < INDEX_MASK
      requires StaysWhole(flash, o, |Entry(ss, pw)|) && LeavesRoom(flash, o, |Entry(ss, pw)|)
      modifies this`flash, this`page
      ensures Faithful(p, last[ss := pw]) && Lookup(LogOf(flash, p), ss) == Some(pw)
      ensures HostKept(old(LogOf(flash, o)), LogOf(flash, p))
      ensures !written ==> flash == old(flash) && p == o
    {
      hide SectorStatus, MaxIndex, RingOf, Log, Lead, Used, ReadAll, Appended, StaysWhole, LeavesRoom, Matches,
           IsSplit, OldestAfter, Entry, Pruned, Lookup, LastWins, NulFree, Full, HostWins;
      var entry := Entry(ss, pw);
      EntryLength(ss, pw);
      ghost var ps := LogOf(flash, o);
      ghost var d, np;
      written, d, np := WriteId(SSID_ID, entry, beyond, junk, o);
      if !written {
        p := o;
        LatestWins(ps, ss, pw, last);
        return;
      }
      p := OldestAfter(old(flash), o, |entry|);
      WriteWins(ps, d, np, ss, pw, last);
      AppendedStored(ps, d, np, ss, pw, last);
      OfId(np, SSID_ID);
      WriteKeepsHost(ps, d, np, ss);
      EraseRedundant(ss, junk, p);
    }

    /** flash_io_write_hostname: the name is appended unless it repeats the latest one; every password stays
        as it is, also with the pruning of network names that follows. */
    method WriteHostname(name: Text, beyond: Text, junk: nat, ghost o: nat, ghost m: Memory)
      returns (written: bool, ghost p: nat)
      requires Remembers(o, m) && HostFits(name, beyond) && |beyond| >= |name|
      requires MaxIndex(flash, 0, junk) + 1 < INDEX_MASK
      requires StaysWhole(flash, o, |name|) && LeavesRoom(flash, o, |name|)
      modifies this`flash, this`page
      ensures Remembers(p, m.(host := Some(name)))
      ensures var rs := Records(LogOf(flash, p), HOSTNAME_ID); rs != [] && rs[|rs| - 1] == name
      ensures !written ==> flash == old(flash) && p == o
    {
      hide SectorStatus, MaxIndex, RingOf, Log, Lead, Used, ReadAll, Appended, StaysWhole, LeavesRoom, Matches,
           IsSplit, OldestAfter, Pruned, Lookup, LastWins, NulFree, Full, HostWins, Records;
      ghost var ps := LogOf(flash, o);
      ghost var d, np;
      written, d, np := WriteId(HOSTNAME_ID, name, beyond, junk, o);
      if !written {
        p := o;
        LatestIsHost(ps, m.host);
        return;
      }
      p := OldestAfter(old(flash), o, |name|);
      OfId(np, HOSTNAME_ID);
      OtherIdKeepsWins(ps, d, np, m.last);
      HostAfter(ps, d, np, m.host);
      WinsStored(LogOf(flash, p), m.last);
      FoundIsLast(LogOf(flash, p), CString(name + beyond), m.last);
      EraseRedundant(CString(name + beyond), junk, p);
    }

    /** flash_io_read_latest_hostname: the host name last written, in the page buffer, as long as the log
        has one. */
    method ReadHostname(junk: nat, ghost o: nat, ghost m: Memory) returns (len: nat)
      requires Remembers(o, m)
      modifies this`page
      ensures |page| == PAGE && len <= PAGE
      ensures if Records(LogOf(flash, o), HOSTNAME_ID) == [] then len == 0 else m.host == Some(page[..len])
    {
      hide SectorStatus, MaxIndex, RingOf, Log, Lead, Used, ReadAll, LastWins, Full, HostWins, Records;
      LatestIsHost(LogOf(flash, o), m.host);
      if LogOf(flash, o) != [] { InUse(flash, o); }
      len := ReadLatest(HOSTNAME_ID, junk, o);
    }

    /** Credentials and host names written one after the other, as long as each stays in one sector and
        leaves erased room: the store remembers the last password of every name and the last host name. */
    method WriteAll(writes: seq<Write>, beyond: Text, junk: nat, ghost o: nat, ghost m: Memory)
      returns (done: nat, ghost p: nat)
      requires Remembers(o, m) && |beyond| >= PAGE
      requires forall i :: 0 <= i < |writes| ==> Storable(writes[i], beyond)
      modifies this`flash, this`page
      ensures done <= |writes| && Remembers(p, AfterWrites(writes[..done], m))
      ensures done < |writes| ==> !Writes(flash, p, junk, |RecordOf(writes[done])|)
    {
      hide SectorStatus, MaxIndex, RingOf, Log, Lead, Used, Full, LastWins, NulFree, StaysWhole, LeavesRoom, Searchable,
           HostWins, CString;
      done, p := 0, o;
      ghost var now := m;
      NoneWritten(m);
      assert writes[..0] == [];
      while done < |writes|
        invariant done <= |writes| && now == AfterWrites(writes[..done], m) && Remembers(p, now)
        decreases |writes| - done
      {
        OldestIs(flash, p);
        if !Writes(flash, Oldest(flash), junk, |RecordOf(writes[done])|) { return; }
        ghost var q;
        match writes[done] {
          case Ssid(ss, pw) =>
            EntryLength(ss, pw);
            var _, r := WriteSsid(ss, pw, beyond, junk, p, now.last);
            q := r;
          case Hostname(name) =>
            var _, r := WriteHostname(name, beyond, junk, p, now);
            q := r;
        }
        AfterNext(writes, done, m);
        p, now := q, Remembered(now, writes[done]);
        done := done + 1;
      }
    }
  }
}
