/** Appends over time: cut records, reading back what was appended, and runs of appends. */
module RingHistory {
  import opened Bytes
  import opened RingFormat
  import opened RingWalk
  import opened RingImage
  import opened RingFlash
  import opened RingSpec
  import opened RingAppend
  import opened RingRead
  import opened RingRecords
  import opened RingDelete

  // ---- cut records ----

  /** A record that reaches past the end of its sector: two headers whose lengths add up to its size,
      the first piece a prefix of the data. A record that just fits leaves its whole data in the first
      piece and then an empty record of the same length. */
  lemma CutRecord(e: nat, id: Byte, data: Text, beyond: Text)
    requires 0 < e <= LAST_START && Writable(id, data, beyond) && |data| + HEADER >= SECTOR - e
    ensures var ps, first := NewPieces(e, id, data, beyond), SECTOR - HEADER - e;
            && |ps| == 2 && ps[0].id == ps[1].id == id && !IsSplit(ps[0].flags) && IsSplit(ps[1].flags)
            && ps[0].data == data[..first] && ps[0].endsSector
            && if |data| + HEADER == SECTOR - e then ps[0].data == data && |ps[1].data| == |data| && Erased(ps[1].data)
               else |ps[0].data| + |ps[1].data| == |data|
                    && ps[1].data == (data + beyond)[|data| - first..2 * (|data| - first)]
  {
  }

  /** The second piece of a cut record holds the rest of the data, whatever the data is, just when
      both parts have the same length. */
  lemma SecondPartRight(first: nat, second: nat)
    requires 0 < first && 0 < second && first + second <= MAX_APPEND
    ensures (forall data: Text, beyond: Text :: |data| == first + second && |beyond| >= |data| ==>
               SecondPart(first, data, beyond) == data[first..])
            <==> first == second
  {
    if first == second {
      forall data: Text, beyond: Text | |data| == first + second && |beyond| >= |data|
        ensures SecondPart(first, data, beyond) == data[first..]
      {
      }
    } else {
      var n := first + second;
      var data: Text := seq(n, i => if i == first then 1 else 0);
      var beyond: Text := seq(n, i => 0);
      assert SecondPart(first, data, beyond)[0] == (data + beyond)[second] == 0;
      assert data[first..][0] == 1;
    }
  }

  // ---- reading back ----

  /** A record that fits its sector, after making room if it has to, is what a rewound series of reads
      returns last, after everything it would return from the log that was left; exactly when none of
      those reads dangles. */
  lemma AppendedIsReadLast(f: Flash, o: nat, index: nat, id: Byte, data: Text, beyond: Text, erase: bool, size: nat)
    requires Ring(f, o) && Writable(id, data, beyond) && MaxIndex(f, 0, index) + 1 < INDEX_MASK && |data| <= size
    requires erase || !NeedsRoom(Laid(f, o), |data|)
    requires var (g, p) := RoomMade(f, o, |data|); |data| + HEADER < SECTOR - Offset(Laid(g, p))
    ensures NoBad(f)
    ensures var (g, p) := RoomMade(f, o, |data|);
            var out := Appended(f, index, id, data, beyond, erase);
            && out.code == Ok && Ring(out.flash, p)
            && (ReadAll(Log(Laid(out.flash, p)), id, size) == ReadAll(Log(Laid(g, p)), id, size) + [data]
                <==> !SeriesDangles(Log(Laid(g, p)), id, size))
  {
    hide RingOf, Appended, Log, ReadAll, SeriesDangles, MaxIndex, NewPieces, Offset, NeedsRoom, UsedAfter, Used,
         Laid, Matches, IsSplit, RoomMade;
    AppendAdds(f, o, index, id, data, beyond, erase);
    var (g, p) := RoomMade(f, o, |data|);
    var ps := NewPieces(Offset(Laid(g, p)), id, data, beyond);
    WholePieces(Offset(Laid(g, p)), id, data, beyond);
    NewRecordIsReadLast(Log(Laid(g, p)), ps[0], id, size);
    assert data[..|data|] == data;
  }

  lemma WholePieces(e: nat, id: Byte, data: Text, beyond: Text)
    requires e <= LAST_START && Writable(id, data, beyond) && |data| + HEADER < SECTOR - e
    ensures var ps := NewPieces(e, id, data, beyond);
            |ps| == 1 && ps == [ps[0]] && ps[0].data == data && !IsSplit(ps[0].flags) && Matches(ps[0], id)
  {
    hide NewPiece, IsSplit, Matches;
    NewPieceIs(id, data, if e == 0 then HEADER else e);
  }

  lemma NewPieceIs(id: Byte, data: Text, p: nat)
    requires |data| < 65536 && p <= LAST_START
    ensures var np := NewPiece(id, LIVE_FLAG, data, p); np.data == data && !IsSplit(np.flags) && Matches(np, id)
  {
  }

  /** What reads of `size` bytes return for a record whose first `first` bytes fit its sector: both parts
      joined, or one by one when the first already has that size. */
  function CutReads(first: nat, data: Text, beyond: Text, size: nat): seq<Text>
    requires first <= |data| <= |beyond| && first <= SECTOR
  {
    var second := SecondPart(first, data, beyond);
    if first < size then [Prefix(data[..first] + second, size)] else [Prefix(data[..first], size), Prefix(second, size)]
  }

  /** The same for a record that reaches the end of its sector: it is read last as `CutReads` says, exactly
      when none of the earlier reads dangles. */
  lemma AppendedCutIsReadLast(f: Flash, o: nat, index: nat, id: Byte, data: Text, beyond: Text, erase: bool, size: nat)
    requires Ring(f, o) && Writable(id, data, beyond) && MaxIndex(f, 0, index) + 1 < INDEX_MASK
    requires erase || !NeedsRoom(Laid(f, o), |data|)
    requires var (g, p) := RoomMade(f, o, |data|); |data| + HEADER >= SECTOR - Offset(Laid(g, p))
    ensures NoBad(f)
    ensures var (g, p) := RoomMade(f, o, |data|);
            var out, first := Appended(f, index, id, data, beyond, erase), SECTOR - HEADER - Offset(Laid(g, p));
            && out.code == Ok && Ring(out.flash, p)
            && (ReadAll(Log(Laid(out.flash, p)), id, size)
                == ReadAll(Log(Laid(g, p)), id, size) + CutReads(first, data, beyond, size)
                <==> !SeriesDangles(Log(Laid(g, p)), id, size))
  {
    hide RingOf, Appended, Log, ReadAll, SeriesDangles, MaxIndex, NewPieces, Offset, NeedsRoom, UsedAfter, Used,
         Laid, Matches, IsSplit, RoomMade, SecondPart;
    AppendAdds(f, o, index, id, data, beyond, erase);
    var (g, p) := RoomMade(f, o, |data|);
    var e := Offset(Laid(g, p));
    var ps := NewPieces(e, id, data, beyond);
    CutPieces(e, id, data, beyond);
    CutRecordIsReadLast(Log(Laid(g, p)), ps[0], ps[1], id, size);
    CutRead(ps[0], ps[1], id, size);
  }

  /** So a read that could hold the record gives it back as it was written exactly when it does not end with
      its sector and its second part holds the rest; `SecondPartRight` says when that is so. */
  lemma CutReadsRight(first: nat, data: Text, beyond: Text, size: nat)
    requires 0 < first <= |data| <= |beyond| && first <= SECTOR && |data| <= size
    ensures CutReads(first, data, beyond, size) == [data]
       <==> first < |data| && SecondPart(first, data, beyond) == data[first..]
  {
    var second := SecondPart(first, data, beyond);
    assert data == data[..first] + data[first..];
    if first < |data| {
      assert Prefix(data[..first] + second, size) == data[..first] + second;
      assert (data[..first] + second)[first..] == second;
    } else if first < size {
      assert |Prefix(data + second, size)| > |data|;
      assert data[..first] == data;
    }
  }

  lemma CutPieces(e: nat, id: Byte, data: Text, beyond: Text)
    requires e <= LAST_START && Writable(id, data, beyond) && |data| + HEADER >= SECTOR - e
    ensures var ps, first := NewPieces(e, id, data, beyond), SECTOR - HEADER - e;
            && 0 < first <= |data| && |ps| == 2 && ps == [ps[0], ps[1]]
            && !IsSplit(ps[0].flags) && Matches(ps[0], id) && ps[0].endsSector && ps[0].data == data[..first]
            && IsSplit(ps[1].flags) && Matches(ps[1], id) && ps[1].data == SecondPart(first, data, beyond)
  {
  }

  /** Erased flash is a ring with an empty log. */
  lemma ErasedRing(f: Flash)
    requires IsFlash(f) && forall i :: 0 <= i < |f| ==> ErasedOk(f[i])
    ensures Ring(f, 0) && Log(Laid(f, 0)) == []
  {
    hide Lead, Used, Erased, SectorStatus, Full;
    assert Laid(f, 0) == f;
    assert Shape(f, 0, 0);
    ShapeOf(f, 0, 0, 0);
    LogOfShape(f, 0, 0);
  }

  /** What is left of the log after making room. */
  lemma RoomMadeLog(f: Flash, o: nat, size: nat) returns (d: nat)
    requires Ring(f, o)
    ensures var (g, p) := RoomMade(f, o, size);
            Ring(g, p) && d <= |Log(Laid(f, o))| && Log(Laid(g, p)) == Log(Laid(f, o))[d..]
  {
    hide RingOf, Log, NeedsRoom, SecPieces, Laid, Used, Lead, Full;
    if NeedsRoom(Laid(f, o), size) {
      NeedsAll(Laid(f, o), size);
      Evicted(f, o);
      d := |SecPieces(Laid(f, o)[0], HEADER)|;
    } else {
      d := 0;
    }
  }

  // ---- room left ----

  /** The last piece of a sector says whether its records reach the end. */
  lemma {:induction false} LastOfSector(sec: Text, p: nat)
    requires Sector(sec) && Place(p) && SecEnd(sec, p) > p
    ensures SecPieces(sec, p) != []
    ensures SecPieces(sec, p)[|SecPieces(sec, p)| - 1].endsSector <==> SecEnd(sec, p) == SECTOR
    decreases SECTOR - p
  {
    hide RecordStatus, Next, PieceAt;
    var q := Next(sec, p);
    PieceEnds(sec, p);
    if SecEnd(sec, q) > q { LastOfSector(sec, q); } else { NoMorePieces(sec, q); }
  }

  lemma PieceEnds(sec: Text, p: nat)
    requires Sector(sec) && p <= LAST_START
    ensures PieceAt(sec, p).endsSector <==> Next(sec, p) == SECTOR
  {
  }

  lemma NoMorePieces(sec: Text, q: nat)
    requires Sector(sec) && Place(q) && SecEnd(sec, q) == q
    ensures SecPieces(sec, q) == []
  {
  }

  /** And the last piece of the log whether the newest sector is full. */
  lemma LastOfLog(r: seq<Text>, o: nat)
    requires Image(r) && RingOf(r, o) && Used(r) > 0
    ensures Log(r) != [] && (Log(r)[|Log(r)| - 1].endsSector <==> Lead(r) == Used(r))
  {
    hide Log, Lead, Used, SecPieces, FirstPieces, SecEnd, SecFits, SectorStatus;
    UsedOrOneMore(r);
    SplitRingOf(r, o);
    var k := Used(r) - 1;
    LogWithNewest(r, k);
    if Lead(r) == Used(r) { assert FullOk(r[k]); } else { assert OpenOk(r[k]); }
    LastOfSector(r[k], HEADER);
  }

  /** Seen from before the append: an unused sector is left, or place for another record behind this one. */
  predicate LeavesRoom(f: Flash, o: nat, size: nat)
    requires IsFlash(f) && o < |f|
  {
    var (g, p) := RoomMade(f, o, size);
    var e := Offset(Laid(g, p));
    UsedAfter(Laid(g, p), size) < |f| || (if e == 0 then HEADER else e) + HEADER + size <= LAST_START
  }

  /** A record that stays in one sector leaves erased room in the ring exactly then. */
  lemma RoomIsLeft(f: Flash, o: nat, index: nat, id: Byte, data: Text, beyond: Text, erase: bool)
    requires Ring(f, o) && Writable(id, data, beyond) && MaxIndex(f, 0, index) + 1 < INDEX_MASK
    requires erase || !NeedsRoom(Laid(f, o), |data|)
    requires var (g, p) := RoomMade(f, o, |data|); |data| + HEADER < SECTOR - Offset(Laid(g, p))
    ensures NoBad(f)
    ensures var out, p := Appended(f, index, id, data, beyond, erase), RoomMade(f, o, |data|).1;
            Ring(out.flash, p) && (Lead(Laid(out.flash, p)) < |f| <==> LeavesRoom(f, o, |data|))
  {
    hide RingOf, Appended, Log, MaxIndex, Offset, NeedsRoom, UsedAfter, Used, Lead, Full, Laid, RoomMade, FlagByte;
    AppendAdds(f, o, index, id, data, beyond, erase);
    var (g, p) := RoomMade(f, o, |data|);
    var out := Appended(f, index, id, data, beyond, erase);
    var s := Laid(out.flash, p);
    UsedOrOneMore(s);
    UsedSome(Laid(g, p), |data|);
    LastOfLog(s, p);
    assert Log(s)[|Log(s)| - 1] == NewPieces(Offset(Laid(g, p)), id, data, beyond)[0];
  }

  lemma UsedSome(r: seq<Text>, size: nat)
    requires Image(r)
    ensures UsedAfter(r, size) > 0
  {
    hide Lead, Full;
  }

  // ---- deleting ----

  /** With whole records and a key that every candidate decides, what is deleted is the first live
      record of the id that starts with the key; every other entry of the log stays. */
  lemma DeletesFirstHit(f: Flash, o: nat, i: nat, q: nat, id: Byte, key: Text, scratch: Text)
    requires Ring(f, o) && |scratch| >= |key|
    requires Whole(Log(Laid(f, o)), id) && Decided(Log(Laid(f, o)), id, key)
    requires var s := FindFrom(Log(Laid(f, o)), id, key, scratch); s.Found? && PlaceOf(f, o, i, q, s.at)
    ensures var log, g := Log(Laid(f, o)), Deleted(f, o, i, q);
            var k := FirstHit(log, id, key);
            && k < |log| && Ring(g, o) && Log(Laid(g, o)) == log[k := Smudged(log[k])]
            && Live(log) == Live(log[..k]) + ([log[k]] + Live(log[k + 1..]))
            && Live(Log(Laid(g, o))) == Live(log[..k]) + Live(log[k + 1..])
  {
    hide RingOf, Log, Live, Smudged, Behind, Deleted, Readable, CursorAt, Ahead, RecordStatus, Laid, FindFrom,
         FirstHit, Whole, Decided, IsLive, OneBitCleared, Lead, Used;
    var log := Log(Laid(f, o));
    var k := FirstHit(log, id, key);
    FindIsFirst(log, id, key, scratch);
    DeleteResult(f, o, i, q, log[k..]);
    LogAtCursorHidden(Laid(f, o), i, q);
    SplitAtHit(log, Behind(Laid(f, o), i, q), k);
  }

  lemma SplitAtHit(log: seq<Piece>, before: seq<Piece>, k: nat)
    requires k < |log| && log == before + log[k..]
    ensures before == log[..k] && log[k..][0] == log[k] && log[k..][1..] == log[k + 1..]
    ensures forall p :: before + ([p] + log[k + 1..]) == log[k := p]
  {
    assert |before| == k;
    assert before == (before + log[k..])[..k];
  }

  // ---- a ring with a dangling read ----

  /** Every piece ahead of the cursor has its place. */
  lemma {:induction false} PlaceAhead(r: seq<Text>, j: nat, p: nat, m: nat) returns (i: nat, q: nat)
    requires Readable(r) && CursorAt(r, j, p) && m < |Ahead(r, j, p)|
    ensures i < |r| && Sector(r[i]) && HEADER <= q <= LAST_START && CursorAt(r, i, q) && RecordStatus(r[i], q) == Good
    ensures Ahead(r, i, q) == Ahead(r, j, p)[m..]
    decreases m
  {
    hide RecordStatus, SectorStatus, Ahead, Used, Lead, Full, Reaches, PieceAt, Next, Shape;
    AheadAtHeader(r, j, p);
    i, q := j, if p == 0 then HEADER else p;
    if m == 0 {
      assert Ahead(r, j, p)[0..] == Ahead(r, j, p);
    } else {
      AheadStep(r, i, q);
      var n := Next(r[i], q);
      var rest := Ahead(r, j, p)[1..];
      assert Ahead(r, j, p)[m..] == rest[m - 1..];
      if n < SECTOR { i, q := PlaceAhead(r, i, n, m - 1); } else { i, q := PlaceAhead(r, i + 1, 0, m - 1); }
    }
  }

  lemma PieceHasPlace(f: Flash, o: nat, m: nat) returns (i: nat, q: nat)
    requires Ring(f, o) && Lead(Laid(f, o)) < |f| && m < |Log(Laid(f, o))|
    ensures PlaceOf(f, o, i, q, Log(Laid(f, o))[m..])
  {
    hide RecordStatus, Log, Lead, Full, Used, Shape;
    var r := Laid(f, o);
    assert r[0..] == r;
    i, q := PlaceAhead(r, 0, 0, m);
  }

  ghost function Lengths(ps: seq<Piece>): nat {
    if ps == [] then 0 else HEADER + |ps[0].data| + Lengths(ps[1..])
  }

  /** The records of an open sector stand side by side. */
  lemma {:induction false} EndByLengths(sec: Text, p: nat)
    requires Sector(sec) && Place(p) && SecFits(sec, p) && SecEnd(sec, p) < SECTOR
    ensures SecEnd(sec, p) == p + Lengths(SecPieces(sec, p))
    decreases SECTOR - p
  {
    if RecordStatus(sec, p) == Good {
      var q := Next(sec, p);
      EndByLengths(sec, q);
      PieceIs(sec, p);
      assert SecPieces(sec, p)[1..] == SecPieces(sec, q);
      hide RecordStatus;
    }
  }

  lemma OneSectorOffset(r: seq<Text>, o: nat)
    requires Image(r) && RingOf(r, o) && Used(r) == 1 && Lead(r) == 0
    ensures Offset(r) == HEADER + Lengths(Log(r))
  {
    hide Log, Lead, Used, SecPieces, FirstPieces, SecEnd, SecFits, SectorStatus, Lengths;
    SplitRingOf(r, o);
    LogWithNewest(r, 0);
    assert OpenOk(r[0]);
    NoFirst(r);
    EndByLengths(r[0], HEADER);
  }

  lemma NoFirst(r: seq<Text>)
    requires Image(r)
    ensures FirstPieces(r[..0]) + (if r == [] then [] else SecPieces(r[0], HEADER))
         == if r == [] then [] else SecPieces(r[0], HEADER)
  {
    hide SecPieces;
  }

  const TWO_ERASED: Flash := [BlankSector(), BlankSector()]

  /** A record of id 2 that leaves 88 bytes of its sector, and one of id 1 that is cut in two halves. */
  ghost function Filler(): (t: Text)
    ensures |t| == 4000
  {
    seq(4000, _ => 5)
  }

  ghost function Halves(): (t: Text)
    ensures |t| == 168 && t[0] == 7 && t[84] == 9
  {
    seq(168, i => if i < 84 then 7 else 9)
  }

  /** The first record goes to the start of sector 0. */
  lemma FirstAppend() returns (f: Flash, np: Piece)
    ensures NoBad(TWO_ERASED) && f == Appended(TWO_ERASED, 0, 2, Filler(), Filler(), true).flash && |f| == 2
    ensures Ring(f, 0) && Used(Laid(f, 0)) == 1 && Log(Laid(f, 0)) == [np] && MaxIndex(f, 0, 1) == 1
    ensures np.id == 2 && |np.data| == 4000 && !np.endsSector
  {
    hide RingOf, Appended, Log, MaxIndex, Offset, Used, Lead, Full, Laid, FlagByte, Filler;
    var g := TWO_ERASED;
    ErasedRing(g);
    NothingUsed(g);
    AppendAdds(g, 0, 0, 2, Filler(), Filler(), true);
    var out := Appended(g, 0, 2, Filler(), Filler(), true);
    f := out.flash;
    np := NewPieces(0, 2, Filler(), Filler())[0];
    assert [] + [np] == [np];
    CappedHigher(Laid(f, 0), 1, out.index);
    IndexStays(f, 0, 1);
  }

  lemma CappedHigher(r: seq<Text>, u: nat, top: nat)
    requires Image(r) && u <= |r| && Capped(r, u, top) && top <= 1
    ensures Capped(r, u, 1)
  {
    hide Idx;
  }

  lemma NothingUsed(f: Flash)
    requires f == TWO_ERASED && Ring(f, 0)
    ensures Used(Laid(f, 0)) == 0 && Lead(Laid(f, 0)) == 0 && Offset(Laid(f, 0)) == 0 && MaxIndex(f, 0, 0) == 0
    ensures forall size :: !NeedsRoom(Laid(f, 0), size)
    ensures forall size :: UsedAfter(Laid(f, 0), size) == 1
  {
    hide Erased, SectorStatus, MaxIndex;
    assert Laid(f, 0) == f;
    assert Shape(f, 0, 0);
    hide Lead, Full;
    ShapeIs(f, 0, 0);
    ErasedIsBlank(BlankSector());
    MaxIndexKeeps(f, 0, 0);
  }

  /** The second record is cut at the end of sector 0. */
  lemma SecondAppend(f: Flash, np: Piece) returns (g: Flash, a: Piece, b: Piece)
    requires Ring(f, 0) && |f| == 2 && Used(Laid(f, 0)) == 1 && Log(Laid(f, 0)) == [np] && MaxIndex(f, 0, 1) == 1
    requires |np.data| == 4000 && !np.endsSector
    ensures NoBad(f) && g == Appended(f, 1, 1, Halves(), Halves(), true).flash && |g| == 2
    ensures Ring(g, 0) && Lead(Laid(g, 0)) < 2 && Log(Laid(g, 0)) == [np, a, b]
    ensures a.id == 1 && IsLive(a.flags) && !IsSplit(a.flags) && a.endsSector && a.data == Halves()[..84]
    ensures b.id == 1 && IsLive(b.flags) && IsSplit(b.flags) && b.data == Halves()[84..]
  {
    hide RingOf, Appended, Log, MaxIndex, Offset, Used, Lead, Full, Laid, FlagByte, Lengths, Halves;
    var r := Laid(f, 0);
    LastOfLog(r, 0);
    UsedOrOneMore(r);
    OneSectorOffset(r, 0);
    OneLength(np);
    AppendAdds(f, 0, 1, 1, Halves(), Halves(), true);
    g := Appended(f, 1, 1, Halves(), Halves(), true).flash;
    var ps := NewPieces(4008, 1, Halves(), Halves());
    a, b := ps[0], ps[1];
    assert [np] + [a, b] == [np, a, b];
    assert (Halves() + Halves())[84..168] == Halves()[84..];
    LastOfLog(Laid(g, 0), 0);
  }

  lemma OneLength(np: Piece)
    ensures Lengths([np]) == HEADER + |np.data|
  {
    assert [np][1..] == [];
  }

  /** The search for a text that the second part starts with, and the first one does not. */
  lemma SecondPartFound(np: Piece, a: Piece, b: Piece, scratch: Text)
    requires np.id == 2 && Matches(a, 1) && Matches(b, 1) && |a.data| == 84
    requires |b.data| == 84 && a.data[0] == 7 && b.data[0] == 9
    requires |scratch| >= 1
    ensures FindFrom([np, a, b], 1, [9], scratch).Found? && FindFrom([np, a, b], 1, [9], scratch).at == [b]
  {
    hide FindFrom, ReadFrom, Matches;
    assert [np, a, b][1..] == [a, b] && [a, b][1..] == [b] && [b][1..] == [];
    assert !Matches(np, 1) by { NotMatching(np, 1); }
    FindStep([np, a, b], 1, [9], scratch);
    FindStep([a, b], 1, [9], scratch);
    ReadCons([a, b], 1, 1);
    var d := Prefix(a.data, 1);
    var now := d + scratch[1..];
    assert now[..1] == [7];
    FindStep([b], 1, [9], now);
    ReadCons([b], 1, 1);
    assert (Prefix(b.data, 1) + now[1..])[..1] == [9];
  }

  lemma NotMatching(p: Piece, id: Byte)
    requires p.id != id
    ensures !Matches(p, id)
  {
  }

  lemma DeadSecondDangles(np: Piece, a: Piece, b: Piece, size: nat)
    requires np.id == 2 && Matches(a, 1) && a.endsSector && |a.data| == 84
    requires b.id == 1 && !IsLive(b.flags) && IsSplit(b.flags) && size > 84
    ensures SeriesDangles([np, a, b], 1, size)
  {
    hide ReadFrom, IsLive, IsSplit;
    assert [np, a, b][1..] == [a, b] && [a, b][1..] == [b] && [b][1..] == [];
    ReadCons([np, a, b], 1, size);
    ReadCons([a, b], 1, size);
    ReadCons([b], 1, size - 84);
    ReadNothing(1, size - 84);
    assert Dangles([a, b], 1, size);
    assert Dangles([np, a, b], 1, size);
  }

  /** Two appends to an erased ring and one deletion lead to a ring on which a read dangles, so that the
      next record of that id would be glued to an older one. */
  lemma DanglingRingIsReachable(scratch: Text, size: nat) returns (f1: Flash, f2: Flash, i: nat, q: nat)
    requires |scratch| >= 1 && size > 84
    ensures NoBad(TWO_ERASED) && f1 == Appended(TWO_ERASED, 0, 2, Filler(), Filler(), true).flash && NoBad(f1)
    ensures f2 == Appended(f1, 1, 1, Halves(), Halves(), true).flash && Ring(f2, 0)
    ensures var s := FindFrom(Log(Laid(f2, 0)), 1, [9], scratch); s.Found? && PlaceOf(f2, 0, i, q, s.at)
    ensures var f3 := Deleted(f2, 0, i, q); Ring(f3, 0) && SeriesDangles(Log(Laid(f3, 0)), 1, size)
  {
    hide RingOf, Appended, Log, MaxIndex, Used, Lead, Full, Laid, Halves, Filler, FindFrom, SeriesDangles, PlaceOf,
         Live, Behind, OneBitCleared, IsLive, IsSplit, Cleared;
    var np, a, b;
    f1, np := FirstAppend();
    f2, a, b := SecondAppend(f1, np);
    SecondPartFound(np, a, b, scratch);
    i, q := PieceHasPlace(f2, 0, 2);
    assert [np, a, b][2..] == [b];
    DeleteResult(f2, 0, i, q, [b]);
    PlaceBounded(f2, 0, i, q, [b]);
    LogAtCursorHidden(Laid(f2, 0), i, q);
    var before := Behind(Laid(f2, 0), i, q);
    assert before == [np, a] by {
      assert before + [b] == [np, a, b];
      assert |before| == 2;
      assert before == (before + [b])[..2];
    }
    assert before + ([Smudged(b)] + [b][1..]) == [np, a, Smudged(b)];
    DeadFlags(b);
    DeadSecondDangles(np, a, Smudged(b), size);
  }

  lemma PlaceBounded(f: Flash, o: nat, i: nat, q: nat, ps: seq<Piece>)
    requires PlaceOf(f, o, i, q, ps)
    ensures IsFlash(f) && o < |f| && i < |f| && HEADER <= q <= LAST_START && Image(Laid(f, o)) && Readable(Laid(f, o))
    ensures CursorAt(Laid(f, o), i, q) && Ahead(Laid(f, o), i, q) == ps
  {
  }

  lemma DeadFlags(b: Piece)
    ensures !IsLive(Smudged(b).flags) && (IsSplit(Smudged(b).flags) <==> IsSplit(b.flags)) && Smudged(b).id == b.id
  {
  }

  // ---- runs of appends ----

  datatype Write = Write(id: Byte, data: Text, beyond: Text)

  ghost predicate AllWritable(ws: seq<Write>) {
    forall i :: 0 <= i < |ws| ==> Writable(ws[i].id, ws[i].data, ws[i].beyond)
  }

  /** Appends that may erase, one after the other. */
  function AppendAll(f: Flash, index: nat, ws: seq<Write>): (out: Outcome)
    requires IsFlash(f) && (forall i :: 0 <= i < |ws| ==> |ws[i].beyond| >= |ws[i].data|)
    ensures IsFlash(out.flash) && |out.flash| == |f|
    decreases |ws|
  {
    if ws == [] || !NoBad(f) then Outcome(Ok, f, index)
    else
      var out := Appended(f, index, ws[0].id, ws[0].data, ws[0].beyond, true);
      if out.code != Ok then out else AppendAll(out.flash, out.index, ws[1..])
  }

  /** `ps` is what the writes leave, each somewhere in a sector. */
  ghost predicate LeftBy(ps: seq<Piece>, ws: seq<Write>)
    requires AllWritable(ws)
    decreases |ws|
  {
    if ws == [] then ps == []
    else exists e: nat, qs: seq<Piece> ::
           e <= LAST_START && ps == NewPieces(e, ws[0].id, ws[0].data, ws[0].beyond) + qs && LeftBy(qs, ws[1..])
  }

  lemma AppendNext(f: Flash, o: nat, index: nat, w: Write) returns (p: nat, d: nat, e: nat)
    requires Ring(f, o) && Writable(w.id, w.data, w.beyond) && MaxIndex(f, 0, index) + 1 < INDEX_MASK
    ensures NoBad(f) && e <= LAST_START && d <= |Log(Laid(f, o))|
    ensures var out := Appended(f, index, w.id, w.data, w.beyond, true);
            && out.code == Ok && Ring(out.flash, p) && MaxIndex(out.flash, 0, out.index) <= MaxIndex(f, 0, index) + 1
            && Log(Laid(out.flash, p)) == Log(Laid(f, o))[d..] + NewPieces(e, w.id, w.data, w.beyond)
  {
    hide RingOf, Appended, Log, MaxIndex, NewPieces, Offset, NeedsRoom, UsedAfter, RoomMade, Laid, Used;
    AppendAdds(f, o, index, w.id, w.data, w.beyond, true);
    d := RoomMadeLog(f, o, |w.data|);
    var room := RoomMade(f, o, |w.data|);
    p, e := room.1, Offset(Laid(room.0, room.1));
    IndexStays(Appended(f, index, w.id, w.data, w.beyond, true).flash, p,
               Appended(f, index, w.id, w.data, w.beyond, true).index);
  }

  lemma AppendAllStep(f: Flash, index: nat, ws: seq<Write>)
    requires IsFlash(f) && AllWritable(ws) && ws != [] && NoBad(f)
    requires Appended(f, index, ws[0].id, ws[0].data, ws[0].beyond, true).code == Ok
    ensures var out := Appended(f, index, ws[0].id, ws[0].data, ws[0].beyond, true);
            AppendAll(f, index, ws) == AppendAll(out.flash, out.index, ws[1..])
  {
    hide Appended, NoBad, MaxIndex;
  }

  /** Any run of appends on a well-formed ring succeeds, keeps the ring well formed (so the sector
      indices rise from the oldest to the newest), and leaves a suffix of the old log and the new
      pieces: nothing is ever changed, and only the oldest is lost. */
  lemma {:induction false} AppendRun(f: Flash, o: nat, index: nat, ws: seq<Write>)
    returns (p: nat, d: nat, added: seq<Piece>)
    requires Ring(f, o) && AllWritable(ws) && MaxIndex(f, 0, index) + |ws| < INDEX_MASK
    ensures var out := AppendAll(f, index, ws);
            && out.code == Ok && Ring(out.flash, p) && LeftBy(added, ws) && d <= |Log(Laid(f, o)) + added|
            && Log(Laid(out.flash, p)) == (Log(Laid(f, o)) + added)[d..]
    decreases |ws|
  {
    hide RingOf, Appended, Log, MaxIndex, NewPieces, NoBad, AppendAll;
    if ws == [] {
      p, d, added := o, 0, [];
      NoAppend(f, index);
      assert (Log(Laid(f, o)) + [])[0..] == Log(Laid(f, o));
    } else {
      var w := ws[0];
      NothingBad(f, o);
      var q, k, e := AppendNext(f, o, index, w);
      AppendAllStep(f, index, ws);
      var out := Appended(f, index, w.id, w.data, w.beyond, true);
      var np := NewPieces(e, w.id, w.data, w.beyond);
      var n, more;
      p, n, more := AppendRun(out.flash, q, out.index, ws[1..]);
      added, d := np + more, k + n;
      Suffixes(Log(Laid(f, o)), k, np, more, n);
    }
  }

  lemma NoAppend(f: Flash, index: nat)
    requires IsFlash(f)
    ensures AppendAll(f, index, []) == Outcome(Ok, f, index)
  {
  }

  lemma Suffixes(log: seq<Piece>, k: nat, np: seq<Piece>, more: seq<Piece>, n: nat)
    requires k <= |log| && n <= |log| - k + |np| + |more|
    ensures k + n <= |log + (np + more)| && (log[k..] + np + more)[n..] == (log + (np + more))[k + n..]
  {
    assert log[k..] + np + more == (log + (np + more))[k..];
  }
}
