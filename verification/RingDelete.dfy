/** Deleting a record: one flag bit of its header is cleared, and nothing else in the log changes
    (ring_buffer.c). */
module RingDelete {
  import opened Bytes
  import opened Bits
  import opened RingFormat
  import opened RingWalk
  import opened RingImage
  import opened RingRead
  import opened RingFlash
  import opened RingAppend

  function Cleared(b: Byte): (c: Byte)
    ensures !IsLive(c) && c % 32 == b % 32 && (IsSplit(c) <==> IsSplit(b)) && c <= b
  {
    if IsLive(b) then b - LIVE_FLAG else b
  }

  function Smudged(p: Piece): Piece { p.(flags := Cleared(p.flags)) }

  /** The sector with the live bit of the header at `p` cleared. */
  function SmudgedAt(sec: Text, p: nat): (s: Text)
    requires Sector(sec) && p <= LAST_START
    ensures Sector(s)
  {
    sec[p + 3 := Cleared(Flags(sec, p))]
  }

  lemma SmudgedHeader(sec: Text, p: nat)
    requires Sector(sec) && p <= LAST_START && RecordStatus(sec, p) == Good
    ensures var s := SmudgedAt(sec, p);
            RecordStatus(s, p) == Good && Next(s, p) == Next(sec, p) && Len(s, p) == Len(sec, p)
              && PieceAt(s, p) == Smudged(PieceAt(sec, p))
  {
    hide Crc, Skip;
    var s := SmudgedAt(sec, p);
    assert s[p..p + 3] == sec[p..p + 3];
    assert s[p + HEADER..] == sec[p + HEADER..];
    var end := p + HEADER + Len(sec, p);
    var e := if end <= SECTOR then end else SECTOR;
    assert s[p + HEADER..e] == s[p + HEADER..][..e - p - HEADER];
    assert sec[p + HEADER..e] == sec[p + HEADER..][..e - p - HEADER];
  }

  lemma SmudgedStart(sec: Text, p: nat)
    requires Sector(sec) && HEADER <= p <= LAST_START
    ensures var s := SmudgedAt(sec, p); SectorStatus(s, 0) == SectorStatus(sec, 0) && Idx(s) == Idx(sec)
  {
    var s := SmudgedAt(sec, p);
    assert s[..HEADER] == sec[..HEADER];
    SameHeader(sec, s, 0, HEADER);
    hide SectorStatus, Index;
  }

  lemma SuffixSame(sec: Text, s: Text, q: nat, p: nat)
    requires Sector(sec) && Sector(s) && q <= p <= LAST_START && sec[q..] == s[q..]
    ensures RecordStatus(s, p) == RecordStatus(sec, p) && Next(s, p) == Next(sec, p)
    ensures Len(s, p) == Len(sec, p) && PieceAt(s, p) == PieceAt(sec, p)
  {
    hide Crc, Skip;
    assert forall i :: q <= i < SECTOR ==> s[i] == s[q..][i - q] == sec[i];
    assert s[p..p + 3] == sec[p..p + 3];
    var end := p + HEADER + Len(sec, p);
    var e := if end <= SECTOR then end else SECTOR;
    assert s[p + HEADER..e] == sec[p + HEADER..e];
  }

  /** The walk from `q` sees only what stands from there on. */
  lemma {:induction false} SuffixWalk(sec: Text, s: Text, q: nat)
    requires Sector(sec) && Sector(s) && Place(q) && sec[q..] == s[q..]
    ensures SecPieces(s, q) == SecPieces(sec, q) && SecEnd(s, q) == SecEnd(sec, q) && SecFits(s, q) == SecFits(sec, q)
    decreases SECTOR - q
  {
    if q < SECTOR {
      SuffixSame(sec, s, q, q);
      var n := Next(sec, q);
      hide RecordStatus, PieceAt, Next, Len;
      if RecordStatus(sec, q) == Good {
        assert sec[n..] == sec[q..][n - q..] && s[n..] == s[q..][n - q..];
        SuffixWalk(sec, s, n);
      }
    }
  }

  /** The pieces from `q` up to `p`. */
  function Before(sec: Text, q: nat, p: nat): seq<Piece>
    requires Sector(sec) && Place(q) && Reaches(sec, q, p)
    decreases SECTOR - q
  {
    if q == p then [] else [PieceAt(sec, q)] + Before(sec, Next(sec, q), p)
  }

  lemma {:induction false} PiecesBefore(sec: Text, q: nat, p: nat)
    requires Sector(sec) && Place(q) && p <= LAST_START && Reaches(sec, q, p)
    ensures SecPieces(sec, q) == Before(sec, q, p) + SecPieces(sec, p)
    decreases SECTOR - q
  {
    hide RecordStatus, PieceAt, Next;
    if q == p {
      assert [] + SecPieces(sec, p) == SecPieces(sec, p);
    } else {
      PiecesBefore(sec, Next(sec, q), p);
      PiecesAssoc(PieceAt(sec, q), Before(sec, Next(sec, q), p), SecPieces(sec, p));
    }
  }

  lemma ReachesIsAhead(sec: Text, q: nat, p: nat)
    requires Sector(sec) && Place(q) && Place(p) && Reaches(sec, q, p) && q != p
    ensures q <= LAST_START && RecordStatus(sec, q) == Good && Next(sec, q) <= p && Reaches(sec, Next(sec, q), p)
  {
    hide RecordStatus, Next;
    ReachesSame(sec, Next(sec, q), p);
  }

  /** A record before the smudged one is not touched. */
  lemma EarlierSame(sec: Text, q: nat, p: nat)
    requires Sector(sec) && q <= LAST_START && p <= LAST_START
    requires Next(sec, q) <= p && q + HEADER + Len(sec, q) <= SECTOR
    ensures var s := SmudgedAt(sec, p);
            RecordStatus(s, q) == RecordStatus(sec, q) && Next(s, q) == Next(sec, q) && Len(s, q) == Len(sec, q)
              && PieceAt(s, q) == PieceAt(sec, q)
  {
    var s := SmudgedAt(sec, p);
    assert s[..p] == sec[..p];
    SameRecord(sec, s, q, p);
  }

  lemma {:induction false} SmudgedWalk(sec: Text, q: nat, p: nat)
    requires Sector(sec) && Place(q) && p <= LAST_START && Reaches(sec, q, p)
    requires SecFits(sec, q) && RecordStatus(sec, p) == Good
    ensures var s := SmudgedAt(sec, p);
            && SecPieces(s, q) == Before(sec, q, p) + ([Smudged(PieceAt(sec, p))] + SecPieces(sec, Next(sec, p)))
            && SecEnd(s, q) == SecEnd(sec, q) && SecFits(s, q)
    decreases SECTOR - q
  {
    hide RecordStatus, PieceAt, Next, Smudged, SmudgedAt, Len;
    if q == p {
      SmudgedHere(sec, p);
      var ps := [Smudged(PieceAt(sec, p))] + SecPieces(sec, Next(sec, p));
      assert [] + ps == ps;
    } else {
      ReachesIsAhead(sec, q, p);
      EarlierSame(sec, q, p);
      SmudgedWalk(sec, Next(sec, q), p);
      PiecesAssoc(PieceAt(sec, q), Before(sec, Next(sec, q), p),
                  [Smudged(PieceAt(sec, p))] + SecPieces(sec, Next(sec, p)));
    }
  }

  lemma SmudgedHere(sec: Text, p: nat)
    requires Sector(sec) && p <= LAST_START && SecFits(sec, p) && RecordStatus(sec, p) == Good
    ensures var s := SmudgedAt(sec, p);
            && SecPieces(s, p) == [Smudged(PieceAt(sec, p))] + SecPieces(sec, Next(sec, p))
            && SecEnd(s, p) == SecEnd(sec, p) && SecFits(s, p)
  {
    var s, n := SmudgedAt(sec, p), Next(sec, p);
    SmudgedHeader(sec, p);
    assert p + HEADER <= n;
    assert s[n..] == sec[n..];
    hide RecordStatus, PieceAt, Next, Smudged, SmudgedAt, Len;
    SuffixWalk(sec, s, n);
  }

  // ---- the ring ----

  lemma SmudgedKeepsFull(sec: Text, p: nat)
    requires FullOk(sec) && HEADER <= p <= LAST_START && Reaches(sec, HEADER, p) && RecordStatus(sec, p) == Good
    ensures FullOk(SmudgedAt(sec, p))
  {
    hide SecPieces, SecEnd, SecFits, SectorStatus, RecordStatus, SmudgedAt;
    SmudgedWalk(sec, HEADER, p);
    SmudgedStart(sec, p);
  }

  lemma SmudgedKeepsOpen(sec: Text, p: nat)
    requires OpenOk(sec) && HEADER <= p <= LAST_START && Reaches(sec, HEADER, p) && RecordStatus(sec, p) == Good
    ensures OpenOk(SmudgedAt(sec, p))
  {
    hide SecPieces, SecFits, SectorStatus, RecordStatus;
    var s, e := SmudgedAt(sec, p), SecEnd(sec, HEADER);
    SmudgedWalk(sec, HEADER, p);
    SmudgedStart(sec, p);
    ReachesSame(sec, HEADER, p);
    assert p + HEADER <= Next(sec, p) <= e;
    assert s[e..] == sec[e..];
  }

  /** The ring with the record at that place deleted. */
  function SmudgedIn(r: seq<Text>, j: nat, p: nat): (t: seq<Text>)
    requires Image(r) && j < |r| && p <= LAST_START
    ensures Image(t) && |t| == |r|
  {
    r[j := SmudgedAt(r[j], p)]
  }

  /** The ring keeps its shape and its indices. */
  lemma SmudgedShape(r: seq<Text>, j: nat, p: nat)
    requires Readable(r) && p > 0 && CursorAt(r, j, p) && RecordStatus(r[j], p) == Good
    ensures var t := SmudgedIn(r, j, p);
            && Shape(t, Lead(r), Used(r)) && Lead(t) == Lead(r) && Used(t) == Used(r)
            && forall i :: 0 <= i < |r| ==> Idx(t[i]) == Idx(r[i])
  {
    hide SecPieces, SecEnd, SecFits, SectorStatus, RecordStatus, SmudgedAt, Reaches, Lead, Idx, Full;
    var t, s := SmudgedIn(r, j, p), SmudgedAt(r[j], p);
    SmudgedStart(r[j], p);
    SmudgedSector(r, j, p);
    hide WellFormed, FullOk, OpenOk, Shape;
    ShapeSwap(r, Lead(r), Used(r), j, s);
    ShapeIs(t, Lead(r), Used(r));
  }

  lemma SmudgedSector(r: seq<Text>, j: nat, p: nat)
    requires Readable(r) && p > 0 && CursorAt(r, j, p) && RecordStatus(r[j], p) == Good
    ensures Shape(r, Lead(r), Used(r))
    ensures if j < Lead(r) then FullOk(SmudgedAt(r[j], p)) else OpenOk(SmudgedAt(r[j], p))
  {
    hide SecPieces, SecEnd, SecFits, SectorStatus, RecordStatus, SmudgedAt, Reaches, Lead, Full;
    if j < Lead(r) {
      assert FullOk(r[j]);
      SmudgedKeepsFull(r[j], p);
    } else {
      assert OpenOk(r[j]);
      SmudgedKeepsOpen(r[j], p);
    }
  }

  lemma ShapeSwap(r: seq<Text>, k: nat, u: nat, j: nat, s: Text)
    requires Shape(r, k, u) && j < u && Sector(s) && Idx(s) == Idx(r[j]) && (if j < k then FullOk(s) else OpenOk(s))
    ensures Shape(r[j := s], k, u)
  {
    hide FullOk, OpenOk, ErasedOk, Idx;
  }

  /** The pieces before a place. */
  function Behind(r: seq<Text>, j: nat, p: nat): seq<Piece>
    requires Image(r) && j < |r| && p >= HEADER && Reaches(r[j], HEADER, p)
  {
    FirstPieces(r[..j]) + Before(r[j], HEADER, p)
  }

  lemma UsedLog(r: seq<Text>, j: nat)
    requires Image(r) && j < |r| && SectorStatus(r[j], 0) == Good && forall i :: 0 <= i < j ==> Full(r[i])
    ensures Log(r) == FirstPieces(r[..j]) + FromRecord(r[j], HEADER, r[j + 1..])
  {
    hide SectorStatus, FromRecord, FirstPieces, Full;
    LogSplit(r, j);
    assert r[j..][0] == r[j] && r[j..][1..] == r[j + 1..];
  }

  lemma FromHere(sec: Text, p: nat, rest: seq<Text>)
    requires Sector(sec) && HEADER <= p <= LAST_START && Reaches(sec, HEADER, p) && Image(rest)
    ensures FromRecord(sec, HEADER, rest) == Before(sec, HEADER, p) + FromRecord(sec, p, rest)
  {
    hide SecPieces, SecEnd, Reaches, Before, Log;
    PiecesBefore(sec, HEADER, p);
    ReachesSame(sec, HEADER, p);
    Assoc(Before(sec, HEADER, p), SecPieces(sec, p), if SecEnd(sec, p) == SECTOR then Log(rest) else []);
  }

  lemma LeadFull(r: seq<Text>, j: nat)
    requires Image(r) && j <= Lead(r)
    ensures forall i :: 0 <= i < j ==> Full(r[i])
  {
  }

  /** The log is what is behind the cursor and what is ahead of it. */
  lemma LogAtCursor(r: seq<Text>, j: nat, p: nat)
    requires Readable(r) && p > 0 && CursorAt(r, j, p)
    ensures Log(r) == Behind(r, j, p) + Ahead(r, j, p)
  {
    hide FromRecord, FirstPieces, Before, Log, Lead, Full, Used, Reaches;
    UsedIsGood(r, j);
    LeadFull(r, j);
    UsedLog(r, j);
    FromHere(r[j], p, r[j + 1..]);
    Assoc(FirstPieces(r[..j]), Before(r[j], HEADER, p), FromRecord(r[j], p, r[j + 1..]));
  }

  lemma SmudgedFrom(sec: Text, p: nat, rest: seq<Text>)
    requires Sector(sec) && HEADER <= p <= LAST_START && Reaches(sec, HEADER, p) && Image(rest)
    requires SecFits(sec, HEADER) && RecordStatus(sec, p) == Good
    ensures FromRecord(sec, p, rest) != []
    ensures FromRecord(SmudgedAt(sec, p), HEADER, rest)
         == Before(sec, HEADER, p) + ([Smudged(PieceAt(sec, p))] + FromRecord(sec, p, rest)[1..])
  {
    var n := Next(sec, p);
    hide RecordStatus, Reaches, Before, Log, PieceAt, SmudgedAt, Smudged, SecFits, Next, SecPieces, SecEnd;
    SmudgedWalk(sec, HEADER, p);
    ReachesSame(sec, HEADER, p);
    var tail := if SecEnd(sec, p) == SECTOR then Log(rest) else [];
    OneStep(sec, p);
    PiecesAssoc(PieceAt(sec, p), SecPieces(sec, n), tail);
    assert FromRecord(sec, p, rest)[1..] == SecPieces(sec, n) + tail;
    Assoc(Before(sec, HEADER, p), [Smudged(PieceAt(sec, p))] + SecPieces(sec, n), tail);
    PiecesAssoc(Smudged(PieceAt(sec, p)), SecPieces(sec, n), tail);
  }

  lemma OneStep(sec: Text, p: nat)
    requires Sector(sec) && p <= LAST_START && RecordStatus(sec, p) == Good
    ensures SecPieces(sec, p) == [PieceAt(sec, p)] + SecPieces(sec, Next(sec, p))
  {
  }

  /** Deleting turns exactly the piece at the cursor into a dead one. */
  lemma SmudgedLog(r: seq<Text>, j: nat, p: nat)
    requires Readable(r) && p > 0 && CursorAt(r, j, p) && RecordStatus(r[j], p) == Good
    ensures Ahead(r, j, p) != []
    ensures Log(SmudgedIn(r, j, p)) == Behind(r, j, p) + ([Smudged(PieceAt(r[j], p))] + Ahead(r, j, p)[1..])
  {
    hide FromRecord, FirstPieces, Before, Log, Full, Reaches, Lead, Used, Smudged, RecordStatus, SmudgedAt, PieceAt;
    var t := SmudgedIn(r, j, p);
    UsedIsGood(r, j);
    LeadFull(r, j);
    SmudgedStart(r[j], p);
    assert t[..j] == r[..j] && t[j + 1..] == r[j + 1..];
    assert forall i :: 0 <= i < j ==> t[i] == r[i] && Full(t[i]);
    UsedLog(t, j);
    SmudgedFrom(r[j], p, r[j + 1..]);
    Assoc(FirstPieces(r[..j]), Before(r[j], HEADER, p), [Smudged(PieceAt(r[j], p))] + Ahead(r, j, p)[1..]);
  }

  // ---- the live log ----

  /** The entries that are not deleted. */
  function Live(ps: seq<Piece>): (ls: seq<Piece>)
    ensures |ls| <= |ps| && forall i :: 0 <= i < |ls| ==> IsLive(ls[i].flags)
  {
    if ps == [] then [] else (if IsLive(ps[0].flags) then [ps[0]] else []) + Live(ps[1..])
  }

  lemma {:induction false} LiveAppend(a: seq<Piece>, b: seq<Piece>)
    ensures Live(a + b) == Live(a) + Live(b)
  {
    hide IsLive;
    if a == [] {
      assert [] + b == b;
    } else {
      assert (a + b)[1..] == a[1..] + b;
      LiveAppend(a[1..], b);
    }
  }

  /** A dead piece in place of a live one: the live log loses just that entry. */
  lemma LiveLoses(a: seq<Piece>, p: Piece, b: seq<Piece>)
    requires IsLive(p.flags)
    ensures Live(a + ([p] + b)) == Live(a) + ([p] + Live(b)) && Live(a + ([Smudged(p)] + b)) == Live(a) + Live(b)
  {
    hide Live, Smudged;
    LiveAppend(a, [p] + b);
    LiveAppend(a, [Smudged(p)] + b);
    LiveAppend([p], b);
    LiveAppend([Smudged(p)], b);
    LiveOne(p);
    assert [] + Live(b) == Live(b);
  }

  lemma LiveOne(p: Piece)
    requires IsLive(p.flags)
    ensures Live([p]) == [p] && Live([Smudged(p)]) == []
  {
    assert [p][1..] == [] && [Smudged(p)][1..] == [];
  }

  lemma LiveBit(b: Byte)
    ensures Bit(b, 6) <==> IsLive(b)
    ensures Power(6) == LIVE_FLAG
  {
    assert Bit(b, 6) == Bit(b / 2, 5) == Bit(b / 4, 4) == Bit(b / 8, 3);
    assert Bit(b / 8, 3) == Bit(b / 16, 2) == Bit(b / 32, 1) == Bit(b / 64, 0);
    assert Power(1) == 2 && Power(2) == 4 && Power(3) == 8 && Power(4) == 16 && Power(5) == 32;
  }

  lemma AndClears(b: Byte)
    ensures And(b, Cleared(b)) == Cleared(b)
  {
    hide And, Bit, Power;
    LiveBit(b);
    if IsLive(b) { AndClearsBit(b, 6); } else { AndSelf(b); }
  }

  lemma ClearsOneBit(sec: Text, p: nat)
    requires Sector(sec) && p <= LAST_START
    ensures AndAt(sec, p + 3, [Cleared(Flags(sec, p))]) == SmudgedAt(sec, p)
  {
    hide And;
    AndClears(Flags(sec, p));
  }

  /** Place `q` of the `i`th sector holds the record that the pieces `ps` start with. */
  ghost predicate PlaceOf(f: Flash, o: nat, i: nat, q: nat, ps: seq<Piece>) {
    && IsFlash(f) && o < |f| && i < |f| && Image(Laid(f, o)) && Readable(Laid(f, o))
    && CursorAt(Laid(f, o), i, q) && HEADER <= q <= LAST_START
    && RecordStatus(Laid(f, o)[i], q) == Good && Ahead(Laid(f, o), i, q) == ps
  }

  /** The flash with the live bit of that record cleared. */
  function Deleted(f: Flash, o: nat, i: nat, q: nat): (g: Flash)
    requires IsFlash(f) && o < |f| && i < |f| && q <= LAST_START
    ensures IsFlash(g) && |g| == |f|
  {
    var s := RingSector(o, i, |f|);
    f[s := SmudgedAt(f[s], q)]
  }

  /** The flashes differ in the live bit of one byte. */
  ghost predicate OneBitCleared(f: Flash, g: Flash, s: nat, x: nat) {
    && |g| == |f| && s < |f| && |g[s]| == |f[s]| && x < |f[s]| && IsLive(f[s][x]) && g[s][x] == f[s][x] - LIVE_FLAG
    && (forall i :: 0 <= i < |f| && i != s ==> g[i] == f[i])
    && (forall y :: 0 <= y < |f[s]| && y != x ==> g[s][y] == f[s][y])
  }

  /** A deleted record: one byte of flash differs, by one bit; the ring stays well formed; the log has
      a dead piece in the place of the live one, and the live log just loses it. */
  lemma DeleteResult(f: Flash, o: nat, i: nat, q: nat, ps: seq<Piece>)
    requires Ring(f, o) && PlaceOf(f, o, i, q, ps) && ps != [] && IsLive(ps[0].flags)
    ensures var g, s := Deleted(f, o, i, q), RingSector(o, i, |f|);
            && OneBitCleared(f, g, s, q + 3)
            && Ring(g, o) && Lead(Laid(g, o)) == Lead(Laid(f, o)) && Used(Laid(g, o)) == Used(Laid(f, o))
            && var before := Behind(Laid(f, o), i, q);
            && Log(Laid(f, o)) == before + ps && Log(Laid(g, o)) == before + ([Smudged(ps[0])] + ps[1..])
            && Live(Log(Laid(f, o))) == Live(before) + ([ps[0]] + Live(ps[1..]))
            && Live(Log(Laid(g, o))) == Live(before) + Live(ps[1..])
  {
    hide RecordStatus, CursorAt, Readable, Ahead, Lead, Used, Log, Live, Behind, RingOf, Smudged, SmudgedIn, Laid,
         Image, SmudgedAt, PieceAt, Full;
    var r := Laid(f, o);
    DeletedSector(f, o, i, q);
    LogAtCursorHidden(r, i, q);
    FirstAhead(r, i, q);
    DeletedRing(r, o, i, q);
    SmudgedLog(r, i, q);
    LiveLoses(Behind(r, i, q), ps[0], ps[1..]);
    assert ps == [ps[0]] + ps[1..];
    PieceIs(r[i], q);
  }

  lemma DeletedSector(f: Flash, o: nat, i: nat, q: nat)
    requires IsFlash(f) && o < |f| && i < |f| && q <= LAST_START && Image(Laid(f, o))
    ensures var g, s := Deleted(f, o, i, q), RingSector(o, i, |f|);
            && f[s] == Laid(f, o)[i] && Sector(f[s])
            && (IsLive(Flags(f[s], q)) ==> OneBitCleared(f, g, s, q + 3))
            && Image(Laid(g, o)) && Laid(g, o) == SmudgedIn(Laid(f, o), i, q)
  {
    LaidSectors(f, o, i);
    LaidUpdate(f, o, i, SmudgedAt(Laid(f, o)[i], q));
  }

  lemma LogAtCursorHidden(r: seq<Text>, j: nat, p: nat)
    requires Readable(r) && p > 0 && CursorAt(r, j, p)
    ensures j < |r| && Image(r) && p >= HEADER && Reaches(r[j], HEADER, p) && p <= LAST_START
    ensures Log(r) == Behind(r, j, p) + Ahead(r, j, p)
  {
    hide Log, Behind, Ahead, Reaches, Lead, Used, Full;
    LogAtCursor(r, j, p);
  }

  lemma FirstAhead(r: seq<Text>, j: nat, p: nat)
    requires Readable(r) && p > 0 && CursorAt(r, j, p) && RecordStatus(r[j], p) == Good
    ensures Ahead(r, j, p) != [] && Ahead(r, j, p)[0] == PieceAt(r[j], p)
  {
    hide RecordStatus, Ahead, Lead, Used, PieceAt, Full;
    AheadStep(r, j, p);
  }

  lemma DeletedRing(r: seq<Text>, o: nat, j: nat, p: nat)
    requires Readable(r) && RingOf(r, o) && p > 0 && CursorAt(r, j, p) && RecordStatus(r[j], p) == Good
    ensures RingOf(SmudgedIn(r, j, p), o) && Lead(SmudgedIn(r, j, p)) == Lead(r) && Used(SmudgedIn(r, j, p)) == Used(r)
  {
    hide RecordStatus, Lead, SmudgedIn, Idx, Used, Shape, Reaches, Full;
    SmudgedShape(r, j, p);
    ShapeOf(SmudgedIn(r, j, p), Lead(r), Used(r), o);
  }

  // ---- the cursor and a deleted record ----

  lemma {:induction false} BeforeGrows(sec: Text, a: nat, q: nat, p: nat)
    requires Sector(sec) && Place(a) && Place(q) && Place(p) && Reaches(sec, a, q) && Reaches(sec, a, p) && q < p
    ensures |Before(sec, a, q)| < |Before(sec, a, p)|
    decreases SECTOR - a
  {
    hide RecordStatus, PieceAt, Next;
    ReachesSame(sec, a, q);
    if a != q { BeforeGrows(sec, Next(sec, a), q, p); }
  }

  lemma {:induction false} FirstPiecesGrow(r: seq<Text>, i: nat, k: nat)
    requires Image(r) && i < k <= |r|
    ensures |FirstPieces(r[..i])| + |SecPieces(r[i], HEADER)| <= |FirstPieces(r[..k])|
    decreases k
  {
    hide SecPieces, FirstPieces;
    assert r[..k] == r[..k - 1] + [r[k - 1]];
    FirstPiecesSnoc(r[..k - 1], r[k - 1]);
    if i < k - 1 { FirstPiecesGrow(r, i, k - 1); }
  }

  lemma BehindGrows(r: seq<Text>, i: nat, q: nat, j: nat, p: nat)
    requires Readable(r) && q > 0 && CursorAt(r, i, q) && p > 0 && CursorAt(r, j, p)
    requires RecordStatus(r[i], q) == Good && (i < j || (i == j && q < p))
    ensures |Behind(r, i, q)| < |Behind(r, j, p)|
  {
    hide RecordStatus, Reaches, SecPieces, FirstPieces, Before, Lead, Used, Full;
    if i == j {
      BeforeGrows(r[i], HEADER, q, p);
    } else {
      FirstPiecesGrow(r, i, j);
      PiecesBefore(r[i], HEADER, q);
      OneStep(r[i], q);
    }
  }

  /** The pieces ahead tell the place. */
  lemma SamePlace(f: Flash, o: nat, i: nat, q: nat, j: nat, p: nat, ps: seq<Piece>)
    requires PlaceOf(f, o, i, q, ps) && PlaceOf(f, o, j, p, ps)
    ensures i == j && q == p
  {
    hide RecordStatus, CursorAt, Readable, Ahead, Behind, Log, Reaches;
    var r := Laid(f, o);
    LogAtCursorHidden(r, i, q);
    LogAtCursorHidden(r, j, p);
    if i < j || (i == j && q < p) { BehindGrows(r, i, q, j, p); }
    if j < i || (i == j && p < q) { BehindGrows(r, j, p, i, q); }
  }

  lemma {:induction false} ReachesSmudged(sec: Text, q: nat, p: nat)
    requires Sector(sec) && Place(q) && p <= LAST_START && Reaches(sec, q, p) && SecFits(sec, q)
    ensures Reaches(SmudgedAt(sec, p), q, p)
    decreases SECTOR - q
  {
    hide RecordStatus, PieceAt, Next, SmudgedAt, Len;
    if q != p {
      ReachesIsAhead(sec, q, p);
      EarlierSame(sec, q, p);
      ReachesSmudged(sec, Next(sec, q), p);
    }
  }

  lemma SmudgedAhead(r: seq<Text>, j: nat, p: nat)
    requires Readable(r) && p > 0 && CursorAt(r, j, p) && RecordStatus(r[j], p) == Good
    ensures Ahead(r, j, p) != []
    ensures Ahead(SmudgedIn(r, j, p), j, p) == [Smudged(PieceAt(r[j], p))] + Ahead(r, j, p)[1..]
  {
    hide RecordStatus, Reaches, Log, PieceAt, SmudgedAt, Smudged, SecFits, Next, SecPieces, SecEnd, Lead, Used, Full;
    var sec, rest := r[j], r[j + 1..];
    UsedIsGood(r, j);
    ReachesSame(sec, HEADER, p);
    SmudgedHere(sec, p);
    OneStep(sec, p);
    var tail := if SecEnd(sec, p) == SECTOR then Log(rest) else [];
    PiecesAssoc(PieceAt(sec, p), SecPieces(sec, Next(sec, p)), tail);
    PiecesAssoc(Smudged(PieceAt(sec, p)), SecPieces(sec, Next(sec, p)), tail);
    assert SmudgedIn(r, j, p)[j + 1..] == rest;
  }

  /** The cursor can stay at a record that is deleted. */
  lemma CursorStays(r: seq<Text>, j: nat, p: nat)
    requires Readable(r) && p > 0 && CursorAt(r, j, p) && RecordStatus(r[j], p) == Good
    ensures Readable(SmudgedIn(r, j, p)) && CursorAt(SmudgedIn(r, j, p), j, p)
  {
    SmudgedShape(r, j, p);
    hide Shape, SecFits, RecordStatus, Lead, Reaches, SmudgedAt, Full;
    UsedIsGood(r, j);
    ReachesSmudged(r[j], HEADER, p);
  }

  /** What a search sees after a deletion at its place. */
  lemma DeletedAhead(f: Flash, o: nat, i: nat, q: nat, ps: seq<Piece>)
    requires PlaceOf(f, o, i, q, ps)
    ensures ps != []
    ensures var r := Laid(Deleted(f, o, i, q), o);
            Image(r) && Readable(r) && CursorAt(r, i, q) && Ahead(r, i, q) == [Smudged(ps[0])] + ps[1..]
  {
    hide RecordStatus, CursorAt, Readable, Ahead, Log, Reaches, SmudgedIn, Laid, Smudged, PieceAt, SmudgedAt;
    DeletedSector(f, o, i, q);
    var r := Laid(f, o);
    FirstAhead(r, i, q);
    SmudgedAhead(r, i, q);
    CursorStays(r, i, q);
  }
}
