/** Appending to a well-formed ring: what is added, what is lost, and that the ring stays well formed. */
module RingAppend {
  import opened Bytes
  import opened RingFormat
  import opened RingWalk
  import opened RingImage
  import opened RingFlash
  import opened RingSpec

  /** Flash holding a well-formed ring whose oldest sector is `o`, sector 0 when none is used. */
  ghost predicate Ring(f: Flash, o: nat) {
    IsFlash(f) && o < |f| && Image(Laid(f, o)) && RingOf(Laid(f, o), o)
  }

  ghost predicate RingOf(r: seq<Text>, o: nat)
    requires Image(r)
  {
    && WellFormed(r) && (Used(r) == 0 ==> o == 0)
    && BelowLimit(r, Used(r))
  }

  /** The first `u` sectors have indices that the search for the oldest one accepts. */
  ghost predicate BelowLimit(r: seq<Text>, u: nat)
    requires Image(r) && u <= |r|
  {
    forall j :: 0 <= j < u ==> Idx(r[j]) < INDEX_MASK
  }

  // ---- what a shape says about one sector ----

  lemma UsedSector(r: seq<Text>, k: nat, u: nat, j: nat)
    requires Shape(r, k, u) && j < |r|
    ensures SectorStatus(r[j], 0) == (if j < u then Good else Blank)
  {
    hide SecEnd, SecFits, SectorStatus;
    if j < k {
      assert FullOk(r[j]);
    } else if j >= u {
      assert ErasedOk(r[j]);
      ErasedSector(r[j]);
    } else {
      assert OpenOk(r[k]);
    }
  }

  lemma ShapeOf(r: seq<Text>, k: nat, u: nat, o: nat)
    requires Shape(r, k, u) && |r| > 0 && (u == 0 ==> o == 0) && BelowLimit(r, u)
    ensures RingOf(r, o) && Used(r) == u
  {
    IsWellFormed(r, k, u);
    ShapeIs(r, k, u);
    hide WellFormed, Shape, Idx, Lead, Used, Full;
  }

  lemma IsWellFormed(r: seq<Text>, k: nat, u: nat)
    requires Shape(r, k, u) && |r| > 0
    ensures WellFormed(r)
  {
    ShapeIs(r, k, u);
    hide FullOk, OpenOk, ErasedOk, Idx, Lead, Used, Full;
  }

  lemma NothingBad(f: Flash, o: nat)
    requires Ring(f, o)
    ensures NoBad(f)
  {
    hide Shape, SectorStatus, Lead, Used, Idx, Full;
    var r := Laid(f, o);
    forall t | 0 <= t < |f|
      ensures SectorStatus(f[t], 0) != Bad
    {
      var j := PlaceInRing(o, t, |f|);
      LaidSectors(f, o, j);
      UsedSector(r, Lead(r), Used(r), j);
    }
  }

  /** The search for the lowest index finds the sector the ring starts with. */
  lemma OldestFound(f: Flash, o: nat)
    requires Ring(f, o)
    ensures Oldest(f) == o
  {
    hide Shape, SectorStatus, Lead, Used, Idx, Oldest, Full;
    var r, s := Laid(f, o), Oldest(f);
    var j := PlaceInRing(o, s, |f|);
    LaidSectors(f, o, j);
    LaidSectors(f, o, 0);
    UsedSector(r, Lead(r), Used(r), j);
    UsedSector(r, Lead(r), Used(r), 0);
    if Used(r) == 0 {
      assert !Indexed(f[s]);
    } else {
      assert Indexed(f[o]);
      if j > 0 { RisingIndex(r, Lead(r), Used(r), 0, j); }
    }
  }

  lemma RisingIndex(r: seq<Text>, k: nat, u: nat, i: nat, j: nat)
    requires Shape(r, k, u) && i < j < u
    ensures Idx(r[i]) < Idx(r[j])
  {
  }

  /** The walk from the oldest sector ends at the erased room, or comes around. */
  lemma EndFound(f: Flash, o: nat)
    requires Ring(f, o)
    ensures var r, n := Laid(f, o), |f|;
            var k := Lead(r);
            End(f, o) == if k == n then Around
                         else if Used(r) == k then At(RingSector(o, k, n), 0, Blank)
                         else At(RingSector(o, k, n), SecEnd(r[k], HEADER), Blank)
  {
    hide Shape, SectorStatus, RecordStatus, Lead, SecEnd, Full;
    var r, n := Laid(f, o), |f|;
    var k := Lead(r);
    if k < n {
      UsedSector(r, k, Used(r), k);
      if Used(r) == k + 1 { OpenEnd(r, k); }
    }
  }

  lemma OpenEnd(r: seq<Text>, k: nat)
    requires Shape(r, k, k + 1)
    ensures OpenOk(r[k]) && RecordStatus(r[k], SecEnd(r[k], HEADER)) == Blank
  {
    hide SecEnd, SecFits, RecordStatus, SectorStatus;
    BlankAt(r[k], SecEnd(r[k], HEADER));
  }

  // ---- the running index ----

  lemma {:induction false} MaxIndexKeeps(f: Flash, i: nat, m: nat)
    requires IsFlash(f) && i <= |f| && forall j :: i <= j < |f| && SectorStatus(f[j], 0) == Good ==> Idx(f[j]) <= m
    ensures MaxIndex(f, i, m) == m
    decreases |f| - i
  {
    hide SectorStatus, Idx;
    if i < |f| { MaxIndexKeeps(f, i + 1, m); }
  }

  lemma MaxIndexAgain(f: Flash, index: nat)
    requires IsFlash(f)
    ensures MaxIndex(f, 0, MaxIndex(f, 0, index)) == MaxIndex(f, 0, index)
  {
    hide SectorStatus, Idx;
    MaxIndexKeeps(f, 0, MaxIndex(f, 0, index));
  }

  lemma MaxIndexAfterErase(f: Flash, s: nat, index: nat)
    requires IsFlash(f) && s < |f|
    ensures MaxIndex(f[s := BlankSector()], 0, MaxIndex(f, 0, index)) == MaxIndex(f, 0, index)
  {
    ErasedIsBlank(BlankSector());
    hide SectorStatus, Idx, MaxIndex;
    MaxIndexKeeps(f[s := BlankSector()], 0, MaxIndex(f, 0, index));
  }

  /** The running index is at or above every index in the ring. */
  ghost predicate Covers(r: seq<Text>, u: nat, index: nat)
    requires Image(r) && u <= |r|
  {
    index + 1 < INDEX_MASK && forall j :: 0 <= j < u ==> Idx(r[j]) <= index
  }

  lemma IndexCovers(f: Flash, o: nat, index: nat)
    requires Ring(f, o) && MaxIndex(f, 0, index) + 1 < INDEX_MASK
    ensures Covers(Laid(f, o), Used(Laid(f, o)), MaxIndex(f, 0, index))
  {
    hide Shape, SectorStatus, Lead, Used, Idx, MaxIndex, Full;
    var r := Laid(f, o);
    forall j | 0 <= j < Used(r)
      ensures Idx(r[j]) <= MaxIndex(f, 0, index)
    {
      LaidSectors(f, o, j);
      UsedSector(r, Lead(r), Used(r), j);
    }
  }

  /** A running index that caps the ring is not changed by looking at it. */
  lemma IndexStays(f: Flash, o: nat, top: nat)
    requires Ring(f, o) && Capped(Laid(f, o), Used(Laid(f, o)), top)
    ensures MaxIndex(f, 0, top) == top
  {
    hide Shape, SectorStatus, Lead, Used, Idx, MaxIndex, Full;
    var r := Laid(f, o);
    forall s | 0 <= s < |f| && SectorStatus(f[s], 0) == Good ensures Idx(f[s]) <= top {
      var j := PlaceInRing(o, s, |f|);
      LaidSectors(f, o, j);
      UsedSector(r, Lead(r), Used(r), j);
    }
    MaxIndexKeeps(f, 0, top);
  }

  // ---- programming erased room ----

  lemma ProgramErased(f: Flash, s: nat, e: nat, t: Text)
    requires IsFlash(f) && s < |f| && e < SECTOR && e + |t| <= SECTOR && Erased(f[s][e..])
    ensures Program(f, SECTOR * s + e, t) == f[s := Spliced(f[s], e, t)]
  {
    hide Program, AndAt;
    ProgramInSector(f, s, e, t);
    assert f[s][e..e + |t|] == f[s][e..][..|t|];
    AndAtErased(f[s], e, t);
  }

  /** Bytes of a cut record's second part; nothing left means an erased copy of the first length. */
  function SecondPart(first: nat, data: Text, beyond: Text): (t: Text)
    requires first <= |data| <= |beyond| && first <= SECTOR
  {
    var second := |data| - first;
    if second == 0 then BlankSector()[..first] else (data + beyond)[second..2 * second]
  }

  /** The pieces that a write at offset `e` of a sector adds. */
  function NewPieces(e: nat, id: Byte, data: Text, beyond: Text): (ps: seq<Piece>)
    requires e <= LAST_START && 0 < |data| <= MAX_APPEND && |beyond| >= |data|
  {
    if |data| + HEADER < SECTOR - e then [NewPiece(id, LIVE_FLAG, data, if e == 0 then HEADER else e)]
    else
      var first := SECTOR - HEADER - e;
      [NewPiece(id, LIVE_FLAG, data[..first], e),
       NewPiece(id, LIVE_FLAG + SPLIT_FLAG, SecondPart(first, data, beyond), HEADER)]
  }

  // ---- the three ways to write ----

  predicate Writable(id: Byte, data: Text, beyond: Text) {
    0 < |data| <= MAX_APPEND && |beyond| >= |data| && id != 255
  }

  /** No used sector has an index above `top`. */
  ghost predicate Capped(r: seq<Text>, u: nat, top: nat)
    requires Image(r) && u <= |r|
  {
    forall j :: 0 <= j < u ==> Idx(r[j]) <= top
  }

  /** The ring got `added` at the end of its log, and then uses `u` sectors with indices up to `top`. */
  ghost predicate Grown(r: seq<Text>, s: seq<Text>, o: nat, u: nat, top: nat, added: seq<Piece>)
    requires Image(r)
  {
    |s| == |r| && Image(s) && RingOf(s, o) && Used(s) == u && Capped(s, u, top) && Log(s) == Log(r) + added
  }

  /** A used sector `s` in place of sector `k`: the indices stay below the limit. */
  lemma IndicesBelow(r: seq<Text>, k: nat, s: Text)
    requires Image(r) && k < |r| && Sector(s) && Idx(s) < INDEX_MASK && BelowLimit(r, k)
    ensures Image(r[k := s]) && BelowLimit(r[k := s], k + 1)
  {
    hide Idx;
  }

  lemma CoversCaps(r: seq<Text>, u: nat, index: nat)
    requires Image(r) && u <= |r| && Covers(r, u, index)
    ensures Capped(r, u, index)
  {
    hide Idx;
  }

  lemma CappedWith(r: seq<Text>, k: nat, s: Text, top: nat)
    requires Image(r) && k < |r| && Sector(s) && Capped(r, k, top) && Idx(s) <= top
    ensures Image(r[k := s]) && Capped(r[k := s], k + 1, top)
  {
    hide Idx;
  }

  /** An erased sector `k` started with one record. */
  lemma StartedRing(r: seq<Text>, o: nat, k: nat, index: nat, id: Byte, n: nat, flags: nat, data: Text)
    requires Image(r) && Shape(r, k, k) && k < |r| && Covers(r, k, index)
    requires 0 < n <= MAX_APPEND && |data| <= n && id != 255
    requires (flags == LIVE_FLAG || flags == LIVE_FLAG + SPLIT_FLAG)
    ensures Grown(r, r[k := Spliced(r[k], 0, FirstBytes(index + 1, id, n, flags, data))], o, k + 1, index + 1,
                  [NewPiece(id, flags, data + r[k][..n - |data|], HEADER)])
  {
    hide Shape, SecPieces, SecEnd, Skip, FullOk, OpenOk, Spliced, NewPiece, Idx, FirstBytes, Grown;
    ErasedAt(r, k, k, k);
    var s := Spliced(r[k], 0, FirstBytes(index + 1, id, n, flags, data));
    SectorStarted(r[k], index + 1, id, n, flags, data);
    NewestStarted(r, o, k, index, s);
  }

  lemma ErasedAt(r: seq<Text>, k: nat, u: nat, j: nat)
    requires Shape(r, k, u) && u <= j < |r|
    ensures ErasedOk(r[j])
  {
  }

  lemma NewestStarted(r: seq<Text>, o: nat, k: nat, index: nat, s: Text)
    requires Image(r) && Shape(r, k, k) && k < |r| && Covers(r, k, index)
    requires (FullOk(s) || OpenOk(s)) && Sector(s) && Idx(s) == index + 1
    ensures Grown(r, r[k := s], o, k + 1, index + 1, SecPieces(s, HEADER))
  {
    hide Shape, SecPieces, FullOk, OpenOk, Idx, Log, RingOf;
    SectorAdded(r, k, s);
    IndicesBelow(r, k, s);
    CappedWith(r, k, s, index + 1);
    ShapeOf(r[k := s], if FullOk(s) then k + 1 else k, k + 1, o);
  }

  /** A record behind the others of the open sector `k`. */
  lemma ExtendedRing(r: seq<Text>, o: nat, k: nat, top: nat, id: Byte, data: Text)
    requires Shape(r, k, k + 1) && BelowLimit(r, k + 1) && Capped(r, k + 1, top)
    requires id != 255 && |data| > 0 && SecEnd(r[k], HEADER) + HEADER + |data| <= SECTOR
    ensures SecEnd(r[k], HEADER) <= LAST_START
    ensures var e := SecEnd(r[k], HEADER);
            var s := WithRecord(r[k], e, id, LIVE_FLAG, data);
            && Grown(r, r[k := s], o, k + 1, top, [NewPiece(id, LIVE_FLAG, data, e)])
            && (Skip(e, |data|) == SECTOR ==> Shape(r[k := s], k + 1, k + 1)) && Idx(s) == Idx(r[k])
  {
    OpenEnd(r, k);
    assert SecEnd(r[k], HEADER) <= LAST_START;
    var e := SecEnd(r[k], HEADER);
    var s := WithRecord(r[k], e, id, LIVE_FLAG, data);
    RecordAppended(r[k], id, LIVE_FLAG, data);
    hide Shape, SecPieces, SecEnd, FullOk, OpenOk, WithRecord, NewPiece, Idx, Log, RingOf;
    NewestExtended(r, k, s, [NewPiece(id, LIVE_FLAG, data, e)]);
    IndicesBelow(r, k, s);
    CappedWith(r, k, s, top);
    ShapeOf(r[k := s], if FullOk(s) then k + 1 else k, k + 1, o);
  }

  /** A record that fits the erased rest of its sector. */
  lemma PlacedInSector(f: Flash, s: nat, e: nat, index: nat, id: Byte, data: Text, beyond: Text)
    requires IsFlash(f) && s < |f| && e <= LAST_START && Writable(id, data, beyond) && Erased(f[s][e..])
    requires |data| + HEADER < SECTOR - e
    ensures Placed(f, s, e, index, id, data, beyond)
         == Outcome(Ok, f[s := Spliced(f[s], e, Headers(e, index, id, |data|, LIVE_FLAG) + data)], IndexAfter(e, index))
  {
    hide Program, Headers, Blanks, Spanned, Spliced;
    BlanksOfErased(f, s, e);
    ProgramErased(f, s, e, Headers(e, index, id, |data|, LIVE_FLAG) + data);
  }

  /** One flash holds the ring of the other with `added` at the end of its log. */
  ghost predicate GrownFlash(f: Flash, g: Flash, o: nat, u: nat, top: nat, added: seq<Piece>) {
    && Ring(f, o) && IsFlash(g) && |g| == |f| && Image(Laid(g, o))
    && Grown(Laid(f, o), Laid(g, o), o, u, top, added)
  }

  /** A record that starts the erased sector `k`. */
  lemma PlacedNew(f: Flash, o: nat, k: nat, index: nat, id: Byte, data: Text, beyond: Text)
    requires Ring(f, o) && Writable(id, data, beyond) && Shape(Laid(f, o), k, k)
    requires k < |f| && Covers(Laid(f, o), k, index)
    ensures var out := Placed(f, RingSector(o, k, |f|), 0, index, id, data, beyond);
            out.code == Ok && out.index == index + 1
              && GrownFlash(f, out.flash, o, k + 1, index + 1, NewPieces(0, id, data, beyond))
  {
    hide Shape, Spliced, Headers, NewPiece, RingOf, Grown, FirstBytes, Placed;
    var r, s := Laid(f, o), RingSector(o, k, |f|);
    LaidSectors(f, o, k);
    ErasedAt(r, k, k, k);
    assert f[s][0..] == f[s];
    PlacedInSector(f, s, 0, index, id, data, beyond);
    FirstBytesAre(index, id, data);
    StartedRing(r, o, k, index, id, |data|, LIVE_FLAG, data);
    assert data + r[k][..0] == data;
    LaidUpdate(f, o, k, Spliced(f[s], 0, FirstBytes(index + 1, id, |data|, LIVE_FLAG, data)));
  }

  lemma FirstBytesAre(index: nat, id: Byte, data: Text)
    requires |data| < 65536
    ensures Headers(0, index, id, |data|, LIVE_FLAG) + data == FirstBytes(index + 1, id, |data|, LIVE_FLAG, data)
  {
  }

  /** A record that fits the open sector `k`. */
  lemma PlacedFits(f: Flash, o: nat, k: nat, index: nat, id: Byte, data: Text, beyond: Text)
    requires Ring(f, o) && Writable(id, data, beyond) && k < |f| && Shape(Laid(f, o), k, k + 1)
    requires BelowLimit(Laid(f, o), k + 1) && Covers(Laid(f, o), k + 1, index)
    requires |data| + HEADER < SECTOR - SecEnd(Laid(f, o)[k], HEADER)
    ensures var e := SecEnd(Laid(f, o)[k], HEADER);
            var out := Placed(f, RingSector(o, k, |f|), e, index, id, data, beyond);
            out.code == Ok && out.index == index
              && GrownFlash(f, out.flash, o, k + 1, index, NewPieces(e, id, data, beyond))
  {
    hide Shape, Spliced, NewPiece, RingOf, Grown, Placed, SecEnd, Headers, RecordHeader;
    var r, s := Laid(f, o), RingSector(o, k, |f|);
    var e := SecEnd(r[k], HEADER);
    LaidSectors(f, o, k);
    OpenEnd(r, k);
    PlacedInSector(f, s, e, index, id, data, beyond);
    HeaderOnly(e, index, id, |data|);
    CoversCaps(r, k + 1, index);
    ExtendedRing(r, o, k, index, id, data);
    LaidUpdate(f, o, k, WithRecord(r[k], e, id, LIVE_FLAG, data));
  }

  // ---- a record cut at the end of its sector ----

  /** Length in the second header. */
  function SecondLength(first: nat, size: nat): nat
    requires first <= size
  {
    if first == size then first else size - first
  }

  /** The two sectors that such a record is written to. */
  function FirstSector(sec: Text, e: nat, id: Byte, data: Text): (s: Text)
    requires Sector(sec) && 0 < e <= LAST_START && SECTOR - e - HEADER <= |data| <= MAX_APPEND
    ensures Sector(s)
  {
    WithRecord(sec, e, id, LIVE_FLAG, data[..SECTOR - e - HEADER])
  }

  function SecondSector(sec: Text, index: nat, first: nat, id: Byte, data: Text, beyond: Text): (s: Text)
    requires Sector(sec) && first <= |data| <= MAX_APPEND && |beyond| >= |data|
    ensures Sector(s)
  {
    var second := |data| - first;
    Spliced(sec, 0, FirstBytes(index + 1, id, SecondLength(first, |data|), LIVE_FLAG + SPLIT_FLAG,
                               (data + beyond)[second..2 * second]))
  }

  lemma SecondBytes(index: nat, id: Byte, n: nat, data: Text)
    requires n < 65536
    ensures Headers(0, index, id, n, LIVE_FLAG + SPLIT_FLAG) + data
            == FirstBytes(index + 1, id, n, LIVE_FLAG + SPLIT_FLAG, data)
  {
  }

  lemma SpannedFlash(f: Flash, s: nat, e: nat, index: nat, id: Byte, data: Text, beyond: Text)
    requires IsFlash(f) && s < |f| && 0 < e <= LAST_START && Writable(id, data, beyond) && SECTOR - e - HEADER <= |data|
    requires NextSector(s, |f|) != s && ErasedOk(f[NextSector(s, |f|)]) && Erased(f[s][e..])
    ensures var t, first := NextSector(s, |f|), SECTOR - e - HEADER;
            Spanned(f, s, e, index, id, data, beyond)
            == Outcome(Ok, f[s := FirstSector(f[s], e, id, data)]
                            [t := SecondSector(f[t], index, first, id, data, beyond)], index + 1)
  {
    hide Program, Headers, SectorStatus, RecordHeader, FirstBytes, Spliced, FirstSector, SecondSector, Erased;
    var t, first := NextSector(s, |f|), SECTOR - e - HEADER;
    var second := |data| - first;
    ErasedIsBlank(f[t]);
    FirstHalf(f, s, e, id, data);
    var g := f[s := FirstSector(f[s], e, id, data)];
    assert g[t] == f[t];
    SecondHalf(g, t, index, first, id, data, beyond);
  }

  lemma FirstHalf(f: Flash, s: nat, e: nat, id: Byte, data: Text)
    requires IsFlash(f) && s < |f| && 0 < e <= LAST_START
    requires SECTOR - e - HEADER <= |data| <= MAX_APPEND && Erased(f[s][e..])
    ensures var first := SECTOR - e - HEADER;
            Program(f, SECTOR * s + e, RecordHeader(id, first, LIVE_FLAG) + data[..first])
              == f[s := FirstSector(f[s], e, id, data)]
  {
    hide Program, RecordHeader, Spliced;
    var first := SECTOR - e - HEADER;
    ProgramErased(f, s, e, RecordHeader(id, first, LIVE_FLAG) + data[..first]);
  }

  lemma SecondHalf(g: Flash, t: nat, index: nat, first: nat, id: Byte, data: Text, beyond: Text)
    requires IsFlash(g) && t < |g| && 0 < first <= |data| <= MAX_APPEND && |beyond| >= |data| && ErasedOk(g[t])
    ensures var second := |data| - first;
            Program(g, SECTOR * t + 0,
              Headers(0, index, id, if second == 0 then first else second, LIVE_FLAG + SPLIT_FLAG)
                                       + (data + beyond)[second..2 * second])
            == g[t := SecondSector(g[t], index, first, id, data, beyond)]
  {
    hide Program, Headers, FirstBytes, Spliced;
    var second := |data| - first;
    var d := (data + beyond)[second..2 * second];
    SecondBytes(index, id, SecondLength(first, |data|), d);
    assert g[t][0..] == g[t];
    ProgramErased(g, t, 0, FirstBytes(index + 1, id, SecondLength(first, |data|), LIVE_FLAG + SPLIT_FLAG, d));
  }

  lemma CoversAfter(r: seq<Text>, k: nat, s: Text, index: nat)
    requires Image(r) && k < |r| && Covers(r, k + 1, index) && Sector(s) && Idx(s) == Idx(r[k])
    ensures Image(r[k := s]) && Covers(r[k := s], k + 1, index)
  {
    hide Idx;
  }

  lemma SecondPartIs(first: nat, data: Text, beyond: Text, sec: Text)
    requires 0 < first <= |data| <= |beyond| && first <= SECTOR && ErasedOk(sec)
    ensures var second := |data| - first;
            (data + beyond)[second..2 * second] + sec[..SecondLength(first, |data|) - second]
              == SecondPart(first, data, beyond)
  {
  }

  /** Both sectors written: two more pieces in the log. */
  lemma SpannedRing(r: seq<Text>, o: nat, k: nat, index: nat, id: Byte, data: Text, beyond: Text)
    requires Image(r) && k + 1 < |r| && Shape(r, k, k + 1) && BelowLimit(r, k + 1) && Covers(r, k + 1, index)
    requires Writable(id, data, beyond) && HEADER < SecEnd(r[k], HEADER) <= LAST_START
    requires |data| + HEADER >= SECTOR - SecEnd(r[k], HEADER)
    ensures var e := SecEnd(r[k], HEADER);
            var first := SECTOR - e - HEADER;
            Grown(r, r[k := FirstSector(r[k], e, id, data)]
                      [k + 1 := SecondSector(r[k + 1], index, first, id, data, beyond)],
                  o, k + 2, index + 1, NewPieces(e, id, data, beyond))
  {
    hide Shape, NewPiece, RingOf, Log, Idx, SecEnd, Spliced, FirstBytes, RecordHeader;
    var e := SecEnd(r[k], HEADER);
    var first := SECTOR - e - HEADER;
    var s := FirstSector(r[k], e, id, data);
    var q := r[k := s];
    CoversCaps(r, k + 1, index);
    ExtendedRing(r, o, k, index, id, data[..first]);
    CoversAfter(r, k, s, index);
    ErasedAt(r, k, k + 1, k + 1);
    SecondInto(r, q, o, k, index, id, data, beyond, e);
  }

  lemma SecondInto(r: seq<Text>, q: seq<Text>, o: nat, k: nat, index: nat, id: Byte, data: Text, beyond: Text, e: nat)
    requires Image(r) && Image(q) && k + 1 < |q| && Shape(q, k + 1, k + 1) && Covers(q, k + 1, index)
    requires Writable(id, data, beyond) && HEADER < e <= LAST_START && |data| + HEADER >= SECTOR - e
    requires var first := SECTOR - e - HEADER; Grown(r, q, o, k + 1, index, [NewPiece(id, LIVE_FLAG, data[..first], e)])
    ensures var first := SECTOR - e - HEADER;
            Grown(r, q[k + 1 := SecondSector(q[k + 1], index, first, id, data, beyond)],
                  o, k + 2, index + 1, NewPieces(e, id, data, beyond))
  {
    hide Shape, NewPiece, RingOf, Log, Idx, SecEnd, Spliced, FirstBytes, Erased, Lead, Used;
    var first := SECTOR - e - HEADER;
    var second := |data| - first;
    ErasedAt(q, k + 1, k + 1, k + 1);
    StartedRing(q, o, k + 1, index, id, SecondLength(first, |data|), LIVE_FLAG + SPLIT_FLAG,
                (data + beyond)[second..2 * second]);
    SecondPartIs(first, data, beyond, q[k + 1]);
    TwoPieces(Log(r), NewPiece(id, LIVE_FLAG, data[..first], e),
              NewPiece(id, LIVE_FLAG + SPLIT_FLAG, SecondPart(first, data, beyond), HEADER));
  }

  lemma TwoPieces(ps: seq<Piece>, a: Piece, b: Piece)
    ensures ps + [a] + [b] == ps + [a, b]
  {
  }

  /** A record too long for the open sector `k` goes on in the erased sector behind it. */
  lemma PlacedSpans(f: Flash, o: nat, k: nat, index: nat, id: Byte, data: Text, beyond: Text)
    requires Ring(f, o) && Writable(id, data, beyond) && k + 1 < |f| && Shape(Laid(f, o), k, k + 1)
    requires BelowLimit(Laid(f, o), k + 1) && Covers(Laid(f, o), k + 1, index)
    requires |data| + HEADER >= SECTOR - SecEnd(Laid(f, o)[k], HEADER)
    ensures var e := SecEnd(Laid(f, o)[k], HEADER);
            && e <= LAST_START
            && var out := Placed(f, RingSector(o, k, |f|), e, index, id, data, beyond);
            out.code == Ok && out.index == index + 1
              && GrownFlash(f, out.flash, o, k + 2, index + 1, NewPieces(e, id, data, beyond))
  {
    hide Shape, NewPiece, NewPieces, RingOf, Grown, SecEnd, Spanned, Placed, Blanks, FirstSector, SecondSector,
         Laid, Covers, BelowLimit, ErasedOk, SecFits, SectorStatus;
    var r, s := Laid(f, o), RingSector(o, k, |f|);
    var e := SecEnd(r[k], HEADER);
    LaidSectors(f, o, k);
    LaidSectors(f, o, k + 1);
    NextInRing(o, k, |f|);
    OpenEnd(r, k);
    ErasedAt(r, k, k + 1, k + 1);
    PlacedIsSpanned(f, s, e, index, id, data, beyond);
    SpannedFlash(f, s, e, index, id, data, beyond);
    SpannedRing(r, o, k, index, id, data, beyond);
    var first := SECTOR - e - HEADER;
    LaidUpdate(f, o, k, FirstSector(r[k], e, id, data));
    LaidUpdate(f[s := FirstSector(r[k], e, id, data)], o, k + 1,
               SecondSector(r[k + 1], index, first, id, data, beyond));
  }

  lemma PlacedIsSpanned(f: Flash, s: nat, e: nat, index: nat, id: Byte, data: Text, beyond: Text)
    requires IsFlash(f) && s < |f| && 0 < e <= LAST_START && Writable(id, data, beyond) && SECTOR - e - HEADER <= |data|
    requires ErasedOk(f[NextSector(s, |f|)]) && Erased(f[s][e..])
    ensures Placed(f, s, e, index, id, data, beyond) == Spanned(f, s, e, index, id, data, beyond)
  {
    hide Spanned, Blanks, SectorStatus, RecordStatus;
    BlanksOfErased(f, s, e);
    CountBlankErased(f[NextSector(s, |f|)]);
    ErasedIsBlank(f[NextSector(s, |f|)]);
  }

  /** With the oldest sector right behind it, a full open sector refuses the record. */
  lemma PlacedRefused(f: Flash, s: nat, e: nat, index: nat, id: Byte, data: Text, beyond: Text)
    requires IsFlash(f) && s < |f| && 0 < e <= LAST_START && Writable(id, data, beyond) && |data| + HEADER >= SECTOR - e
    requires Erased(f[s][e..]) && StartStatus(f[NextSector(s, |f|)]) == Good
    ensures Placed(f, s, e, index, id, data, beyond)
         == Outcome(if |data| + HEADER == SECTOR - e then WrappedSectorUsed else RingFull, f, index)
  {
    hide Spanned, Blanks, SectorStatus, RecordStatus;
    BlanksOfErased(f, s, e);
    GoodSectorStarts(f[NextSector(s, |f|)], 0);
    CountNone(f[NextSector(s, |f|)]);
  }

  lemma CountNone(t: Text)
    requires t != [] && t[0] != ERASED
    ensures CountBlank(t) == 0
  {
  }

  /** Used sectors hold a record. */
  lemma UsedStarts(r: seq<Text>, k: nat, u: nat, j: nat)
    requires Shape(r, k, u) && j < u
    ensures StartStatus(r[j]) == Good
  {
    if j < k {
      assert FullOk(r[j]);
      SecEndBeyond(r[j]);
    } else {
      assert OpenOk(r[k]);
      SecEndBeyond(r[k]);
    }
  }

  lemma SecEndBeyond(sec: Text)
    requires Sector(sec) && SecEnd(sec, HEADER) > HEADER
    ensures RecordStatus(sec, HEADER) == Good
  {
  }

  // ---- eviction ----

  /** Erasing the oldest sector of a ring without erased sectors: exactly its pieces go. */
  lemma Evicted(f: Flash, o: nat)
    requires Ring(f, o) && Used(Laid(f, o)) == |f|
    ensures var g, p := f[o := BlankSector()], NextSector(o, |f|);
            && Laid(g, p) == Laid(f, o)[1..] + [BlankSector()]
            && Ring(g, p) && Log(Laid(f, o)) == SecPieces(Laid(f, o)[0], HEADER) + Log(Laid(g, p))
            && (if |f| == 1 then Shape(Laid(g, p), 0, 0) else Shape(Laid(g, p), Lead(Laid(f, o)) - 1, |f| - 1))
  {
    hide Shape, SecPieces, Log, Lead, Used, RingOf, Laid, Full;
    var r, e := Laid(f, o), BlankSector();
    LaidTurn(f, o, e);
    if |f| == 1 {
      OnlySectorErased(r, e, o);
    } else {
      FirstOfManyErased(r, e, o, NextSector(o, |f|));
    }
  }

  lemma FirstOfManyErased(r: seq<Text>, e: Text, o: nat, p: nat)
    requires Image(r) && |r| > 1 && RingOf(r, o) && Used(r) == |r| && ErasedOk(e)
    ensures Lead(r) > 0 && Image(r[1..] + [e]) && Shape(r[1..] + [e], Lead(r) - 1, |r| - 1) && RingOf(r[1..] + [e], p)
    ensures Log(r) == SecPieces(r[0], HEADER) + Log(r[1..] + [e])
  {
    hide Shape, SecPieces, Log, Lead, Used, RingOf, BelowLimit, ErasedOk, Full, SecEnd, SectorStatus;
    UsedOrOneMore(r);
    SplitRingOf(r, o);
    OldestErased(r, Lead(r), e);
    BelowAfter(r, e);
    StillRing(r[1..] + [e], Lead(r) - 1, |r| - 1, p);
  }

  lemma StillRing(t: seq<Text>, k: nat, u: nat, p: nat)
    requires Image(t) && 0 < u <= |t| && Shape(t, k, u) && BelowLimit(t, u)
    ensures RingOf(t, p)
  {
    hide Shape, BelowLimit, RingOf;
    ShapeOf(t, k, u, p);
  }

  lemma SplitRingOf(r: seq<Text>, o: nat)
    requires Image(r) && RingOf(r, o)
    ensures |r| > 0 && Shape(r, Lead(r), Used(r)) && BelowLimit(r, Used(r))
  {
    hide Shape, Lead, Used, Idx, Full;
  }

  lemma BelowAfter(r: seq<Text>, e: Text)
    requires Image(r) && |r| > 0 && BelowLimit(r, |r|) && ErasedOk(e)
    ensures Image(r[1..] + [e]) && BelowLimit(r[1..] + [e], |r| - 1)
  {
    hide Idx;
  }

  lemma OnlySectorErased(r: seq<Text>, e: Text, o: nat)
    requires Image(r) && |r| == 1 && RingOf(r, o) && Used(r) == 1 && ErasedOk(e)
    ensures Image(r[1..] + [e]) && Shape(r[1..] + [e], 0, 0) && RingOf(r[1..] + [e], 0)
    ensures Log(r) == SecPieces(r[0], HEADER) + Log(r[1..] + [e])
  {
    SplitRingOf(r, o);
    ErasedSector(e);
    hide RingOf, Lead, Used, SecPieces, FullOk, OpenOk, SectorStatus, Full;
    var t := r[1..] + [e];
    assert t == [e];
    assert Shape(t, 0, 0);
    hide Shape;
    ShapeOf(t, 0, 0, 0);
    LogWithNewest(r, 0);
    assert Log(t) == [];
  }

  // ---- the whole append ----

  /** Where in its sector the next record starts; 0 for a sector not yet started. */
  function Offset(r: seq<Text>): (e: nat)
    requires Image(r)
    ensures e <= LAST_START
  {
    if Used(r) == Lead(r) + 1 then SecEnd(r[Lead(r)], HEADER) else 0
  }

  /** No erased sector is left and the newest one has no room for the record. */
  predicate NeedsRoom(r: seq<Text>, size: nat)
    requires Image(r)
  {
    Used(r) == |r| && (Lead(r) == |r| || size + HEADER >= SECTOR - Offset(r))
  }

  /** Sectors in use after the record is written. */
  function UsedAfter(r: seq<Text>, size: nat): nat
    requires Image(r)
  {
    if Used(r) == Lead(r) || size + HEADER >= SECTOR - Offset(r) then Used(r) + 1 else Used(r)
  }

  lemma AttemptGrows(f: Flash, o: nat, index: nat, id: Byte, data: Text, beyond: Text, erase: bool)
    requires Ring(f, o) && Writable(id, data, beyond) && Covers(Laid(f, o), Used(Laid(f, o)), index)
    requires !NeedsRoom(Laid(f, o), |data|)
    ensures var out := Attempt(f, index, id, data, beyond, erase);
            && out.code == Ok && out.index <= index + 1
            && GrownFlash(f, out.flash, o, UsedAfter(Laid(f, o), |data|), out.index,
                          NewPieces(Offset(Laid(f, o)), id, data, beyond))
  {
    hide Shape, SecEnd, Placed, End, Oldest, Lead, Used, GrownFlash, NewPieces, RingOf, Attempt, Covers, BelowLimit,
         Laid, Sector, Full;
    var r := Laid(f, o);
    var k, u := Lead(r), Used(r);
    UsedOrOneMore(r);
    SplitRingOf(r, o);
    OldestFound(f, o);
    EndFound(f, o);
    AttemptAt(f, index, id, data, beyond, erase);
    if u == k {
      PlacedNew(f, o, k, index, id, data, beyond);
    } else if |data| + HEADER < SECTOR - Offset(r) {
      PlacedFits(f, o, k, index, id, data, beyond);
    } else {
      PlacedSpans(f, o, k, index, id, data, beyond);
    }
  }

  lemma AttemptAt(f: Flash, index: nat, id: Byte, data: Text, beyond: Text, erase: bool)
    requires IsFlash(f) && |beyond| >= |data|
    ensures var e := End(f, Oldest(f));
            e.At? && e.status == Blank ==>
              Attempt(f, index, id, data, beyond, erase) == Placed(f, e.sector, e.offset, index, id, data, beyond)
  {
    hide Placed, Oldest, End;
  }

  lemma AttemptAround(f: Flash, index: nat, id: Byte, data: Text, beyond: Text)
    requires IsFlash(f) && |beyond| >= |data|
    ensures End(f, Oldest(f)).Around? ==>
              Attempt(f, index, id, data, beyond, true)
              == Placed(f[Oldest(f) := BlankSector()], Oldest(f), 0, MaxIndex(f, 0, index), id, data, beyond)
  {
    hide Placed, Oldest, End, MaxIndex;
  }

  lemma UsedOrOneMore(r: seq<Text>)
    requires Image(r)
    ensures Used(r) == Lead(r) || Used(r) == Lead(r) + 1
  {
  }

  lemma AttemptRefused(f: Flash, o: nat, index: nat, id: Byte, data: Text, beyond: Text, erase: bool)
    requires Ring(f, o) && Writable(id, data, beyond) && NeedsRoom(Laid(f, o), |data|) && Lead(Laid(f, o)) < |f|
    ensures Attempt(f, index, id, data, beyond, erase)
         == Outcome(if |data| + HEADER == SECTOR - Offset(Laid(f, o)) then WrappedSectorUsed else RingFull, f, index)
  {
    hide Shape, SecEnd, Placed, End, Oldest, Lead, Used, NewPieces, RingOf, SectorStatus, RecordStatus, Full;
    var r, n := Laid(f, o), |f|;
    var k := Lead(r);
    UsedOrOneMore(r);
    SplitRingOf(r, o);
    OldestFound(f, o);
    EndFound(f, o);
    OpenEnd(r, k);
    NextInRing(o, k, n);
    LaidSectors(f, o, k);
    LaidSectors(f, o, 0);
    UsedStarts(r, k, n, 0);
    PlacedRefused(f, RingSector(o, k, n), Offset(r), index, id, data, beyond);
  }

  /** All sectors full: the oldest one is erased and started again. */
  lemma AttemptEvicts(f: Flash, o: nat, index: nat, id: Byte, data: Text, beyond: Text)
    requires Ring(f, o) && Writable(id, data, beyond) && Lead(Laid(f, o)) == |f|
    requires index == MaxIndex(f, 0, index) && index + 1 < INDEX_MASK
    ensures var out := Attempt(f, index, id, data, beyond, true);
            && out.code == Ok && out.index == index + 1
            && GrownFlash(f[o := BlankSector()], out.flash, NextSector(o, |f|), |f|, out.index,
                          NewPieces(0, id, data, beyond))
            && Offset(Laid(f[o := BlankSector()], NextSector(o, |f|))) == 0
  {
    hide Shape, SecEnd, Placed, End, Oldest, Lead, Used, GrownFlash, NewPieces, RingOf, SecPieces, Log, MaxIndex,
         Laid, Sector, Covers, Attempt, Full;
    var n := |f|;
    var g, p := f[o := BlankSector()], NextSector(o, n);
    UsedOrOneMore(Laid(f, o));
    OldestFound(f, o);
    EndFound(f, o);
    Evicted(f, o);
    ShapeIs(Laid(g, p), n - 1, n - 1);
    MaxIndexAfterErase(f, o, index);
    IndexCovers(g, p, index);
    AttemptAround(f, index, id, data, beyond);
    assert RingSector(p, n - 1, n) == o;
    PlacedNew(g, p, n - 1, index, id, data, beyond);
  }

  /** After an eviction there is room. */
  lemma RoomAfterEviction(f: Flash, o: nat, size: nat)
    requires Ring(f, o) && Used(Laid(f, o)) == |f| && size <= MAX_APPEND
    ensures Ring(f[o := BlankSector()], NextSector(o, |f|))
    ensures !NeedsRoom(Laid(f[o := BlankSector()], NextSector(o, |f|)), size)
    ensures NeedsRoom(Laid(f, o), size) ==> UsedAfter(Laid(f[o := BlankSector()], NextSector(o, |f|)), size) == |f|
  {
    hide Shape, SecEnd, Lead, Used, RingOf, SecPieces, Log, Laid, Sector, Image, NextSector, Full;
    var g, p := f[o := BlankSector()], NextSector(o, |f|);
    Evicted(f, o);
    UsedOrOneMore(Laid(f, o));
    if |f| == 1 { ShapeIs(Laid(g, p), 0, 0); } else { ShapeIs(Laid(g, p), Lead(Laid(f, o)) - 1, |f| - 1); }
  }

  lemma AppendedOnce(f: Flash, index: nat, id: Byte, data: Text, beyond: Text, erase: bool)
    requires IsFlash(f) && NoBad(f) && |beyond| >= |data|
    requires var out := Attempt(f, MaxIndex(f, 0, index), id, data, beyond, erase); !(Retry(out.code) && erase)
    ensures Appended(f, index, id, data, beyond, erase) == Attempt(f, MaxIndex(f, 0, index), id, data, beyond, erase)
  {
    hide Attempt, NoBad, MaxIndex, Oldest;
  }

  lemma AppendedTwice(f: Flash, index: nat, id: Byte, data: Text, beyond: Text)
    requires IsFlash(f) && NoBad(f) && |beyond| >= |data|
    requires var out := Attempt(f, MaxIndex(f, 0, index), id, data, beyond, true);
             Retry(out.code) && out.index == MaxIndex(f, 0, index)
    ensures var g := f[Oldest(f) := BlankSector()];
            && NoBad(g)
            && Appended(f, index, id, data, beyond, true) == Appended(g, MaxIndex(f, 0, index), id, data, beyond, true)
  {
    hide Attempt, NoBad, MaxIndex, Oldest, Measure;
    var seen := MaxIndex(f, 0, index);
    MaxIndexAgain(f, index);
    RetryProgress(f, seen, id, data, beyond, true);
    MeasureDrops(f, Oldest(f));
    NoBadAfterErase(f, Oldest(f));
  }

  /** An append with room: the record ends the log, and every earlier piece stays as it was. */
  lemma AppendGrows(f: Flash, o: nat, index: nat, id: Byte, data: Text, beyond: Text, erase: bool)
    requires Ring(f, o) && Writable(id, data, beyond) && MaxIndex(f, 0, index) + 1 < INDEX_MASK
    requires !NeedsRoom(Laid(f, o), |data|)
    ensures NoBad(f)
    ensures var out := Appended(f, index, id, data, beyond, erase);
            && out.code == Ok && out.index <= MaxIndex(f, 0, index) + 1
            && GrownFlash(f, out.flash, o, UsedAfter(Laid(f, o), |data|), out.index,
                          NewPieces(Offset(Laid(f, o)), id, data, beyond))
  {
    hide Attempt, Appended, MaxIndex, GrownFlash, NewPieces, NeedsRoom, RingOf;
    NothingBad(f, o);
    IndexCovers(f, o, index);
    AttemptGrows(f, o, MaxIndex(f, 0, index), id, data, beyond, erase);
    AppendedOnce(f, index, id, data, beyond, erase);
  }

  /** An append without room and without leave to erase changes nothing. */
  lemma AppendRefused(f: Flash, o: nat, index: nat, id: Byte, data: Text, beyond: Text)
    requires Ring(f, o) && Writable(id, data, beyond) && NeedsRoom(Laid(f, o), |data|)
    ensures NoBad(f)
    ensures var out := Appended(f, index, id, data, beyond, false);
            out.flash == f && out.code == if Lead(Laid(f, o)) == |f| then HdrLoop
                                          else if |data| + HEADER == SECTOR - Offset(Laid(f, o)) then WrappedSectorUsed
                                          else RingFull
  {
    hide Appended, MaxIndex, RingOf, Lead, Used, Placed, End, Oldest, Full;
    NothingBad(f, o);
    AppendedOnce(f, index, id, data, beyond, false);
    if Lead(Laid(f, o)) < |f| {
      AttemptRefused(f, o, MaxIndex(f, 0, index), id, data, beyond, false);
    } else {
      OldestFound(f, o);
      EndFound(f, o);
    }
  }

  /** An append without room that may erase: exactly the oldest sector goes, and then it is an append
      with room. */
  lemma AppendEvicts(f: Flash, o: nat, index: nat, id: Byte, data: Text, beyond: Text)
    requires Ring(f, o) && Writable(id, data, beyond) && MaxIndex(f, 0, index) + 1 < INDEX_MASK
    requires NeedsRoom(Laid(f, o), |data|)
    ensures NoBad(f)
    ensures var g, p := f[o := BlankSector()], NextSector(o, |f|);
            var out := Appended(f, index, id, data, beyond, true);
            && Ring(g, p) && Log(Laid(f, o)) == SecPieces(Laid(f, o)[0], HEADER) + Log(Laid(g, p))
            && out.code == Ok && out.index <= MaxIndex(f, 0, index) + 1
            && GrownFlash(g, out.flash, p, |f|, out.index, NewPieces(Offset(Laid(g, p)), id, data, beyond))
  {
    hide Appended, Attempt, MaxIndex, GrownFlash, NewPieces, RingOf, Lead, Used, Log, SecPieces, Full;
    var g, p := f[o := BlankSector()], NextSector(o, |f|);
    var m := MaxIndex(f, 0, index);
    NothingBad(f, o);
    Evicted(f, o);
    MaxIndexAgain(f, index);
    if Lead(Laid(f, o)) == |f| {
      AttemptEvicts(f, o, m, id, data, beyond);
      AppendedOnce(f, index, id, data, beyond, true);
    } else {
      AttemptRefused(f, o, m, id, data, beyond, true);
      AppendedTwice(f, index, id, data, beyond);
      OldestFound(f, o);
      RoomAfterEviction(f, o, |data|);
      MaxIndexAfterErase(f, o, index);
      AppendGrows(g, p, m, id, data, beyond, true);
    }
  }

  // ---- all appends in one ----

  /** The flash in which an append writes, and its oldest sector: without room it first loses the
      oldest sector. */
  function RoomMade(f: Flash, o: nat, size: nat): (r: (Flash, nat))
    requires IsFlash(f) && o < |f|
    ensures IsFlash(r.0) && |r.0| == |f| && r.1 < |f| && Image(Laid(r.0, r.1))
  {
    LaidImage(f, o);
    if NeedsRoom(Laid(f, o), size) then
      LaidImage(f[o := BlankSector()], NextSector(o, |f|));
      (f[o := BlankSector()], NextSector(o, |f|))
    else (f, o)
  }

  /** Every append that is not refused adds its pieces to the log that is left after making room. */
  lemma AppendAdds(f: Flash, o: nat, index: nat, id: Byte, data: Text, beyond: Text, erase: bool)
    requires Ring(f, o) && Writable(id, data, beyond) && MaxIndex(f, 0, index) + 1 < INDEX_MASK
    requires erase || !NeedsRoom(Laid(f, o), |data|)
    ensures NoBad(f)
    ensures var (g, p) := RoomMade(f, o, |data|);
            var out := Appended(f, index, id, data, beyond, erase);
            && Ring(g, p) && out.code == Ok && out.index <= MaxIndex(f, 0, index) + 1
            && GrownFlash(g, out.flash, p, UsedAfter(Laid(g, p), |data|), out.index,
                          NewPieces(Offset(Laid(g, p)), id, data, beyond))
  {
    hide RingOf, Appended, MaxIndex, GrownFlash, NewPieces, UsedAfter, Offset, Laid, Used, Lead, Full, NeedsRoom,
         Log, SecPieces;
    if NeedsRoom(Laid(f, o), |data|) {
      NeedsAll(Laid(f, o), |data|);
      RoomAfterEviction(f, o, |data|);
      AppendEvicts(f, o, index, id, data, beyond);
    } else {
      AppendGrows(f, o, index, id, data, beyond, erase);
    }
  }

  lemma NeedsAll(r: seq<Text>, size: nat)
    requires Image(r) && NeedsRoom(r, size)
    ensures Used(r) == |r|
  {
  }

  lemma OversizePlaced(f: Flash, s: nat, e: nat, index: nat, id: Byte, data: Text, beyond: Text)
    requires IsFlash(f) && s < |f| && e <= LAST_START && |beyond| >= |data| && |data| > MAX_APPEND
    ensures Placed(f, s, e, index, id, data, beyond) == Outcome(BadCallerData, f, index)
  {
  }

  /** A record too long for any sector is refused; a full ring that may be erased has lost its oldest
      sector by then. */
  lemma AppendTooLong(f: Flash, o: nat, index: nat, id: Byte, data: Text, beyond: Text, erase: bool)
    requires Ring(f, o) && |data| > MAX_APPEND && |beyond| >= |data|
    ensures NoBad(f)
    ensures var out := Appended(f, index, id, data, beyond, erase);
            && out.code == (if Lead(Laid(f, o)) == |f| && !erase then HdrLoop else BadCallerData)
            && out.flash == if Lead(Laid(f, o)) == |f| && erase then f[o := BlankSector()] else f
  {
    hide RingOf, Lead, Used, Full, MaxIndex, Oldest, End, Appended, Placed, Laid;
    NothingBad(f, o);
    OldestFound(f, o);
    EndFound(f, o);
    var seen := MaxIndex(f, 0, index);
    if End(f, o).Around? {
      if erase { OversizePlaced(f[o := BlankSector()], o, 0, MaxIndex(f, 0, seen), id, data, beyond); }
    } else {
      OversizePlaced(f, End(f, o).sector, End(f, o).offset, seen, id, data, beyond);
    }
    AppendedOnce(f, index, id, data, beyond, erase);
  }

  lemma UsedIsNotBlank(f: Flash, o: nat)
    requires Ring(f, o) && Lead(Laid(f, o)) == |f|
    ensures f[o := BlankSector()] != f
  {
    hide Shape, SectorStatus, Idx, Full;
    var r := Laid(f, o);
    LaidSectors(f, o, 0);
    UsedSector(r, Lead(r), Used(r), 0);
    ErasedIsBlank(BlankSector());
    assert f[o := BlankSector()][o] == BlankSector();
  }

  /** When an append succeeds, and when a refused one has nevertheless changed the flash. */
  lemma AppendOutcome(f: Flash, o: nat, index: nat, id: Byte, data: Text, beyond: Text, erase: bool)
    requires Ring(f, o) && |data| > 0 && id != 255 && |beyond| >= |data| && MaxIndex(f, 0, index) + 1 < INDEX_MASK
    ensures NoBad(f)
    ensures var out := Appended(f, index, id, data, beyond, erase);
            && (out.code == Ok <==> |data| <= MAX_APPEND && (erase || !NeedsRoom(Laid(f, o), |data|)))
            && (out.code != Ok ==> (out.flash != f <==> erase && Lead(Laid(f, o)) == |f| && |data| > MAX_APPEND))
  {
    hide RingOf, Appended, MaxIndex, GrownFlash, NewPieces, UsedAfter, Offset, Laid, Used, Lead, Full, NeedsRoom;
    if |data| > MAX_APPEND {
      AppendTooLong(f, o, index, id, data, beyond, erase);
      if erase && Lead(Laid(f, o)) == |f| { UsedIsNotBlank(f, o); }
    } else if erase || !NeedsRoom(Laid(f, o), |data|) {
      AppendAdds(f, o, index, id, data, beyond, erase);
    } else {
      AppendRefused(f, o, index, id, data, beyond);
    }
  }
}
