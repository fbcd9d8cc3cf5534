/** Following the headers through the flash log. An image is a list of sectors; a laid-out ring
    starts with its oldest sector. */
module RingWalk {
  import opened Bytes
  import opened RingFormat

  // ---- inside one sector ----

  predicate Sector(sec: Text) { |sec| == SECTOR }

  /** A place in a sector where a record can start, or its end. */
  predicate Place(p: nat) { p <= LAST_START || p == SECTOR }

  /** rb_incr inside a sector: behind a record of `len` bytes, or the sector's end when less than a
      header and one byte is left. */
  function Skip(p: nat, len: nat): (q: nat)
    requires p <= LAST_START
    ensures p < q && Place(q)
    ensures p + HEADER + len <= SECTOR ==> p + HEADER + len <= q
    ensures q < SECTOR ==> q == p + HEADER + len
  {
    if len + HEADER > SECTOR || p + len + HEADER > LAST_START then SECTOR else p + HEADER + len
  }

  function Next(sec: Text, p: nat): (q: nat)
    requires Sector(sec) && p <= LAST_START
    ensures p < q && Place(q)
  {
    Skip(p, Len(sec, p))
  }

  /** Where the walk from `p` stops: at a header that is not good, or at the sector's end. */
  function SecEnd(sec: Text, p: nat): (w: nat)
    requires Sector(sec) && Place(p)
    ensures p <= w && Place(w)
    ensures w < SECTOR ==> RecordStatus(sec, w) != Good
    decreases SECTOR - p
  {
    if p == SECTOR || RecordStatus(sec, p) != Good then p else SecEnd(sec, Next(sec, p))
  }

  /** A header and its bytes; the last field says that it is the last one of its sector. */
  datatype Piece = Piece(id: Byte, flags: Byte, data: Text, endsSector: bool)

  function PieceAt(sec: Text, p: nat): Piece
    requires Sector(sec) && p <= LAST_START
  {
    var end := p + HEADER + Len(sec, p);
    Piece(Id(sec, p), Flags(sec, p), sec[p + HEADER..if end <= SECTOR then end else SECTOR], Next(sec, p) == SECTOR)
  }

  function SecPieces(sec: Text, p: nat): seq<Piece>
    requires Sector(sec) && Place(p)
    decreases SECTOR - p
  {
    if p == SECTOR || RecordStatus(sec, p) != Good then [] else [PieceAt(sec, p)] + SecPieces(sec, Next(sec, p))
  }

  /** The records from `p` on stay inside the sector. */
  predicate SecFits(sec: Text, p: nat)
    requires Sector(sec) && Place(p)
    decreases SECTOR - p
  {
    p == SECTOR || RecordStatus(sec, p) != Good
    || (p + HEADER + Len(sec, p) <= SECTOR && SecFits(sec, Next(sec, p)))
  }

  lemma SameHeader(r: Text, s: Text, p: nat, q: nat)
    requires p + HEADER <= q <= |r| && |r| == |s| && r[..q] == s[..q]
    ensures RecordStatus(s, p) == RecordStatus(r, p) && SectorStatus(s, p) == SectorStatus(r, p)
    ensures Len(s, p) == Len(r, p) && Id(s, p) == Id(r, p) && Flags(s, p) == Flags(r, p) && Index(s, p) == Index(r, p)
  {
    assert forall k :: 0 <= k < q ==> r[k] == r[..q][k] == s[k];
    assert r[p..p + 3] == s[p..p + 3];
    assert r[p + 1..p + 4] == s[p + 1..p + 4];
    hide Crc;
  }

  /** Changing bytes from the walk's end on leaves the records before it, and the walk goes on there. */
  lemma {:induction false} SecContinues(r: Text, s: Text, p: nat, w: nat)
    requires Sector(r) && Sector(s) && Place(p) && SecEnd(r, p) == w < SECTOR && SecFits(r, p) && r[..w] == s[..w]
    ensures SecPieces(s, p) == SecPieces(r, p) + SecPieces(s, w)
    ensures SecEnd(s, p) == SecEnd(s, w) && SecFits(s, p) == SecFits(s, w)
    decreases SECTOR - p
  {
    if RecordStatus(r, p) == Good {
      var q := Next(r, p);
      SameRecord(r, s, p, w);
      SecContinues(r, s, q, w);
      hide RecordStatus, PieceAt, Next;
      assert [PieceAt(r, p)] + (SecPieces(r, q) + SecPieces(s, w))
        == ([PieceAt(r, p)] + SecPieces(r, q)) + SecPieces(s, w);
    } else {
      assert [] + SecPieces(s, w) == SecPieces(s, w);
    }
  }

  lemma SameRecord(r: Text, s: Text, p: nat, w: nat)
    requires Sector(r) && Sector(s) && p <= LAST_START && Next(r, p) <= w <= SECTOR && r[..w] == s[..w]
    requires p + HEADER + Len(r, p) <= SECTOR
    ensures RecordStatus(s, p) == RecordStatus(r, p) && Next(s, p) == Next(r, p) && PieceAt(s, p) == PieceAt(r, p)
    ensures Len(s, p) == Len(r, p)
  {
    SameHeader(r, s, p, w);
    hide RecordStatus;
    var end := p + HEADER + Len(r, p);
    assert r[p + HEADER..end] == r[..w][p + HEADER..end] == s[p + HEADER..end];
  }

  // ---- through the sectors ----

  predicate Image(r: seq<Text>) { forall i :: 0 <= i < |r| ==> Sector(r[i]) }

  /** A used sector whose records reach its end. */
  predicate Full(sec: Text)
    requires Sector(sec)
  {
    SectorStatus(sec, 0) == Good && SecEnd(sec, HEADER) == SECTOR
  }

  /** A full sector whose records fit it. */
  ghost predicate FullOk(sec: Text) {
    Sector(sec) && Full(sec) && SecFits(sec, HEADER)
  }

  /** A used sector with erased room at its end, and records that fit. */
  ghost predicate OpenOk(sec: Text) {
    && Sector(sec) && SectorStatus(sec, 0) == Good && SecFits(sec, HEADER)
    && HEADER < SecEnd(sec, HEADER) < SECTOR && Erased(sec[SecEnd(sec, HEADER)..])
  }

  ghost predicate ErasedOk(sec: Text) { Sector(sec) && Erased(sec) }

  /** The index of a used sector. */
  function Idx(sec: Text): nat
    requires Sector(sec)
  {
    Index(sec, 0)
  }

  /** `k` full sectors, an open one when `u` is `k + 1`, then erased ones; indices rise. */
  ghost predicate Shape(r: seq<Text>, k: nat, u: nat) {
    && Image(r) && k <= u <= k + 1 && u <= |r|
    && (forall i :: 0 <= i < k ==> FullOk(r[i]))
    && (u == k + 1 ==> OpenOk(r[k]))
    && (forall i :: u <= i < |r| ==> ErasedOk(r[i]))
    && (forall i, j :: 0 <= i < j < u ==> Idx(r[i]) < Idx(r[j]))
  }

  /** Number of full sectors at the start. */
  function Lead(r: seq<Text>): (k: nat)
    requires Image(r)
    ensures k <= |r| && (forall i :: 0 <= i < k ==> Full(r[i])) && (k < |r| ==> !Full(r[k]))
  {
    if r == [] || !Full(r[0]) then 0 else 1 + Lead(r[1..])
  }

  /** Sectors in use. */
  function Used(r: seq<Text>): (u: nat)
    requires Image(r)
    ensures Lead(r) <= u <= |r|
  {
    if Lead(r) < |r| && SectorStatus(r[Lead(r)], 0) == Good then Lead(r) + 1 else Lead(r)
  }

  /** A ring laid out from its oldest sector. */
  ghost predicate WellFormed(r: seq<Text>) {
    |r| > 0 && Image(r) && Shape(r, Lead(r), Used(r))
  }

  /** The log: the pieces of all sectors up to the first that is not full. */
  function Log(r: seq<Text>): seq<Piece>
    requires Image(r)
    decreases |r|, 0
  {
    if r == [] || SectorStatus(r[0], 0) != Good then [] else FromRecord(r[0], HEADER, r[1..])
  }

  /** The pieces from place `p` of a sector on, with the sectors behind it. */
  function FromRecord(sec: Text, p: nat, rest: seq<Text>): seq<Piece>
    requires Sector(sec) && Place(p) && Image(rest)
    decreases |rest|, 1
  {
    SecPieces(sec, p) + if SecEnd(sec, p) == SECTOR then Log(rest) else []
  }
}
