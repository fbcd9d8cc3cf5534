/** Reading and searching the log: on the list of pieces ahead of the cursor, and the cursor's places
    in a laid-out ring (ring_buffer.c). */
module RingRead {
  import opened Bytes
  import opened RingFormat
  import opened RingWalk
  import opened RingImage

  // ---- rb_read and rb_find on the pieces ahead ----

  predicate Matches(p: Piece, id: Byte) { p.id == id && IsLive(p.flags) }

  function Prefix(t: Text, n: nat): (s: Text)
    ensures |s| == if n <= |t| then n else |t|
  {
    if n <= |t| then t[..n] else t
  }

  /** The piece behind `ps[0]` continues it: it starts a sector, has the same id and the split flag. */
  predicate Continues(ps: seq<Piece>, id: Byte) {
    |ps| > 1 && ps[0].endsSector && ps[1].id == id && IsSplit(ps[1].flags)
  }

  datatype Reading = Reading(found: bool, data: Text, rest: seq<Piece>)

  /** rb_read: the first live piece of `id`, cut to `size` bytes and joined with what continues it. */
  function ReadFrom(ps: seq<Piece>, id: Byte, size: nat): (r: Reading)
    ensures ps != [] ==> |r.rest| < |ps|
    ensures if r.found then ps != [] else r.data == [] && r.rest == []
    ensures |r.data| <= size
  {
    if ps == [] then Reading(false, [], [])
    else if !Matches(ps[0], id) then ReadFrom(ps[1..], id, size)
    else
      var d := Prefix(ps[0].data, size);
      if Continues(ps, id) && |d| < size then
        var more := ReadFrom(ps[1..], id, size - |d|);
        Reading(true, d + more.data, more.rest)
      else Reading(true, d, ps[1..])
  }

  /** What a series of reads returns, up to the first that finds nothing. */
  function ReadAll(ps: seq<Piece>, id: Byte, size: nat): seq<Text>
    decreases |ps|
  {
    var r := ReadFrom(ps, id, size);
    if r.found then [r.data] + ReadAll(r.rest, id, size) else []
  }

  datatype Search = NotFound(scratch: Text) | Found(at: seq<Piece>, rest: seq<Piece>, scratch: Text)

  /** rb_find: the first match whose bytes start with `key`. Bytes of the scratch buffer that a short
      record does not overwrite take part in the comparison. */
  function FindFrom(ps: seq<Piece>, id: Byte, key: Text, scratch: Text): (s: Search)
    requires |scratch| >= |key|
    ensures |s.scratch| == |scratch|
    ensures s.Found? ==> s.at != [] && Matches(s.at[0], id)
    decreases |ps|
  {
    if ps == [] then NotFound(scratch)
    else if !Matches(ps[0], id) then FindFrom(ps[1..], id, key, scratch)
    else
      var r := ReadFrom(ps, id, |key|);
      var now := r.data + scratch[|r.data|..];
      if now[..|key|] == key then Found(ps, r.rest, now) else FindFrom(r.rest, id, key, now)
  }

  // ---- places of the cursor ----

  /** The walk from `q` comes to `p`. */
  predicate Reaches(sec: Text, q: nat, p: nat)
    requires Sector(sec) && Place(q)
    decreases SECTOR - q
  {
    q == p || (q < SECTOR && RecordStatus(sec, q) == Good && Reaches(sec, Next(sec, q), p))
  }

  lemma {:induction false} ReachesSame(sec: Text, q: nat, p: nat)
    requires Sector(sec) && Place(q) && Place(p) && Reaches(sec, q, p)
    ensures q <= p && SecEnd(sec, q) == SecEnd(sec, p) && (SecFits(sec, q) ==> SecFits(sec, p))
    decreases SECTOR - q
  {
    hide RecordStatus, Next;
    if q != p { ReachesSame(sec, Next(sec, q), p); }
  }

  lemma {:induction false} ReachesNext(sec: Text, q: nat, p: nat)
    requires Sector(sec) && Place(q) && p <= LAST_START && Reaches(sec, q, p) && RecordStatus(sec, p) == Good
    ensures Reaches(sec, q, Next(sec, p))
    decreases SECTOR - q
  {
    hide RecordStatus, Next;
    if q != p { ReachesNext(sec, Next(sec, q), p); }
  }

  /** A ring that is not full all around, so that every walk ends at erased flash. */
  ghost predicate Readable(r: seq<Text>) {
    WellFormed(r) && Lead(r) < |r|
  }

  /** The cursor is at the start of sector `j`, or at a record place `p` in it. */
  ghost predicate CursorAt(r: seq<Text>, j: nat, p: nat)
    requires Readable(r)
  {
    && j <= Lead(r) && j < |r| && Sector(r[j])
    && (p == 0 || (HEADER <= p <= LAST_START && j < Used(r) && Reaches(r[j], HEADER, p)))
  }

  /** The pieces ahead of that place. */
  function Ahead(r: seq<Text>, j: nat, p: nat): seq<Piece>
    requires Image(r) && j < |r| && Place(p)
  {
    if p == 0 then Log(r[j..]) else FromRecord(r[j], p, r[j + 1..])
  }

  lemma UsedIsGood(r: seq<Text>, j: nat)
    requires Readable(r) && j <= Lead(r)
    ensures SectorStatus(r[j], 0) == if j < Used(r) then Good else Blank
    ensures j < Used(r) ==> SecFits(r[j], HEADER)
    ensures j < Used(r) ==> RecordStatus(r[j], HEADER) == Good
  {
    hide SecFits, RecordStatus, SectorStatus;
    if j < Lead(r) {
      assert FullOk(r[j]);
    } else if j == Used(r) {
      assert ErasedOk(r[j]);
      ErasedSector(r[j]);
    } else {
      assert OpenOk(r[j]);
    }
  }

  /** At the start of an erased sector nothing is ahead; a used one starts with its first record. */
  lemma AheadAtStart(r: seq<Text>, j: nat)
    requires Readable(r) && j <= Lead(r)
    ensures if j < Used(r) then CursorAt(r, j, HEADER) && Ahead(r, j, 0) == Ahead(r, j, HEADER)
            else Ahead(r, j, 0) == []
  {
    hide SecPieces, SecEnd, SectorStatus, RecordStatus, Lead, Shape, Full;
    UsedIsGood(r, j);
    assert r[j..][0] == r[j] && r[j..][1..] == r[j + 1..];
  }

  /** At a header that is not good the log ends, and the header is blank. */
  lemma AheadAtEnd(r: seq<Text>, j: nat, p: nat)
    requires Readable(r) && p > 0 && CursorAt(r, j, p) && RecordStatus(r[j], p) != Good
    ensures RecordStatus(r[j], p) == Blank && Ahead(r, j, p) == []
  {
    hide RecordStatus, Log, Lead, Used, Full;
    ReachesSame(r[j], HEADER, p);
    NotFullAt(r, j);
  }

  lemma NotFullAt(r: seq<Text>, j: nat)
    requires Readable(r) && j < Used(r) && SecEnd(r[j], HEADER) < SECTOR
    ensures j == Lead(r) && OpenOk(r[j]) && RecordStatus(r[j], SecEnd(r[j], HEADER)) == Blank
  {
    hide SecEnd, RecordStatus, SecFits;
    BlankAt(r[j], SecEnd(r[j], HEADER));
  }

  /** Over one record: to the next place of the sector, or to the start of the next sector. */
  lemma AheadStep(r: seq<Text>, j: nat, p: nat)
    requires Readable(r) && p > 0 && CursorAt(r, j, p) && RecordStatus(r[j], p) == Good
    ensures var q := Next(r[j], p);
            && p + HEADER + Len(r[j], p) <= SECTOR
            && if q < SECTOR then CursorAt(r, j, q) && Ahead(r, j, p) == [PieceAt(r[j], p)] + Ahead(r, j, q)
               else CursorAt(r, j + 1, 0) && Ahead(r, j, p) == [PieceAt(r[j], p)] + Ahead(r, j + 1, 0)
  {
    var q := Next(r[j], p);
    hide WellFormed, RecordStatus, PieceAt, Log, FromRecord, Lead, Used, Next, SecEnd, Full;
    UsedIsGood(r, j);
    ReachesSame(r[j], HEADER, p);
    ReachesNext(r[j], HEADER, p);
    FromRecordStep(r[j], p, r[j + 1..]);
    if q == SECTOR { StepOut(r, j, p); }
  }

  lemma FromRecordStep(sec: Text, p: nat, rest: seq<Text>)
    requires Sector(sec) && p <= LAST_START && RecordStatus(sec, p) == Good && Image(rest)
    ensures FromRecord(sec, p, rest)
         == [PieceAt(sec, p)] + if Next(sec, p) < SECTOR then FromRecord(sec, Next(sec, p), rest) else Log(rest)
  {
    hide RecordStatus, PieceAt, Log, Next;
    var q := Next(sec, p);
    PiecesAssoc(PieceAt(sec, p), SecPieces(sec, q), if SecEnd(sec, q) == SECTOR then Log(rest) else []);
    assert q == SECTOR ==> [] + Log(rest) == Log(rest);
  }

  lemma PiecesAssoc(a: Piece, b: seq<Piece>, c: seq<Piece>)
    ensures ([a] + b) + c == [a] + (b + c)
  {
  }

  /** Only full sectors are left at their end. */
  lemma StepOut(r: seq<Text>, j: nat, p: nat)
    requires Readable(r) && p > 0 && CursorAt(r, j, p) && RecordStatus(r[j], p) == Good && Next(r[j], p) == SECTOR
    ensures j < Lead(r)
  {
    hide RecordStatus, SecFits, Reaches, Next;
    ReachesSame(r[j], HEADER, p);
    assert j == Lead(r) ==> OpenOk(r[j]);
  }

  lemma AheadAtHeader(r: seq<Text>, j: nat, p: nat)
    requires Readable(r) && CursorAt(r, j, p)
    ensures if p == 0 && SectorStatus(r[j], 0) != Good then SectorStatus(r[j], 0) == Blank && Ahead(r, j, p) == []
            else
              var q := if p == 0 then HEADER else p;
              && CursorAt(r, j, q) && Ahead(r, j, q) == Ahead(r, j, p)
              && if RecordStatus(r[j], q) == Good then Ahead(r, j, q) != [] && Ahead(r, j, q)[0] == PieceAt(r[j], q)
                 else RecordStatus(r[j], q) == Blank && Ahead(r, j, q) == []
  {
    hide RecordStatus, SectorStatus, Ahead, Used, Lead, Full;
    UsedIsGood(r, j);
    if p == 0 { AheadAtStart(r, j); }
    if p > 0 || SectorStatus(r[j], 0) == Good {
      var q := if p == 0 then HEADER else p;
      if RecordStatus(r[j], q) == Good { AheadStep(r, j, q); } else { AheadAtEnd(r, j, q); }
    }
  }

  lemma BlankId(sec: Text, q: nat)
    requires q + HEADER <= |sec| && (RecordStatus(sec, q) == Blank || SectorStatus(sec, q) == Blank)
    ensures Id(sec, q) == 255
  {
  }

  lemma CursorInside(r: seq<Text>, j: nat, p: nat)
    requires Readable(r) && CursorAt(r, j, p)
    ensures j < |r|
  {
  }

  lemma PieceIs(sec: Text, p: nat)
    requires Sector(sec) && p <= LAST_START
    ensures PieceAt(sec, p).id == Id(sec, p) && PieceAt(sec, p).flags == Flags(sec, p)
    ensures p + HEADER + Len(sec, p) <= SECTOR ==> PieceAt(sec, p).data == sec[p + HEADER..p + HEADER + Len(sec, p)]
  {
  }

  /** The bytes that a read of at most `size` bytes takes from a record. */
  lemma PrefixOfPiece(sec: Text, p: nat, size: nat)
    requires Sector(sec) && p <= LAST_START && p + HEADER + Len(sec, p) <= SECTOR
    ensures var n := if Len(sec, p) <= size then Len(sec, p) else size;
            sec[p + HEADER..p + HEADER + n] == Prefix(PieceAt(sec, p).data, size)
  {
    PieceIs(sec, p);
    hide PieceAt, Len;
    var d := sec[p + HEADER..p + HEADER + Len(sec, p)];
    assert size <= |d| ==> sec[p + HEADER..p + HEADER + size] == d[..size];
  }

  lemma GoodLength(sec: Text, p: nat)
    requires p + HEADER <= |sec| && RecordStatus(sec, p) == Good
    ensures Len(sec, p) > 0
  {
  }

  lemma ReadNothing(id: Byte, size: nat)
    ensures ReadFrom([], id, size) == Reading(false, [], [])
  {
  }

  lemma ReadTakes(piece: Piece, rest: seq<Piece>, id: Byte, size: nat)
    requires Matches(piece, id)
    ensures var d := Prefix(piece.data, size);
            ReadFrom([piece] + rest, id, size) ==
            if piece.endsSector && rest != [] && rest[0].id == id && IsSplit(rest[0].flags) && |d| < size
            then Reading(true, d + ReadFrom(rest, id, size - |d|).data, ReadFrom(rest, id, size - |d|).rest)
            else Reading(true, d, rest)
  {
    assert ([piece] + rest)[1..] == rest;
  }

  lemma ReadSkips(piece: Piece, ps: seq<Piece>, id: Byte, size: nat)
    requires !Matches(piece, id)
    ensures ReadFrom([piece] + ps, id, size) == ReadFrom(ps, id, size)
  {
    assert ([piece] + ps)[1..] == ps;
  }

  lemma FindStep(ps: seq<Piece>, id: Byte, key: Text, scratch: Text)
    requires |scratch| >= |key|
    ensures FindFrom(ps, id, key, scratch) ==
            if ps == [] then NotFound(scratch)
            else if !Matches(ps[0], id) then FindFrom(ps[1..], id, key, scratch)
            else
              var r := ReadFrom(ps, id, |key|);
              var now := r.data + scratch[|r.data|..];
              if now[..|key|] == key then Found(ps, r.rest, now) else FindFrom(r.rest, id, key, now)
    ensures ps != [] && Matches(ps[0], id) ==> ReadFrom(ps, id, |key|).found
  {
  }
}
