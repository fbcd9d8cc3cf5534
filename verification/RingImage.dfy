/** What writing a record does to a laid-out ring. */
module RingImage {
  import opened Bytes
  import opened RingFormat
  import opened RingWalk

  function Spliced(sec: Text, p: nat, t: Text): (s: Text)
    requires p + |t| <= |sec|
    ensures |s| == |sec|
  {
    sec[..p] + t + sec[p + |t|..]
  }

  /** The check and flag byte of a written header. */
  function FlagByte(id: Byte, size: nat, flags: nat): (b: Byte)
    requires size < 65536 && (flags == LIVE_FLAG || flags == LIVE_FLAG + SPLIT_FLAG)
    ensures IsLive(b) && (IsSplit(b) <==> flags >= SPLIT_FLAG)
  {
    FlagBits(Crc(LenBytes(size) + [id]), flags);
    Crc(LenBytes(size) + [id]) + flags
  }

  /** The piece that a write leaves at place `p`. */
  function NewPiece(id: Byte, flags: nat, data: Text, p: nat): Piece
    requires |data| < 65536 && p <= LAST_START && (flags == LIVE_FLAG || flags == LIVE_FLAG + SPLIT_FLAG)
  {
    Piece(id, FlagByte(id, |data|, flags), data, Skip(p, |data|) == SECTOR)
  }

  // ---- one sector ----

  lemma ErasedTail(t: Text, i: nat)
    requires i <= |t| && Erased(t)
    ensures Erased(t[i..])
  {
  }

  lemma BlankAt(sec: Text, q: nat)
    requires Sector(sec) && q <= LAST_START && Erased(sec[q..])
    ensures RecordStatus(sec, q) == Blank && SectorStatus(sec, q) == Blank
  {
    assert sec[q..q + HEADER] == sec[q..][..HEADER];
    ErasedHeaders(sec, q);
  }

  /** A header at `p`, its bytes, and nothing behind them. */
  lemma LastRecord(s: Text, p: nat, id: Byte, n: nat, flags: nat)
    requires Sector(s) && p <= LAST_START && 0 < n && p + HEADER + n <= SECTOR && id != 255
    requires flags == LIVE_FLAG || flags == LIVE_FLAG + SPLIT_FLAG
    requires At(s, p, RecordHeader(id, n, flags)) && Erased(s[p + HEADER + n..])
    ensures SecPieces(s, p) == [NewPiece(id, flags, s[p + HEADER..p + HEADER + n], p)]
    ensures SecEnd(s, p) == Skip(p, n) && SecFits(s, p)
  {
    hide Crc;
    RecordHeaderIsGood(s, p, id, n, flags);
    var q := Skip(p, n);
    if q < SECTOR { BlankAt(s, q); }
    PieceIsNew(s, p, id, n, flags);
    hide RecordStatus, PieceAt, NewPiece, RecordHeader, Skip, At;
    assert SecPieces(s, q) == [];
    assert SecPieces(s, p) == [PieceAt(s, p)] + SecPieces(s, q);
  }

  lemma PieceIsNew(s: Text, p: nat, id: Byte, n: nat, flags: nat)
    requires Sector(s) && p <= LAST_START && 0 < n && p + HEADER + n <= SECTOR && id != 255
    requires flags == LIVE_FLAG || flags == LIVE_FLAG + SPLIT_FLAG
    requires At(s, p, RecordHeader(id, n, flags)) && Len(s, p) == n && Id(s, p) == id
    ensures PieceAt(s, p) == NewPiece(id, flags, s[p + HEADER..p + HEADER + n], p)
  {
    hide Crc;
    AtByte(s, p, RecordHeader(id, n, flags), 3);
  }

  lemma SplicedAt(sec: Text, p: nat, a: Text, b: Text)
    requires p + |a| + |b| <= |sec|
    ensures At(Spliced(sec, p, a + b), p, a) && At(Spliced(sec, p, a + b), p + |a|, b)
    ensures Spliced(sec, p, a + b)[..p] == sec[..p]
    ensures Spliced(sec, p, a + b)[p + |a| + |b|..] == sec[p + |a| + |b|..]
  {
    var s := Spliced(sec, p, a + b);
    assert s[p..p + |a|] == a && s[p + |a|..p + |a| + |b|] == b;
  }

  /** An open sector after a record was written at its end. */
  function WithRecord(sec: Text, e: nat, id: Byte, flags: nat, data: Text): (s: Text)
    requires |data| < 65536 && e + HEADER + |data| <= |sec| && (flags == LIVE_FLAG || flags == LIVE_FLAG + SPLIT_FLAG)
    ensures |s| == |sec|
  {
    Spliced(sec, e, RecordHeader(id, |data|, flags) + data)
  }

  lemma RecordWritten(sec: Text, e: nat, id: Byte, flags: nat, data: Text)
    requires Sector(sec) && HEADER < e <= LAST_START && e + HEADER + |data| <= SECTOR
    requires Erased(sec[e..]) && id != 255 && |data| > 0
    requires flags == LIVE_FLAG || flags == LIVE_FLAG + SPLIT_FLAG
    ensures var s := WithRecord(sec, e, id, flags, data);
            && s[..e] == sec[..e]
            && SecPieces(s, e) == [NewPiece(id, flags, data, e)] && SecEnd(s, e) == Skip(e, |data|) && SecFits(s, e)
            && (Skip(e, |data|) < SECTOR ==> Erased(s[Skip(e, |data|)..]))
  {
    var n, h := |data|, RecordHeader(id, |data|, flags);
    var s := Spliced(sec, e, h + data);
    SplicedAt(sec, e, h, data);
    ErasedTail(sec[e..], HEADER + n);
    assert sec[e..][HEADER + n..] == sec[e + HEADER + n..];
    assert s[e + HEADER..e + HEADER + n] == data;
    hide SecPieces, SecEnd, SecFits, RecordHeader, Spliced, NewPiece, At;
    LastRecord(s, e, id, n, flags);
  }

  /** A record written at the end of an open sector: the records before it stay as they are. */
  lemma RecordAppended(sec: Text, id: Byte, flags: nat, data: Text)
    requires OpenOk(sec) && |data| > 0 && id != 255 && (flags == LIVE_FLAG || flags == LIVE_FLAG + SPLIT_FLAG)
    requires SecEnd(sec, HEADER) + HEADER + |data| <= SECTOR
    ensures var e := SecEnd(sec, HEADER);
            var s := WithRecord(sec, e, id, flags, data);
            && SecPieces(s, HEADER) == SecPieces(sec, HEADER) + [NewPiece(id, flags, data, e)]
            && Idx(s) == Idx(sec) && (if Skip(e, |data|) == SECTOR then FullOk(s) else OpenOk(s))
            && SecEnd(s, HEADER) == Skip(e, |data|)
  {
    var e := SecEnd(sec, HEADER);
    var s := WithRecord(sec, e, id, flags, data);
    RecordWritten(sec, e, id, flags, data);
    SecContinues(sec, s, HEADER, e);
    SameHeader(sec, s, 0, e);
    hide SecPieces, SecFits, SecEnd, WithRecord, SectorStatus, NewPiece, Skip, Erased;
  }

  /** A sector written from its start: sector header, record header, `data`, and then erased flash up
      to the length `n` that the header states. */
  function FirstBytes(index: nat, id: Byte, n: nat, flags: nat, data: Text): (t: Text)
    requires n < 65536 && (flags == LIVE_FLAG || flags == LIVE_FLAG + SPLIT_FLAG)
    ensures |t| == 2 * HEADER + |data|
  {
    SectorHeader(index) + RecordHeader(id, n, flags) + data
  }

  lemma SectorStarted(sec: Text, index: nat, id: Byte, n: nat, flags: nat, data: Text)
    requires Sector(sec) && Erased(sec) && index <= INDEX_MASK && 0 < n <= MAX_APPEND && id != 255 && |data| <= n
    requires flags == LIVE_FLAG || flags == LIVE_FLAG + SPLIT_FLAG
    ensures var s := Spliced(sec, 0, FirstBytes(index, id, n, flags, data));
            && Idx(s) == index && (if Skip(HEADER, n) == SECTOR then FullOk(s) else OpenOk(s))
            && SecPieces(s, HEADER) == [NewPiece(id, flags, data + sec[..n - |data|], HEADER)]
            && SecEnd(s, HEADER) == Skip(HEADER, n)
  {
    hide SecPieces, SecEnd, SecFits, RecordHeader, SectorHeader, Spliced, SectorStatus, NewPiece, Skip;
    var sh, h := SectorHeader(index), RecordHeader(id, n, flags);
    var s := Spliced(sec, 0, FirstBytes(index, id, n, flags, data));
    StartedAt(sec, sh, h, data);
    SectorHeaderIsGood(s, 0, index);
    var k := 2 * HEADER + |data|;
    assert Erased(s[k..]);
    assert s[2 * HEADER + n..] == s[k..][n - |data|..];
    assert s[2 * HEADER..2 * HEADER + n] == data + sec[..n - |data|] by {
      assert s[2 * HEADER..2 * HEADER + n] == s[2 * HEADER..k] + s[k..k + n - |data|];
      assert s[2 * HEADER..k] == data;
    }
    LastRecord(s, HEADER, id, n, flags);
    SkipsInside(n);
  }

  lemma SkipsInside(n: nat)
    requires 0 < n <= MAX_APPEND
    ensures HEADER < Skip(HEADER, n) && (Skip(HEADER, n) < SECTOR ==> Skip(HEADER, n) == 2 * HEADER + n)
  {
  }

  lemma StartedAt(sec: Text, sh: Text, h: Text, data: Text)
    requires |sh| == |h| == HEADER && 2 * HEADER + |data| <= |sec| && Erased(sec)
    ensures var s := Spliced(sec, 0, sh + h + data);
            && At(s, 0, sh) && At(s, HEADER, h) && At(s, 2 * HEADER, data) && Erased(s[2 * HEADER + |data|..])
  {
    SplicedAt(sec, 0, sh + h, data);
    AtSplit(Spliced(sec, 0, sh + h + data), 0, sh, h);
  }

  // ---- the ring ----

  lemma ErasedSector(sec: Text)
    requires ErasedOk(sec)
    ensures SectorStatus(sec, 0) == Blank && !Full(sec)
  {
    assert sec[0..] == sec;
    BlankAt(sec, 0);
  }

  /** A shape determines the numbers of full and of used sectors. */
  lemma ShapeIs(r: seq<Text>, k: nat, u: nat)
    requires Shape(r, k, u)
    ensures Lead(r) == k && Used(r) == u
  {
    if k < |r| && u == k { ErasedSector(r[k]); }
    assert forall i :: 0 <= i < k ==> FullOk(r[i]);
    assert k < |r| ==> !Full(r[k]);
    hide SecEnd, SecFits, Lead;
  }

  /** Pieces of sectors that are all full. */
  function FirstPieces(r: seq<Text>): seq<Piece>
    requires Image(r)
  {
    if r == [] then [] else SecPieces(r[0], HEADER) + FirstPieces(r[1..])
  }

  lemma {:induction false} LogSplit(r: seq<Text>, k: nat)
    requires Image(r) && k <= |r| && forall i :: 0 <= i < k ==> Full(r[i])
    ensures Log(r) == FirstPieces(r[..k]) + Log(r[k..])
    decreases k
  {
    hide Log, SecPieces, Full;
    if k == 0 {
      assert r[0..] == r && r[..0] == [];
      assert [] + Log(r) == Log(r);
    } else {
      LogSplit(r[1..], k - 1);
      LogOfFull(r);
      FirstPiecesCons(r, k);
      assert r[1..][k - 1..] == r[k..];
      hide FirstPieces;
      Assoc(SecPieces(r[0], HEADER), FirstPieces(r[1..][..k - 1]), Log(r[k..]));
    }
  }

  lemma FirstPiecesCons(r: seq<Text>, k: nat)
    requires Image(r) && 0 < k <= |r|
    ensures FirstPieces(r[..k]) == SecPieces(r[0], HEADER) + FirstPieces(r[1..][..k - 1])
  {
    hide SecPieces;
    assert r[1..][..k - 1] == r[..k][1..];
  }

  lemma Assoc(a: seq<Piece>, b: seq<Piece>, c: seq<Piece>)
    ensures a + (b + c) == (a + b) + c
  {
  }

  lemma LogOfFull(r: seq<Text>)
    requires Image(r) && r != [] && Full(r[0])
    ensures Log(r) == SecPieces(r[0], HEADER) + Log(r[1..])
  {
  }

  /** The log of a shape: the full sectors, and the open one. */
  lemma LogOfShape(r: seq<Text>, k: nat, u: nat)
    requires Shape(r, k, u)
    ensures Log(r) == FirstPieces(r[..k]) + if u == k + 1 then SecPieces(r[k], HEADER) else []
  {
    assert forall i :: 0 <= i < k ==> FullOk(r[i]) && Full(r[i]);
    LogSplit(r, k);
    if k < |r| {
      if u == k { ErasedSector(r[k]); }
      assert r[k..][0] == r[k];
      hide SecPieces, SecEnd, FirstPieces;
      LogNotFull(r[k..]);
    } else {
      assert r[k..] == [];
    }
  }

  lemma LogNotFull(r: seq<Text>)
    requires Image(r) && r != [] && !Full(r[0])
    ensures Log(r) == if SectorStatus(r[0], 0) == Good then SecPieces(r[0], HEADER) else []
  {
    hide SecPieces, SecEnd, SectorStatus;
    assert SecPieces(r[0], HEADER) + [] == SecPieces(r[0], HEADER);
  }

  lemma {:induction false} FirstPiecesSnoc(r: seq<Text>, s: Text)
    requires Image(r) && Sector(s)
    ensures Image(r + [s]) && FirstPieces(r + [s]) == FirstPieces(r) + SecPieces(s, HEADER)
  {
    hide SecPieces;
    if r == [] {
      assert [s][1..] == [];
      assert SecPieces(s, HEADER) + [] == SecPieces(s, HEADER) == [] + SecPieces(s, HEADER);
    } else {
      assert (r + [s])[1..] == r[1..] + [s];
      FirstPiecesSnoc(r[1..], s);
      assert SecPieces(r[0], HEADER) + (FirstPieces(r[1..]) + SecPieces(s, HEADER))
          == (SecPieces(r[0], HEADER) + FirstPieces(r[1..])) + SecPieces(s, HEADER);
    }
  }

  /** The log when the newest used sector `k` is full or open. */
  lemma LogWithNewest(r: seq<Text>, k: nat)
    requires Image(r) && k < |r| && (Shape(r, k, k + 1) || Shape(r, k + 1, k + 1))
    ensures Log(r) == FirstPieces(r[..k]) + SecPieces(r[k], HEADER)
  {
    hide SecPieces, FirstPieces, Shape, Log;
    if Shape(r, k, k + 1) {
      LogOfShape(r, k, k + 1);
    } else {
      LogOfShape(r, k + 1, k + 1);
      assert r[..k + 1] == r[..k] + [r[k]];
      FirstPiecesSnoc(r[..k], r[k]);
      assert FirstPieces(r[..k + 1]) + [] == FirstPieces(r[..k + 1]);
    }
  }

  /** Sector `k`, open or erased, replaced by a used sector `s` with a fitting index. */
  lemma ShapeWithNewest(r: seq<Text>, k: nat, u: nat, s: Text)
    requires Shape(r, k, u) && k < |r| && (FullOk(s) || OpenOk(s))
    requires forall i :: 0 <= i < k ==> Idx(r[i]) < Idx(s)
    ensures Image(r[k := s]) && Shape(r[k := s], if FullOk(s) then k + 1 else k, k + 1)
  {
    assert Sector(s);
    hide FullOk, OpenOk, ErasedOk, Idx;
  }

  /** The open sector extended by `added` pieces. */
  lemma NewestExtended(r: seq<Text>, k: nat, s: Text, added: seq<Piece>)
    requires Shape(r, k, k + 1) && (FullOk(s) || OpenOk(s)) && Idx(s) == Idx(r[k])
    requires SecPieces(s, HEADER) == SecPieces(r[k], HEADER) + added
    ensures Shape(r[k := s], if FullOk(s) then k + 1 else k, k + 1) && Log(r[k := s]) == Log(r) + added
  {
    hide SecPieces, SecEnd, SecFits, Full, FirstPieces, Log, Idx;
    assert Sector(s);
    hide FullOk, OpenOk, ErasedOk;
    var t := r[k := s];
    assert forall i :: 0 <= i < k ==> Idx(r[i]) < Idx(s);
    ShapeWithNewest(r, k, k + 1, s);
    hide Shape;
    LogWithNewest(r, k);
    LogWithNewest(t, k);
    assert t[..k] == r[..k];
    Assoc(FirstPieces(r[..k]), SecPieces(r[k], HEADER), added);
  }

  /** An erased sector behind full ones started as `s` with a higher index. */
  lemma SectorAdded(r: seq<Text>, k: nat, s: Text)
    requires Shape(r, k, k) && k < |r| && (FullOk(s) || OpenOk(s))
    requires forall i :: 0 <= i < k ==> Idx(r[i]) < Idx(s)
    ensures Shape(r[k := s], if FullOk(s) then k + 1 else k, k + 1) && Log(r[k := s]) == Log(r) + SecPieces(s, HEADER)
  {
    hide SecPieces, FirstPieces, FullOk, OpenOk, Log, Shape, Idx;
    var t := r[k := s];
    ShapeWithNewest(r, k, k, s);
    LogOfShape(r, k, k);
    LogWithNewest(t, k);
    assert t[..k] == r[..k];
    assert FirstPieces(r[..k]) + [] == FirstPieces(r[..k]);
  }

  /** The oldest sector of a ring without erased sectors is erased and becomes the last one. */
  lemma OldestErased(r: seq<Text>, k: nat, e: Text)
    requires |r| > 1 && Shape(r, k, |r|) && ErasedOk(e)
    ensures Shape(r[1..] + [e], k - 1, |r| - 1) && Log(r) == SecPieces(r[0], HEADER) + Log(r[1..] + [e])
  {
    assert FullOk(r[0]);
    ErasedSector(e);
    EvictedLog(r, e);
    EvictedShape(r, k, e);
  }

  lemma EvictedShape(r: seq<Text>, k: nat, e: Text)
    requires |r| > 1 && Shape(r, k, |r|) && ErasedOk(e)
    ensures Shape(r[1..] + [e], k - 1, |r| - 1)
  {
    assert Sector(e);
    hide FullOk, OpenOk, ErasedOk, Idx;
    var t := r[1..] + [e];
    assert forall i :: 0 <= i < |r| - 1 ==> t[i] == r[i + 1];
    assert t[|r| - 1] == e;
  }

  lemma EvictedLog(r: seq<Text>, e: Text)
    requires Image(r) && |r| > 1 && Full(r[0]) && Sector(e) && SectorStatus(e, 0) != Good
    ensures Image(r[1..] + [e]) && Log(r) == SecPieces(r[0], HEADER) + Log(r[1..] + [e])
  {
    LogOfFull(r);
    LogPadded(r[1..], e);
    hide SecPieces, Log;
  }

  lemma {:induction false} LogPadded(r: seq<Text>, e: Text)
    requires Image(r) && Sector(e) && SectorStatus(e, 0) != Good
    ensures Image(r + [e]) && Log(r + [e]) == Log(r)
    decreases |r|
  {
    if r != [] {
      LogPadded(r[1..], e);
      assert (r + [e])[1..] == r[1..] + [e];
      hide SecPieces, SecEnd, SectorStatus;
    }
  }
}
