/** The ring buffer as the program keeps it: cursor, running sector index and flash (ring_buffer.c). */
module RingDevice {
  import opened Bytes
  import opened RingFormat
  import opened RingWalk
  import opened RingFlash
  import opened RingSpec
  import opened RingRead
  import opened RingAppend
  import opened RingCheck
  import opened RingDelete

  /** A record header in memory; its last byte is the check bits plus the flags. */
  datatype Header = Header(id: Byte, len: nat, crc: nat, flags: nat)

  function Bytes4(h: Header): (t: Text)
    requires h.len < 65536 && h.crc < 32 && h.flags <= LIVE_FLAG + SPLIT_FLAG
    ensures |t| == HEADER
  {
    LenBytes(h.len) + [h.id, h.crc + h.flags]
  }

  /** The header last made for `id` stands for a record of `len` bytes. */
  predicate Made(h: Header, len: nat) {
    0 < len < 65536 && h.len == len && h.crc == Crc(LenBytes(len) + [h.id]) && h.flags == LIVE_FLAG
  }

  datatype InitChoice = InitFail | InitIfFail | InitAlways

  function ErasedArea(n: nat): (f: Flash)
    ensures |f| == n && Image(f) && forall i :: 0 <= i < n ==> f[i] == BlankSector()
  {
    seq(n, _ => BlankSector())
  }

  lemma CheckedIsGood(f: Flash, past: Text)
    requires IsFlash(f) && |past| >= HEADER
    ensures CheckRing(f, past) == (if NoBad(f) && RisesFrom(f, past, FirstChecked(f), 0, 0) then Ok else BadHdr)
  {
  }

  /** nextincr */
  function Clip(a: nat, max: nat): nat { if a >= max then 0 else a }

  lemma PageInSector(a: nat, n: nat)
    requires a < SECTOR * n
    ensures a % PAGE <= a % SECTOR && a % SECTOR - a % PAGE + PAGE <= SECTOR && a / SECTOR < n
    ensures a + (PAGE - a % PAGE) <= SECTOR * n
  {
    var q, m := a / PAGE, a % PAGE;
    var s, i := q / 16, q % 16;
    assert a == SECTOR * s + (PAGE * i + m);
    Address(s, PAGE * i + m);
  }

  class RingBuffer {
    var flash: Flash
    var next: nat
    var sectorIndex: nat

    ghost predicate Valid()
      reads this
    {
      IsFlash(flash) && next < Size(flash)
    }

    /** A control block over the flash as it is. The running index is whatever stood in memory. */
    constructor (flash: Flash, sectorIndex: nat)
      requires IsFlash(flash)
      ensures Valid() && this.flash == flash && next == 0 && this.sectorIndex == sectorIndex
    {
      this.flash, this.sectorIndex, next := flash, sectorIndex, 0;
    }

    /** fetch_and_check_header for the header at offset `offs`; a good sector header moves the cursor. */
    method FetchAndCheck(offs: nat) returns (st: Status, s: nat, p: nat)
      requires Valid() && offs < Size(flash) && offs % SECTOR <= LAST_START && next % SECTOR <= LAST_START
      modifies this`next
      ensures Valid() && s == offs / SECTOR < |flash| && p <= LAST_START
      ensures var sec, o := flash[s], offs % SECTOR;
              && st == (if o == 0 then StartStatus(sec) else RecordStatus(sec, o))
              && p == (if o == 0 && SectorStatus(sec, 0) == Good then HEADER else o)
              && next == old(next) + p - o
    {
      hide RecordStatus, SectorStatus;
      s, p := offs / SECTOR, offs % SECTOR;
      if p == 0 {
        st := SectorStatus(flash[s], 0);
        if st != Good { return; }
        next := next + HEADER;
        p := HEADER;
      }
      st := RecordStatus(flash[s], p);
    }

    /** rb_findnext_writeable from the start of a sector. The walk never stands in a sector's last
        bytes (the invariant on `p`), so the source's skip over them has nothing to do. */
    method FindNextWriteable() returns (code: Code)
      requires Valid() && next % SECTOR == 0
      modifies this`next
      ensures Valid()
      ensures match End(flash, old(next) / SECTOR)
              case Around => code == HdrLoop && next == old(next)
              case At(s, o, st) => code == AsCode(st) && next == SECTOR * s + o
    {
      hide SecEnd, RecordStatus, SectorStatus, Lead, Laid, RbIncr, Skip, Len;
      var origin := next;
      ghost var s, n := next / SECTOR, |flash|;
      LaidImage(flash, s);
      ghost var r := Laid(flash, s);
      ghost var j, p: nat := 0, 0;
      while true
        invariant IsFlash(flash) && j < n && (p == 0 || HEADER <= p <= LAST_START)
        invariant next == SECTOR * RingSector(s, j, n) + p
        invariant forall i :: 0 <= i < j ==> Full(r[i])
        invariant p != 0 ==> SectorStatus(r[j], 0) == Good && SecEnd(r[j], p) == SecEnd(r[j], HEADER)
        decreases n - j, SECTOR - p
      {
        Address(RingSector(s, j, n), p);
        LaidSectors(flash, s, j);
        var st, t, q := FetchAndCheck(next);
        if st != Good {
          StopsHere(flash, s, j, p);
          return AsCode(st);
        }
        next := RbIncr(next, Len(flash[t], q) + HEADER, Size(flash));
        RbIncrIsSkip(t, q, Len(flash[t], q), n);
        SecEndStep(r[j], q);
        NextInRing(s, j, n);
        p := Next(r[j], q);
        if p == SECTOR {
          j, p := j + 1, 0;
        }
        if next == origin {
          OnlyAtStart(s, j, p, n);
          LeadIs(r, n);
          return HdrLoop;
        }
      }
    }

    /** rb_find_ring_oldest_sector: all sectors from the last to the first. */
    method FindOldest() returns (code: Code)
      requires IsFlash(flash)
      modifies this`next, this`sectorIndex
      ensures Valid() && next % SECTOR == 0
      ensures if NoBad(flash)
              then code == AsCode(SectorStatus(flash[0], 0)) && next == SECTOR * Oldest(flash)
                   && sectorIndex == MaxIndex(flash, 0, old(sectorIndex))
              else code == BadHdr && SectorStatus(flash[next / SECTOR], 0) == Bad
    {
      hide SectorStatus, OldestFrom, MaxIndex, Idx, BestFrom;
      OldestOfNone(flash, sectorIndex);
      var low: nat, oldest: nat, i := INDEX_MASK, 0, |flash|;
      code := BadHdr;
      while i > 0
        invariant 0 <= i <= |flash|
        invariant forall j :: i <= j < |flash| ==> SectorStatus(flash[j], 0) != Bad
        invariant i < |flash| ==> code == AsCode(SectorStatus(flash[i], 0))
        invariant BestFrom(flash, i, low, oldest)
        invariant sectorIndex == MaxIndex(flash, i, old(sectorIndex))
      {
        i := i - 1;
        next := SECTOR * i;
        Address(i, 0);
        BestStep(flash, i, low, oldest, old(sectorIndex));
        var st := SectorStatus(flash[i], 0);
        code := AsCode(st);
        match st
        case Good =>
          if Idx(flash[i]) < low {
            low, oldest := Idx(flash[i]), next;
          }
          if Idx(flash[i]) >= sectorIndex {
            sectorIndex := Idx(flash[i]);
          }
        case Blank =>
        case Bad =>
          return;
      }
      BestOfAll(flash, low, oldest);
      next := oldest;
    }

    /** rb_check_sector_ring: all sector headers, then rising indices from a blank sector or the oldest
        one. The cursor is left where the passes end, which can be right behind the area. */
    method CheckSectorRing(past: Text) returns (code: Code)
      requires Valid() && |past| >= HEADER
      modifies this`next, this`sectorIndex
      ensures IsFlash(flash) && next <= Size(flash) && code == CheckRing(flash, past)
      ensures NoBad(flash) ==> sectorIndex == MaxIndex(flash, 0, old(sectorIndex))
    {
      hide SectorStatus, MaxIndex, Oldest, RisesFrom, LastBlank, NoBad;
      var blanks, first;
      code, blanks, first := CheckHeaders();
      if blanks == 0 {
        MaxIndexAgain(flash, old(sectorIndex));
        var _ := FindOldest();
        first := next / SECTOR;
        Address(Oldest(flash), 0);
      }
      if code == Ok { code := CheckOrder(past, first); }
    }

    /** The first pass. */
    method CheckHeaders() returns (code: Code, blanks: nat, last: nat)
      requires Valid()
      modifies this`next, this`sectorIndex
      ensures Valid() && code == (if NoBad(flash) then Ok else BadHdr)
      ensures match LastBlank(flash, |flash|) case None => blanks == 0 case Some(b) => blanks > 0 && last == b
      ensures sectorIndex == MaxIndex(flash, 0, old(sectorIndex))
    {
      hide SectorStatus, MaxIndex, Idx, MaxSeen;
      blanks, last, code := 0, 0, Ok;
      MaxSeenNone(flash, sectorIndex);
      var i := 0;
      while i < |flash|
        invariant 0 <= i <= |flash| && Valid()
        invariant code == (if forall j :: 0 <= j < i ==> SectorStatus(flash[j], 0) != Bad then Ok else BadHdr)
        invariant match LastBlank(flash, i) case None => blanks == 0 case Some(b) => blanks > 0 && last == b
        invariant sectorIndex == MaxSeen(flash, i, old(sectorIndex))
        decreases |flash| - i
      {
        next := SECTOR * i;
        MaxSeenStep(flash, i, old(sectorIndex));
        match SectorStatus(flash[i], 0) {
          case Good =>
            if Idx(flash[i]) >= sectorIndex { sectorIndex := Idx(flash[i]); }
          case Blank =>
            blanks, last := blanks + 1, i;
          case Bad =>
            code := BadHdr;
        }
        i := i + 1;
      }
      MaxSeenIsMax(flash, old(sectorIndex));
    }

    /** The second pass. */
    method CheckOrder(past: Text, first: nat) returns (code: Code)
      requires Valid() && |past| >= HEADER && first < |flash|
      modifies this`next
      ensures next <= Size(flash)
      ensures code == if RisesFrom(flash, past, first, 0, 0) then Ok else BadHdr
    {
      hide SectorStatus, Index, RisesFrom;
      var low, i := 0, 0;
      while i < |flash|
        invariant 0 <= i <= |flash| && low >= 0 && next <= Size(flash)
        invariant RisesFrom(flash, past, first, 0, 0) == RisesFrom(flash, past, first, i, low)
        decreases |flash| - i
      {
        RisesStep(flash, past, first, i, low);
        next := SECTOR * (if first + i > |flash| then first + i - |flash| else first + i);
        var h := HeaderAt(flash, past, first + i);
        if SectorStatus(h, 0) != Good { return Ok; }
        if Index(h, 0) < low { return BadHdr; }
        low := Index(h, 0);
        i := i + 1;
      }
      RisesEnd(flash, past, first, low);
      code := Ok;
    }

    /** rb_create: everything erased, or the ring as it is when its check passes. */
    method Create(past: Text, always: bool) returns (code: Code)
      requires IsFlash(flash) && |past| >= HEADER
      modifies this
      ensures IsFlash(flash) && |flash| == |old(flash)| && (code == BadHdr || Valid())
      ensures if always then code == Ok && flash == ErasedArea(|flash|) && next == 0
              else if CheckRing(old(flash), past) != Ok then code == BadHdr && flash == old(flash)
              else
                && flash == old(flash) && NoBad(flash) && next == SECTOR * Oldest(flash)
                && code == AsCode(SectorStatus(flash[0], 0)) && sectorIndex == MaxIndex(flash, 0, old(sectorIndex))
    {
      hide CheckRing, MaxIndex, Oldest, NoBad, SectorStatus;
      next := 0;
      if always {
        flash := ErasedArea(|flash|);
        return Ok;
      }
      code := CheckSectorRing(past);
      CheckedIsGood(flash, past);
      if code == Ok {
        MaxIndexAgain(flash, old(sectorIndex));
        code := FindOldest();
      }
    }

    /** rb_recreate: a ring that fails its check is erased, unless the caller wants the failure. */
    method Recreate(past: Text, choice: InitChoice) returns (code: Code)
      requires IsFlash(flash) && |past| >= HEADER
      modifies this
      ensures IsFlash(flash) && |flash| == |old(flash)| && (code == BadHdr || Valid())
      ensures if choice == InitAlways || (choice == InitIfFail && CheckRing(old(flash), past) != Ok) then
                code == Ok && flash == ErasedArea(|flash|) && next == 0
              else if CheckRing(old(flash), past) != Ok then code == BadHdr && flash == old(flash)
              else
                && flash == old(flash) && NoBad(flash) && next == SECTOR * Oldest(flash)
                && code == AsCode(SectorStatus(flash[0], 0)) && sectorIndex == MaxIndex(flash, 0, old(sectorIndex))
      ensures choice == InitIfFail && (exists s :: 0 <= s < |old(flash)| && old(flash)[s][..HEADER] == [0, 0, 0, 0]) ==>
                code == Ok && flash == ErasedArea(|flash|)
    {
      hide CheckRing, MaxIndex, Oldest, NoBad, SectorStatus;
      FirstIsNotBad(flash);
      if s: nat :| s < |flash| && flash[s][..HEADER] == [0, 0, 0, 0] { ZeroedFails(flash, past, s); }
      code := Create(past, choice == InitAlways);
      if choice != InitFail && code != Ok && code != BlankHdr && code != HdrLoop {
        code := Create(past, true);
      }
    }

    /** sector_blank_scan */
    method BlankScan() returns (n: nat)
      requires Valid()
      ensures n == Blanks(flash, next / SECTOR, next % SECTOR)
    {
      var s, o := next / SECTOR, next % SECTOR;
      n := CountBlanks(flash[s][o..]);
      if n == SECTOR - o {
        var t := if SECTOR * s + SECTOR >= Size(flash) then 0 else s + 1;
        var more := CountBlanks(flash[t]);
        n := n + more;
      }
    }

    /** rb_partial: the part of `data` that fits the page of the cursor, through a page of 0xff bytes. */
    method Partial(data: Text) returns (n: nat)
      requires Valid()
      modifies this`flash, this`next
      ensures Valid() && |flash| == |old(flash)|
      ensures n == if |data| <= PAGE - old(next) % PAGE then |data| else PAGE - old(next) % PAGE
      ensures flash == Program(old(flash), old(next), data[..n]) && next == Bump(old(next), n, Size(flash))
    {
      hide AndAt, Program;
      PageInSector(next, |flash|);
      var m, s := next % PAGE, next / SECTOR;
      n := if |data| <= PAGE - m then |data| else PAGE - m;
      var page := BlankPage()[..m] + data[..n] + BlankPage()[m + n..];
      var o := next % SECTOR - m;
      PageProgramsOnly(flash[s], o, m, data[..n]);
      ProgramInSector(flash, s, next % SECTOR, data[..n]);
      flash := flash[s := AndAt(flash[s], o, page)];
      next := Clip(next + n, Size(flash));
    }

    /** rb_append_page: page by page, across sectors and around the ring. */
    method AppendPage(data: Text)
      requires Valid() && |data| <= SECTOR
      modifies this`flash, this`next
      ensures Valid() && |flash| == |old(flash)|
      ensures flash == Program(old(flash), old(next), data) && next == Bump(old(next), |data|, Size(flash))
    {
      hide Program;
      var done := Partial(data);
      while done < |data|
        invariant done <= |data| && Valid() && |flash| == |old(flash)|
        invariant flash == Program(old(flash), old(next), data[..done]) && next == Bump(old(next), done, Size(flash))
      {
        var n := Partial(data[done..]);
        ProgramSplit(old(flash), old(next), data[..done], data[done..][..n]);
        NextPart(data, done, n);
        BumpTwice(old(next), done, n, Size(flash));
        done := done + n;
      }
      assert data[..done] == data;
    }

    /** write_headers: a sector header at the start of a sector, then a record header. A size of zero
        leaves the header as it was made before; the flags wanted contain those it has. */
    method WriteHeaders(hdr: Header, size: nat, flags: nat) returns (made: Header)
      requires Valid() && hdr.id != 255 && size < 65536 && (size > 0 || Made(hdr, hdr.len))
      requires flags == LIVE_FLAG || flags == LIVE_FLAG + SPLIT_FLAG
      modifies this
      ensures Valid() && |flash| == |old(flash)|
      ensures var t := Headers(old(next) % SECTOR, old(sectorIndex), hdr.id,
                               if size == 0 then hdr.len else size, flags);
              flash == Program(old(flash), old(next), t) && next == Bump(old(next), |t|, Size(flash))
      ensures sectorIndex == IndexAfter(old(next) % SECTOR, old(sectorIndex))
      ensures size > 0 && flags == LIVE_FLAG ==> Made(made, size) && made.id == hdr.id
    {
      hide Program, Crc, SectorHeader;
      ghost var start := if next % SECTOR == 0 then SectorHeader(sectorIndex + 1) else [];
      if next % SECTOR == 0 {
        sectorIndex := sectorIndex + 1;
        AppendPage(SectorHeader(sectorIndex));
      }
      assert flash == Program(old(flash), old(next), start) by {
        if start == [] { ProgramNothing(flash, next); }
      }
      made := hdr;
      if size != 0 {
        made := Header(hdr.id, size, Crc(LenBytes(size) + [hdr.id]), 0);
      }
      made := made.(flags := flags);
      AppendPage(Bytes4(made));
      ProgramSplit(old(flash), old(next), start, Bytes4(made));
    }

    /** rb_sector_append at the place of the cursor. */
    method SectorAppend(id: Byte, data: Text, beyond: Text) returns (code: Code)
      requires Valid() && next % SECTOR <= LAST_START && |beyond| >= |data|
      modifies this
      ensures Valid() && |flash| == |old(flash)|
      ensures var out := Placed(old(flash), old(next) / SECTOR, old(next) % SECTOR, old(sectorIndex), id, data, beyond);
              code == out.code && flash == out.flash && sectorIndex == out.index
    {
      hide Program, Headers, Blanks, RecordHeader, Spanned, SectorStatus, RecordStatus;
      var size := |data|;
      if size == 0 || id == 255 || size + HEADER > Size(flash) || size > MAX_APPEND { return BadCallerData; }
      var blanks := BlankScan();
      if blanks < size + HEADER { return RingFull; }
      if size + HEADER < SECTOR - next % SECTOR {
        var _ := WritePiece(Header(id, 0, 0, 0), size, LIVE_FLAG, data);
        return Ok;
      }
      var saved := next;
      var t := if next - next % SECTOR + SECTOR >= Size(flash) then 0 else next - next % SECTOR + SECTOR;
      var st, s, p := FetchAndCheck(t);
      if st != Blank {
        next := saved;
        return if st == Good then WrappedSectorUsed else AsCode(st);
      }
      WriteSpanning(id, data, beyond, SECTOR - saved % SECTOR - HEADER, saved, s);
      code := Ok;
    }

    /** The body of the loop of rb_append behind the search for the oldest sector. */
    method Try(id: Byte, data: Text, beyond: Text, eraseIfFull: bool) returns (code: Code)
      requires Valid() && |beyond| >= |data| && NoBad(flash) && next == SECTOR * Oldest(flash)
      modifies this
      ensures Valid() && |flash| == |old(flash)|
      ensures var out := Attempt(old(flash), old(sectorIndex), id, data, beyond, eraseIfFull);
              code == out.code && flash == out.flash && sectorIndex == out.index
    {
      hide Placed, NoBad, MaxIndex, Oldest, End, Program;
      ghost var f, s := flash, Oldest(flash);
      Address(s, 0);
      code := FindNextWriteable();
      if code == HdrLoop && eraseIfFull {
        var _ := FindOldest();
        flash := flash[next / SECTOR := BlankSector()];
        code := BlankHdr;
        Address(s, 0);
      }
      if code == BlankHdr {
        if End(f, s).At? { Address(End(f, s).sector, End(f, s).offset); }
        code := SectorAppend(id, data, beyond);
      }
    }

    /** rb_append. On every image the retries end; the cursor comes back, except when a bad sector
        header stops the search for the oldest sector. */
    method Append(id: Byte, data: Text, beyond: Text, eraseIfFull: bool) returns (code: Code)
      requires Valid() && |beyond| >= |data|
      modifies this
      ensures Valid() && |flash| == |old(flash)|
      ensures if |data| == 0 || id == 255 || |data| > Size(old(flash)) - HEADER then
                code == BadCallerData && flash == old(flash) && next == old(next) && sectorIndex == old(sectorIndex)
              else if !NoBad(old(flash)) then code == BadHdr && flash == old(flash)
              else
                var out := Appended(old(flash), old(sectorIndex), id, data, beyond, eraseIfFull);
                code == out.code && flash == out.flash && sectorIndex == out.index && next == old(next)
    {
      hide Appended, Attempt, NoBad, Measure, MaxIndex, Oldest;
      if |data| == 0 || id == 255 || |data| > Size(flash) - HEADER { return BadCallerData; }
      var oldNext := next;
      while true
        invariant Valid() && |flash| == |old(flash)|
        invariant NoBad(flash) <==> NoBad(old(flash))
        invariant !NoBad(flash) ==> flash == old(flash)
        invariant NoBad(flash) ==>
          Appended(flash, sectorIndex, id, data, beyond, eraseIfFull)
          == Appended(old(flash), old(sectorIndex), id, data, beyond, eraseIfFull)
        decreases Measure(flash)
      {
        ghost var f, index := flash, sectorIndex;
        FirstIsNotBad(f);
        code := FindOldest();
        if code != Ok && code != BlankHdr { return; }
        AppendedStep(f, index, id, data, beyond, eraseIfFull);
        code := Try(id, data, beyond, eraseIfFull);
        if !(Retry(code) && eraseIfFull) { break; }
        var _ := FindOldest();
        flash := flash[next / SECTOR := BlankSector()];
      }
      next := oldNext;
    }

    // ---- reading ----

    /** The cursor stands at place `p` of the `j`th sector of a readable ring that starts with sector `o`. */
    ghost predicate Standing(o: nat, j: nat, p: nat)
      reads this
    {
      && IsFlash(flash) && o < |flash| && Image(Laid(flash, o)) && Readable(Laid(flash, o))
      && CursorAt(Laid(flash, o), j, p) && j < |flash| && p <= LAST_START
      && next == SECTOR * RingSector(o, j, |flash|) + p
    }

    ghost function Pieces(o: nat, j: nat, p: nat): seq<Piece>
      requires Standing(o, j, p)
      reads this
    {
      Ahead(Laid(flash, o), j, p)
    }

    /** The header at the cursor; behind a good sector header when it stands before one. */
    method ReadHeader(ghost o: nat, ghost j: nat, ghost p0: nat) returns (st: Status, s: nat, q: nat, ghost p: nat)
      requires Standing(o, j, p0)
      modifies this`next
      ensures Standing(o, j, p) && Pieces(o, j, p) == old(Pieces(o, j, p0)) && p0 <= p
      ensures s < |flash| && q <= LAST_START && flash[s] == Laid(flash, o)[j] && q == p
      ensures if st == Good then p >= HEADER && RecordStatus(flash[s], p) == Good
                                 && Pieces(o, j, p) != [] && Pieces(o, j, p)[0] == PieceAt(flash[s], q)
              else st == Blank && Pieces(o, j, p) == [] && Id(flash[s], q) == 255
    {
      hide Readable, RecordStatus, SectorStatus, Ahead, Used, Lead, Laid, Reaches, Full;
      LaidSectors(flash, o, j);
      Address(RingSector(o, j, |flash|), p0);
      AheadAtHeader(Laid(flash, o), j, p0);
      st, s, q := FetchAndCheck(next);
      p := q;
      if st != Good { BlankId(flash[s], q); }
    }

    /** Over the record at the cursor. */
    method SkipRecord(s: nat, q: nat, ghost o: nat, ghost j0: nat, ghost p0: nat) returns (ghost j: nat, ghost p: nat)
      requires Standing(o, j0, p0) && p0 >= HEADER && s < |flash| && q <= LAST_START
      requires flash[s] == Laid(flash, o)[j0] && q == p0 && RecordStatus(flash[s], q) == Good
      modifies this`next
      ensures Standing(o, j, p) && (if p == 0 then j == j0 + 1 else j == j0 && p > p0)
      ensures old(Pieces(o, j0, p0)) == [PieceAt(flash[s], q)] + Pieces(o, j, p)
      ensures PieceAt(flash[s], q).endsSector == (p == 0) == (next % SECTOR == 0)
      ensures q + HEADER + Len(flash[s], q) <= SECTOR
    {
      hide Readable, RecordStatus, Ahead, Used, Lead, Laid, CursorAt, Skip, RbIncr, Full;
      ghost var n, t := |flash|, RingSector(o, j0, |flash|);
      AheadStep(Laid(flash, o), j0, p0);
      RbIncrIsSkip(t, p0, Len(flash[s], q), n);
      next := RbIncr(next, Len(flash[s], q) + HEADER, Size(flash));
      j, p := j0, Next(flash[s], q);
      if p == SECTOR {
        j, p := j0 + 1, 0;
        CursorInside(Laid(flash, o), j, p);
        NextInRing(o, j0, n);
      }
      Address(RingSector(o, j, n), p);
    }

    /** rb_read: the next live record of `id`, at most `size` bytes of it. The test for a walk once
        around never fires in a readable ring. */
    method Read(id: Byte, size: nat, ghost o: nat, ghost j0: nat, ghost p0: nat)
      returns (code: Code, out: Text, ghost j: nat, ghost p: nat)
      requires Standing(o, j0, p0)
      modifies this`next
      ensures Standing(o, j, p) && j0 <= j
      ensures if size == 0 || id == 255 || id == 0 || size > Size(flash) - HEADER then
                code == BadCallerData && out == [] && next == old(next) && j == j0 && p == p0
              else
                var r := ReadFrom(old(Pieces(o, j0, p0)), id, size);
                code == (if r.found then Ok else BlankHdr) && out == r.data && Pieces(o, j, p) == r.rest
      decreases size, 1
    {
      hide Readable, RecordStatus, Ahead, Used, Lead, Laid, ReadFrom, CursorAt, PieceAt, Full;
      j, p, out := j0, p0, [];
      if size == 0 || id == 255 || id == 0 || size > Size(flash) - HEADER { return BadCallerData, [], j, p; }
      ghost var origin := next - next % SECTOR;
      Address(RingSector(o, j, |flash|), p);
      while true
        invariant Standing(o, j, p) && j0 <= j
        invariant ReadFrom(Pieces(o, j, p), id, size) == ReadFrom(old(Pieces(o, j0, p0)), id, size)
        decreases |Pieces(o, j, p)|
      {
        var st, s, q;
        st, s, q, p := ReadHeader(o, j, p);
        if st != Good {
          ReadNothing(id, size);
          return BlankHdr, [], j, p;
        }
        if Id(flash[s], q) == id && IsLive(Flags(flash[s], q)) {
          code, out, j, p := ReadRecord(id, size, s, q, o, j, p);
          return;
        }
        ghost var piece := PieceAt(flash[s], q);
        PieceIs(flash[s], q);
        j, p := SkipRecord(s, q, o, j, p);
        ReadSkips(piece, Pieces(o, j, p), id, size);
        NotAround(o, j0, j, p, |flash|);
        assert next != origin;
      }
    }

    /** The record at the cursor, joined with what continues it in the next sector. */
    method ReadRecord(id: Byte, size: nat, s: nat, q: nat, ghost o: nat, ghost j0: nat, ghost p0: nat)
      returns (code: Code, out: Text, ghost j: nat, ghost p: nat)
      requires Standing(o, j0, p0) && p0 >= HEADER && s < |flash| && q <= LAST_START && 0 < size <= Size(flash) - HEADER
      requires flash[s] == Laid(flash, o)[j0] && q == p0 && RecordStatus(flash[s], q) == Good
      requires id != 0 && id != 255 && Id(flash[s], q) == id && IsLive(Flags(flash[s], q))
      modifies this`next
      ensures Standing(o, j, p) && j0 <= j && code == Ok
      ensures var r := ReadFrom(old(Pieces(o, j0, p0)), id, size);
              r.found && out == r.data && Pieces(o, j, p) == r.rest
      decreases size, 0
    {
      hide Readable, RecordStatus, Ahead, Used, Lead, Laid, ReadFrom, CursorAt, PieceAt, IsLive, IsSplit, Len,
           Flags, RingSector, Full;
      code := Ok;
      ghost var piece := PieceAt(flash[s], q);
      PieceIs(flash[s], q);
      GoodLength(flash[s], q);
      var len := Len(flash[s], q);
      var n := if len <= size then len else size;
      j, p := SkipRecord(s, q, o, j0, p0);
      out := flash[s][q + HEADER..q + HEADER + n];
      PrefixOfPiece(flash[s], q, size);
      ReadTakes(piece, Pieces(o, j, p), id, size);
      if next % SECTOR == 0 {
        var more;
        more, j, p := ReadMore(id, size - n, o, j, p);
        out := out + more;
      }
    }

    /** The record at the start of a sector, if it continues the one before. */
    method ReadMore(id: Byte, size: nat, ghost o: nat, ghost j0: nat, ghost p0: nat)
      returns (more: Text, ghost j: nat, ghost p: nat)
      requires Standing(o, j0, p0) && id != 0 && id != 255 && size <= Size(flash) - HEADER
      modifies this`next
      ensures Standing(o, j, p) && j0 <= j
      ensures var rest := old(Pieces(o, j0, p0));
              if rest != [] && rest[0].id == id && IsSplit(rest[0].flags) && size > 0
              then more == ReadFrom(rest, id, size).data && Pieces(o, j, p) == ReadFrom(rest, id, size).rest
              else more == [] && Pieces(o, j, p) == rest
      decreases size, 2
    {
      hide Readable, RecordStatus, Ahead, Used, Lead, Laid, ReadFrom, CursorAt, PieceAt, IsSplit, RingSector, Flags,
           Full;
      j, more := j0, [];
      var st, t, k;
      st, t, k, p := ReadHeader(o, j, p0);
      PieceIs(flash[t], k);
      if Id(flash[t], k) == id && IsSplit(Flags(flash[t], k)) {
        var c, found;
        c, found, j, p := Read(id, size, o, j, p);
        if c == Ok { more := found; }
      }
    }

    // ---- searching and deleting ----

    /** rb_find: the next live record of `id` that starts with `key`, and its address. */
    method Find(id: Byte, key: Text, scratch: Text, ghost o: nat, ghost j0: nat, ghost p0: nat)
      returns (code: Code, at: nat, now: Text, ghost i: nat, ghost q: nat, ghost j: nat, ghost p: nat)
      requires Standing(o, j0, p0) && |scratch| >= |key|
      modifies this`next
      ensures Standing(o, j, p) && |now| == |scratch|
      ensures if |key| == 0 || id == 255 || id == 0 || |key| > Size(flash) - HEADER then
                code == BadCallerData && now == scratch && next == old(next) && j == j0 && p == p0
              else
                match FindFrom(old(Pieces(o, j0, p0)), id, key, scratch)
                case NotFound(left) => code == BlankHdr && now == left && Pieces(o, j, p) == []
                case Found(ps, rest, left) =>
                  code == Ok && now == left && Pieces(o, j, p) == rest && Sighted(o, i, q, at, ps)
    {
      hide Readable, RecordStatus, Ahead, Used, Lead, Laid, FindFrom, CursorAt, PieceAt, ReadFrom, IsLive, Sighted,
           Full;
      j, p, now, at, i, q := j0, p0, scratch, 0, 0, 0;
      if |key| == 0 || id == 255 || id == 0 || |key| > Size(flash) - HEADER {
        return BadCallerData, 0, scratch, 0, 0, j, p;
      }
      ghost var origin := next - next % SECTOR;
      Address(RingSector(o, j, |flash|), p);
      while true
        invariant Standing(o, j, p) && j0 <= j && |now| == |scratch|
        invariant FindFrom(Pieces(o, j, p), id, key, now) == FindFrom(old(Pieces(o, j0, p0)), id, key, scratch)
        decreases |Pieces(o, j, p)|
      {
        ghost var ps := Pieces(o, j, p);
        FindStep(ps, id, key, now);
        var st, s, m;
        st, s, m, p := ReadHeader(o, j, p);
        if st != Good {
          code := BlankHdr;
          return;
        }
        PieceIs(flash[s], m);
        if Id(flash[s], m) != id || !IsLive(Flags(flash[s], m)) {
          j, p := SkipRecord(s, m, o, j, p);
          NotAround(o, j0, j, p, |flash|);
          assert next != origin;
        } else {
          at, i, q := next, j, p;
          Sights(o, i, q, at);
          var out;
          code, out, j, p := Read(id, |key|, o, j, p);
          now := out + now[|out|..];
          if now[..|key|] == key { return; }
        }
      }
    }

    /** Address `at` is the place of the record that the pieces `ps` start with. */
    ghost predicate Sighted(o: nat, i: nat, q: nat, at: nat, ps: seq<Piece>)
      reads this`flash
    {
      PlaceOf(flash, o, i, q, ps) && at == SECTOR * RingSector(o, i, |flash|) + q
    }

    lemma Sights(o: nat, j: nat, p: nat, at: nat)
      requires Standing(o, j, p) && p >= HEADER && RecordStatus(Laid(flash, o)[j], p) == Good && at == next
      ensures Sighted(o, j, p, at, Pieces(o, j, p))
    {
    }

    /** rb_smudge: the live bit of the record at address `at` is cleared, and only that bit. */
    method Smudge(at: nat) returns (code: Code)
      requires Valid() && at < Size(flash) && 0 < at % SECTOR <= LAST_START
      modifies this
      ensures Valid() && |flash| == |old(flash)|
      ensures var s, p := at / SECTOR, at % SECTOR;
              && s < |flash|
              && var st := RecordStatus(old(flash)[s], p);
              code == AsCode(st)
              && flash == (if st == Good then old(flash)[s := SmudgedAt(old(flash)[s], p)] else old(flash))
              && next == (if st == Good then old(next) else at)
    {
      hide RecordStatus, SectorStatus, Program;
      var saved := next;
      next := at;
      var st, s, p := FetchAndCheck(next);
      if st != Good { return AsCode(st); }
      var flags := Cleared(Flags(flash[s], p));
      next := next + 3;
      AppendPage([flags]);
      ProgramInSector(old(flash), s, p + 3, [flags]);
      ClearsOneBit(old(flash)[s], p);
      next := saved;
      code := Ok;
    }

    /** rb_delete on a readable ring: the first record found is smudged, through the page buffer that was
        the scratch of the search. Without a used sector 0 the search is not even started, and the cursor
        is left at the oldest sector. */
    method Delete(id: Byte, key: Text, scratch: Text, ghost o: nat)
      returns (code: Code, now: Text, ghost i: nat, ghost q: nat)
      requires Valid() && Ring(flash, o) && Lead(Laid(flash, o)) < |flash| && |scratch| == PAGE >= |key|
      modifies this
      ensures Valid() && |flash| == |old(flash)| && |now| == |scratch|
      ensures var ran := id != 0 && id != 255 && SectorStatus(old(flash)[0], 0) == Good;
              var f := old(flash);
              if ran && 0 < |key| <= Size(f) - HEADER then
                && next == old(next)
                && match FindFrom(Log(Laid(f, o)), id, key, scratch)
                   case NotFound(left) => code == BlankHdr && flash == f && now == left
                   case Found(ps, _, _) =>
                     code == Ok && now == BlankPage() && PlaceOf(f, o, i, q, ps) && flash == Deleted(f, o, i, q)
              else flash == f && now == scratch
                   && code == (if id != 0 && id != 255 && !ran then BlankHdr else BadCallerData)
                   && next == (if id != 0 && id != 255 && !ran then SECTOR * o else old(next))
    {
      hide RecordStatus, SectorStatus, FindFrom, Log, RingOf, Lead, Used, Sighted, Full;
      now, i, q := scratch, 0, 0;
      if id == 0 || id == 255 { return BadCallerData, scratch, 0, 0; }
      var oldNext := next;
      NothingBad(flash, o);
      OldestFound(flash, o);
      FirstIsNotBad(flash);
      code := FindOldest();
      if code != Ok { return code, scratch, 0, 0; }
      StandingAtOldest(o);
      var at;
      ghost var j, p;
      code, at, now, i, q, j, p := Find(id, key, scratch, o, 0, 0);
      if code == Ok {
        SightedAt(o, i, q, at, FindFrom(Log(Laid(flash, o)), id, key, scratch).at);
        code := Smudge(at);
        now := BlankPage();
      }
      next := oldNext;
    }

    lemma StandingAtOldest(o: nat)
      requires Ring(flash, o) && Lead(Laid(flash, o)) < |flash| && next == SECTOR * o
      ensures Standing(o, 0, 0) && Pieces(o, 0, 0) == Log(Laid(flash, o))
    {
      hide Log, Lead, Shape, Used, Full;
      assert Laid(flash, o)[0..] == Laid(flash, o);
    }

    /** A cursor set back to a place that was found stands there. */
    lemma Revisit(o: nat, i: nat, q: nat, at: nat, ps: seq<Piece>)
      requires Sighted(o, i, q, at, ps) && next == at
      ensures Standing(o, i, q) && Pieces(o, i, q) == ps
    {
    }

    lemma SightedAt(o: nat, i: nat, q: nat, at: nat, ps: seq<Piece>)
      requires Sighted(o, i, q, at, ps)
      ensures PlaceOf(flash, o, i, q, ps)
      ensures var n := |flash|;
              && at < Size(flash) && at / SECTOR == RingSector(o, i, n) && at % SECTOR == q
              && flash[RingSector(o, i, n)] == Laid(flash, o)[i] && RecordStatus(Laid(flash, o)[i], q) == Good
    {
      hide RecordStatus, CursorAt, Readable, Ahead;
      Address(RingSector(o, i, |flash|), q);
      LaidSectors(flash, o, i);
    }

    /** write_headers and the bytes behind them. */
    method WritePiece(hdr: Header, size: nat, flags: nat, data: Text) returns (made: Header)
      requires Valid() && hdr.id != 255 && size <= MAX_APPEND && (size > 0 || Made(hdr, hdr.len))
      requires (flags == LIVE_FLAG || flags == LIVE_FLAG + SPLIT_FLAG) && |data| == size
      modifies this
      ensures Valid() && |flash| == |old(flash)|
      ensures var h := Headers(old(next) % SECTOR, old(sectorIndex), hdr.id,
                               if size == 0 then hdr.len else size, flags);
              flash == Program(old(flash), old(next), h + data)
              && next == Bump(Bump(old(next), |h|, Size(flash)), |data|, Size(flash))
      ensures sectorIndex == IndexAfter(old(next) % SECTOR, old(sectorIndex))
      ensures size > 0 && flags == LIVE_FLAG ==> Made(made, size) && made.id == hdr.id
    {
      hide Program, Headers, Crc;
      ghost var h := Headers(next % SECTOR, sectorIndex, hdr.id, if size == 0 then hdr.len else size, flags);
      made := WriteHeaders(hdr, size, flags);
      AppendPage(data);
      ProgramSplit(old(flash), old(next), h, data);
    }

    /** The first part up to the sector's end, the second one into the next sector. */
    method WriteSpanning(id: Byte, data: Text, beyond: Text, first: nat, ghost saved: nat, ghost t: nat)
      requires Valid() && id != 255 && |beyond| >= |data|
      requires saved < Size(flash) && 0 < saved % SECTOR <= LAST_START && first == SECTOR - saved % SECTOR - HEADER
      requires first <= |data| <= MAX_APPEND && t == NextSector(saved / SECTOR, |flash|)
      requires next == saved + if SectorStatus(flash[t], 0) == Good then HEADER else 0
      modifies this
      ensures Valid() && |flash| == |old(flash)|
      ensures var out := Spanned(old(flash), saved / SECTOR, saved % SECTOR, old(sectorIndex), id, data, beyond);
              flash == out.flash && sectorIndex == out.index
    {
      hide Program, Headers, RecordHeader, SectorStatus, Spanned, Crc, LenBytes;
      ghost var shift := next - saved;
      NextAfterFirst(saved, shift, |flash|);
      HeaderOnly(next % SECTOR, sectorIndex, id, first);
      var hdr := WritePiece(Header(id, 0, 0, 0), first, LIVE_FLAG, data[..first]);
      assert next == SECTOR * t + shift;
      var second := |data| - first;
      var _ := WritePiece(hdr, second, LIVE_FLAG + SPLIT_FLAG, (data + beyond)[second..2 * second]);
      SpannedIs(old(flash), saved / SECTOR, saved % SECTOR, old(sectorIndex), id, data, beyond);
    }
  }

  lemma NextPart(data: Text, done: nat, n: nat)
    requires done + n <= |data|
    ensures data[..done] + data[done..][..n] == data[..done + n]
  {
  }

  lemma BumpTwice(a: nat, m: nat, n: nat, max: nat)
    requires a < max && m + n <= max
    ensures Bump(Bump(a, m, max), n, max) == Bump(a, m + n, max)
  {
  }

  method CountBlanks(t: Text) returns (n: nat)
    ensures n == CountBlank(t)
  {
    n := 0;
    while n < |t|
      invariant n <= |t| && CountBlank(t) == n + CountBlank(t[n..])
    {
      assert t[n..][1..] == t[n + 1..];
      if t[n] != ERASED { return; }
      n := n + 1;
    }
  }
}
