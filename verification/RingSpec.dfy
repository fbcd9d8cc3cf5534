/** What an append does to any flash, well formed or not, as a function: find the oldest sector, walk
    to the writeable end, write there or erase the oldest sector and try again (ring_buffer.c). */
module RingSpec {
  import opened Bytes
  import opened RingFormat
  import opened RingWalk
  import opened RingFlash

  datatype Code = Ok | BadCallerData | BlankHdr | BadHdr | WrappedSectorUsed | HdrLoop | IdNotFound | RingFull

  function AsCode(st: Status): Code {
    match st
    case Good => Ok
    case Blank => BlankHdr
    case Bad => BadHdr
  }

  // ---- rb_incr ----

  /** rb_incr on addresses; `len` includes the header. */
  function RbIncr(from: nat, len: nat, max: nat): nat {
    var next :=
      if len > SECTOR then from - from % SECTOR + SECTOR
      else if from % SECTOR + len > LAST_START then from - from % SECTOR + SECTOR
      else from + len;
    if next >= max then 0 else next
  }

  /** It is `Skip` inside the sector, and the start of the next sector in the ring at its end. */
  lemma RbIncrIsSkip(s: nat, p: nat, len: nat, n: nat)
    requires s < n && p <= LAST_START
    ensures RbIncr(SECTOR * s + p, len + HEADER, SECTOR * n)
         == if Skip(p, len) < SECTOR then SECTOR * s + Skip(p, len) else SECTOR * NextSector(s, n)
  {
    Address(s, p);
  }

  // ---- rb_find_ring_oldest_sector ----

  predicate NoBad(f: Flash)
    requires IsFlash(f)
  {
    forall i :: 0 <= i < |f| ==> SectorStatus(f[i], 0) != Bad
  }

  /** A sector that the search for the oldest one takes into account. */
  predicate Indexed(sec: Text)
    requires Sector(sec)
  {
    SectorStatus(sec, 0) == Good && Idx(sec) < INDEX_MASK
  }

  /** The sector with the lowest index among those from `i` on. */
  function OldestFrom(f: Flash, i: nat): (o: Option<nat>)
    requires IsFlash(f) && i <= |f|
    ensures o.Some? ==> i <= o.value < |f| && Indexed(f[o.value])
    ensures forall j :: i <= j < |f| && Indexed(f[j]) ==> o.Some? && Idx(f[o.value]) <= Idx(f[j])
    decreases |f| - i
  {
    if i == |f| then None
    else
      var o := OldestFrom(f, i + 1);
      if Indexed(f[i]) && (o.None? || Idx(f[i]) < Idx(f[o.value])) then Some(i) else o
  }

  function Oldest(f: Flash): (s: nat)
    requires IsFlash(f)
    ensures s < |f|
    ensures Indexed(f[s]) || (s == 0 && forall j :: 0 <= j < |f| ==> !Indexed(f[j]))
    ensures forall j :: 0 <= j < |f| && Indexed(f[j]) ==> Idx(f[s]) <= Idx(f[j])
  {
    var o := OldestFrom(f, 0);
    if o.Some? then o.value else 0
  }

  /** The running sector index after the sectors from `i` on were seen. */
  function MaxIndex(f: Flash, i: nat, index: nat): (m: nat)
    requires IsFlash(f) && i <= |f|
    ensures m >= index && forall j :: i <= j < |f| && SectorStatus(f[j], 0) == Good ==> Idx(f[j]) <= m
    decreases |f| - i
  {
    if i == |f| then index
    else
      var m := MaxIndex(f, i + 1, index);
      if SectorStatus(f[i], 0) == Good && Idx(f[i]) >= m then Idx(f[i]) else m
  }

  // ---- rb_findnext_writeable ----

  /** Where the walk over the records from the start of a sector ends. */
  datatype Stop = Around | At(sector: nat, offset: nat, status: Status)

  function End(f: Flash, s: nat): (e: Stop)
    requires IsFlash(f) && s < |f|
    ensures e.At? ==> e.sector < |f| && e.offset <= LAST_START && e.status != Good
  {
    LaidImage(f, s);
    var r := Laid(f, s);
    var k := Lead(r);
    if k == |f| then Around
    else if SectorStatus(r[k], 0) != Good then At(RingSector(s, k, |f|), 0, SectorStatus(r[k], 0))
    else At(RingSector(s, k, |f|), SecEnd(r[k], HEADER), RecordStatus(r[k], SecEnd(r[k], HEADER)))
  }

  // ---- rb_sector_append ----

  /** sector_blank_scan */
  function Blanks(f: Flash, s: nat, o: nat): nat
    requires IsFlash(f) && s < |f| && o < SECTOR
  {
    var here := CountBlank(f[s][o..]);
    if here == SECTOR - o then here + CountBlank(f[NextSector(s, |f|)]) else here
  }

  /** fetch_and_check_header at the start of a sector. */
  function StartStatus(sec: Text): Status
    requires Sector(sec)
  {
    if SectorStatus(sec, 0) == Good then RecordStatus(sec, HEADER) else SectorStatus(sec, 0)
  }

  /** It counts the erased bytes from there to the end of the sector and on to the end of the next one, up to the
      first that is not erased. */
  lemma BlanksAre(f: Flash, s: nat, o: nat)
    requires IsFlash(f) && s < |f| && o < SECTOR
    ensures var ahead := f[s][o..] + f[if s + 1 == |f| then 0 else s + 1];
            && Blanks(f, s, o) <= |ahead| && Erased(ahead[..Blanks(f, s, o)])
            && (Blanks(f, s, o) < |ahead| ==> ahead[Blanks(f, s, o)] != ERASED)
  {
    assert Sector(f[s]) && Sector(f[NextSector(s, |f|)]);
  }

  /** A started sector counts by its first record: blank while there is none, good behind one. */
  lemma StartedStatus(sec: Text, index: nat, id: Byte, size: nat, flags: nat)
    requires Sector(sec) && Bytes.At(sec, 0, SectorHeader(index)) && index <= INDEX_MASK
    ensures Erased(sec[HEADER..2 * HEADER]) ==> StartStatus(sec) == Blank
    ensures (0 < size <= PERSISTENT_LEN && id != 255 && (flags == LIVE_FLAG || flags == LIVE_FLAG + SPLIT_FLAG)
             && Bytes.At(sec, HEADER, RecordHeader(id, size, flags))) ==>
              StartStatus(sec) == Good
  {
    hide SectorStatus, RecordStatus, RecordHeader, SectorHeader;
    SectorHeaderIsGood(sec, 0, index);
    if Erased(sec[HEADER..2 * HEADER]) { ErasedHeaders(sec, HEADER); }
    if 0 < size <= PERSISTENT_LEN && id != 255 && (flags == LIVE_FLAG || flags == LIVE_FLAG + SPLIT_FLAG)
       && Bytes.At(sec, HEADER, RecordHeader(id, size, flags)) {
      RecordHeaderIsGood(sec, HEADER, id, size, flags);
    }
  }

  /** The headers of a write at offset `o` of a sector. */
  function Headers(o: nat, index: nat, id: Byte, size: nat, flags: nat): (t: Text)
    requires size < 65536 && (flags == LIVE_FLAG || flags == LIVE_FLAG + SPLIT_FLAG)
    ensures |t| == if o == 0 then 2 * HEADER else HEADER
  {
    (if o == 0 then SectorHeader(index + 1) else []) + RecordHeader(id, size, flags)
  }

  function IndexAfter(o: nat, index: nat): nat { if o == 0 then index + 1 else index }

  datatype Outcome = Outcome(code: Code, flash: Flash, index: nat)

  /** A record written at offset `o` of sector `s`; `beyond` stands in memory behind `data`. */
  function Placed(f: Flash, s: nat, o: nat, index: nat, id: Byte, data: Text, beyond: Text): (out: Outcome)
    requires IsFlash(f) && s < |f| && o <= LAST_START && |beyond| >= |data|
    ensures IsFlash(out.flash) && |out.flash| == |f|
    ensures out.code != Ok ==> out.flash == f && out.index == index
  {
    if |data| == 0 || |data| > MAX_APPEND || id == 255 then Outcome(BadCallerData, f, index)
    else if Blanks(f, s, o) < |data| + HEADER then Outcome(RingFull, f, index)
    else if |data| + HEADER < SECTOR - o then
      Outcome(Ok, Program(f, SECTOR * s + o, Headers(o, index, id, |data|, LIVE_FLAG) + data), IndexAfter(o, index))
    else
      var t := NextSector(s, |f|);
      match StartStatus(f[t])
      case Blank => Spanned(f, s, o, index, id, data, beyond)
      case Good => Outcome(WrappedSectorUsed, f, index)
      case Bad => Outcome(BadHdr, f, index)
  }

  /** A record cut at the end of its sector. The second part is taken from offset `second` of the
      caller's data. With nothing left for it the first header is written once more. A next sector
      that is started but empty has moved the cursor by the size of its header. */
  function Spanned(f: Flash, s: nat, o: nat, index: nat, id: Byte, data: Text, beyond: Text): (out: Outcome)
    requires IsFlash(f) && s < |f| && 0 < o <= LAST_START && |beyond| >= |data| && id != 255
    requires SECTOR - o - HEADER <= |data| <= MAX_APPEND
    ensures IsFlash(out.flash) && |out.flash| == |f| && out.code == Ok
  {
    var t := NextSector(s, |f|);
    var first := SECTOR - o - HEADER;
    var second := |data| - first;
    var shift := if SectorStatus(f[t], 0) == Good then HEADER else 0;
    var g := Program(f, SECTOR * s + o + shift, RecordHeader(id, first, LIVE_FLAG) + data[..first]);
    var h := Program(g, SECTOR * t + shift,
                     Headers(shift, index, id, if second == 0 then first else second, LIVE_FLAG + SPLIT_FLAG)
                     + (data + beyond)[second..2 * second]);
    Outcome(Ok, h, IndexAfter(shift, index))
  }

  // ---- rb_append ----

  /** Number of sectors with a good header. */
  function Goods(f: Flash): nat
    requires Image(f)
  {
    if f == [] then 0 else Goods(f[1..]) + if SectorStatus(f[0], 0) == Good then 1 else 0
  }

  lemma {:induction false} GoodsAfterErase(f: Flash, s: nat, sec: Text)
    requires Image(f) && s < |f| && Sector(sec) && SectorStatus(sec, 0) != Good
    ensures Image(f[s := sec]) && Goods(f[s := sec]) == Goods(f) - if SectorStatus(f[s], 0) == Good then 1 else 0
  {
    hide SectorStatus;
    if s == 0 {
      assert f[0 := sec][1..] == f[1..];
    } else {
      assert f[s := sec][1..] == f[1..][s - 1 := sec];
      GoodsAfterErase(f[1..], s - 1, sec);
    }
  }

  /** One try: what is written, or why not; with `erase` a full ring first loses its oldest sector. */
  function Attempt(f: Flash, index: nat, id: Byte, data: Text, beyond: Text, erase: bool): (out: Outcome)
    requires IsFlash(f) && |beyond| >= |data|
    ensures IsFlash(out.flash) && |out.flash| == |f|
  {
    var s := Oldest(f);
    match End(f, s)
    case Around => if erase then Placed(f[s := BlankSector()], s, 0, MaxIndex(f, 0, index), id, data, beyond)
                   else Outcome(HdrLoop, f, index)
    case At(t, o, Blank) => Placed(f, t, o, index, id, data, beyond)
    case At(t, o, _) => Outcome(BadHdr, f, index)
  }

  predicate Retry(c: Code) { c == WrappedSectorUsed || c == RingFull }

  /** An erased sector takes any record that is not too long. */
  lemma ErasedTakesAll(f: Flash, s: nat, index: nat, id: Byte, data: Text, beyond: Text)
    requires IsFlash(f) && s < |f| && |beyond| >= |data| && ErasedOk(f[s])
    ensures !Retry(Placed(f, s, 0, index, id, data, beyond).code)
  {
    assert f[s][0..] == f[s];
    BlanksOfErased(f, s, 0);
    hide Blanks, Program, Headers, RecordHeader, Spanned, StartStatus, SectorStatus;
  }

  lemma BlanksOfErased(f: Flash, s: nat, o: nat)
    requires IsFlash(f) && s < |f| && o < SECTOR && Erased(f[s][o..])
    ensures Blanks(f, s, o) == SECTOR - o + CountBlank(f[NextSector(s, |f|)])
  {
    CountBlankErased(f[s][o..]);
  }

  lemma ErasedIsBlank(sec: Text)
    requires ErasedOk(sec)
    ensures SectorStatus(sec, 0) == Blank && !Indexed(sec)
  {
    assert sec[0..HEADER] == sec[..HEADER];
    ErasedHeaders(sec, 0);
  }

  /** A failed try that is repeated: the sector to be erased was used, or was sector 0 and not erased. */
  lemma RetryProgress(f: Flash, index: nat, id: Byte, data: Text, beyond: Text, erase: bool)
    requires IsFlash(f) && |beyond| >= |data| && NoBad(f)
    requires Retry(Attempt(f, index, id, data, beyond, erase).code)
    ensures Attempt(f, index, id, data, beyond, erase).flash == f
    ensures SectorStatus(f[Oldest(f)], 0) == Good || (Oldest(f) == 0 && !ErasedOk(f[0]))
  {
    var s := Oldest(f);
    hide Placed;
    if End(f, s).Around? {
      ErasedTakesAll(f[s := BlankSector()], s, MaxIndex(f, 0, index), id, data, beyond);
    } else if s == 0 && ErasedOk(f[0]) {
      ErasedIsBlank(f[0]);
      EndAtErased(f, 0);
      ErasedTakesAll(f, 0, index, id, data, beyond);
    }
  }

  lemma EndAtErased(f: Flash, s: nat)
    requires IsFlash(f) && s < |f| && SectorStatus(f[s], 0) == Blank
    ensures End(f, s) == At(s, 0, Blank)
  {
    LaidSectors(f, s, 0);
    hide SecEnd, SectorStatus, RecordStatus;
  }

  lemma NoBadAfterErase(f: Flash, s: nat)
    requires IsFlash(f) && NoBad(f) && s < |f|
    ensures NoBad(f[s := BlankSector()])
  {
    ErasedIsBlank(BlankSector());
    hide SectorStatus;
  }

  ghost function Measure(f: Flash): nat
    requires IsFlash(f)
  {
    2 * Goods(f) + if ErasedOk(f[0]) then 0 else 1
  }

  lemma MeasureDrops(f: Flash, s: nat)
    requires IsFlash(f) && s < |f| && (SectorStatus(f[s], 0) == Good || (s == 0 && !ErasedOk(f[0])))
    ensures Measure(f[s := BlankSector()]) < Measure(f)
  {
    var e := BlankSector();
    ErasedIsBlank(e);
    GoodsAfterErase(f, s, e);
    hide SectorStatus, Goods;
  }

  /** rb_append from the search for the oldest sector on. Retries end on every image. */
  function Appended(f: Flash, index: nat, id: Byte, data: Text, beyond: Text, erase: bool): (out: Outcome)
    requires IsFlash(f) && NoBad(f) && |beyond| >= |data|
    ensures IsFlash(out.flash) && |out.flash| == |f|
    decreases Measure(f)
  {
    var seen := MaxIndex(f, 0, index);
    var out := Attempt(f, seen, id, data, beyond, erase);
    if Retry(out.code) && erase then
      RetryProgress(f, seen, id, data, beyond, erase);
      MeasureDrops(f, Oldest(f));
      NoBadAfterErase(f, Oldest(f));
      Appended(f[Oldest(f) := BlankSector()], MaxIndex(f, 0, out.index), id, data, beyond, erase)
    else out
  }

  lemma AppendedStep(f: Flash, index: nat, id: Byte, data: Text, beyond: Text, erase: bool)
    requires IsFlash(f) && NoBad(f) && |beyond| >= |data|
    ensures var out := Attempt(f, MaxIndex(f, 0, index), id, data, beyond, erase);
            if Retry(out.code) && erase then
              && out.flash == f && NoBad(f[Oldest(f) := BlankSector()])
              && Measure(f[Oldest(f) := BlankSector()]) < Measure(f)
              && Appended(f, index, id, data, beyond, erase)
                 == Appended(f[Oldest(f) := BlankSector()], MaxIndex(f, 0, out.index), id, data, beyond, erase)
            else Appended(f, index, id, data, beyond, erase) == out
  {
    hide Attempt, Measure, NoBad, MaxIndex;
    var seen := MaxIndex(f, 0, index);
    if Retry(Attempt(f, seen, id, data, beyond, erase).code) && erase {
      RetryProgress(f, seen, id, data, beyond, erase);
      MeasureDrops(f, Oldest(f));
      NoBadAfterErase(f, Oldest(f));
    }
  }

  lemma FirstIsNotBad(f: Flash)
    requires IsFlash(f)
    ensures NoBad(f) ==> SectorStatus(f[0], 0) != Bad
  {
  }

  lemma HeaderOnly(o: nat, index: nat, id: Byte, size: nat)
    requires o != 0 && size < 65536
    ensures Headers(o, index, id, size, LIVE_FLAG) == RecordHeader(id, size, LIVE_FLAG)
  {
  }

  lemma SpannedIs(f: Flash, s: nat, o: nat, index: nat, id: Byte, data: Text, beyond: Text)
    requires IsFlash(f) && s < |f| && 0 < o <= LAST_START && |beyond| >= |data| && id != 255
    requires SECTOR - o - HEADER <= |data| <= MAX_APPEND
    ensures var t, first := NextSector(s, |f|), SECTOR - o - HEADER;
            var second, shift := |data| - first, if SectorStatus(f[t], 0) == Good then HEADER else 0;
            && SECTOR * s + o + shift < Size(f) && SECTOR * t + shift < Size(f)
            && var g := Program(f, SECTOR * s + o + shift, RecordHeader(id, first, LIVE_FLAG) + data[..first]);
            Spanned(f, s, o, index, id, data, beyond)
              == Outcome(Ok, Program(g, SECTOR * t + shift,
                     Headers(shift, index, id, if second == 0 then first else second, LIVE_FLAG + SPLIT_FLAG)
                     + (data + beyond)[second..2 * second]), IndexAfter(shift, index))
  {
    hide Program, Headers, RecordHeader, SectorStatus;
  }

  lemma NextAfterFirst(saved: nat, shift: nat, n: nat)
    requires saved < SECTOR * n && 0 < saved % SECTOR <= LAST_START && (shift == 0 || shift == HEADER)
    ensures var first := SECTOR - saved % SECTOR - HEADER;
            && saved + shift < SECTOR * n && (saved + shift) % SECTOR == saved % SECTOR + shift
            && Bump(Bump(saved + shift, HEADER, SECTOR * n), first, SECTOR * n)
               == SECTOR * NextSector(saved / SECTOR, n) + shift
            && (SECTOR * NextSector(saved / SECTOR, n) + shift) % SECTOR == shift
  {
    Address(saved / SECTOR, saved % SECTOR + shift);
  }

  lemma OldestOfNone(f: Flash, index: nat)
    requires IsFlash(f)
    ensures BestFrom(f, |f|, INDEX_MASK, 0) && MaxIndex(f, |f|, index) == index
  {
  }

  lemma OldestStep(f: Flash, i: nat, index: nat)
    requires IsFlash(f) && i < |f|
    ensures OldestFrom(f, i) ==
            var o := OldestFrom(f, i + 1);
            if Indexed(f[i]) && (o.None? || Idx(f[i]) < Idx(f[o.value])) then Some(i) else o
    ensures MaxIndex(f, i, index) ==
            var m := MaxIndex(f, i + 1, index);
            if SectorStatus(f[i], 0) == Good && Idx(f[i]) >= m then Idx(f[i]) else m
  {
    hide SectorStatus, Idx;
  }

  lemma StopsHere(f: Flash, s: nat, j: nat, p: nat)
    requires IsFlash(f) && s < |f| && j < |f| && Image(Laid(f, s)) && (p == 0 || HEADER <= p <= LAST_START)
    requires forall i :: 0 <= i < j ==> Full(Laid(f, s)[i])
    requires var sec := Laid(f, s)[j];
             if p == 0 then StartStatus(sec) != Good
             else SectorStatus(sec, 0) == Good && SecEnd(sec, p) == SecEnd(sec, HEADER) && RecordStatus(sec, p) != Good
    ensures var sec := Laid(f, s)[j];
            End(f, s) == if p != 0 then At(RingSector(s, j, |f|), p, RecordStatus(sec, p))
                         else if SectorStatus(sec, 0) == Good then At(RingSector(s, j, |f|), HEADER, StartStatus(sec))
                         else At(RingSector(s, j, |f|), 0, StartStatus(sec))
  {
    var r := Laid(f, s);
    hide Laid, RecordStatus, SectorStatus, Lead;
    LeadIs(r, j);
  }

  /** `Lead` is the only number of full sectors. */
  lemma LeadIs(r: seq<Text>, k: nat)
    requires Image(r) && k <= |r| && (forall i :: 0 <= i < k ==> Full(r[i])) && (k < |r| ==> !Full(r[k]))
    ensures Lead(r) == k
  {
    hide Full;
  }

  lemma SecEndStep(sec: Text, p: nat)
    requires Sector(sec) && p <= LAST_START && RecordStatus(sec, p) == Good
    ensures SecEnd(sec, p) == SecEnd(sec, Next(sec, p))
    ensures Next(sec, p) == SECTOR ==> SecEnd(sec, p) == SECTOR
  {
  }

  /** The lowest index seen and the address of its sector, when the sectors from `i` on were seen. */
  predicate BestFrom(f: Flash, i: nat, low: nat, oldest: nat)
    requires IsFlash(f) && i <= |f|
  {
    match OldestFrom(f, i)
    case None => low == INDEX_MASK && oldest == 0
    case Some(o) => low == Idx(f[o]) && oldest == SECTOR * o
  }

  lemma BestStep(f: Flash, i: nat, low: nat, oldest: nat, index: nat)
    requires IsFlash(f) && i < |f| && BestFrom(f, i + 1, low, oldest)
    ensures var lower := SectorStatus(f[i], 0) == Good && Idx(f[i]) < low;
            BestFrom(f, i, if lower then Idx(f[i]) else low, if lower then SECTOR * i else oldest)
    ensures MaxIndex(f, i, index) ==
            var m := MaxIndex(f, i + 1, index);
            if SectorStatus(f[i], 0) == Good && Idx(f[i]) >= m then Idx(f[i]) else m
  {
    hide SectorStatus, OldestFrom, MaxIndex;
    OldestStep(f, i, index);
  }

  lemma BestOfAll(f: Flash, low: nat, oldest: nat)
    requires IsFlash(f) && BestFrom(f, 0, low, oldest)
    ensures oldest == SECTOR * Oldest(f)
  {
    hide SectorStatus, OldestFrom, Idx;
  }

  // ---- rb_check_sector_ring ----

  /** The last blank sector among the first `i`, or nothing. */
  function LastBlank(f: Flash, i: nat): (b: Option<nat>)
    requires IsFlash(f) && i <= |f|
    ensures b.Some? ==> b.value < i && SectorStatus(f[b.value], 0) == Blank
    ensures b.None? ==> forall j :: 0 <= j < i ==> SectorStatus(f[j], 0) != Blank
  {
    if i == 0 then None
    else if SectorStatus(f[i - 1], 0) == Blank then Some(i - 1)
    else LastBlank(f, i - 1)
  }

  /** The header that the second pass reads for sector number `s`: `past` is the memory right behind the
      area, which is read instead of sector 0 when the number comes to the end. */
  function HeaderAt(f: Flash, past: Text, s: nat): (t: Text)
    requires IsFlash(f) && |past| >= HEADER && s < 2 * |f|
    ensures |t| >= HEADER
  {
    if s == |f| then past else if s > |f| then f[s - |f|] else f[s]
  }

  /** The second pass from sector number `start`, at its `i`th header: no index below the one before. */
  function RisesFrom(f: Flash, past: Text, start: nat, i: nat, low: nat): bool
    requires IsFlash(f) && |past| >= HEADER && start < |f| && i <= |f|
    decreases |f| - i
  {
    i == |f| ||
    var h := HeaderAt(f, past, start + i);
    SectorStatus(h, 0) != Good || (Index(h, 0) >= low && RisesFrom(f, past, start, i + 1, Index(h, 0)))
  }

  function FirstChecked(f: Flash): (s: nat)
    requires IsFlash(f)
    ensures s < |f|
  {
    match LastBlank(f, |f|)
    case Some(b) => b
    case None => Oldest(f)
  }

  /** rb_check_sector_ring */
  function CheckRing(f: Flash, past: Text): Code
    requires IsFlash(f) && |past| >= HEADER
  {
    if NoBad(f) && RisesFrom(f, past, FirstChecked(f), 0, 0) then Ok else BadHdr
  }

  lemma RisesStep(f: Flash, past: Text, start: nat, i: nat, low: nat)
    requires IsFlash(f) && |past| >= HEADER && start < |f| && i < |f|
    ensures var h := HeaderAt(f, past, start + i);
            RisesFrom(f, past, start, i, low)
            == (SectorStatus(h, 0) != Good || (Index(h, 0) >= low && RisesFrom(f, past, start, i + 1, Index(h, 0))))
  {
    hide SectorStatus, Index;
  }

  lemma RisesEnd(f: Flash, past: Text, start: nat, low: nat)
    requires IsFlash(f) && |past| >= HEADER && start < |f|
    ensures RisesFrom(f, past, start, |f|, low)
  {
  }

  /** The running index when the first `i` sectors were seen, from the first on. */
  function MaxSeen(f: Flash, i: nat, index: nat): (m: nat)
    requires IsFlash(f) && i <= |f|
    ensures m >= index && (forall j :: 0 <= j < i && SectorStatus(f[j], 0) == Good ==> Idx(f[j]) <= m)
  {
    if i == 0 then index
    else
      var m := MaxSeen(f, i - 1, index);
      if SectorStatus(f[i - 1], 0) == Good && Idx(f[i - 1]) >= m then Idx(f[i - 1]) else m
  }

  lemma MaxSeenNone(f: Flash, index: nat)
    requires IsFlash(f)
    ensures MaxSeen(f, 0, index) == index
  {
  }

  lemma MaxSeenStep(f: Flash, i: nat, index: nat)
    requires IsFlash(f) && i < |f|
    ensures MaxSeen(f, i + 1, index) ==
            var m := MaxSeen(f, i, index);
            if SectorStatus(f[i], 0) == Good && Idx(f[i]) >= m then Idx(f[i]) else m
  {
    hide SectorStatus, Idx;
  }

  lemma {:induction false} MaxIndexLeast(f: Flash, i: nat, index: nat, m: nat)
    requires IsFlash(f) && i <= |f| && index <= m
    requires forall j :: i <= j < |f| && SectorStatus(f[j], 0) == Good ==> Idx(f[j]) <= m
    ensures MaxIndex(f, i, index) <= m
    decreases |f| - i
  {
    hide SectorStatus, Idx;
    if i < |f| { MaxIndexLeast(f, i + 1, index, m); }
  }

  lemma {:induction false} MaxSeenLeast(f: Flash, i: nat, index: nat, m: nat)
    requires IsFlash(f) && i <= |f| && index <= m
    requires forall j :: 0 <= j < i && SectorStatus(f[j], 0) == Good ==> Idx(f[j]) <= m
    ensures MaxSeen(f, i, index) <= m
  {
    hide SectorStatus, Idx;
    if i > 0 { MaxSeenLeast(f, i - 1, index, m); }
  }

  /** The order of the pass does not matter. */
  lemma MaxSeenIsMax(f: Flash, index: nat)
    requires IsFlash(f)
    ensures MaxSeen(f, |f|, index) == MaxIndex(f, 0, index)
  {
    hide SectorStatus, Idx, MaxSeen, MaxIndex;
    MaxIndexLeast(f, 0, index, MaxSeen(f, |f|, index));
    MaxSeenLeast(f, |f|, index, MaxIndex(f, 0, index));
  }
}
