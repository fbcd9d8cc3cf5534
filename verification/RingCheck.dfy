/** When the check of the whole ring passes, as every opening of a ring does it first (ring_buffer.c). */
module RingCheck {
  import opened Bytes
  import opened RingFormat
  import opened RingWalk
  import opened RingFlash
  import opened RingSpec
  import opened RingAppend
  import opened RingCrc

  /** A ring that the program wrote: it starts at sector 0 until all sectors have been used. */
  ghost predicate Settled(f: Flash, o: nat) {
    Ring(f, o) && (o != 0 ==> Used(Laid(f, o)) == |f|)
  }

  /** The `i`th sector of the ring and its header. */
  lemma UsedHeader(f: Flash, o: nat, i: nat)
    requires Ring(f, o) && Used(Laid(f, o)) == |f| && i < |f|
    ensures var s := RingSector(o, i, |f|);
            SectorStatus(f[s], 0) == Good && (i + 1 < |f| ==> Index(f[s], 0) < Index(f[RingSector(o, i + 1, |f|)], 0))
  {
    hide Shape, SectorStatus, Lead, Used, Index, Full;
    var r := Laid(f, o);
    LaidSectors(f, o, i);
    UsedSector(r, Lead(r), Used(r), i);
    if i + 1 < |f| {
      LaidSectors(f, o, i + 1);
      RisingIndex(r, Lead(r), Used(r), i, i + 1);
    }
  }

  /** Past the place where the pass leaves the area, or when it never does, the ring's own order holds. */
  lemma {:induction false} RisesTail(f: Flash, past: Text, o: nat, i: nat, low: nat)
    requires Ring(f, o) && Used(Laid(f, o)) == |f| && |past| >= HEADER && i <= |f| && (o == 0 || o + i > |f|)
    requires i < |f| ==> low <= Index(f[RingSector(o, i, |f|)], 0)
    ensures RisesFrom(f, past, o, i, low)
    decreases |f| - i
  {
    hide RingOf, Full, SecEnd, SectorStatus, Index, RisesFrom, Used, Laid;
    if i == |f| {
      RisesEnd(f, past, o, low);
    } else {
      UsedHeader(f, o, i);
      RisesStep(f, past, o, i, low);
      RisesTail(f, past, o, i + 1, Index(f[RingSector(o, i, |f|)], 0));
    }
  }

  /** Up to that place the pass only finds the ring's own order. */
  lemma {:induction false} RisesHead(f: Flash, past: Text, o: nat, i: nat, low: nat)
    requires Ring(f, o) && Used(Laid(f, o)) == |f| && |past| >= HEADER && o > 0 && o + i < |f|
    requires low <= Index(f[o + i], 0)
    ensures RisesFrom(f, past, o, i, low) == RisesFrom(f, past, o, |f| - o, Index(f[|f| - 1], 0))
    decreases |f| - i
  {
    hide RingOf, Full, SecEnd, SectorStatus, Index, RisesFrom, Used, Laid;
    UsedHeader(f, o, i);
    RisesStep(f, past, o, i, low);
    if o + i + 1 < |f| { RisesHead(f, past, o, i + 1, Index(f[o + i], 0)); }
  }

  /** What the memory behind the area must be, when the pass reads it. */
  predicate PastFits(f: Flash, o: nat, past: Text)
    requires IsFlash(f) && o < |f| && |past| >= HEADER
  {
    SectorStatus(past, 0) != Good
    || (Index(f[|f| - 1], 0) <= Index(past, 0) && (o > 1 ==> Index(past, 0) <= Index(f[1], 0)))
  }

  lemma FullRingCheck(f: Flash, o: nat, past: Text)
    requires Ring(f, o) && Used(Laid(f, o)) == |f| && |past| >= HEADER && o > 0
    ensures RisesFrom(f, past, o, 0, 0) <==> PastFits(f, o, past)
  {
    hide RingOf, Full, SecEnd, SectorStatus, Index, RisesFrom, Used, Laid;
    var n := |f|;
    RisesHead(f, past, o, 0, 0);
    RisesStep(f, past, o, n - o, Index(f[n - 1], 0));
    if o > 1 {
      UsedHeader(f, o, n - o + 1);
      RisesStep(f, past, o, n - o + 1, Index(past, 0));
      if Index(past, 0) <= Index(f[1], 0) { RisesTail(f, past, o, n - o + 1, Index(past, 0)); }
    } else {
      RisesEnd(f, past, o, Index(past, 0));
    }
  }

  lemma NoBlankWhenFull(f: Flash, o: nat)
    requires Ring(f, o) && Used(Laid(f, o)) == |f|
    ensures LastBlank(f, |f|) == None
  {
    hide RingOf, Full, SecEnd, SectorStatus, Used, Laid, LastBlank;
    forall s | 0 <= s < |f| ensures SectorStatus(f[s], 0) != Blank { UsedHeader(f, o, PlaceInRing(o, s, |f|)); }
  }

  lemma BlankWhenNotFull(f: Flash, o: nat)
    requires Ring(f, o) && Used(Laid(f, o)) < |f|
    ensures LastBlank(f, |f|).Some?
  {
    hide Shape, SectorStatus, Lead, Used, LastBlank, Full;
    var r, j := Laid(f, o), Used(Laid(f, o));
    LaidSectors(f, o, j);
    UsedSector(r, Lead(r), Used(r), j);
  }

  /** The check passes on every ring that the program wrote, except that on a full one that does not
      start at sector 0 it reads one header behind the area: then it passes exactly when that is not
      a good sector header, or its index lies between those of the neighbours that it stands for. */
  lemma CheckPasses(f: Flash, o: nat, past: Text)
    requires Settled(f, o) && |past| >= HEADER
    ensures CheckRing(f, past) == Ok <==> Used(Laid(f, o)) < |f| || o == 0 || PastFits(f, o, past)
  {
    hide RingOf, Full, SectorStatus, Index, RisesFrom, Used, Laid, LastBlank, PastFits, NoBad, Oldest;
    NothingBad(f, o);
    if Used(Laid(f, o)) < |f| {
      BlankWhenNotFull(f, o);
      RisesStep(f, past, LastBlank(f, |f|).value, 0, 0);
    } else {
      NoBlankWhenFull(f, o);
      OldestFound(f, o);
      if o == 0 { RisesTail(f, past, 0, 0, 0); } else { FullRingCheck(f, o, past); }
    }
  }

  // ---- what the check asks of any flash ----

  /** The indices from sector `a` up to sector `b` never fall. */
  predicate Rising(f: Flash, a: nat, b: nat)
    requires IsFlash(f) && b <= |f|
  {
    forall s :: a <= s && s + 1 < b ==> Idx(f[s]) <= Idx(f[s + 1])
  }

  predicate AllGood(f: Flash)
    requires IsFlash(f)
  {
    forall s :: 0 <= s < |f| ==> SectorStatus(f[s], 0) == Good
  }

  /** The pass behind the place where it leaves the area, on flash without an erased sector. */
  lemma {:induction false} TailRises(f: Flash, past: Text, o: nat, i: nat, low: nat)
    requires IsFlash(f) && |past| >= HEADER && o < |f| && i <= |f| < o + i && AllGood(f)
    ensures RisesFrom(f, past, o, i, low)
       <==> (i < |f| ==> low <= Idx(f[o + i - |f|])) && Rising(f, o + i - |f|, o)
    decreases |f| - i
  {
    hide SectorStatus, Index, RisesFrom;
    var s := o + i - |f|;
    if i == |f| {
      RisesEnd(f, past, o, low);
    } else {
      RisesStep(f, past, o, i, low);
      TailRises(f, past, o, i + 1, Idx(f[s]));
      assert Rising(f, s, o) <==> (s + 1 < o ==> Idx(f[s]) <= Idx(f[s + 1])) && Rising(f, s + 1, o);
    }
  }

  /** The pass up to that place. */
  lemma {:induction false} HeadRises(f: Flash, past: Text, o: nat, i: nat, low: nat)
    requires IsFlash(f) && |past| >= HEADER && o + i < |f| && AllGood(f)
    ensures RisesFrom(f, past, o, i, low)
       <==> low <= Idx(f[o + i]) && Rising(f, o + i, |f|)
            && (o > 0 ==> RisesFrom(f, past, o, |f| - o, Idx(f[|f| - 1])))
    decreases |f| - i
  {
    hide SectorStatus, Index, RisesFrom;
    var s := o + i;
    RisesStep(f, past, o, i, low);
    if s + 1 < |f| {
      HeadRises(f, past, o, i + 1, Idx(f[s]));
      assert Rising(f, s, |f|) <==> Idx(f[s]) <= Idx(f[s + 1]) && Rising(f, s + 1, |f|);
    } else if o == 0 {
      RisesEnd(f, past, o, Idx(f[s]));
    }
  }

  /** The check of any flash: no header may be bad. With an erased sector in the area nothing more is asked,
      because the second pass starts at it and stops there. Otherwise the indices must not fall from the oldest
      sector to the end of the area, and, when that is not sector 0, on through the header that stands behind
      the area, in the place of sector 0, up to the sector before the oldest; where that is no good header,
      the pass stops there. */
  lemma CheckMeans(f: Flash, past: Text)
    requires IsFlash(f) && |past| >= HEADER
    ensures CheckRing(f, past) == Ok
       <==> && (forall s :: 0 <= s < |f| ==> SectorStatus(f[s], 0) != Bad)
            && ((exists s :: 0 <= s < |f| && SectorStatus(f[s], 0) == Blank)
                || var o := Oldest(f);
                   && Rising(f, o, |f|)
                   && (o > 0 && SectorStatus(past, 0) == Good ==> PastFits(f, o, past) && Rising(f, 1, o)))
  {
    hide SectorStatus, Idx, Index, RisesFrom, Oldest, LastBlank, Rising, PastFits;
    if NoBad(f) {
      var b := FirstChecked(f);
      if LastBlank(f, |f|).Some? {
        RisesStep(f, past, b, 0, 0);
      } else {
        HeadRises(f, past, b, 0, 0);
        if b > 0 { OverThePast(f, past, b); }
      }
    }
  }

  lemma OverThePast(f: Flash, past: Text, o: nat)
    requires IsFlash(f) && |past| >= HEADER && 0 < o < |f| && AllGood(f)
    ensures RisesFrom(f, past, o, |f| - o, Idx(f[|f| - 1]))
       <==> (SectorStatus(past, 0) == Good ==> PastFits(f, o, past) && Rising(f, 1, o))
  {
    hide SectorStatus, Index, RisesFrom;
    RisesStep(f, past, o, |f| - o, Idx(f[|f| - 1]));
    TailRises(f, past, o, |f| - o + 1, Index(past, 0));
  }

  /** One sector that starts with zero bytes is enough for the check to fail. */
  lemma ZeroedFails(f: Flash, past: Text, s: nat)
    requires IsFlash(f) && |past| >= HEADER && s < |f| && f[s][..HEADER] == [0, 0, 0, 0]
    ensures CheckRing(f, past) != Ok
  {
    assert f[s][0..0 + 4] == [0, 0, 0, 0];
    ZerosAreBad(f[s], 0);
    hide SectorStatus;
  }

  /** And so is one good header with one bit changed. */
  lemma DamageFails(f: Flash, past: Text, s: nat, i: nat, k: nat)
    requires IsFlash(f) && |past| >= HEADER && s < |f| && SectorStatus(f[s], 0) == Good && i < HEADER && k < 8
    ensures CheckRing(f[s := OneBit(f[s], i, k)], past) != Ok
  {
    var g := f[s := OneBit(f[s], i, k)];
    assert g[s] == OneBit(f[s], i, k);
    WrongSectorHeader(f[s], 0, i, k);
    hide SectorStatus, OneBit, RisesFrom, FirstChecked;
  }
}
