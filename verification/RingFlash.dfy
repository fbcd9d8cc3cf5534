/** NOR flash under the log: programming clears bits, erasing sets a sector to 0xff
    (ring_buffer.c, flash_onboard.c). */
module RingFlash {
  import opened Bytes
  import opened Bits
  import opened RingFormat
  import opened RingWalk

  /** A list of sectors; an address is sector number times sector size plus offset. */
  type Flash = seq<Text>

  predicate IsFlash(f: Flash) { |f| > 0 && Image(f) }

  function Size(f: Flash): nat { SECTOR * |f| }

  lemma Address(s: nat, o: nat)
    requires o < SECTOR
    ensures (SECTOR * s + o) / SECTOR == s && (SECTOR * s + o) % SECTOR == o
  {
  }

  lemma AddressIn(f: Flash, a: nat)
    requires a < Size(f)
    ensures a / SECTOR < |f| && a == SECTOR * (a / SECTOR) + a % SECTOR
  {
  }

  // ---- programming is a bitwise and ----

  lemma OnesByte()
    ensures Ones(8) == 255
  {
    assert Ones(0) == 0 && Ones(1) == 1 && Ones(2) == 3 && Ones(3) == 7 && Ones(4) == 15;
    assert Ones(5) == 31 && Ones(6) == 63 && Ones(7) == 127;
  }

  /** Programming 0xff changes nothing; programming erased flash stores the byte. */
  lemma AndErased(b: Byte)
    ensures And(b, ERASED) == b && And(ERASED, b) == b
  {
    OnesByte();
    AndOnes(b, 8);
  }

  /** `t` programmed at offset `o` of a sector. */
  function AndAt(sec: Text, o: nat, t: Text): (s: Text)
    requires o + |t| <= |sec|
    ensures |s| == |sec|
  {
    seq(|sec|, i requires 0 <= i < |sec| => if o <= i < o + |t| then And(sec[i], t[i - o]) else sec[i])
  }

  /** On erased flash that stores `t`. */
  lemma AndAtErased(sec: Text, o: nat, t: Text)
    requires o + |t| <= |sec| && Erased(sec[o..o + |t|])
    ensures AndAt(sec, o, t) == sec[..o] + t + sec[o + |t|..]
  {
    hide And;
    forall i | 0 <= i < |sec|
      ensures AndAt(sec, o, t)[i] == (sec[..o] + t + sec[o + |t|..])[i]
    {
      if o <= i < o + |t| {
        assert sec[o..o + |t|][i - o] == sec[i];
        AndErased(t[i - o]);
      }
    }
  }

  function Bump(a: nat, n: nat, max: nat): (b: nat)
    requires a < max && n <= max
    ensures b < max
  {
    if a + n < max then a + n else a + n - max
  }

  function ProgramByte(f: Flash, a: nat, b: Byte): (g: Flash)
    requires IsFlash(f) && a < Size(f)
    ensures IsFlash(g) && |g| == |f|
  {
    AddressIn(f, a);
    f[a / SECTOR := AndAt(f[a / SECTOR], a % SECTOR, [b])]
  }

  /** `t` programmed from address `a` on, around the end of the ring. */
  function Program(f: Flash, a: nat, t: Text): (g: Flash)
    requires IsFlash(f) && a < Size(f)
    ensures IsFlash(g) && |g| == |f|
    decreases |t|
  {
    if t == [] then f else Program(ProgramByte(f, a, t[0]), Bump(a, 1, Size(f)), t[1..])
  }

  lemma AndAtCons(sec: Text, o: nat, t: Text)
    requires t != [] && o + |t| <= |sec|
    ensures AndAt(AndAt(sec, o, [t[0]]), o + 1, t[1..]) == AndAt(sec, o, t)
  {
    hide And;
  }

  /** Inside one sector the bytes are programmed side by side. */
  lemma {:induction false} ProgramInSector(f: Flash, s: nat, o: nat, t: Text)
    requires IsFlash(f) && s < |f| && o < SECTOR && o + |t| <= SECTOR
    ensures Program(f, SECTOR * s + o, t) == f[s := AndAt(f[s], o, t)]
    decreases |t|
  {
    hide AndAt;
    Address(s, o);
    if t == [] {
      AndNothing(f[s], o);
    } else {
      var g := f[s := AndAt(f[s], o, [t[0]])];
      assert ProgramByte(f, SECTOR * s + o, t[0]) == g;
      AndAtCons(f[s], o, t);
      if |t| > 1 {
        ProgramInSector(g, s, o + 1, t[1..]);
      } else {
        AndNothing(g[s], o + 1);
      }
    }
  }

  lemma AndNothing(sec: Text, o: nat)
    requires o <= |sec|
    ensures AndAt(sec, o, []) == sec
  {
  }

  lemma {:induction false} ProgramSplit(f: Flash, a: nat, t: Text, u: Text)
    requires IsFlash(f) && a < Size(f) && |t| <= Size(f)
    ensures Program(f, a, t + u) == Program(Program(f, a, t), Bump(a, |t|, Size(f)), u)
    decreases |t|
  {
    hide ProgramByte;
    if t == [] {
      assert [] + u == u;
    } else {
      assert (t + u)[1..] == t[1..] + u;
      ProgramSplit(ProgramByte(f, a, t[0]), Bump(a, 1, Size(f)), t[1..], u);
    }
  }

  // ---- pages ----

  function BlankPage(): (t: Text)
    ensures |t| == PAGE && Erased(t)
  {
    seq(PAGE, _ => ERASED)
  }

  /** A page buffer of 0xff bytes with `t` in it programs just `t`. */
  lemma PageProgramsOnly(sec: Text, page: nat, m: nat, t: Text)
    requires page + PAGE <= |sec| && m + |t| <= PAGE
    ensures AndAt(sec, page, BlankPage()[..m] + t + BlankPage()[m + |t|..]) == AndAt(sec, page + m, t)
  {
    hide And;
    var b := BlankPage()[..m] + t + BlankPage()[m + |t|..];
    forall i | 0 <= i < |sec|
      ensures AndAt(sec, page, b)[i] == AndAt(sec, page + m, t)[i]
    {
      AndErased(sec[i]);
    }
  }

  // ---- blanks ----

  /** count_blanks */
  function CountBlank(t: Text): (n: nat)
    ensures n <= |t| && Erased(t[..n]) && (n < |t| ==> t[n] != ERASED)
  {
    if t == [] || t[0] != ERASED then 0 else 1 + CountBlank(t[1..])
  }

  lemma CountBlankErased(t: Text)
    ensures CountBlank(t) == |t| <==> Erased(t)
  {
    if CountBlank(t) == |t| { assert t[..|t|] == t; }
  }

  function NextSector(s: nat, n: nat): (t: nat)
    requires s < n
    ensures t < n
  {
    if s + 1 == n then 0 else s + 1
  }

  function BlankSector(): (t: Text)
    ensures ErasedOk(t)
  {
    seq(SECTOR, _ => ERASED)
  }

  // ---- the ring seen from one of its sectors ----

  function Laid(f: Flash, s: nat): (r: seq<Text>)
    requires s < |f|
    ensures |r| == |f|
  {
    f[s..] + f[..s]
  }

  /** The number of the `j`th sector of that view. */
  function RingSector(s: nat, j: nat, n: nat): (t: nat)
    requires s < n && j < n
    ensures t < n
  {
    if s + j < n then s + j else s + j - n
  }

  lemma LaidSectors(f: Flash, s: nat, j: nat)
    requires IsFlash(f) && s < |f| && j < |f|
    ensures Image(Laid(f, s)) && Laid(f, s)[j] == f[RingSector(s, j, |f|)]
  {
  }

  lemma LaidImage(f: Flash, s: nat)
    requires IsFlash(f) && s < |f|
    ensures Image(Laid(f, s))
  {
  }

  /** Every sector has its place in the view. */
  function PlaceInRing(s: nat, t: nat, n: nat): (j: nat)
    requires s < n && t < n
    ensures j < n && RingSector(s, j, n) == t
  {
    if t >= s then t - s else t + n - s
  }

  lemma LaidUpdate(f: Flash, s: nat, j: nat, sec: Text)
    requires s < |f| && j < |f|
    ensures Laid(f[RingSector(s, j, |f|) := sec], s) == Laid(f, s)[j := sec]
  {
  }

  /** Replacing the first sector and looking from the second on. */
  lemma LaidTurn(f: Flash, s: nat, sec: Text)
    requires s < |f|
    ensures Laid(f[s := sec], NextSector(s, |f|)) == Laid(f, s)[1..] + [sec]
  {
  }

  lemma NextInRing(s: nat, j: nat, n: nat)
    requires s < n && j < n
    ensures NextSector(RingSector(s, j, n), n) == if j + 1 < n then RingSector(s, j + 1, n) else s
  {
  }

  lemma ProgramNothing(f: Flash, a: nat)
    requires IsFlash(f) && a < Size(f)
    ensures Program(f, a, []) == f
  {
  }

  /** A place ahead of the start of its own sector is not that start. */
  lemma NotAround(o: nat, i: nat, j: nat, p: nat, n: nat)
    requires o < n && i <= j < n && p < SECTOR && (i < j || p > 0)
    ensures SECTOR * RingSector(o, j, n) + p != SECTOR * RingSector(o, i, n)
  {
  }

  lemma OnlyAtStart(s: nat, j: nat, p: nat, n: nat)
    requires s < n && j <= n && p < SECTOR
    requires SECTOR * s == if j < n then SECTOR * RingSector(s, j, n) + p else SECTOR * s
    requires j > 0 || p > 0
    ensures j == n
  {
  }
}
