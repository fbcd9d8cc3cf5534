/** The check bits of headers: they are the remainder of a polynomial division, they see every changed bit,
    and so no header with one wrong bit is accepted (ring_buffer.c). */
module RingCrc {
  import opened Bytes
  import opened RingFormat

  // ---- the register as bits ----

  /** Bit `i` of the five of a register, the highest first. */
  predicate RegBit(crc: nat, i: nat)
    requires i < 5
  {
    if i == 0 then crc / 16 % 2 == 1
    else if i == 1 then crc / 8 % 2 == 1
    else if i == 2 then crc / 4 % 2 == 1
    else if i == 3 then crc / 2 % 2 == 1
    else crc % 2 == 1
  }

  /** The register of five bits, the highest first. */
  function Register(a: bool, b: bool, c: bool, d: bool, e: bool): (crc: nat)
    ensures crc < 32
  {
    (if a then 16 else 0) + (if b then 8 else 0) + (if c then 4 else 0) + (if d then 2 else 0) + if e then 1 else 0
  }

  lemma RegisterBits(a: bool, b: bool, c: bool, d: bool, e: bool)
    ensures var crc := Register(a, b, c, d, e);
            RegBit(crc, 0) == a && RegBit(crc, 1) == b && RegBit(crc, 2) == c && RegBit(crc, 3) == d
            && RegBit(crc, 4) == e
  {
  }

  lemma IsRegister(crc: nat)
    requires crc < 32
    ensures crc == Register(RegBit(crc, 0), RegBit(crc, 1), RegBit(crc, 2), RegBit(crc, 3), RegBit(crc, 4))
  {
  }

  /** One bit into the register: its bits move up, and the top bit and the data bit feed back into two places. */
  lemma CrcBitShifts(a: bool, b: bool, c: bool, d: bool, e: bool, bit: bool)
    ensures CrcBit(Register(a, b, c, d, e), bit) == Register(b, c, d != (a != bit), e, a != bit)
  {
    var crc := Register(a, b, c, d, e);
    assert (crc >= 16) == a;
    assert 2 * crc % 32 == Register(b, c, d, e, false);
  }

  lemma CrcBitBits(crc: nat, bit: bool, i: nat)
    requires crc < 32 && i < 5
    ensures RegBit(CrcBit(crc, bit), i)
         == ((i < 4 && RegBit(crc, i + 1)) != ((RegBit(crc, 0) != bit) && (i == 2 || i == 4)))
  {
    hide CrcBit, Register;
    var a, b, c, d, e := RegBit(crc, 0), RegBit(crc, 1), RegBit(crc, 2), RegBit(crc, 3), RegBit(crc, 4);
    IsRegister(crc);
    CrcBitShifts(a, b, c, d, e, bit);
    RegisterBits(b, c, d != (a != bit), e, a != bit);
    hide RegBit;
    assert i == 0 || i == 1 || i == 2 || i == 3 || i == 4;
  }

  // ---- the reference: division by x^5 + x^2 + 1 ----

  /** One subtraction of the divisor below its leading bit. */
  function Less(bits: seq<bool>): (r: seq<bool>)
    requires |bits| >= 5
    ensures |r| == |bits| && forall i :: 0 <= i < |bits| ==> r[i] == (bits[i] != (i == 2 || i == 4))
  {
    seq(|bits|, i requires 0 <= i < |bits| => bits[i] != (i == 2 || i == 4))
  }

  /** The remainder of a polynomial over GF(2), its highest coefficient first. */
  function Remainder(bits: seq<bool>): (r: seq<bool>)
    requires |bits| >= 5
    ensures |r| == 5
    decreases |bits|
  {
    if |bits| == 5 then bits else Remainder(if bits[0] then Less(bits[1..]) else bits[1..])
  }

  /** `n` bits of a byte, the lowest first. */
  function ByteBits(c: nat, n: nat): (bits: seq<bool>)
    ensures |bits| == n
    decreases n
  {
    if n == 0 then [] else [c % 2 == 1] + ByteBits(c / 2, n - 1)
  }

  function DataBits(data: Text): (bits: seq<bool>)
    ensures |bits| == 8 * |data|
    decreases |data|
  {
    if data == [] then [] else ByteBits(data[0], 8) + DataBits(data[1..])
  }

  /** The register laid over the first five bits. */
  ghost function Over(crc: nat, bits: seq<bool>): (r: seq<bool>)
    requires |bits| >= 5
    ensures |r| == |bits|
    ensures forall i :: 0 <= i < |bits| ==> r[i] == if i < 5 then bits[i] != RegBit(crc, i) else bits[i]
  {
    seq(|bits|, i requires 0 <= i < |bits| => if i < 5 then bits[i] != RegBit(crc, i) else bits[i])
  }

  /** One bit into the register is one step of the division. */
  lemma DivisionStep(crc: nat, bit: bool, rest: seq<bool>)
    requires crc < 32 && |rest| >= 5
    ensures Remainder(Over(crc, [bit] + rest)) == Remainder(Over(CrcBit(crc, bit), rest))
  {
    var w := Over(crc, [bit] + rest);
    var next := if w[0] then Less(w[1..]) else w[1..];
    hide RegBit, CrcBit;
    forall i: nat | i < |rest| ensures next[i] == Over(CrcBit(crc, bit), rest)[i] {
      if i < 5 { CrcBitBits(crc, bit, i); }
    }
    assert next == Over(CrcBit(crc, bit), rest);
  }

  lemma {:induction false} DivisionOfByte(crc: nat, c: nat, n: nat, rest: seq<bool>)
    requires crc < 32 && |rest| >= 5
    ensures Remainder(Over(crc, ByteBits(c, n) + rest)) == Remainder(Over(CrcBits(crc, c, n), rest))
    decreases n
  {
    hide Remainder, Over, CrcBit;
    if n == 0 {
      assert [] + rest == rest;
    } else {
      var bit := c % 2 == 1;
      assert ByteBits(c, n) + rest == [bit] + (ByteBits(c / 2, n - 1) + rest);
      DivisionStep(crc, bit, ByteBits(c / 2, n - 1) + rest);
      DivisionOfByte(CrcBit(crc, bit), c / 2, n - 1, rest);
    }
  }

  lemma {:induction false} DivisionOfData(crc: nat, data: Text, rest: seq<bool>)
    requires crc < 32 && |rest| >= 5
    ensures Remainder(Over(crc, DataBits(data) + rest)) == Remainder(Over(CrcUpdate(crc, data), rest))
    decreases |data|
  {
    hide Remainder, Over, CrcBits, ByteBits;
    if data == [] {
      assert [] + rest == rest;
    } else {
      assert DataBits(data) + rest == ByteBits(data[0], 8) + (DataBits(data[1..]) + rest);
      DivisionOfByte(crc, data[0], 8, DataBits(data[1..]) + rest);
      DivisionOfData(CrcBits(crc, data[0], 8), data[1..], rest);
    }
  }

  const FIVE_ZEROS: seq<bool> := [false, false, false, false, false]

  /** The bits with the first five of them inverted. */
  function Inverted(bits: seq<bool>): (r: seq<bool>)
    ensures |r| == |bits|
  {
    seq(|bits|, i requires 0 <= i < |bits| => if i < 5 then !bits[i] else bits[i])
  }

  /** The check bits of any bytes: inverted in front, followed by five zeros, their bits are divided by
      x^5 + x^2 + 1; the inverted remainder is the check. */
  lemma CrcDivides(data: Text, i: nat)
    requires i < 5
    ensures RegBit(Crc(data), i) == !Remainder(Inverted(DataBits(data) + FIVE_ZEROS))[i]
  {
    hide RegBit, Remainder, CrcUpdate, DataBits;
    var crc := CrcUpdate(31, data);
    DivisionOfData(31, data, FIVE_ZEROS);
    OnesInvert(DataBits(data) + FIVE_ZEROS);
    RemainderOfFive(Over(crc, FIVE_ZEROS));
    Complement(crc, i);
  }

  lemma RemainderOfFive(bits: seq<bool>)
    requires |bits| == 5
    ensures Remainder(bits) == bits
  {
  }

  lemma OnesInvert(bits: seq<bool>)
    requires |bits| >= 5
    ensures Over(31, bits) == Inverted(bits)
  {
    AllOnes();
    hide RegBit;
  }

  lemma AllOnes()
    ensures forall i: nat :: i < 5 ==> RegBit(31, i)
  {
  }

  lemma Complement(crc: nat, i: nat)
    requires crc < 32 && i < 5
    ensures RegBit(31 - crc, i) == !RegBit(crc, i)
  {
    assert i == 0 || i == 1 || i == 2 || i == 3 || i == 4;
  }

  // ---- one wrong bit ----

  /** `c` with its bit `k` changed. */
  function Flip(c: nat, k: nat): nat {
    if k == 0 then (if c % 2 == 0 then c + 1 else c - 1) else 2 * Flip(c / 2, k - 1) + c % 2
  }

  lemma {:induction false} FlipStays(c: nat, k: nat, n: nat)
    requires k < n && c < Pow2(n)
    ensures Flip(c, k) < Pow2(n) && Flip(c, k) != c
    decreases k
  {
    hide Pow2, Flip;
    Twice(n);
    FlipOf(c, k);
    if k > 0 { FlipStays(c / 2, k - 1, n - 1); }
  }

  lemma Twice(n: nat)
    requires n > 0
    ensures Pow2(n) == 2 * Pow2(n - 1)
  {
  }

  lemma FlipOf(c: nat, k: nat)
    ensures Flip(c, k) == if k > 0 then 2 * Flip(c / 2, k - 1) + c % 2 else if c % 2 == 0 then c + 1 else c - 1
  {
  }

  function Pow2(n: nat): (m: nat) ensures m >= 1 { if n == 0 then 1 else 2 * Pow2(n - 1) }

  lemma Pow2Of8()
    ensures Pow2(8) == 256 && Pow2(5) == 32
  {
    assert Pow2(4) == 16;
  }

  /** A byte with its bit `k` changed. */
  function FlipByte(c: Byte, k: nat): (d: Byte)
    requires k < 8
    ensures d != c
  {
    Pow2Of8();
    FlipStays(c, k, 8);
    Flip(c, k)
  }

  /** The bytes with bit `k` of the byte at `i` changed. */
  function OneBit(t: Text, i: nat, k: nat): (wrong: Text)
    requires i < |t| && k < 8
    ensures |wrong| == |t|
  {
    t[i := FlipByte(t[i], k)]
  }

  lemma CrcBitInjective(a: nat, b: nat, bit: bool)
    requires a < 32 && b < 32 && a != b
    ensures CrcBit(a, bit) != CrcBit(b, bit)
  {
    var i := DifferentBit(a, b);
    hide CrcBit, RegBit;
    var j := if RegBit(a, 0) == RegBit(b, 0) then i - 1 else 4;
    CrcBitBits(a, bit, j);
    CrcBitBits(b, bit, j);
  }

  lemma DifferentBit(a: nat, b: nat) returns (i: nat)
    requires a < 32 && b < 32 && a != b
    ensures i < 5 && RegBit(a, i) != RegBit(b, i)
  {
    IsRegister(a);
    IsRegister(b);
    i := if RegBit(a, 0) != RegBit(b, 0) then 0
         else if RegBit(a, 1) != RegBit(b, 1) then 1
         else if RegBit(a, 2) != RegBit(b, 2) then 2
         else if RegBit(a, 3) != RegBit(b, 3) then 3
         else 4;
  }

  lemma CrcBitSees(a: nat)
    requires a < 32
    ensures CrcBit(a, true) != CrcBit(a, false)
  {
    hide CrcBit, RegBit;
    CrcBitBits(a, true, 4);
    CrcBitBits(a, false, 4);
  }

  lemma {:induction false} CrcBitsInjective(a: nat, b: nat, c: nat, n: nat)
    requires a < 32 && b < 32 && a != b
    ensures CrcBits(a, c, n) != CrcBits(b, c, n)
    decreases n
  {
    hide CrcBit;
    if n > 0 {
      CrcBitInjective(a, b, c % 2 == 1);
      CrcBitsInjective(CrcBit(a, c % 2 == 1), CrcBit(b, c % 2 == 1), c / 2, n - 1);
    }
  }

  lemma {:induction false} CrcBitsSee(a: nat, c: nat, n: nat, k: nat)
    requires a < 32 && k < n
    ensures CrcBits(a, c, n) != CrcBits(a, Flip(c, k), n)
    decreases n
  {
    hide CrcBit;
    var d := Flip(c, k);
    if k == 0 {
      assert d / 2 == c / 2;
      CrcBitSees(a);
      CrcBitsInjective(CrcBit(a, c % 2 == 1), CrcBit(a, d % 2 == 1), c / 2, n - 1);
    } else {
      assert d / 2 == Flip(c / 2, k - 1) && d % 2 == c % 2;
      CrcBitsSee(CrcBit(a, c % 2 == 1), c / 2, n - 1, k - 1);
    }
  }

  lemma {:induction false} CrcUpdateInjective(a: nat, b: nat, data: Text)
    requires a < 32 && b < 32 && a != b
    ensures CrcUpdate(a, data) != CrcUpdate(b, data)
    decreases |data|
  {
    hide CrcBits;
    if data != [] {
      CrcBitsInjective(a, b, data[0], 8);
      CrcUpdateInjective(CrcBits(a, data[0], 8), CrcBits(b, data[0], 8), data[1..]);
    }
  }

  lemma {:induction false} CrcUpdateSees(a: nat, data: Text, i: nat, k: nat)
    requires a < 32 && i < |data| && k < 8
    ensures CrcUpdate(a, data) != CrcUpdate(a, OneBit(data, i, k))
    decreases |data|
  {
    hide CrcBits, Flip;
    var wrong := OneBit(data, i, k);
    if i == 0 {
      assert wrong[1..] == data[1..];
      CrcBitsSee(a, data[0], 8, k);
      CrcUpdateInjective(CrcBits(a, data[0], 8), CrcBits(a, wrong[0], 8), data[1..]);
    } else {
      assert wrong[1..] == OneBit(data[1..], i - 1, k);
      CrcUpdateSees(CrcBits(a, data[0], 8), data[1..], i - 1, k);
    }
  }

  /** Bytes that differ in one bit have different check bits. */
  lemma CrcSees(data: Text, i: nat, k: nat)
    requires i < |data| && k < 8
    ensures Crc(data) != Crc(OneBit(data, i, k))
  {
    CrcUpdateSees(31, data, i, k);
  }

  /** A good record header with one bit changed is good exactly when that is one of the three flags. */
  lemma WrongRecordHeader(r: Text, p: nat, i: nat, k: nat)
    requires p + HEADER <= |r| && RecordStatus(r, p) == Good && i < HEADER && k < 8
    ensures RecordStatus(OneBit(r, p + i, k), p) == if i == 3 && k >= 5 then Good else Bad
  {
    hide Crc, FlipByte;
    var wrong := OneBit(r, p + i, k);
    if i < 3 {
      assert wrong[p..p + 3] == OneBit(r[p..p + 3], i, k);
      CrcSees(r[p..p + 3], i, k);
    } else {
      assert wrong[p..p + 3] == r[p..p + 3];
      if k < 5 { LowFlip(r[p + 3], k); } else { HighFlip(r[p + 3], k); }
    }
  }

  /** `q` above `n` bits. */
  function Above(q: nat, n: nat): nat { if n == 0 then q else 2 * Above(q, n - 1) }

  lemma AboveFive(q: nat)
    ensures Above(q, 5) == 32 * q
  {
    assert Above(q, 1) == 2 * q;
    assert Above(q, 2) == 4 * q;
    assert Above(q, 3) == 8 * q;
    assert Above(q, 4) == 16 * q;
  }

  lemma HighFlip(c: Byte, k: nat)
    requires 5 <= k < 8
    ensures FlipByte(c, k) % 32 == c % 32
  {
    hide Flip, Above;
    var low, q := c % 32, c / 32;
    Pow2Of8();
    AboveFive(q);
    AboveFive(Flip(q, k - 5));
    FlipAbove(low, q, k, 5);
    assert c == low + 32 * q;
    assert (low + 32 * Flip(q, k - 5)) % 32 == low;
  }

  /** A change at or above bit `n` leaves the bits below alone. */
  lemma {:induction false} FlipAbove(c: nat, q: nat, k: nat, n: nat)
    requires n <= k && c < Pow2(n)
    ensures Flip(c + Above(q, n), k) == c + Above(Flip(q, k - n), n)
    decreases n
  {
    if n > 0 {
      var m, w := Above(q, n - 1), Above(Flip(q, k - n), n - 1);
      FlipAbove(c / 2, q, k - 1, n - 1);
      assert (c + 2 * m) / 2 == c / 2 + m && (c + 2 * m) % 2 == c % 2;
    }
  }

  lemma LowFlip(c: Byte, k: nat)
    requires k < 5
    ensures FlipByte(c, k) % 32 != c % 32
  {
    hide Flip, Above;
    var low, q := c % 32, c / 32;
    Pow2Of8();
    AboveFive(q);
    FlipBelow(low, q, k, 5);
    FlipStays(low, k, 5);
    assert c == low + 32 * q;
    assert (Flip(low, k) + 32 * q) % 32 == Flip(low, k);
  }

  /** A change below bit `n` leaves the bits above alone. */
  lemma {:induction false} FlipBelow(c: nat, q: nat, k: nat, n: nat)
    requires k < n
    ensures Flip(c + Above(q, n), k) == Flip(c, k) + Above(q, n)
    decreases k
  {
    var m := Above(q, n - 1);
    assert (c + 2 * m) / 2 == c / 2 + m && (c + 2 * m) % 2 == c % 2;
    if k > 0 { FlipBelow(c / 2, q, k - 1, n - 1); }
  }

  /** A good sector header with any one bit changed is bad. */
  lemma WrongSectorHeader(r: Text, b: nat, i: nat, k: nat)
    requires b + HEADER <= |r| && SectorStatus(r, b) == Good && i < HEADER && k < 8
    ensures SectorStatus(OneBit(r, b + i, k), b) == Bad
  {
    hide Crc, FlipByte;
    var wrong := OneBit(r, b + i, k);
    var data := r[b + 1..b + 4] + [0];
    if i > 0 {
      assert wrong[b + 1..b + 4] + [0] == OneBit(data, i - 1, k);
      CrcSees(data, i - 1, k);
    } else {
      assert wrong[b + 1..b + 4] == r[b + 1..b + 4];
      FlipAddsLess(r[b], k);
    }
  }

  lemma FlipAddsLess(c: Byte, k: nat)
    requires c < 32 && k < 8
    ensures FlipByte(c, k) != 255
  {
    FlipNear(c, k, 7);
    assert Pow2(7) == 128;
  }

  lemma {:induction false} FlipNear(c: nat, k: nat, n: nat)
    requires k <= n
    ensures Flip(c, k) <= c + Pow2(n)
    decreases k
  {
    if k > 0 {
      FlipNear(c / 2, k - 1, n - 1);
      assert Pow2(n) == 2 * Pow2(n - 1);
    }
  }

  /** The bytes of headers as they lie in flash: length or index, the least significant byte first, the record's
      id, and the check bits below three flags: 128 for a split record, 64 for a live one. */
  lemma HeaderLayout(id: Byte, size: nat, split: bool, index: nat)
    requires size < 65536 && index <= INDEX_MASK
    ensures var h := RecordHeader(id, size, if split then LIVE_FLAG + SPLIT_FLAG else LIVE_FLAG);
            && (h[0] as int) + 256 * (h[1] as int) == size && h[2] == id
            && h[3] == Crc(h[..3]) + 64 + if split then 128 else 0
    ensures var h := SectorHeader(index);
            && (h[1] as int) + 256 * (h[2] as int) + 65536 * (h[3] as int) == index
            && h[0] == Crc(h[1..] + [0])
  {
    hide Crc;
    var h := RecordHeader(id, size, if split then LIVE_FLAG + SPLIT_FLAG else LIVE_FLAG);
    assert h[..3] == LenBytes(size) + [id];
    assert SectorHeader(index)[1..] == IndexBytes(index);
    assert index == index % 256 + 256 * (index / 256 % 256 + 256 * (index / 65536)) by {
      assert index / 65536 == index / 256 / 256;
    }
  }

  /** A record header of the identifier 255, of no bytes or of more than the whole area is never good, whatever
      its check bits say. */
  lemma ImpossibleHeader(r: Text, p: nat, size: nat, id: Byte, flags: Byte)
    requires size < 65536 && At(r, p, LenBytes(size) + [id, flags]) && (id == 255 || size == 0 || size > 16384)
    ensures RecordStatus(r, p) == if size == 65535 && id == 255 && flags == 255 then Blank else Bad
  {
    hide Crc;
    var h := LenBytes(size) + [id, flags];
    AtByte(r, p, h, 0);
    AtByte(r, p, h, 1);
    AtByte(r, p, h, 2);
    AtByte(r, p, h, 3);
  }

  // ---- flash that was never erased ----

  /** Four zero bits. */
  lemma ZeroBits(a: bool, b: bool, c: bool, d: bool, e: bool, n: nat)
    requires n >= 4
    ensures CrcBits(Register(a, b, c, d, e), 0, n)
         == CrcBits(Register(b != e, a != c, a != (b != d), c, a != d), 0, n - 4)
  {
    hide CrcBit, Register;
    CrcBitShifts(a, b, c, d, e, false);
    CrcBitShifts(b, c, d != a, e, a, false);
    CrcBitShifts(c, d != a, e != b, a, b, false);
    CrcBitShifts(d != a, e != b, a != c, b, c, false);
    assert CrcBits(Register(a, b, c, d, e), 0, n) == CrcBits(Register(b, c, d != a, e, a), 0, n - 1);
    assert CrcBits(Register(b, c, d != a, e, a), 0, n - 1) == CrcBits(Register(c, d != a, e != b, a, b), 0, n - 2);
    assert CrcBits(Register(c, d != a, e != b, a, b), 0, n - 2)
        == CrcBits(Register(d != a, e != b, a != c, b, c), 0, n - 3);
  }

  /** A zero byte. */
  lemma ZeroByte(a: bool, b: bool, c: bool, d: bool, e: bool)
    ensures var f, g, h, i, j := b != e, a != c, a != (b != d), c, a != d;
            CrcBits(Register(a, b, c, d, e), 0, 8) == Register(g != j, f != h, f != (g != i), h, f != i)
  {
    hide CrcBit, Register;
    var f, g, h, i, j := b != e, a != c, a != (b != d), c, a != d;
    ZeroBits(a, b, c, d, e, 8);
    ZeroBits(f, g, h, i, j, 4);
  }

  lemma CrcOfZeros()
    ensures Crc([0, 0, 0, 0]) == 4
  {
    hide CrcBits, CrcUpdate;
    ZeroByte(true, true, true, true, true);
    ZeroByte(false, true, true, true, true);
    ZeroByte(false, false, false, false, true);
    ZeroByte(false, true, true, false, true);
    UpdateOne(31, 0, [0, 0, 0]);
    UpdateOne(15, 0, [0, 0]);
    UpdateOne(1, 0, [0]);
    UpdateOne(13, 0, []);
    UpdateNone(27);
    var s: Text, t: Text, u: Text, v: Text := [0, 0, 0, 0], [0, 0, 0], [0, 0], [0];
    assert s == [0] + t && t == [0] + u && u == [0] + v && v == [0] + [];
  }

  lemma UpdateNone(crc: nat)
    requires crc < 32
    ensures CrcUpdate(crc, []) == crc
  {
  }

  lemma UpdateOne(crc: nat, c: Byte, rest: Text)
    requires crc < 32
    ensures CrcUpdate(crc, [c] + rest) == CrcUpdate(CrcBits(crc, c, 8), rest)
  {
    assert ([c] + rest)[1..] == rest;
  }

  /** Four zero bytes are no sector header. */
  lemma ZerosAreBad(r: Text, b: nat)
    requires At(r, b, [0, 0, 0, 0])
    ensures SectorStatus(r, b) == Bad
  {
    hide Crc;
    var zeros: Text := [0, 0, 0, 0];
    AtByte(r, b, zeros, 0);
    AtByte(r, b, zeros, 1);
    AtByte(r, b, zeros, 2);
    AtByte(r, b, zeros, 3);
    assert r[b + 1..b + 4] + [0] == zeros;
    CrcOfZeros();
  }
}
