/** Bytes of the flash log: sector headers, record headers and their checks (ring_buffer.c). */
module RingFormat {
  import opened Bytes

  const SECTOR := 4096
  const PAGE := 256
  const HEADER := 4
  const MAX_APPEND := SECTOR - HEADER - HEADER
  /** Largest offset in a sector at which a record, a header and one byte, can start. */
  const LAST_START := SECTOR - HEADER - 1
  const INDEX_MASK := 0xffffff
  /** Length of the persistent area, from the linker script. */
  const PERSISTENT_LEN := 16384
  const MAX_LEN_VALUE := 65535
  const ERASED: Byte := 255

  datatype Status = Good | Blank | Bad

  // ---- CRC-5 ----

  /** One bit into the register: shift out the top bit, feed back polynomial 0x05. */
  function CrcBit(crc: nat, bit: bool): (r: nat)
    requires crc < 32
    ensures r < 32
  {
    var shifted := 2 * crc % 32;
    if (crc >= 16) == bit then shifted
    else if shifted / 4 % 2 == 1 then shifted + 1 - 4
    else shifted + 1 + 4
  }

  /** `n` bits of `c`, least significant first. */
  function CrcBits(crc: nat, c: nat, n: nat): (r: nat)
    requires crc < 32
    ensures r < 32
    decreases n
  {
    if n == 0 then crc else CrcBits(CrcBit(crc, c % 2 == 1), c / 2, n - 1)
  }

  function CrcUpdate(crc: nat, data: Text): (r: nat)
    requires crc < 32
    ensures r < 32
    decreases |data|
  {
    if data == [] then crc else CrcUpdate(CrcBits(crc, data[0], 8), data[1..])
  }

  function Crc(data: Text): (r: nat)
    ensures r < 32
  {
    31 - CrcUpdate(31, data)
  }

  // ---- record headers: length (two bytes), id, check bits and flags ----

  const SPLIT_FLAG := 128
  const LIVE_FLAG := 64     // RB_HEADER_NOT_SMUDGED

  function Len(r: Text, p: nat): (n: nat)
    requires p + HEADER <= |r|
    ensures n < 65536
  {
    (r[p] as int) + 256 * (r[p + 1] as int)
  }

  function Id(r: Text, p: nat): Byte
    requires p + HEADER <= |r|
  {
    r[p + 2]
  }

  function Flags(r: Text, p: nat): Byte
    requires p + HEADER <= |r|
  {
    r[p + 3]
  }

  predicate IsLive(flags: Byte) { flags / 64 % 2 == 1 }
  predicate IsSplit(flags: Byte) { flags >= 128 }

  function LenBytes(n: nat): (t: Text)
    requires n < 65536
    ensures |t| == 2
  {
    [n % 256, n / 256]
  }

  /** is_header_good */
  function RecordStatus(r: Text, p: nat): Status
    requires p + HEADER <= |r|
  {
    if Id(r, p) == 255 && Flags(r, p) == 255 && Len(r, p) == MAX_LEN_VALUE then Blank
    else if Id(r, p) == 255 || Len(r, p) == 0 || Len(r, p) > PERSISTENT_LEN then Bad
    else if Flags(r, p) % 32 == Crc(r[p..p + 3]) then Good
    else Bad
  }

  /** make_header and the flags that write_headers adds. */
  function RecordHeader(id: Byte, size: nat, flags: nat): (t: Text)
    requires size < 65536 && (flags == LIVE_FLAG || flags == LIVE_FLAG + SPLIT_FLAG)
    ensures |t| == HEADER
  {
    LenBytes(size) + [id, Crc(LenBytes(size) + [id]) + flags]
  }

  lemma FlagBits(crc: nat, flags: nat)
    requires crc < 32 && (flags == LIVE_FLAG || flags == LIVE_FLAG + SPLIT_FLAG)
    ensures (crc + flags) % 32 == crc && IsLive(crc + flags) && (IsSplit(crc + flags) <==> flags >= SPLIT_FLAG)
    ensures crc + flags < 255
  {
  }

  lemma RecordHeaderIsGood(r: Text, p: nat, id: Byte, size: nat, flags: nat)
    requires 0 < size <= PERSISTENT_LEN && id != 255 && (flags == LIVE_FLAG || flags == LIVE_FLAG + SPLIT_FLAG)
    requires At(r, p, RecordHeader(id, size, flags))
    ensures RecordStatus(r, p) == Good && Len(r, p) == size && Id(r, p) == id
    ensures IsLive(Flags(r, p)) && (IsSplit(Flags(r, p)) <==> flags >= SPLIT_FLAG)
  {
    hide Crc;
    var h := RecordHeader(id, size, flags);
    AtByte(r, p, h, 0);
    AtByte(r, p, h, 1);
    AtByte(r, p, h, 2);
    AtByte(r, p, h, 3);
    assert r[p..p + 3] == LenBytes(size) + [id];
    FlagBits(Crc(LenBytes(size) + [id]), flags);
  }

  // ---- sector headers: check bits, then a 24-bit index ----

  function Index(r: Text, b: nat): (n: nat)
    requires b + HEADER <= |r|
    ensures n <= INDEX_MASK
  {
    (r[b + 1] as int) + 256 * (r[b + 2] as int) + 65536 * (r[b + 3] as int)
  }

  function IndexBytes(n: nat): (t: Text)
    ensures |t| == 3
  {
    [n % 256, n / 256 % 256, n / 65536 % 256]
  }

  /** is_sector_header_good */
  function SectorStatus(r: Text, b: nat): Status
    requires b + HEADER <= |r|
  {
    if r[b] == 255 && r[b + 1] == 255 && r[b + 2] == 255 && r[b + 3] == 255 then Blank
    else if r[b] == Crc(r[b + 1..b + 4] + [0]) then Good
    else Bad
  }

  /** make_sector_header */
  function SectorHeader(index: nat): (t: Text)
    ensures |t| == HEADER
  {
    [Crc(IndexBytes(index) + [0])] + IndexBytes(index)
  }

  lemma SectorHeaderIsGood(r: Text, b: nat, index: nat)
    requires index <= INDEX_MASK && At(r, b, SectorHeader(index))
    ensures SectorStatus(r, b) == Good && Index(r, b) == index
  {
    hide Crc;
    var h := SectorHeader(index);
    AtByte(r, b, h, 0);
    AtByte(r, b, h, 1);
    AtByte(r, b, h, 2);
    AtByte(r, b, h, 3);
    assert r[b + 1..b + 4] == IndexBytes(index);
  }

  // ---- erased flash ----

  ghost predicate Erased(t: Text) {
    forall i :: 0 <= i < |t| ==> t[i] == ERASED
  }

  lemma ErasedHeaders(r: Text, p: nat)
    requires p + HEADER <= |r| && Erased(r[p..p + HEADER])
    ensures RecordStatus(r, p) == Blank && SectorStatus(r, p) == Blank
  {
    var h := r[p..p + HEADER];
    assert h[0] == r[p] && h[1] == r[p + 1] && h[2] == r[p + 2] && h[3] == r[p + 3];
  }

  /** A used sector does not look erased in its first byte. */
  lemma GoodSectorStarts(r: Text, b: nat)
    requires b + HEADER <= |r| && SectorStatus(r, b) == Good
    ensures r[b] < 32
  {
  }
}
