/** A FAT32 volume laid out byte by byte as the FAT specification does: the boot sector, the allocation table and the
    data area, and what the reader of `src/fat32.rs` makes of them. */
module FatLayout {
  import opened Common
  import opened ByteFields
  import opened Fat32

  type u16 = n: nat | n < U16_LIMIT
  type u32 = n: nat | n < U32_LIMIT

  // ------------------------------------------------------------------ little-endian bytes

  function Le2(n: u16): (b: seq<byte>)
    ensures |b| == 2
  {
    [n % 0x100, n / 0x100]
  }

  function Le4(n: u32): (b: seq<byte>)
    ensures |b| == 4
  {
    [n % 0x100, n / 0x100 % 0x100, n / 0x1_0000 % 0x100, n / 0x100_0000]
  }

  lemma Reads2(b: seq<byte>, at: nat, n: u16)
    requires at + 2 <= |b| && b[at..at + 2] == Le2(n)
    ensures U16At(b, at) == n
  {
    assert b[at] == b[at..at + 2][0] && b[at + 1] == b[at..at + 2][1];
  }

  lemma Reads4(b: seq<byte>, at: nat, n: u32)
    requires at + 4 <= |b| && b[at..at + 4] == Le4(n)
    ensures U32At(b, at) == n
  {
    var s := b[at..at + 4];
    assert b[at] == s[0] && b[at + 1] == s[1] && b[at + 2] == s[2] && b[at + 3] == s[3];
    FourBytes(n);
  }

  lemma FourBytes(n: u32)
    ensures n == n % 0x100 + 0x100 * (n / 0x100 % 0x100) + 0x1_0000 * (n / 0x1_0000 % 0x100 + 0x100 * (n / 0x100_0000))
  {
    var b := n / 0x100;
    var c := b / 0x100;
    assert c == n / 0x1_0000 && c / 0x100 == n / 0x100_0000;
  }

  // ------------------------------------------------------------------ the boot sector

  /** The boot sector: the fields a mount needs, and the bytes between them, which may be anything. */
  datatype Boot = Boot(
    front: seq<byte>, sectorSize: u16, perCluster: byte, reserved: u16, fats: byte, rootEntries: u16, total16: u16,
    media: byte, fat16: u16, geometry: seq<byte>, total32: u32, fat32: u32, flags: seq<byte>, root: u32,
    rest: seq<byte>, mark: seq<byte>)

  predicate BootOk(b: Boot) {
    |b.front| == 11 && |b.geometry| == 8 && |b.flags| == 4 && |b.rest| == 462 && |b.mark| == 2
  }

  function BootLow(b: Boot): (s: seq<byte>)
    requires BootOk(b)
    ensures |s| == 24
  {
    b.front + Le2(b.sectorSize) + [b.perCluster] + Le2(b.reserved) + [b.fats] + Le2(b.rootEntries) + Le2(b.total16)
    + [b.media] + Le2(b.fat16)
  }

  function BootHigh(b: Boot): (s: seq<byte>)
    requires BootOk(b)
    ensures |s| == 24
  {
    b.geometry + Le4(b.total32) + Le4(b.fat32) + b.flags + Le4(b.root)
  }

  function BootSector(b: Boot): Sector
    requires BootOk(b)
  {
    BootLow(b) + BootHigh(b) + b.rest + b.mark
  }

  function Total(b: Boot): nat { if b.total16 != 0 then b.total16 else b.total32 }

  /** The first sector of the data area. */
  function DataStart(b: Boot): nat { b.reserved + b.fats * b.fat32 }

  function Clusters(b: Boot): nat
    requires b.perCluster > 0
  {
    if DataStart(b) <= Total(b) then (Total(b) - DataStart(b)) / b.perCluster else 0
  }

  /** What the FAT specification asks of a FAT32 volume with 512-byte sectors. */
  predicate Mountable(b: Boot) {
    && b.mark == [0x55, 0xaa] && b.sectorSize == 512 && b.perCluster in {1, 2, 4, 8, 16, 32, 64, 128}
    && b.reserved > 0 && b.fats > 0 && b.rootEntries == 0 && b.fat16 == 0 && b.fat32 > 0
    && DataStart(b) < Total(b) && Clusters(b) >= 65_525 && 4 * (Clusters(b) + 2) <= 512 * b.fat32
    && 2 <= b.root < Clusters(b) + 2
  }

  lemma BootLowReads(b: Boot)
    requires BootOk(b)
    ensures var s := BootLow(b);
            && s[11..13] == Le2(b.sectorSize) && s[13] == b.perCluster
            && s[14..16] == Le2(b.reserved) && s[16] == b.fats
            && s[17..19] == Le2(b.rootEntries) && s[19..21] == Le2(b.total16) && s[22..24] == Le2(b.fat16)
  {
  }

  lemma BootHighReads(b: Boot)
    requires BootOk(b)
    ensures var s := BootHigh(b);
            s[8..12] == Le4(b.total32) && s[12..16] == Le4(b.fat32) && s[20..24] == Le4(b.root)
  {
  }

  lemma BootReads(b: Boot)
    requires BootOk(b)
    ensures DecodeBpb(BootSector(b)) == Bpb(b.sectorSize, b.perCluster, b.reserved, b.fats, b.rootEntries, b.total16,
                                            b.fat16, b.total32, b.fat32, b.root)
    ensures BootSector(b)[510..512] == b.mark
  {
    var s, low, high := BootSector(b), BootLow(b), BootHigh(b);
    assert s[0..24] == low && s[24..48] == high;
    BootLowReads(b);
    assert s[13] == low[13] && s[16] == low[16];
    Inside(s, 0, low, 11, 13);
    Reads2(s, 11, b.sectorSize);
    Inside(s, 0, low, 14, 16);
    Reads2(s, 14, b.reserved);
    Inside(s, 0, low, 17, 19);
    Reads2(s, 17, b.rootEntries);
    Inside(s, 0, low, 19, 21);
    Reads2(s, 19, b.total16);
    Inside(s, 0, low, 22, 24);
    Reads2(s, 22, b.fat16);
    BootHighReads(b);
    Inside(s, 24, high, 8, 12);
    Reads4(s, 32, b.total32);
    Inside(s, 24, high, 12, 16);
    Reads4(s, 36, b.fat32);
    Inside(s, 24, high, 20, 24);
    Reads4(s, 44, b.root);
  }

  lemma PowersUpTo128(n: nat)
    ensures n > 0 && IsPowerOfTwo(n) && n <= 128 <==> n in {1, 2, 4, 8, 16, 32, 64, 128}
  {
    if n > 1 && n % 2 == 0 && n <= 128 {
      PowersUpTo128(n / 2);
    }
  }

  /** A volume is opened exactly when its boot sector is in order, with the geometry it states. */
  lemma OpensExactly(disk: Disk, b: Boot)
    requires BootOk(b) && 0 in disk && disk[0] == BootSector(b)
    ensures Open(disk).Ok? <==> Mountable(b)
    ensures Open(disk).Ok? ==> Open(disk).value == Mount(b.reserved, b.fat32, Total(b), DataStart(b), b.perCluster,
                                                         Clusters(b), b.root)
  {
    BootReads(b);
    var s := disk[0];
    assert s[510] == s[510..512][0] && s[511] == s[510..512][1];
    assert b.mark == [b.mark[0], b.mark[1]];
    AcceptedExactly(b);
  }

  lemma AcceptedExactly(b: Boot)
    requires BootOk(b)
    ensures var r := Accepted(Bpb(b.sectorSize, b.perCluster, b.reserved, b.fats, b.rootEntries, b.total16, b.fat16,
                                  b.total32, b.fat32, b.root));
            && (r.Ok? <==> Mountable(b.(mark := [0x55, 0xaa])))
            && (r.Ok? ==> r.value == Mount(b.reserved, b.fat32, Total(b), DataStart(b), b.perCluster, Clusters(b),
                                           b.root))
  {
    PowersUpTo128(b.perCluster);
    StartFits(b);
    if b.perCluster > 0 && DataStart(b) <= Total(b) {
      CountFits(Total(b) - DataStart(b), b.perCluster);
    }
  }

  lemma StartFits(b: Boot)
    ensures DataStart(b) < U64_LIMIT && Total(b) < U32_LIMIT && b.reserved <= DataStart(b)
  {
    MulLe(b.fats, 0x100, b.fat32);
    MulLe(0, b.fats, b.fat32);
  }

  lemma CountFits(sectors: nat, per: nat)
    requires per > 0
    ensures sectors / per <= sectors
  {
    DivisionBound(sectors, per);
    MulLe(1, per, sectors / per);
  }
}
