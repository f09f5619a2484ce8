/**
 * The on-disk formats byte by byte: what the fields, entries and slots that the other
 * modules load and store are as bytes of the medium.
 */
module DiskFormat {
  import opened Arith
  import opened Bytes
  import opened Layout
  import opened BootSector
  import opened Window
  import opened FatTable
  import opened ChainOps
  import opened FileView
  import opened FileState
  import opened FilObject
  import opened FileSync
  import opened Lfn
  import opened Directory
  import opened DirScan
  import opened DirState
  import opened DirUpdate

  /** Two bytes, the low one first. */
  function Two(s: seq<Byte>, k: nat): nat
    requires k + 2 <= |s|
  {
    s[k] as int + 0x100 * s[k + 1] as int
  }

  /** Four bytes, the lowest first. */
  function Four(s: seq<Byte>, k: nat): nat
    requires k + 4 <= |s|
  {
    s[k] as int + 0x100 * s[k + 1] as int + 0x1_0000 * s[k + 2] as int + 0x100_0000 * s[k + 3] as int
  }

  // ---- boot sector and FSINFO

  /** Where the mount finds the fields of a boot sector. */
  lemma BpbBytes(b: Sector)
    ensures var p := ReadBpb(b);
            && p.bytesPerSec == Two(b, 11) && p.csize == b[13] && p.nrsv == Two(b, 14) && p.nFats == b[16] && p.nRoot == Two(b, 17)
            && p.tsect == (if Two(b, 19) != 0 then Two(b, 19) else Four(b, 32))
            && p.fsize == (if Two(b, 22) != 0 then Two(b, 22) else Four(b, 36))
            && p.rootClus == Four(b, 44)
  {
    hide LdLe;
    LdBytes(b, 11);
    LdBytes(b, 14);
    LdBytes(b, 17);
    LdBytes(b, 19);
    LdBytes(b, 22);
    LdBytes(b, 32);
    LdBytes(b, 36);
    LdBytes(b, 44);
  }

  /** A FAT boot sector ends in 55 AA and names its file system at one of two places. */
  lemma BootSignature(b: Sector)
    ensures IsFatBoot(b) <==> b[510..] == [0x55, 0xAA] && (b[54..57] == ['F' as int, 'A' as int, 'T' as int] || b[82..85] == ['F' as int, 'A' as int, 'T' as int])
  {
    LdBytes(b, 510);
    LdThree(b, 54);
    LdThree(b, 82);
    assert b[510..] == [b[510], b[511]] && b[54..57] == [b[54], b[55], b[56]] && b[82..85] == [b[82], b[83], b[84]];
  }

  lemma LdThree(s: seq<Byte>, k: nat)
    requires k + 3 <= |s|
    ensures LdLe(s, k, 3) == s[k] as int + 0x100 * s[k + 1] as int + 0x1_0000 * s[k + 2] as int
  {
    LdBytes(s, k + 1);
    assert LdLe(s, k, 3) == s[k] as int + 0x100 * LdLe(s, k + 1, 2);
  }

  /** FSINFO is in use when the boot sector of a FAT32 volume says that it is sector 1. */
  lemma FsInfoUsedBytes(g: Geometry, b: Sector)
    ensures FsInfoUsed(g, b) <==> g.fatType == Fat32 && b[48] == 1 && b[49] == 0
  {
    LdBytes(b, 48);
  }

  /** The mount takes the counts from a sector with the three signatures. */
  lemma FsInfoBytes(s: Sector)
    ensures FsInfoOf(s).Some? <==> s[0..4] == [0x52, 0x52, 0x61, 0x41] && s[484..488] == [0x72, 0x72, 0x41, 0x61] && s[510..] == [0x55, 0xAA]
    ensures FsInfoOf(s).Some? ==> FsInfoOf(s).value == (Four(s, 488), Four(s, 492))
  {
    hide LdLe;
    LdBytes(s, 0);
    LdBytes(s, 484);
    LdBytes(s, 488);
    LdBytes(s, 492);
    LdBytes(s, 510);
    assert s[0..4] == [s[0], s[1], s[2], s[3]] && s[484..488] == [s[484], s[485], s[486], s[487]] && s[510..] == [s[510], s[511]];
  }

  /** What sync_fs writes: the signatures, the counts, and zeros. */
  lemma FsInfoSectorBytes(free: Dword, last: Dword)
    ensures var s := FsInfoSector(free, last);
            && s[0..4] == [0x52, 0x52, 0x61, 0x41] && s[484..488] == [0x72, 0x72, 0x41, 0x61] && s[510..] == [0x55, 0xAA]
            && Four(s, 488) == free && Four(s, 492) == last
            && forall j :: 4 <= j < 484 || 496 <= j < 510 ==> s[j] == 0
  {
    hide FsInfoSector, FsInfoOf;
    var s := FsInfoSector(free, last);
    FsInfoReadsBack(free, last);
    FsInfoBytes(s);
    forall j | 4 <= j < 484 || 496 <= j < 510
      ensures s[j] == 0
    {
      FsInfoZeros(free, last, j);
    }
  }

  // ---- FAT entries

  /** Byte k of the first FAT. */
  function TableByte(g: Geometry, d: Disk, k: nat): Byte
    requires k < g.fsize * 512 && g.fatbase + g.fsize <= |d|
  {
    d[g.fatbase + k / 512][k % 512]
  }

  /** FAT12: 12 bits of the two bytes at 3c/2, the low ones for even c. */
  lemma EntryBytes12(g: Geometry, d: Disk, c: nat)
    requires g.fatType == Fat12 && g.EntryInside(c) && g.fatbase + g.fsize <= |d|
    ensures var k := c * 3 / 2;
            && k + 1 < g.fsize * 512
            && var v := TableByte(g, d, k) as int + 0x100 * TableByte(g, d, k + 1) as int;
               Entry(g, d, c) == if c % 2 == 0 then v % 0x1000 else v / 0x10
  {
    hide Quot, Rem;
    var k := Geometry.Offset12(c);
    QuotRemAreDivMod(c, 2);
    QuotRemAreDivMod(k, SS);
    QuotRemAreDivMod(k + 1, SS);
    assert k == c * 3 / 2;
    var v := FatByte(g, d, k) as int + 256 * FatByte(g, d, k + 1) as int;
    QuotRemAreDivMod(v, 16);
    QuotRemAreDivMod(v, 0x1000);
  }

  /** FAT16: the two bytes at 2c. */
  lemma EntryBytes16(g: Geometry, d: Disk, c: nat)
    requires g.fatType == Fat16 && g.EntryInside(c) && g.fatbase + g.fsize <= |d|
    ensures 2 * c + 1 < g.fsize * 512
    ensures Entry(g, d, c) == TableByte(g, d, 2 * c) as int + 0x100 * TableByte(g, d, 2 * c + 1) as int
  {
    hide Quot, Rem, LdLe;
    QuotRemAreDivMod(c, SS / 2);
    QuotRemAreDivMod(c * 2, SS);
    LdBytes(d[g.fatbase + Quot(c, SS / 2)], Rem(c * 2, SS));
  }

  /** FAT32: 28 bits of the four bytes at 4c. */
  lemma EntryBytes32(g: Geometry, d: Disk, c: nat)
    requires g.fatType == Fat32 && g.EntryInside(c) && g.fatbase + g.fsize <= |d|
    ensures 4 * c + 3 < g.fsize * 512
    ensures Entry(g, d, c) == (TableByte(g, d, 4 * c) as int + 0x100 * TableByte(g, d, 4 * c + 1) as int
                               + 0x1_0000 * TableByte(g, d, 4 * c + 2) as int + 0x100_0000 * TableByte(g, d, 4 * c + 3) as int) % 0x1000_0000
  {
    hide Quot, Rem, LdLe;
    var s, k := g.fatbase + Quot(c, SS / 4), Rem(c * 4, SS);
    QuotRemAreDivMod(c, SS / 4);
    QuotRemAreDivMod(c * 4, SS);
    InOneSector(c, 0);
    InOneSector(c, 1);
    InOneSector(c, 2);
    InOneSector(c, 3);
    var v := LdDword(d[s], k);
    assert v == TableByte(g, d, 4 * c) as int + 0x100 * TableByte(g, d, 4 * c + 1) as int
                + 0x1_0000 * TableByte(g, d, 4 * c + 2) as int + 0x100_0000 * TableByte(g, d, 4 * c + 3) as int by {
      LdBytes(d[s], k);
    }
    QuotRemAreDivMod(v, 0x1000_0000);
  }

  lemma InOneSector(c: nat, i: nat)
    requires i < 4
    ensures (4 * c + i) / 512 == c / 128 && (4 * c + i) % 512 == c * 4 % 512 + i
  {
    var q, r := c / 128, c % 128;
    OfSector(q, 4 * r);
    OfSector(q, 4 * r + i);
  }

  lemma OfSector(q: nat, r: nat)
    requires r < 512
    ensures (512 * q + r) / 512 == q && (512 * q + r) % 512 == r
  {
  }

  /** The end mark has all bits of the entry set. */
  lemma EndMarkBits(g: Geometry)
    ensures EndMark(g) == match g.fatType case Fat12 => 0xFFF case Fat16 => 0xFFFF case Fat32 => 0x0FFF_FFFF
  {
    match g.fatType
    case Fat12 => Join(0x0FFF_FFFF, 0x1000, 0xFFFF, 0xFFF);
    case Fat16 => Join(0x0FFF_FFFF, 0x1_0000, 0xFFF, 0xFFFF);
    case Fat32 =>
  }

  /** The start cluster in a directory entry: two bytes, and two more on FAT32 only. */
  lemma ClusterBytes(g: Geometry, s: Sector, k: nat)
    requires k + 32 <= 512
    ensures LdClust(g, s, k) == Two(s, k + 26) + if g.fatType == Fat32 then 0x1_0000 * Two(s, k + 20) else 0
  {
    hide LdLe;
    LdBytes(s, k + 20);
    LdBytes(s, k + 26);
  }

  /** Cluster c starts at this sector of the medium. */
  lemma ClusterSector(p: Bpb, bsect: nat, c: nat)
    requires Mount(p, bsect).Ok? && NoWrap(p, bsect) && p.tsect < 0x1_0000_0000 && c >= 2
    ensures Mount(p, bsect).value.ClusterBase(c) == bsect + p.nrsv + p.nFats * p.fsize + p.nRoot / 16 + (c - 2) * p.csize
  {
    hide Mount, Times, NoWrap, ClustersReached, TableInside, ClusterCount;
    var g := Mount(p, bsect).value;
    MountIsSoundIff(p, bsect);
    MountedSizes(p, bsect);
    FatAreaIsProduct(g);
    TimesIsMul(g.nFats, g.fsize);
    TimesIsMul(c - 2, g.csize);
  }

  lemma MountedSizes(p: Bpb, bsect: nat)
    requires Mount(p, bsect).Ok?
    ensures var g := Mount(p, bsect).value; (g.nFats == 1 || g.nFats == 2) && g.csize == p.csize && g.nFats == p.nFats && g.fsize == p.fsize && g.nRootdir == p.nRoot
  {
    hide Times, Quot, U32, IsPowerOfTwo, NeededFat;
  }

  // ---- directory slots

  /** Where a directory starts: at its start cluster; the root at the cluster the boot sector names, or in the fixed area. */
  lemma TableStart(g: Geometry, t: seq<nat>, d: Disk, sclust: nat, ch: seq<nat>)
    requires DirBased(g, t, d, sclust, ch)
    ensures Clusters(g, ch)
    ensures sclust != 0 ==> |ch| > 0 && ch[0] == sclust
    ensures sclust == 0 && g.fatType == Fat32 ==> |ch| > 0 && ch[0] == g.dirbase
    ensures sclust == 0 && g.fatType != Fat32 ==> ch == []
  {
  }

  /** The sectors of a directory: the fixed root area, or cluster by cluster; sector o of cluster k comes k clusters and o sectors in. */
  lemma TableSectors(g: Geometry, t: seq<nat>, d: Disk, sclust: nat, ch: seq<nat>, k: nat, o: nat, q: nat)
    requires DirBased(g, t, d, sclust, ch) && Clusters(g, ch) && k < |ch| && o < g.csize && q == k * g.csize + o
    ensures |DirSecs(g, ch)| == |ch| * g.csize && q < |DirSecs(g, ch)|
    ensures DirSecs(g, ch)[q] == g.database + (ch[k] - 2) * g.csize + o
  {
    hide Geometry.Valid, Geometry.RootFits, ChainOf, Quot, Rem, Times;
    TimesIsMul(|ch|, g.csize);
    TimesIsMul(k, g.csize);
    TimesIsMul(ch[k] - 2, g.csize);
    TimesMonotone(k, |ch|, g.csize);
    QuotRemUnique(q, g.csize, k, o);
    SectorAt(g, ch, q);
  }

  lemma RootSectors(g: Geometry, q: nat)
    requires q < g.nRootdir / 16
    ensures |DirSecs(g, [])| == g.nRootdir / 16 && DirSecs(g, [])[q] == g.dirbase + q
  {
  }

  /** Slot i of a directory: 16 slots of 32 bytes in a sector, 65536 slots at most. */
  lemma ListingBytes(g: Geometry, t: seq<nat>, d: Disk, sclust: nat, ch: seq<nat>, i: nat)
    requires DirBased(g, t, d, sclust, ch) && Clusters(g, ch)
    ensures var x, secs := Listing(g, t, d, sclust, ch), DirSecs(g, ch);
            && |x| == (if 16 * |secs| < 65536 then 16 * |secs| else 65536)
            && (i < |x| ==> i / 16 < |secs| && secs[i / 16] < |d| && x[i] == d[secs[i / 16]][i % 16 * 32..i % 16 * 32 + 32])
  {
    hide Quot, Rem, DirBased, Clusters;
    DirSecsPlaced(g, t, d, sclust, ch);
    var x, secs := Listing(g, t, d, sclust, ch), DirSecs(g, ch);
    if i < |x| {
      SlotSector(|secs|, i);
      QuotRemAreDivMod(i, 16);
      assert x[i] == SlotAt(d, secs, i);
      var s, k := d[secs[i / 16]], i % 16 * 32;
      assert s[k..][..32] == s[k..k + 32];
    }
  }

  /** The 13 places of a long slot's characters. */
  const PLACES: seq<nat> := [1, 3, 5, 7, 9, 14, 16, 18, 20, 22, 24, 28, 30]

  /** Character p of a long name as its slots hold it: a terminator follows the name, then filler. */
  function Held(name: seq<nat>, p: nat): nat {
    if p < |name| then name[p] else if p == |name| then 0 else 0xFFFF
  }

  /** The slot of part ord of a long name: every one of its 32 bytes is determined. */
  lemma LongSlotBytes(s: Slot, name: seq<nat>, ord: nat, sum: Byte)
    ensures Fits(s, name, ord, sum) <==>
            && 1 <= ord <= 20
            && s[0] == (if |name| <= 13 * ord then 0x40 + ord else ord)
            && s[11..14] == [0x0F, 0, sum] && s[26..28] == [0, 0]
            && forall c :: 0 <= c < 13 ==> Two(s, PLACES[c]) == Held(name, 13 * (ord - 1) + c)
  {
    hide LdLe;
    LdBytes(s, 26);
    assert s[11..14] == [s[11], s[12], s[13]] && s[26..28] == [s[26], s[27]];
    forall c | 0 <= c < 13
      ensures Unit(s, c) == Two(s, PLACES[c])
    {
      LdBytes(s, PLACES[c]);
    }
  }

  /** A long name of n characters takes the fewest slots of 13 that hold it. */
  lemma SlotsNeeded(n: nat)
    requires 0 < n <= 255
    ensures 1 <= SlotCount(n) <= 20 && 13 * (SlotCount(n) - 1) < n <= 13 * SlotCount(n)
  {
    SlotCounts(n);
  }

  function RotatedRight(a: bv8): bv8 {
    (a >> 1) | (a << 7)
  }

  /** The checksum of a short name from byte k on: rotate right by one bit and add the next byte, modulo 256. */
  function RotatingSum(s: seq<Byte>, k: nat, sum: Byte): (r: Byte)
    requires k <= 11 <= |s|
    decreases 11 - k
  {
    if k == 11 then sum else RotatingSum(s, k + 1, (RotatedRight(Bits(sum)) as int + s[k]) % 256)
  }

  lemma {:induction false} SumIsRotating(s: seq<Byte>, k: nat, sum: Byte)
    requires k <= 11 <= |s|
    ensures SumFrom(s, k, sum) == RotatingSum(s, k, sum)
    decreases 11 - k
  {
    hide Bits, Quot, Rem, RotatedRight;
    if k < 11 {
      Split(sum, 2);
      SumStep(sum, s[k]);
      SumIsRotating(s, k + 1, Rem(Quot(sum, 2) + Rem(sum, 2) * 128 + s[k] as int, 256));
    }
  }

  lemma SumStep(a: Byte, b: Byte)
    ensures Rem(Quot(a, 2) + Rem(a, 2) * 128 + b as int, 256) == (RotatedRight(Bits(a)) as int + b) % 256
  {
    hide Bits, Quot, Rem, RotatedRight;
    RotateByte(Bits(a));
    QuotRemAreDivMod(a, 2);
    QuotRemAreDivMod(a as int / 2 + a as int % 2 * 128 + b as int, 256);
  }

  lemma RotateByte(a: bv8)
    ensures RotatedRight(a) as int == a as int / 2 + a as int % 2 * 128
  {
    HalfOf(a);
    LowBitUp(a);
    if a << 7 != 0 {
      TopBit(a);
      WithTopBit(a >> 1);
    }
  }

  lemma HalfOf(a: bv8)
    ensures (a >> 1) as int == a as int / 2
  {
  }

  lemma LowBitUp(a: bv8)
    ensures (a << 7) as int == a as int % 2 * 128
  {
  }

  lemma TopBit(a: bv8)
    requires a << 7 != 0
    ensures a << 7 == 128 && a >> 1 < 128
  {
  }

  lemma WithTopBit(a: bv8)
    requires a < 128
    ensures (a | 128) as int == a as int + 128
  {
  }

  /** What the flag byte of a short name says: bit 0 a lossy name, bit 1 a long name, bits 3 and 4 the case flags. */
  lemma FlagBits(b: Byte)
    ensures Flag(b, NS_LOSS) <==> Bits(b) & 0x01 != 0
    ensures Flag(b, NS_LFN) <==> Bits(b) & 0x02 != 0
    ensures Bits(CaseBits(b)) == Bits(b) & 0x18
  {
    hide Bits, Quot, Rem;
    FlagsAsNumbers(Bits(b));
    QuotRemAreDivMod(b, 1);
    QuotRemAreDivMod(b, 2);
    QuotRemAreDivMod(Quot(b, 1), 2);
    QuotRemAreDivMod(Quot(b, 2), 2);
    QuotRemAreDivMod(b, 8);
    QuotRemAreDivMod(Quot(b, 8), 4);
    SameBits(Bits(CaseBits(b)), Bits(b) & 0x18);
  }

  lemma FlagsAsNumbers(v: bv8)
    ensures v & 0x01 != 0 <==> v as int % 2 == 1
    ensures v & 0x02 != 0 <==> v as int / 2 % 2 == 1
    ensures (v & 0x18) as int == v as int / 8 % 4 * 8
  {
    BitZero(v);
    BitOne(v);
    BitsThreeFour(v);
  }

  lemma BitZero(v: bv8)
    ensures v & 0x01 != 0 <==> v as int % 2 == 1
  {
  }

  lemma BitOne(v: bv8)
    ensures v & 0x02 != 0 <==> v as int / 2 % 2 == 1
  {
  }

  lemma BitsThreeFour(v: bv8)
    ensures (v & 0x18) as int == v as int / 8 % 4 * 8
  {
  }

  /** What dir_register writes for a short name: the name, no attribute, the case flags, zeros. */
  lemma ShortSlotBytes(e: seq<Slot>, fn: seq<Byte>, name: seq<nat>)
    requires Written(e, fn, name)
    ensures |fn| == 12 && |e| == (if Bits(fn[11]) & 0x02 != 0 then SlotCount(|name|) + 1 else 1)
    ensures var s := e[|e| - 1];
            && s[..11] == fn[..11] && s[11] == 0 && Bits(s[12]) == Bits(fn[11]) & 0x18
            && forall j :: 13 <= j < 32 ==> s[j] == 0
  {
    hide Bits, Flag, CaseBits;
    FlagBits(fn[11]);
  }

  /** A deleted slot: the mark 0xE5 and zeros. dir_alloc takes such slots again, and unused ones. */
  lemma DeletedBytes(s: Slot)
    ensures s == DeletedSlot() <==> s[0] == 0xE5 && forall j :: 1 <= j < 32 ==> s[j] == 0
    ensures IsFree(s) <==> s[0] == 0xE5 || s[0] == 0
  {
    assert DeletedSlot() == s <==> forall j :: 0 <= j < 32 ==> s[j] == DeletedSlot()[j];
  }
}
