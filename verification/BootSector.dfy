/** The boot sector: the fields that the mount reads, and a sector with given fields. */
module BootSector {
  import opened Arith
  import opened Bytes
  import opened Layout

  // Boot sector offsets
  const BPB_BytsPerSec: nat := 11
  const BPB_SecPerClus: nat := 13
  const BPB_RsvdSecCnt: nat := 14
  const BPB_NumFATs: nat := 16
  const BPB_RootEntCnt: nat := 17
  const BPB_TotSec16: nat := 19
  const BPB_FATSz16: nat := 22
  const BPB_TotSec32: nat := 32
  const BPB_FATSz32: nat := 36
  const BPB_RootClus: nat := 44
  const BPB_FSInfo: nat := 48
  const BS_FilSysType: nat := 54
  const BS_FilSysType32: nat := 82
  const BS_55AA: nat := 510

  function ReadBpb(b: Sector): (p: Bpb)
  {
    Bpb(LdWord(b, BPB_BytsPerSec),
        if LdWord(b, BPB_FATSz16) != 0 then LdWord(b, BPB_FATSz16) else LdDword(b, BPB_FATSz32),
        b[BPB_NumFATs], b[BPB_SecPerClus], LdWord(b, BPB_RootEntCnt),
        if LdWord(b, BPB_TotSec16) != 0 then LdWord(b, BPB_TotSec16) else LdDword(b, BPB_TotSec32),
        LdWord(b, BPB_RsvdSecCnt), LdDword(b, BPB_RootClus))
  }

  /** Every field read from a sector fits its width. */
  lemma BpbBounds(b: Sector)
    ensures ReadBpb(b).tsect < 0x1_0000_0000 && ReadBpb(b).fsize < 0x1_0000_0000 && ReadBpb(b).nrsv < 0x1_0000
  {
    hide LdLe;
    Powers256();
    LdLeBound(b, BPB_TotSec16, 2);
    LdLeBound(b, BPB_TotSec32, 4);
    LdLeBound(b, BPB_FATSz16, 2);
    LdLeBound(b, BPB_FATSz32, 4);
    LdLeBound(b, BPB_RsvdSecCnt, 2);
  }

  /** check_fs: the signature, and "FAT" in the type string of a FAT32 boot sector. */
  predicate IsFatBoot(b: Sector) {
    LdWord(b, BS_55AA) == 0xAA55 && (LdLe(b, BS_FilSysType, 3) == 0x544146 || LdLe(b, BS_FilSysType32, 3) == 0x544146)
  }

  /** The mount uses FSINFO. */
  predicate FsInfoUsed(g: Geometry, b: Sector) {
    g.fatType == Fat32 && LdWord(b, BPB_FSInfo) == 1
  }

  // ---- writing a boot sector

  /** Value v in n bytes at offset at. */
  datatype Field = Field(at: nat, v: nat, n: nat)

  predicate FieldFits(f: Field) {
    f.at + f.n <= 512 && f.v < Power256(f.n)
  }

  predicate FieldsApart(f: Field, h: Field) {
    f.at + f.n <= h.at || h.at + h.n <= f.at
  }

  /** A zero sector with the fields stored in order. */
  function WithFields(fs: seq<Field>): (s: Sector)
    requires forall i :: 0 <= i < |fs| ==> FieldFits(fs[i])
  {
    if fs == [] then seq(512, _ => 0)
    else
      assert FieldFits(fs[|fs| - 1]);
      StLe(WithFields(fs[..|fs| - 1]), fs[|fs| - 1].at, fs[|fs| - 1].v, fs[|fs| - 1].n)
  }

  /** Fields that do not overlap read back. */
  lemma {:induction false} FieldReads(fs: seq<Field>, i: nat)
    requires i < |fs| && forall k :: 0 <= k < |fs| ==> FieldFits(fs[k])
    requires forall k :: i < k < |fs| ==> FieldsApart(fs[i], fs[k])
    ensures LdLe(WithFields(fs), fs[i].at, fs[i].n) == fs[i].v
  {
    hide StLe, LdLe;
    var last := fs[|fs| - 1];
    var rest := WithFields(fs[..|fs| - 1]);
    if i == |fs| - 1 {
      LdStLe(rest, last.at, last.v, last.n);
    } else {
      assert FieldsApart(fs[i], fs[|fs| - 1]);
      FieldReads(fs[..|fs| - 1], i);
      LdStOther(rest, last.at, last.v, last.n, fs[i].at, fs[i].n);
    }
  }

  /** Bytes outside the fields are zero. */
  lemma {:induction false} FieldsElsewhere(fs: seq<Field>, j: nat)
    requires j < 512 && forall i :: 0 <= i < |fs| ==> FieldFits(fs[i]) && !(fs[i].at <= j < fs[i].at + fs[i].n)
    ensures WithFields(fs)[j] == 0
  {
    hide StLe;
    if fs != [] {
      var last := fs[|fs| - 1];
      assert FieldFits(last);
      FieldsElsewhere(fs[..|fs| - 1], j);
      StLeFrame(WithFields(fs[..|fs| - 1]), last.at, last.v, last.n, j);
    }
  }

  /** The fields of p, with the 32-bit sizes, a FAT32 type string, and FSINFO in use. */
  function BootFields(p: Bpb): seq<Field> {
    [Field(BPB_BytsPerSec, p.bytesPerSec, 2), Field(BPB_SecPerClus, p.csize, 1), Field(BPB_RsvdSecCnt, p.nrsv, 2),
     Field(BPB_NumFATs, p.nFats, 1), Field(BPB_RootEntCnt, p.nRoot, 2), Field(BPB_TotSec16, 0, 2), Field(BPB_FATSz16, 0, 2),
     Field(BPB_TotSec32, p.tsect, 4), Field(BPB_FATSz32, p.fsize, 4), Field(BPB_RootClus, p.rootClus, 4),
     Field(BPB_FSInfo, 1, 2), Field(BS_FilSysType32, 0x544146, 3), Field(BS_55AA, 0xAA55, 2)]
  }

  predicate BpbFits(p: Bpb) {
    && p.bytesPerSec < 0x1_0000 && p.nrsv < 0x1_0000 && p.nRoot < 0x1_0000
    && p.tsect < 0x1_0000_0000 && p.fsize < 0x1_0000_0000 && p.rootClus < 0x1_0000_0000
  }

  lemma FieldsFit(p: Bpb)
    requires BpbFits(p)
    ensures forall i :: 0 <= i < |BootFields(p)| ==> FieldFits(BootFields(p)[i])
  {
    Powers256();
    assert Power256(1) == 0x100 && Power256(3) == 0x100_0000;
  }

  function MakeBoot(p: Bpb): (b: Sector)
    requires BpbFits(p)
  {
    FieldsFit(p);
    WithFields(BootFields(p))
  }

  /** The mount reads the fields that a boot sector was made from. */
  lemma BootReadsBack(p: Bpb)
    requires BpbFits(p)
    ensures ReadBpb(MakeBoot(p)) == p && IsFatBoot(MakeBoot(p)) && LdWord(MakeBoot(p), BPB_FSInfo) == 1
  {
    hide WithFields, LdLe, FieldFits;
    FieldsFit(p);
    var fs, b := BootFields(p), MakeBoot(p);
    forall i | 0 <= i < |fs|
      ensures LdLe(b, fs[i].at, fs[i].n) == fs[i].v
    {
      FieldReads(fs, i);
    }
    assert LdLe(b, fs[0].at, fs[0].n) == p.bytesPerSec;
    assert LdLe(b, fs[1].at, fs[1].n) == p.csize as int;
    assert LdLe(b, fs[2].at, fs[2].n) == p.nrsv;
    assert LdLe(b, fs[3].at, fs[3].n) == p.nFats as int;
    assert LdLe(b, fs[4].at, fs[4].n) == p.nRoot;
    assert LdLe(b, fs[5].at, fs[5].n) == 0;
    assert LdLe(b, fs[6].at, fs[6].n) == 0;
    assert LdLe(b, fs[7].at, fs[7].n) == p.tsect;
    assert LdLe(b, fs[8].at, fs[8].n) == p.fsize;
    assert LdLe(b, fs[9].at, fs[9].n) == p.rootClus;
    assert LdLe(b, fs[10].at, fs[10].n) == 1;
    assert LdLe(b, fs[11].at, fs[11].n) == 0x544146;
    assert LdLe(b, fs[12].at, fs[12].n) == 0xAA55;
    LdByte(b, BPB_SecPerClus);
    LdByte(b, BPB_NumFATs);
  }

  lemma LdByte(s: seq<Byte>, k: nat)
    requires k + 1 <= |s|
    ensures LdLe(s, k, 1) == s[k] as int
  {
    assert LdLe(s, k + 1, 0) == 0;
  }

  // ---- what the mount accepts

  /** The volume of a boot sector is laid out soundly if and only if nothing wrapped and its FAT is long enough. */
  lemma BootIsSoundIff(b: Sector, bsect: nat)
    requires Mount(ReadBpb(b), bsect).Ok?
    ensures Sound(Mount(ReadBpb(b), bsect).value, ReadBpb(b), bsect) <==> NoWrap(ReadBpb(b), bsect)
  {
    BpbBounds(b);
    MountIsSoundIff(ReadBpb(b), bsect);
  }

  /**
   * The mount has no overflow check: it accepts a boot sector with two FATs of 2^31
   * sectors, whose FAT area size wraps to zero, and the root directory lies on the
   * first FAT sector.
   */
  lemma WrappedMountIsAccepted()
    ensures exists b: Sector ::
              && IsFatBoot(b) && Mount(ReadBpb(b), 0).Ok?
              && 3 <= Mount(ReadBpb(b), 0).value.nFatent <= 0x0FFFFFF7
              && Mount(ReadBpb(b), 0).value.InFat(Mount(ReadBpb(b), 0).value.dirbase)
  {
    hide MakeBoot, ReadBpb;
    var p := Bpb(SS, 0x8000_0000, 2, 1, 16, 5, 1, 0);
    assert Times(2, p.fsize) == 0x1_0000_0000;
    assert Quot(3, 1) == 1 + Quot(2, 1) == 3;
    assert Mount(p, 0).Ok?;
    BootReadsBack(p);
  }

  lemma FarVolume(p: Bpb, bsect: nat)
    requires p == Bpb(SS, 1, 1, 1, 16, 20, 1, 0) && bsect == 0xFFFF_FFF6
    ensures Mount(p, bsect).Ok? && SysSectors(p) == 3
    ensures Mount(p, bsect).value.IsCluster(9) && ClusterNumber(Mount(p, bsect).value, 9) == 0
  {
    hide Times, Quot;
    TimesIsMul(1, 1);
    TimesIsMul(7, 1);
    TimesIsMul(17, 1);
    QuotRemUnique(17, 1, 17, 0);
    assert IsPowerOfTwo(1);
    MountedAreas(p, bsect);
    assert U32(0x1_0000_0000) == U32(0);
  }

  /** And one near the end of a disk of 2^32 sectors whose clusters lie beyond it: sector numbers start again at 0. */
  lemma WrappedClusterIsAccepted()
    ensures exists b: Sector, bsect: Dword, c: nat ::
              && IsFatBoot(b) && Mount(ReadBpb(b), bsect).Ok?
              && AreasInOrder(Mount(ReadBpb(b), bsect).value, ReadBpb(b), bsect)
              && Mount(ReadBpb(b), bsect).value.IsCluster(c) && ClusterNumber(Mount(ReadBpb(b), bsect).value, c) == 0
  {
    hide MakeBoot, ReadBpb;
    var p := Bpb(SS, 1, 1, 1, 16, 20, 1, 0);
    var bsect: Dword := 0xFFFF_FFF6;
    FarVolume(p, bsect);
    AreasInOrderIff(p, bsect);
    BootReadsBack(p);
    assert ClusterNumber(Mount(p, bsect).value, 9) == 0;
  }
}
