/**
 * get_fat and put_fat: through the window they read and write an array of cluster
 * values, whatever the entry width.
 */
module FatTable {
  import opened Arith
  import opened Bytes
  import opened Layout
  import opened Window

  /** Whether d is large enough for the volume. */
  ghost predicate Holds(g: Geometry, d: Disk) {
    g.Valid() && g.VolumeEnd() <= |d|
  }

  /** Byte k of the first FAT copy. */
  function FatByte(g: Geometry, d: Disk, k: nat): Byte
    requires Quot(k, SS) < g.fsize && g.fatbase + g.fsize <= |d|
  {
    d[g.fatbase + Quot(k, SS)][Rem(k, SS)]
  }

  /** A 12-bit entry from the two bytes it straddles: (b1 << 8 | b0) >> 4 for odd entries, & 0xFFF for even ones. */
  function Unpack12(odd: bool, b0: Byte, b1: Byte): (r: nat)
  {
    if odd then Quot(b0 as int + 256 * b1 as int, 16) else Rem(b0 as int + 256 * b1 as int, 0x1000)
  }

  /** A FAT12 entry straddles two bytes, shared with its neighbours. */
  function Entry12(g: Geometry, d: Disk, c: nat): (r: nat)
    requires Quot(Geometry.Offset12(c), SS) < g.fsize && Quot(Geometry.Offset12(c) + 1, SS) < g.fsize
    requires g.fatbase + g.fsize <= |d|
  {
    var bc := Geometry.Offset12(c);
    Unpack12(Rem(c, 2) == 1, FatByte(g, d, bc), FatByte(g, d, bc + 1))
  }

  /** The value of FAT entry c on the disk d. */
  function Entry(g: Geometry, d: Disk, c: nat): (r: nat)
    requires g.EntryInside(c) && g.fatbase + g.fsize <= |d|
  {
    match g.fatType
    case Fat12 => Entry12(g, d, c)
    case Fat16 => LdWord(d[g.fatbase + Quot(c, SS / 2)], Rem(c * 2, SS))
    case Fat32 => Rem(LdDword(d[g.fatbase + Quot(c, SS / 4)], Rem(c * 4, SS)), 0x1000_0000)
  }

  function EntryLimit(g: Geometry): (r: nat)
    ensures r > 0
  {
    match g.fatType
    case Fat12 => 0x1000
    case Fat16 => 0x1_0000
    case Fat32 => 0x1000_0000
  }

  /** The reserved top four bits of a FAT32 entry. */
  function Reserved(g: Geometry, d: Disk, c: nat): (r: nat)
    requires g.EntryInside(c) && g.fatbase + g.fsize <= |d| && g.fatType == Fat32
  {
    Quot(LdDword(d[g.fatbase + Quot(c, SS / 4)], Rem(c * 4, SS)), 0x1000_0000)
  }

  /** The whole FAT as an array of cluster values. */
  ghost function Table(g: Geometry, d: Disk): (t: seq<nat>)
    requires Holds(g, d)
    ensures |t| == g.nFatent
    ensures forall c {:trigger t[c]} {:trigger Entry(g, d, c)} ::
              0 <= c < g.nFatent ==> g.EntryInside(c) && t[c] == Entry(g, d, c)
  {
    seq(g.nFatent, c requires 0 <= c < g.nFatent => assert g.EntryInside(c); Entry(g, d, c))
  }

  /** Only FAT sectors differ. */
  ghost predicate OnlyFat(g: Geometry, d: Disk, e: Disk) {
    |e| == |d| && forall s :: 0 <= s < |d| && !(g.fatbase <= s < g.fatbase + g.FatArea()) ==> e[s] == d[s]
  }

  /** d and e hold the same FAT values except that entry c of e is v. */
  ghost predicate EntrySet(g: Geometry, d: Disk, e: Disk, c: nat, v: nat)
    requires Holds(g, d) && c < g.nFatent
  {
    && Holds(g, e) && OnlyFat(g, d, e)
    && g.EntryInside(c) && Entry(g, e, c) == v
    && (forall i :: 0 <= i < g.nFatent && i != c ==> g.EntryInside(i) && Entry(g, e, i) == Entry(g, d, i))
    && (g.fatType == Fat32 ==>
          forall i :: 0 <= i < g.nFatent ==> g.EntryInside(i) && Reserved(g, e, i) == Reserved(g, d, i))
  }

  lemma EntrySetTable(g: Geometry, d: Disk, e: Disk, c: nat, v: nat)
    requires Holds(g, d) && c < g.nFatent && EntrySet(g, d, e, c, v)
    ensures Table(g, e) == Table(g, d)[c := v]
  {
  }

  lemma PutInFat(g: Geometry, d: Disk, s: nat, w: Sector)
    requires Holds(g, d) && g.InFat(s)
    ensures Holds(g, Put(g, d, s, w)) && OnlyFat(g, d, Put(g, d, s, w))
  {
  }

  // ---- replacing one FAT byte

  ghost function SetFatByte(g: Geometry, d: Disk, k: nat, v: Byte): (e: Disk)
    requires Holds(g, d) && Quot(k, SS) < g.fsize
    ensures Holds(g, e) && OnlyFat(g, d, e)
  {
    Put(g, d, g.fatbase + Quot(k, SS), d[g.fatbase + Quot(k, SS)][Rem(k, SS) := v])
  }

  lemma SetFatByteAt(g: Geometry, d: Disk, k: nat, v: Byte, j: nat)
    requires Holds(g, d) && Quot(k, SS) < g.fsize && Quot(j, SS) < g.fsize
    ensures FatByte(g, SetFatByte(g, d, k, v), j) == if j == k then v else FatByte(g, d, j)
  {
    QuotRem(j, SS);
    QuotRem(k, SS);
  }

  // ---- FAT12: two bytes, each shared with a neighbour

  /** The byte put_fat stores first: odd entries keep the low nibble of their first byte. */
  function First12(odd: bool, old0: Byte, v: nat): Byte {
    if odd then Rem(old0, 16) + 16 * Rem(v, 16) else Rem(v, 256)
  }

  /** The byte put_fat stores second: even entries keep the high nibble of their second byte. */
  function Second12(odd: bool, old1: Byte, v: nat): Byte {
    Split(old1, 16);
    if odd then Rem(Quot(v, 16), 256) else 16 * Quot(old1, 16) + Rem(Quot(v, 256), 16)
  }

  lemma Packed12Odd(b0: Byte, b1: Byte, v: nat)
    ensures Unpack12(true, First12(true, b0, v), Second12(true, b1, v)) == Rem(v, 0x1000)
  {
    var x0, x1 := First12(true, b0, v), Second12(true, b1, v);
    Split(v, 16);
    Split(Quot(v, 16), 256);
    Join(v, 0x1000, Quot(Quot(v, 16), 256), 16 * x1 + Rem(v, 16));
    Join(x0 as int + 256 * x1 as int, 16, Rem(v, 16) + 16 * x1, Rem(b0, 16));
  }

  lemma Packed12Even(b0: Byte, b1: Byte, v: nat)
    ensures Unpack12(false, First12(false, b0, v), Second12(false, b1, v)) == Rem(v, 0x1000)
  {
    var x0, x1 := First12(false, b0, v), Second12(false, b1, v);
    Split(v, 256);
    Split(Quot(v, 256), 16);
    var low := 256 * Rem(Quot(v, 256), 16) + x0;
    Join(v, 0x1000, Quot(Quot(v, 256), 16), low);
    Join(x0 as int + 256 * x1 as int, 0x1000, Quot(b1, 16), low);
  }

  /** An even entry sees only the low nibble of its second byte. */
  lemma SharedLow(b0: Byte, b1: Byte, c1: Byte)
    requires Rem(b1, 16) == Rem(c1, 16)
    ensures Unpack12(false, b0, b1) == Unpack12(false, b0, c1)
  {
    Split(b1, 16);
    Split(c1, 16);
    var low := 256 * Rem(b1, 16) + b0;
    Join(b0 as int + 256 * b1 as int, 0x1000, Quot(b1, 16), low);
    Join(b0 as int + 256 * c1 as int, 0x1000, Quot(c1, 16), low);
  }

  /** An odd entry sees only the high nibble of its first byte. */
  lemma SharedHigh(b0: Byte, c0: Byte, b1: Byte)
    requires Quot(b0, 16) == Quot(c0, 16)
    ensures Unpack12(true, b0, b1) == Unpack12(true, c0, b1)
  {
    Split(b0, 16);
    Split(c0, 16);
    Join(b0 as int + 256 * b1 as int, 16, Quot(b0, 16) + 16 * b1, Rem(b0, 16));
    Join(c0 as int + 256 * b1 as int, 16, Quot(b0, 16) + 16 * b1, Rem(c0, 16));
  }

  lemma KeptNibbles(b: Byte, v: nat)
    ensures Rem(First12(true, b, v), 16) == Rem(b, 16)
    ensures Quot(Second12(false, b, v), 16) == Quot(b, 16)
  {
    Join(First12(true, b, v), 16, Rem(v, 16), Rem(b, 16));
    Join(Second12(false, b, v), 16, Quot(b, 16), Rem(Quot(v, 256), 16));
  }

  /** f is d with the two bytes of FAT12 entry c stored as put_fat does. */
  ghost predicate Bytes12(g: Geometry, d: Disk, f: Disk, c: nat, v: nat)
    requires Holds(g, d) && g.fatType == Fat12 && g.EntryInside(c)
  {
    var bc := Geometry.Offset12(c);
    var odd := Rem(c, 2) == 1;
    && Holds(g, f) && OnlyFat(g, d, f)
    && FatByte(g, f, bc) == First12(odd, FatByte(g, d, bc), v)
    && FatByte(g, f, bc + 1) == Second12(odd, FatByte(g, d, bc + 1), v)
    && (forall j: nat :: Quot(j, SS) < g.fsize && j != bc && j != bc + 1 ==> FatByte(g, f, j) == FatByte(g, d, j))
  }

  /** The disk after put_fat stored both bytes of a FAT12 entry. */
  ghost function Stored12(g: Geometry, d: Disk, c: nat, v: nat): (f: Disk)
    requires Holds(g, d) && g.fatType == Fat12 && g.EntryInside(c)
  {
    var bc := Geometry.Offset12(c);
    var odd := Rem(c, 2) == 1;
    var e := SetFatByte(g, d, bc, First12(odd, FatByte(g, d, bc), v));
    SetFatByte(g, e, bc + 1, Second12(odd, FatByte(g, e, bc + 1), v))
  }

  lemma StoredBytes12(g: Geometry, d: Disk, c: nat, v: nat)
    requires Holds(g, d) && g.fatType == Fat12 && g.EntryInside(c)
    ensures Bytes12(g, d, Stored12(g, d, c, v), c, v)
  {
    hide FatByte, SetFatByte, Quot, Rem, First12, Second12;
    var bc := Geometry.Offset12(c);
    var odd := Rem(c, 2) == 1;
    var x0 := First12(odd, FatByte(g, d, bc), v);
    var e := SetFatByte(g, d, bc, x0);
    var x1 := Second12(odd, FatByte(g, e, bc + 1), v);
    forall j: nat | Quot(j, SS) < g.fsize
      ensures FatByte(g, SetFatByte(g, e, bc + 1, x1), j)
              == if j == bc then x0 else if j == bc + 1 then x1 else FatByte(g, d, j)
    {
      SetFatByteAt(g, d, bc, x0, j);
      SetFatByteAt(g, e, bc + 1, x1, j);
    }
    SetFatByteAt(g, d, bc, x0, bc + 1);
  }

  /** Consecutive FAT12 entries start one or two bytes apart. */
  lemma Offsets12(c: nat, i: nat)
    requires i != c
    ensures var bc, bi := Geometry.Offset12(c), Geometry.Offset12(i);
            && bi != bc
            && (bi + 1 == bc ==> Rem(c, 2) == 1 && Rem(i, 2) == 0)
            && (bi == bc + 1 ==> Rem(c, 2) == 0 && Rem(i, 2) == 1)
  {
    Split(c, 2);
    Split(i, 2);
  }

  /** Changing entry c leaves entry i alone, even when they share a byte. */
  lemma Neighbour12(g: Geometry, d: Disk, f: Disk, c: nat, v: nat, i: nat)
    requires Holds(g, d) && g.fatType == Fat12 && g.EntryInside(c) && g.EntryInside(i) && i != c
    requires Bytes12(g, d, f, c, v)
    ensures Entry12(g, f, i) == Entry12(g, d, i)
  {
    var bi, bc := Geometry.Offset12(i), Geometry.Offset12(c);
    Offsets12(c, i);
    if bi + 1 == bc {
      KeptNibbles(FatByte(g, d, bc), v);
      SharedLow(FatByte(g, d, bi), FatByte(g, d, bc), FatByte(g, f, bc));
    } else if bi == bc + 1 {
      KeptNibbles(FatByte(g, d, bi), v);
      SharedHigh(FatByte(g, d, bi), FatByte(g, f, bi), FatByte(g, d, bi + 1));
    }
  }

  lemma Put12(g: Geometry, d: Disk, f: Disk, c: nat, v: nat)
    requires Holds(g, d) && g.fatType == Fat12 && c < g.nFatent && g.EntryInside(c)
    requires Bytes12(g, d, f, c, v)
    ensures EntrySet(g, d, f, c, Rem(v, 0x1000))
  {
    var bc := Geometry.Offset12(c);
    if Rem(c, 2) == 1 {
      Packed12Odd(FatByte(g, d, bc), FatByte(g, d, bc + 1), v);
    } else {
      Packed12Even(FatByte(g, d, bc), FatByte(g, d, bc + 1), v);
    }
    forall i | 0 <= i < g.nFatent && i != c
      ensures g.EntryInside(i) && Entry(g, f, i) == Entry(g, d, i)
    {
      assert g.EntryInside(i);
      Neighbour12(g, d, f, c, v, i);
    }
  }

  // ---- FAT16 and FAT32: one aligned field of one sector

  lemma Field16(c: nat)
    ensures Rem(c * 2, SS) == 2 * Rem(c, SS / 2)
  {
    Split(c, 256);
    Join(c * 2, 512, Quot(c, 256), 2 * Rem(c, 256));
  }

  lemma Field32(c: nat)
    ensures Rem(c * 4, SS) == 4 * Rem(c, SS / 4)
  {
    Split(c, 128);
    Join(c * 4, 512, Quot(c, 128), 4 * Rem(c, 128));
  }

  /** Two entries in the same sector occupy different fields of it. */
  lemma OtherField16(c: nat, i: nat)
    requires c != i && Quot(c, SS / 2) == Quot(i, SS / 2)
    ensures Rem(i * 2, SS) + 2 <= Rem(c * 2, SS) || Rem(c * 2, SS) + 2 <= Rem(i * 2, SS)
  {
    Field16(c);
    Field16(i);
    Split(c, 256);
    Split(i, 256);
  }

  lemma OtherField32(c: nat, i: nat)
    requires c != i && Quot(c, SS / 4) == Quot(i, SS / 4)
    ensures Rem(i * 4, SS) + 4 <= Rem(c * 4, SS) || Rem(c * 4, SS) + 4 <= Rem(i * 4, SS)
  {
    Field32(c);
    Field32(i);
    Split(c, 128);
    Split(i, 128);
  }

  /** Storing the field of entry c leaves the other fields of its sector. */
  lemma Stored16(s: Sector, c: nat, v: nat, i: nat)
    requires Rem(c * 2, SS) <= SS - 2 && Rem(i * 2, SS) <= SS - 2
    requires Quot(c, SS / 2) == Quot(i, SS / 2)
    ensures LdWord(StWord(s, Rem(c * 2, SS), v), Rem(i * 2, SS))
            == if i == c then Rem(v, 0x1_0000) else LdWord(s, Rem(i * 2, SS))
  {
    if i == c {
      Powers256();
      LdStLe(s, Rem(c * 2, SS), v, 2);
    } else {
      OtherField16(c, i);
      LdStOther(s, Rem(c * 2, SS), v, 2, Rem(i * 2, SS), 2);
    }
  }

  lemma Entry16After(g: Geometry, d: Disk, c: nat, v: nat, i: nat)
    requires Holds(g, d) && g.fatType == Fat16 && g.EntryInside(c) && g.EntryInside(i)
    ensures var s := g.fatbase + Quot(c, SS / 2);
            Entry(g, Put(g, d, s, StWord(d[s], Rem(c * 2, SS), v)), i)
            == if i == c then Rem(v, 0x1_0000) else Entry(g, d, i)
  {
    hide StLe, LdLe, Rem, Quot;
    if Quot(c, SS / 2) == Quot(i, SS / 2) {
      Stored16(d[g.fatbase + Quot(c, SS / 2)], c, v, i);
    }
  }

  lemma Put16(g: Geometry, d: Disk, c: nat, v: nat)
    requires Holds(g, d) && g.fatType == Fat16 && c < g.nFatent && g.EntryInside(c)
    ensures var s := g.fatbase + Quot(c, SS / 2);
            EntrySet(g, d, Put(g, d, s, StWord(d[s], Rem(c * 2, SS), v)), c, Rem(v, 0x1_0000))
  {
    hide StLe, LdLe, Rem, Quot, Put;
    var s := g.fatbase + Quot(c, SS / 2);
    PutInFat(g, d, s, StWord(d[s], Rem(c * 2, SS), v));
    Entry16After(g, d, c, v, c);
    forall i | 0 <= i < g.nFatent && i != c
      ensures g.EntryInside(i) && Entry(g, Put(g, d, s, StWord(d[s], Rem(c * 2, SS), v)), i) == Entry(g, d, i)
    {
      assert g.EntryInside(i);
      Entry16After(g, d, c, v, i);
    }
  }

  /** A FAT32 field is its entry plus its reserved bits above. */
  lemma Field32Parts(v: nat, r: nat)
    requires v < 0x1000_0000 && r < 16
    ensures Rem(v + 0x1000_0000 * r, 0x1_0000_0000) == v + 0x1000_0000 * r
    ensures Rem(v + 0x1000_0000 * r, 0x1000_0000) == v
    ensures Quot(v + 0x1000_0000 * r, 0x1000_0000) == r
  {
    Join(v + 0x1000_0000 * r, 0x1000_0000, r, v);
    Join(v + 0x1000_0000 * r, 0x1_0000_0000, 0, v + 0x1000_0000 * r);
  }

  /** The DWORD that holds FAT32 entry c. */
  ghost function Raw32(g: Geometry, d: Disk, c: nat): nat
    requires g.fatType == Fat32 && g.EntryInside(c) && g.fatbase + g.fsize <= |d|
  {
    LdDword(d[g.fatbase + Quot(c, SS / 4)], Rem(c * 4, SS))
  }

  lemma ReservedBits(g: Geometry, d: Disk, c: nat)
    requires g.EntryInside(c) && g.fatbase + g.fsize <= |d| && g.fatType == Fat32
    ensures Reserved(g, d, c) < 16
  {
    Powers256();
    LdLeBound(d[g.fatbase + Quot(c, SS / 4)], Rem(c * 4, SS), 4);
    Split(Raw32(g, d, c), 0x1000_0000);
  }

  /** Replacing a FAT sector by one that differs only in the field of entry c. */
  lemma Raw32After(g: Geometry, d: Disk, c: nat, w: Sector, i: nat)
    requires Holds(g, d) && g.fatType == Fat32 && g.EntryInside(c) && g.EntryInside(i)
    requires Quot(c, SS / 4) == Quot(i, SS / 4) && i != c ==>
               LdDword(w, Rem(i * 4, SS)) == LdDword(d[g.fatbase + Quot(c, SS / 4)], Rem(i * 4, SS))
    ensures Raw32(g, Put(g, d, g.fatbase + Quot(c, SS / 4), w), i)
            == if i == c then LdDword(w, Rem(c * 4, SS)) else Raw32(g, d, i)
  {
    hide LdLe, Rem, Quot;
  }

  lemma Own32(g: Geometry, d: Disk, c: nat, v: nat, w: Sector)
    requires Holds(g, d) && g.fatType == Fat32 && g.EntryInside(c) && v < 0x1000_0000
    requires LdDword(w, Rem(c * 4, SS)) == v + 0x1000_0000 * Reserved(g, d, c)
    ensures var e := Put(g, d, g.fatbase + Quot(c, SS / 4), w);
            Rem(Raw32(g, e, c), 0x1000_0000) == v && Quot(Raw32(g, e, c), 0x1000_0000) == Reserved(g, d, c)
  {
    ReservedBits(g, d, c);
    Field32Parts(v, Reserved(g, d, c));
    Raw32After(g, d, c, w, c);
  }

  lemma Put32(g: Geometry, d: Disk, c: nat, v: nat, w: Sector)
    requires Holds(g, d) && g.fatType == Fat32 && c < g.nFatent && g.EntryInside(c) && v < 0x1000_0000
    requires LdDword(w, Rem(c * 4, SS)) == v + 0x1000_0000 * Reserved(g, d, c)
    requires forall i: nat :: g.EntryInside(i) && i != c && Quot(c, SS / 4) == Quot(i, SS / 4) ==>
               LdDword(w, Rem(i * 4, SS)) == LdDword(d[g.fatbase + Quot(c, SS / 4)], Rem(i * 4, SS))
    ensures EntrySet(g, d, Put(g, d, g.fatbase + Quot(c, SS / 4), w), c, v)
  {
    hide Quot, Rem, LdLe;
    var s := g.fatbase + Quot(c, SS / 4);
    PutInFat(g, d, s, w);
    Own32(g, d, c, v, w);
    forall i | 0 <= i < g.nFatent && i != c
      ensures g.EntryInside(i) && Raw32(g, Put(g, d, s, w), i) == Raw32(g, d, i)
    {
      assert g.EntryInside(i);
      Raw32After(g, d, c, w, i);
    }
    Fields32(g, d, Put(g, d, s, w), c, v);
  }

  lemma Fields32(g: Geometry, d: Disk, e: Disk, c: nat, v: nat)
    requires Holds(g, d) && Holds(g, e) && OnlyFat(g, d, e) && g.fatType == Fat32 && c < g.nFatent
    requires g.EntryInside(c)
    requires Rem(Raw32(g, e, c), 0x1000_0000) == v && Quot(Raw32(g, e, c), 0x1000_0000) == Reserved(g, d, c)
    requires forall i :: 0 <= i < g.nFatent && i != c ==> g.EntryInside(i) && Raw32(g, e, i) == Raw32(g, d, i)
    ensures EntrySet(g, d, e, c, v)
  {
    forall i | 0 <= i < g.nFatent && i != c
      ensures g.EntryInside(i) && Entry(g, e, i) == Entry(g, d, i) && Reserved(g, e, i) == Reserved(g, d, i)
    {
      assert Raw32(g, e, i) == Raw32(g, d, i);
    }
  }

  /** What put_fat stores into the sector of FAT32 entry c. */
  lemma StoredField32(g: Geometry, d: Disk, c: nat, v: nat)
    requires Holds(g, d) && g.fatType == Fat32 && g.EntryInside(c) && v < 0x1000_0000
    ensures var s, x := d[g.fatbase + Quot(c, SS / 4)], v + 0x1000_0000 * Reserved(g, d, c);
            var w := StDword(s, Rem(c * 4, SS), x);
            && LdDword(w, Rem(c * 4, SS)) == x
            && forall i: nat :: g.EntryInside(i) && i != c && Quot(c, SS / 4) == Quot(i, SS / 4) ==>
               LdDword(w, Rem(i * 4, SS)) == LdDword(s, Rem(i * 4, SS))
  {
    hide StLe, LdLe, Quot, Rem;
    var s, r := d[g.fatbase + Quot(c, SS / 4)], Reserved(g, d, c);
    ReservedBits(g, d, c);
    Field32Parts(v, r);
    Powers256();
    LdStLe(s, Rem(c * 4, SS), v + 0x1000_0000 * r, 4);
    forall i: nat | g.EntryInside(i) && i != c && Quot(c, SS / 4) == Quot(i, SS / 4)
      ensures LdDword(StDword(s, Rem(c * 4, SS), v + 0x1000_0000 * r), Rem(i * 4, SS)) == LdDword(s, Rem(i * 4, SS))
    {
      OtherField32(c, i);
      LdStOther(s, Rem(c * 4, SS), v + 0x1000_0000 * r, 4, Rem(i * 4, SS), 4);
    }
  }

  lemma PutStored32(g: Geometry, d: Disk, c: nat, v: nat)
    requires Holds(g, d) && g.fatType == Fat32 && c < g.nFatent && g.EntryInside(c) && v < 0x1000_0000
    ensures var s := g.fatbase + Quot(c, SS / 4);
            EntrySet(g, d, Put(g, d, s, StDword(d[s], Rem(c * 4, SS), v + 0x1000_0000 * Reserved(g, d, c))), c, v)
  {
    StoredField32(g, d, c, v);
    var s := g.fatbase + Quot(c, SS / 4);
    Put32(g, d, c, v, StDword(d[s], Rem(c * 4, SS), v + 0x1000_0000 * Reserved(g, d, c)));
  }

  // ---- the two operations

  /** The FAT as the file system object sees it. */
  ghost function Fat(fs: FatFs): (t: seq<nat>)
    requires fs.Valid()
    reads fs, fs.win
    ensures |t| == fs.geo.nFatent
  {
    Table(fs.geo, fs.Logical())
  }

  /** move_window to the sector of FAT byte k; the byte is then in the window. */
  method FetchFatByte(fs: FatFs, k: nat) returns (b: Byte)
    requires fs.Valid() && Quot(k, SS) < fs.geo.fsize
    modifies fs`disk, fs`wflag, fs`winsect, fs.win
    ensures fs.Valid() && fs.Logical() == old(fs.Logical())
    ensures fs.winsect == fs.geo.fatbase + Quot(k, SS)
    ensures b == fs.win[Rem(k, SS)] == FatByte(fs.geo, fs.Logical(), k)
  {
    MoveWindow(fs, fs.geo.fatbase + Quot(k, SS));
    b := fs.win[Rem(k, SS)];
    assert b == fs.win[..][Rem(k, SS)];
  }

  /** Store FAT byte k, whose sector is in the window. */
  method StoreFatByte(fs: FatFs, k: nat, v: Byte)
    requires fs.Valid() && Quot(k, SS) < fs.geo.fsize
    requires fs.winsect == fs.geo.fatbase + Quot(k, SS)
    modifies fs`wflag, fs.win
    ensures fs.Valid()
    ensures fs.Logical() == SetFatByte(fs.geo, old(fs.Logical()), k, v)
  {
    assert fs.win[..] == fs.Logical()[fs.winsect];
    StoreByte(fs, Rem(k, SS), v);
  }

  method GetFat(fs: FatFs, clst: nat) returns (r: nat)
    requires fs.Valid()
    modifies fs`disk, fs`wflag, fs`winsect, fs.win
    ensures fs.Valid() && fs.Logical() == old(fs.Logical()) && Fat(fs) == old(Fat(fs))
    ensures fs.geo.IsCluster(clst) ==> r == Fat(fs)[clst] && fs.geo.InFat(fs.winsect)
    ensures !fs.geo.IsCluster(clst) ==> r == 1 && fs.winsect == old(fs.winsect)
  {
    hide Quot, Rem, LdLe, Unpack12;
    if clst < 2 || clst >= fs.geo.nFatent {
      return 1;
    }
    assert fs.geo.EntryInside(clst);
    match fs.geo.fatType
    case Fat12 =>
      var bc := Geometry.Offset12(clst);
      var b0 := FetchFatByte(fs, bc);
      bc := bc + 1;
      var b1 := FetchFatByte(fs, bc);
      return Unpack12(Rem(clst, 2) == 1, b0, b1);
    case Fat16 =>
      MoveWindow(fs, fs.geo.fatbase + Quot(clst, SS / 2));
      return LdWord(fs.win[..], Rem(clst * 2, SS));
    case Fat32 =>
      MoveWindow(fs, fs.geo.fatbase + Quot(clst, SS / 4));
      return Rem(LdDword(fs.win[..], Rem(clst * 4, SS)), 0x1000_0000);
  }

  /** ST_WORD (n = 2) and ST_DWORD (n = 4) through the window: byte stores, least significant first. */
  method StoreLe(fs: FatFs, k: nat, v: nat, n: nat)
    requires fs.Valid() && k + n <= 512 && n > 0
    modifies fs`wflag, fs.win
    ensures fs.Valid()
    ensures fs.win[..] == StLe(old(fs.win[..]), k, v, n)
    ensures fs.Logical() == Put(fs.geo, old(fs.Logical()), fs.winsect, fs.win[..])
    decreases n
  {
    ghost var d := fs.Logical();
    StoreByte(fs, k, Rem(v, 0x100));
    if n > 1 {
      ghost var w := fs.win[..];
      StoreLe(fs, k + 1, Quot(v, 0x100), n - 1);
      PutTwice(fs.geo, d, fs.winsect, w, fs.win[..]);
    }
  }

  method PutFat12(fs: FatFs, clst: nat, val: nat)
    requires fs.Valid() && fs.geo.fatType == Fat12 && fs.geo.EntryInside(clst)
    modifies fs`disk, fs`wflag, fs`winsect, fs.win
    ensures fs.Valid() && fs.geo.InFat(fs.winsect)
    ensures fs.Logical() == Stored12(fs.geo, old(fs.Logical()), clst, val)
  {
    var odd := Rem(clst, 2) == 1;
    var bc := Geometry.Offset12(clst);
    var b0 := FetchFatByte(fs, bc);
    StoreFatByte(fs, bc, First12(odd, b0, val));
    bc := bc + 1;
    var b1 := FetchFatByte(fs, bc);
    StoreFatByte(fs, bc, Second12(odd, b1, val));
  }

  method PutFat32(fs: FatFs, clst: nat, val: nat)
    requires fs.Valid() && fs.geo.fatType == Fat32 && fs.geo.IsCluster(clst) && val < 0x1000_0000
    modifies fs`disk, fs`wflag, fs`winsect, fs.win
    ensures fs.Valid() && fs.geo.InFat(fs.winsect)
    ensures EntrySet(fs.geo, old(fs.Logical()), fs.Logical(), clst, val)
  {
    hide StLe, LdLe, Quot, Rem, EntrySet, Put;
    ghost var d := fs.Logical();
    assert fs.geo.EntryInside(clst);
    MoveWindow(fs, fs.geo.fatbase + Quot(clst, SS / 4));
    var k := Rem(clst * 4, SS);
    var top := Quot(LdDword(fs.win[..], k), 0x1000_0000);
    StoreLe(fs, k, val + 0x1000_0000 * top, 4);
    PutStored32(fs.geo, d, clst, val);
  }

  method PutFat(fs: FatFs, clst: nat, val: nat) returns (res: FResult)
    requires fs.Valid() && val < 0x1000_0000
    modifies fs`disk, fs`wflag, fs`winsect, fs.win
    ensures fs.Valid()
    ensures !fs.geo.IsCluster(clst) ==> res == FrIntErr && fs.Logical() == old(fs.Logical())
    ensures fs.geo.IsCluster(clst) ==>
              && res == FrOk && fs.geo.InFat(fs.winsect)
              && EntrySet(fs.geo, old(fs.Logical()), fs.Logical(), clst, Rem(val, EntryLimit(fs.geo)))
  {
    hide Quot, Rem, StLe, LdLe, EntrySet, Stored12;
    if clst < 2 || clst >= fs.geo.nFatent {
      return FrIntErr;
    }
    ghost var d := fs.Logical();
    assert fs.geo.EntryInside(clst);
    match fs.geo.fatType {
      case Fat12 =>
        PutFat12(fs, clst, val);
        StoredBytes12(fs.geo, d, clst, val);
        Put12(fs.geo, d, fs.Logical(), clst, val);
      case Fat16 =>
        MoveWindow(fs, fs.geo.fatbase + Quot(clst, SS / 2));
        StoreLe(fs, Rem(clst * 2, SS), val, 2);
        Put16(fs.geo, d, clst, val);
      case Fat32 =>
        PutFat32(fs, clst, val);
        Join(val, 0x1000_0000, 0, val);
    }
    return FrOk;
  }
}
