/** Bytes, 512-byte sectors and the little-endian loads and stores every layer shares. */
module Bytes {
  import opened Arith

  type Byte = x: int | 0 <= x < 256

  type Dword = x: int | 0 <= x < 0x1_0000_0000

  const SS: nat := 512 // sector size in bytes, the only one configured

  type Sector = s: seq<Byte> | |s| == 512 witness seq(512, _ => 0)

  datatype Option<+T> = None | Some(value: T)

  datatype Result<+T> = Ok(value: T) | Err(error: FResult)

  /** The FRESULT codes that the modelled paths can produce. */
  datatype FResult = FrOk | FrIntErr | FrNoFile | FrDenied | FrNoFilesystem

  // ---- a byte as bits

  lemma NextBits(v: bv8)
    requires v as int < 255
    ensures (v + 1) as int == v as int + 1
  {
  }

  /** The bits of a byte. */
  function Bits(b: Byte): (v: bv8)
    ensures v as int == b
    decreases b
  {
    if b == 0 then 0 else NextBits(Bits(b - 1)); Bits(b - 1) + 1
  }

  lemma SameBits(a: bv8, b: bv8)
    requires a as int == b as int
    ensures a == b
  {
  }

  /** The value of a DWORD expression: arithmetic is modulo 2^32. */
  function U32(x: nat): (r: nat)
    ensures r < 0x1_0000_0000
  {
    if x < 0x1_0000_0000 then x else U32(x - 0x1_0000_0000)
  }

  lemma {:induction false} U32IsModulo(x: nat)
    ensures U32(x) == x % 0x1_0000_0000
  {
    if x >= 0x1_0000_0000 {
      U32IsModulo(x - 0x1_0000_0000);
    }
  }

  /** The n bytes of s from k on as a little-endian number. */
  function LdLe(s: seq<Byte>, k: nat, n: nat): (r: nat)
    requires k + n <= |s|
    decreases n
  {
    if n == 0 then 0 else s[k] as int + 0x100 * LdLe(s, k + 1, n - 1)
  }

  /** s with the n low bytes of v stored little-endian from k on. */
  function StLe(s: seq<Byte>, k: nat, v: nat, n: nat): (r: seq<Byte>)
    requires k + n <= |s|
    ensures |r| == |s|
    decreases n
  {
    if n == 0 then s else StLe(s[k := Rem(v, 0x100)], k + 1, Quot(v, 0x100), n - 1)
  }

  /** 256^n */
  function Power256(n: nat): (r: nat)
    ensures r > 0
  {
    if n == 0 then 1 else 0x100 * Power256(n - 1)
  }

  lemma {:induction false} LdLeBound(s: seq<Byte>, k: nat, n: nat)
    requires k + n <= |s|
    ensures LdLe(s, k, n) < Power256(n)
    decreases n
  {
    if n > 0 {
      LdLeBound(s, k + 1, n - 1);
    }
  }

  lemma {:induction false} LdLeSame(s: seq<Byte>, t: seq<Byte>, k: nat, n: nat)
    requires k + n <= |s| == |t|
    requires forall j :: k <= j < k + n ==> s[j] == t[j]
    ensures LdLe(s, k, n) == LdLe(t, k, n)
    decreases n
  {
    if n > 0 {
      LdLeSame(s, t, k + 1, n - 1);
    }
  }

  lemma {:induction false} StLeFrame(s: seq<Byte>, k: nat, v: nat, n: nat, j: nat)
    requires k + n <= |s| && j < |s| && !(k <= j < k + n)
    ensures StLe(s, k, v, n)[j] == s[j]
    decreases n
  {
    if n > 0 {
      StLeFrame(s[k := Rem(v, 0x100)], k + 1, Quot(v, 0x100), n - 1, j);
    }
  }

  /** Loading what was stored gives the value truncated to n bytes. */
  lemma {:induction false} LdStLe(s: seq<Byte>, k: nat, v: nat, n: nat)
    requires k + n <= |s|
    ensures LdLe(StLe(s, k, v, n), k, n) == Rem(v, Power256(n))
    decreases n
  {
    if n > 0 {
      var s', q := s[k := Rem(v, 0x100)], Quot(v, 0x100);
      LdStLe(s', k + 1, q, n - 1);
      StLeFrame(s', k + 1, q, n - 1, k);
      TimesIsMul(Power256(n - 1), 0x100);
      TimesIsMul(Rem(q, Power256(n - 1)), 0x100);
      QuotRemCompose(v, 0x100, Power256(n - 1));
    }
  }

  /** A store into one field leaves a field that does not overlap it. */
  lemma LdStOther(s: seq<Byte>, k: nat, v: nat, n: nat, j: nat, m: nat)
    requires k + n <= |s| && j + m <= |s| && (j + m <= k || k + n <= j)
    ensures LdLe(StLe(s, k, v, n), j, m) == LdLe(s, j, m)
  {
    forall i | j <= i < j + m
      ensures StLe(s, k, v, n)[i] == s[i]
    {
      StLeFrame(s, k, v, n, i);
    }
    LdLeSame(StLe(s, k, v, n), s, j, m);
  }

  /** Low byte first. */
  lemma LdBytes(s: seq<Byte>, k: nat)
    ensures k + 2 <= |s| ==> LdLe(s, k, 2) == s[k] as int + 0x100 * s[k + 1] as int
    ensures k + 4 <= |s| ==> LdLe(s, k, 4) == s[k] as int + 0x100 * s[k + 1] as int + 0x1_0000 * s[k + 2] as int + 0x100_0000 * s[k + 3] as int
  {
    if k + 2 <= |s| {
      LdLeTwo(s, k);
    }
    if k + 4 <= |s| {
      LdLeTwo(s, k + 2);
      assert LdLe(s, k + 1, 3) == s[k + 1] as int + 0x100 * LdLe(s, k + 2, 2);
    }
  }

  lemma LdLeTwo(s: seq<Byte>, k: nat)
    requires k + 2 <= |s|
    ensures LdLe(s, k, 2) == s[k] as int + 0x100 * s[k + 1] as int
  {
    assert LdLe(s, k + 1, 1) == s[k + 1] as int + 0x100 * LdLe(s, k + 2, 0);
  }

  /** Storing puts the low byte first. */
  lemma {:induction false} StByte(s: seq<Byte>, k: nat, v: nat, n: nat)
    requires k + n <= |s| && n > 0
    ensures StLe(s, k, v, n)[k] == v % 0x100
    ensures n > 1 ==> StLe(s, k, v, n)[k + 1] == v / 0x100 % 0x100
  {
    var t, q := s[k := Rem(v, 0x100)], Quot(v, 0x100);
    QuotRemAreDivMod(v, 0x100);
    StLeFrame(t, k + 1, q, n - 1, k);
    if n > 1 {
      var u := t[k + 1 := Rem(q, 0x100)];
      QuotRemAreDivMod(q, 0x100);
      StLeFrame(u, k + 2, Quot(q, 0x100), n - 2, k + 1);
    }
  }

  /** The bytes of a stored field. */
  lemma StBytes(s: seq<Byte>, k: nat, v: nat)
    ensures k + 2 <= |s| ==> var r := StLe(s, k, v, 2); r[k] == v % 0x100 && r[k + 1] == v / 0x100 % 0x100
    ensures k + 4 <= |s| ==>
              var r := StLe(s, k, v, 4);
              && r[k] == v % 0x100 && r[k + 1] == v / 0x100 % 0x100
              && r[k + 2] == v / 0x1_0000 % 0x100 && r[k + 3] == v / 0x100_0000 % 0x100
  {
    if k + 2 <= |s| {
      StByte(s, k, v, 2);
    }
    if k + 4 <= |s| {
      StByte(s, k, v, 4);
      var q := Quot(v, 0x100);
      QuotRemAreDivMod(v, 0x100);
      QuotRemAreDivMod(q, 0x100);
      var u := s[k := Rem(v, 0x100)][k + 1 := Rem(q, 0x100)];
      assert StLe(s, k, v, 4) == StLe(u, k + 2, Quot(q, 0x100), 2);
      StByte(u, k + 2, Quot(q, 0x100), 2);
      assert q / 0x100 == v / 0x1_0000 && v / 0x1_0000 / 0x100 == v / 0x100_0000;
    }
  }

  lemma Powers256()
    ensures Power256(2) == 0x1_0000 && Power256(4) == 0x1_0000_0000
  {
    assert Power256(3) == 0x100_0000;
  }

  function LdWord(s: seq<Byte>, k: nat): (r: nat)
    requires k + 2 <= |s|
  {
    LdLe(s, k, 2)
  }

  function LdDword(s: seq<Byte>, k: nat): (r: nat)
    requires k + 4 <= |s|
  {
    LdLe(s, k, 4)
  }

  function StWord(s: seq<Byte>, k: nat, v: nat): (r: seq<Byte>)
    requires k + 2 <= |s|
    ensures |r| == |s|
  {
    StLe(s, k, v, 2)
  }

  function StDword(s: seq<Byte>, k: nat, v: nat): (r: seq<Byte>)
    requires k + 4 <= |s|
    ensures |r| == |s|
  {
    StLe(s, k, v, 4)
  }
}
