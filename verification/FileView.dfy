/**
 * An open file as a byte sequence: a list of data sectors, overlaid by the file's
 * private one-sector buffer. Bytes that an extending seek added and nobody wrote
 * are unspecified (None).
 */
module FileView {
  import opened Arith
  import opened Bytes
  import opened Layout
  import opened Window
  import opened Chains

  type Content = seq<Option<Byte>>

  // ---- the data sectors of a chain, in file order

  /** base, base + 1, ... */
  ghost function Run(base: nat, n: nat): (r: seq<nat>)
    ensures |r| == n
    ensures forall j :: 0 <= j < n ==> r[j] == base + j
  {
    if n == 0 then [] else Run(base, n - 1) + [base + n - 1]
  }

  ghost function ClusterSectors(g: Geometry, c: nat): (r: seq<nat>)
    requires c >= 2
  {
    Run(g.ClusterBase(c), g.csize)
  }

  ghost function Sectors(g: Geometry, ch: seq<nat>): (r: seq<nat>)
    requires forall i :: 0 <= i < |ch| ==> ch[i] >= 2
    ensures |r| == Times(|ch|, g.csize)
    decreases |ch|
  {
    if ch == [] then [] else Sectors(g, ch[..|ch| - 1]) + ClusterSectors(g, ch[|ch| - 1])
  }

  ghost predicate Clusters(g: Geometry, ch: seq<nat>) {
    forall i :: 0 <= i < |ch| ==> g.IsCluster(ch[i])
  }

  lemma SectorsAppend(g: Geometry, ch: seq<nat>, c: nat)
    requires c >= 2 && forall i :: 0 <= i < |ch| ==> ch[i] >= 2
    ensures forall i :: 0 <= i < |ch + [c]| ==> (ch + [c])[i] >= 2
    ensures Sectors(g, ch + [c]) == Sectors(g, ch) + ClusterSectors(g, c)
  {
    assert (ch + [c])[..|ch|] == ch;
  }

  /** Cutting the chain cuts the sector list. */
  lemma {:induction false} SectorsPrefix(g: Geometry, ch: seq<nat>, k: nat)
    requires k <= |ch| && forall i :: 0 <= i < |ch| ==> ch[i] >= 2
    ensures Times(k, g.csize) <= Times(|ch|, g.csize)
    ensures Sectors(g, ch[..k]) == Sectors(g, ch)[..Times(k, g.csize)]
    decreases |ch|
  {
    TimesMonotone(k, |ch|, g.csize);
    if k < |ch| {
      var init := ch[..|ch| - 1];
      SectorsPrefix(g, init, k);
      assert init[..k] == ch[..k];
    } else {
      assert ch[..k] == ch;
    }
  }

  /** The sector of position q of the file: sector q mod csize of cluster q div csize. */
  lemma {:induction false} SectorAt(g: Geometry, ch: seq<nat>, q: nat)
    requires g.csize > 0 && forall i :: 0 <= i < |ch| ==> ch[i] >= 2
    requires q < Times(|ch|, g.csize)
    ensures Quot(q, g.csize) < |ch|
    ensures Sectors(g, ch)[q] == g.ClusterBase(ch[Quot(q, g.csize)]) + Rem(q, g.csize)
    decreases |ch|
  {
    var k := |ch| - 1;
    QuotRem(q, g.csize);
    if q < Times(k, g.csize) {
      SectorAt(g, ch[..k], q);
    } else {
      QuotRemUnique(q, g.csize, k, q - Times(k, g.csize));
    }
  }

  lemma SectorInCluster(g: Geometry, ch: seq<nat>, q: nat)
    requires g.Valid() && Clusters(g, ch) && q < |Sectors(g, ch)|
    ensures Quot(q, g.csize) < |ch|
    ensures g.InCluster(Sectors(g, ch)[q], ch[Quot(q, g.csize)])
    ensures g.database <= Sectors(g, ch)[q] < g.VolumeEnd()
    ensures !g.InFat(Sectors(g, ch)[q]) && !g.InMirror(Sectors(g, ch)[q])
  {
    SectorAt(g, ch, q);
    var c := ch[Quot(q, g.csize)];
    ClustersDisjoint(g, c, c, Sectors(g, ch)[q]);
  }

  /** An acyclic chain lists no sector twice. */
  lemma SectorsDistinct(g: Geometry, ch: seq<nat>)
    requires g.Valid() && Clusters(g, ch) && Distinct(ch)
    ensures Distinct(Sectors(g, ch))
  {
    var s := Sectors(g, ch);
    forall i, j | 0 <= i < j < |s|
      ensures s[i] != s[j]
    {
      SectorAt(g, ch, i);
      SectorAt(g, ch, j);
      SectorInCluster(g, ch, i);
      SectorInCluster(g, ch, j);
      QuotRem(i, g.csize);
      QuotRem(j, g.csize);
      ClustersDisjoint(g, ch[Quot(i, g.csize)], ch[Quot(j, g.csize)], s[i]);
    }
  }

  /** Chains without a common cluster have no common sector. */
  lemma SectorsApart(g: Geometry, a: seq<nat>, b: seq<nat>)
    requires g.Valid() && Clusters(g, a) && Clusters(g, b)
    requires forall c :: c in a ==> c !in b
    ensures forall s :: s in Sectors(g, a) ==> s !in Sectors(g, b)
  {
    forall s | s in Sectors(g, a)
      ensures s !in Sectors(g, b)
    {
      var i :| 0 <= i < |Sectors(g, a)| && Sectors(g, a)[i] == s;
      SectorInCluster(g, a, i);
      SectorElsewhere(g, a[Quot(i, g.csize)], b, s);
    }
  }

  lemma SectorElsewhere(g: Geometry, c: nat, b: seq<nat>, s: nat)
    requires g.Valid() && g.IsCluster(c) && Clusters(g, b) && c !in b && g.InCluster(s, c)
    ensures s !in Sectors(g, b)
  {
    if s in Sectors(g, b) {
      var j :| 0 <= j < |Sectors(g, b)| && Sectors(g, b)[j] == s;
      SectorInCluster(g, b, j);
      assert b[Quot(j, g.csize)] in b;
      ClustersDisjoint(g, c, b[Quot(j, g.csize)], s);
    }
  }

  // ---- the view

  /** data holds the specified bytes of file sector q. */
  ghost predicate Shows(data: Sector, content: Content, q: nat) {
    forall i :: q * 512 <= i < q * 512 + 512 && i < |content| && content[i].Some? ==>
      data[i - q * 512] == content[i].value
  }

  /** Medium sector s holds sector q of the content, or the dirty buffer does; a buffer of s never contradicts it. */
  ghost predicate Held(s: nat, d: Disk, buf: Sector, dsect: nat, dirty: bool, content: Content, q: nat) {
    && s < |d|
    && (s == dsect ==> Shows(buf, content, q))
    && (!(dirty && s == dsect) ==> Shows(d[s], content, q))
  }

  /** The medium d and the buffer together hold content. */
  ghost predicate Overlay(secs: seq<nat>, d: Disk, buf: Sector, dsect: nat, dirty: bool, content: Content) {
    && |content| <= |secs| * 512
    && (dirty ==> dsect in secs)
    && (forall q :: 0 <= q < |secs| ==> Held(secs[q], d, buf, dsect, dirty, content, q))
  }

  /** content with data written at position p. */
  ghost function Overwrite(content: Content, p: nat, data: seq<Byte>): (r: Content)
    requires p <= |content|
    ensures |r| == if p + |data| > |content| then p + |data| else |content|
    ensures forall i :: 0 <= i < |r| ==> r[i] == if p <= i < p + |data| then Some(data[i - p]) else content[i]
  {
    seq(if p + |data| > |content| then p + |data| else |content|,
        i requires 0 <= i => if p <= i < p + |data| then Some(data[i - p]) else if i < |content| then content[i] else None)
  }

  lemma OverwriteTwice(content: Content, p: nat, a: seq<Byte>, b: seq<Byte>)
    requires p <= |content|
    ensures p + |a| <= |Overwrite(content, p, a)|
    ensures Overwrite(Overwrite(content, p, a), p + |a|, b) == Overwrite(content, p, a + b)
  {
  }

  /** Writing the dirty buffer back keeps the view. */
  lemma FlushKeeps(secs: seq<nat>, d: Disk, buf: Sector, dsect: nat, content: Content)
    requires Overlay(secs, d, buf, dsect, true, content)
    ensures dsect < |d| && Overlay(secs, d[dsect := buf], buf, dsect, false, content)
  {
    var k :| 0 <= k < |secs| && secs[k] == dsect;
    assert Held(secs[k], d, buf, dsect, true, content, k);
    forall p | 0 <= p < |secs|
      ensures Held(secs[p], d[dsect := buf], buf, dsect, false, content, p)
    {
      assert Held(secs[p], d, buf, dsect, true, content, p);
    }
  }

  /** Loading another sector into a clean buffer keeps the view. */
  lemma LoadKeeps(secs: seq<nat>, d: Disk, buf: Sector, dsect: nat, content: Content, q: nat)
    requires Overlay(secs, d, buf, dsect, false, content) && q < |secs|
    ensures secs[q] < |d| && Overlay(secs, d, d[secs[q]], secs[q], false, content)
  {
    assert Held(secs[q], d, buf, dsect, false, content, q);
    forall p | 0 <= p < |secs|
      ensures Held(secs[p], d, d[secs[q]], secs[q], false, content, p)
    {
      assert Held(secs[p], d, buf, dsect, false, content, p);
    }
  }

  /** Past the end of the content any buffer shows the sector. */
  lemma FreshKeeps(secs: seq<nat>, d: Disk, buf: Sector, dsect: nat, content: Content, q: nat)
    requires Overlay(secs, d, buf, dsect, false, content) && q < |secs| && Distinct(secs)
    requires |content| <= q * 512
    ensures Overlay(secs, d, buf, secs[q], false, content)
  {
    assert Shows(buf, content, q);
    forall p | 0 <= p < |secs|
      ensures Held(secs[p], d, buf, secs[q], false, content, p)
    {
      assert Held(secs[p], d, buf, dsect, false, content, p);
      assert secs[p] == secs[q] ==> p == q;
    }
  }

  /** buf with data at offset k */
  function Splice(buf: Sector, k: nat, data: seq<Byte>): (r: Sector)
    requires k + |data| <= 512
    ensures forall j :: 0 <= j < 512 ==> r[j] == if k <= j < k + |data| then data[j - k] else buf[j]
  {
    buf[..k] + data + buf[k + |data|..]
  }

  /** Writing into the buffer of sector q writes the file there. */
  lemma BufferWrite(secs: seq<nat>, d: Disk, buf: Sector, dirty: bool, content: Content, q: nat, k: nat, data: seq<Byte>)
    requires q < |secs| && Distinct(secs) && Overlay(secs, d, buf, secs[q], dirty, content)
    requires k + |data| <= 512 && q * 512 + k <= |content|
    ensures Overlay(secs, d, Splice(buf, k, data), secs[q], true, Overwrite(content, q * 512 + k, data))
  {
    var content' := Overwrite(content, q * 512 + k, data);
    assert Shows(Splice(buf, k, data), content', q) by {
      assert Shows(buf, content, q);
    }
    forall p | 0 <= p < |secs| && p != q
      ensures secs[p] != secs[q] && Shows(d[secs[p]], content', p)
    {
      assert Held(secs[p], d, buf, secs[q], dirty, content, p);
    }
  }

  // ---- whole sectors written past the buffer

  /** The n sectors that data holds, n * 512 bytes. */
  function Chunk(data: seq<Byte>, t: nat): (r: Sector)
    requires t * 512 + 512 <= |data|
  {
    data[t * 512..t * 512 + 512]
  }

  /** disk_write of cc sectors */
  function WriteSectors(d: Disk, s: nat, data: seq<Byte>, cc: nat): (r: Disk)
    requires s + cc <= |d| && cc * 512 <= |data|
    ensures |r| == |d|
    ensures forall j :: 0 <= j < |d| ==> r[j] == if s <= j < s + cc then Chunk(data, j - s) else d[j]
    decreases cc
  {
    if cc == 0 then d else WriteSectors(d, s, data, cc - 1)[s + cc - 1 := Chunk(data, cc - 1)]
  }

  /** disk_read of cc sectors */
  function ReadSectors(d: Disk, s: nat, cc: nat): (r: seq<Byte>)
    requires s + cc <= |d|
    ensures |r| == cc * 512
    decreases cc
  {
    if cc == 0 then [] else ReadSectors(d, s, cc - 1) + d[s + cc - 1]
  }

  lemma {:induction false} ReadSectorsAt(d: Disk, s: nat, cc: nat, t: nat)
    requires s + cc <= |d| && t < cc
    ensures Chunk(ReadSectors(d, s, cc), t) == d[s + t]
    decreases cc
  {
    if t < cc - 1 {
      ReadSectorsAt(d, s, cc - 1, t);
      assert Chunk(ReadSectors(d, s, cc), t) == Chunk(ReadSectors(d, s, cc - 1), t);
    }
  }

  /** Sectors q..q+cc of the file are s, s+1, ... on the medium. */
  ghost predicate Contiguous(secs: seq<nat>, q: nat, s: nat, cc: nat) {
    q + cc <= |secs| && forall p :: q <= p < q + cc ==> secs[p] == s + (p - q)
  }

  /** A chunk of data written at sector q + t of the file shows there. */
  lemma ChunkShows(content: Content, q: nat, cc: nat, data: seq<Byte>, t: nat)
    requires q * 512 <= |content| && |data| == cc * 512 && t < cc
    ensures Shows(Chunk(data, t), Overwrite(content, q * 512, data), q + t)
  {
  }

  /** The other sectors show what they showed. */
  lemma OverwriteElsewhere(content: Content, q: nat, cc: nat, data: seq<Byte>, p: nat, sec: Sector)
    requires q * 512 <= |content| && |data| == cc * 512 && !(q <= p < q + cc)
    requires Shows(sec, content, p)
    ensures Shows(sec, Overwrite(content, q * 512, data), p)
  {
  }

  /** After a direct write the buffer is refilled when its sector was among those written. */
  function Refill(buf: Sector, dsect: nat, s: nat, data: seq<Byte>, cc: nat): Sector
    requires cc * 512 <= |data|
  {
    if s <= dsect < s + cc then Chunk(data, dsect - s) else buf
  }

  lemma DirectMissed(secs: seq<nat>, q: nat, s: nat, cc: nat, p: nat)
    requires Distinct(secs) && Contiguous(secs, q, s, cc) && p < |secs| && !(q <= p < q + cc)
    ensures !(s <= secs[p] < s + cc)
  {
    if s <= secs[p] < s + cc {
      RunHit(secs, q, s, cc, secs[p]);
    }
  }

  lemma RunHit(secs: seq<nat>, q: nat, s: nat, cc: nat, v: nat)
    requires Contiguous(secs, q, s, cc) && s <= v < s + cc
    ensures exists x: nat :: q <= x < q + cc && secs[x] == v
  {
    assert secs[q + (v - s)] == v;
  }

  lemma {:induction false} DirectInside(secs: seq<nat>, d: Disk, buf: Sector, dsect: nat, content: Content, q: nat, s: nat, cc: nat, data: seq<Byte>, p: nat)
    requires Contiguous(secs, q, s, cc) && s + cc <= |d| && |data| == cc * 512 && q * 512 <= |content|
    requires q <= p < q + cc
    ensures Held(secs[p], WriteSectors(d, s, data, cc), Refill(buf, dsect, s, data, cc), dsect, false, Overwrite(content, q * 512, data), p)
  {
    hide Shows;
    assert secs[p] == s + (p - q);
    ChunkShows(content, q, cc, data, p - q);
  }

  lemma {:induction false} DirectOutside(secs: seq<nat>, d: Disk, buf: Sector, dsect: nat, content: Content, q: nat, s: nat, cc: nat, data: seq<Byte>, p: nat)
    requires Distinct(secs) && Contiguous(secs, q, s, cc) && s + cc <= |d| && |data| == cc * 512 && q * 512 <= |content|
    requires p < |secs| && !(q <= p < q + cc) && Held(secs[p], d, buf, dsect, false, content, p)
    ensures Held(secs[p], WriteSectors(d, s, data, cc), Refill(buf, dsect, s, data, cc), dsect, false, Overwrite(content, q * 512, data), p)
  {
    hide Shows;
    DirectMissed(secs, q, s, cc, p);
    OverwriteElsewhere(content, q, cc, data, p, d[secs[p]]);
    if secs[p] == dsect {
      OverwriteElsewhere(content, q, cc, data, p, buf);
    }
  }

  lemma {:induction false} DirectWrite(secs: seq<nat>, d: Disk, buf: Sector, dsect: nat, content: Content, q: nat, s: nat, cc: nat, data: seq<Byte>)
    requires Overlay(secs, d, buf, dsect, false, content) && Distinct(secs)
    requires Contiguous(secs, q, s, cc) && s + cc <= |d| && |data| == cc * 512 && q * 512 <= |content|
    ensures Overlay(secs, WriteSectors(d, s, data, cc), Refill(buf, dsect, s, data, cc), dsect, false, Overwrite(content, q * 512, data))
  {
    assert q + cc <= |secs|;
    var d' := WriteSectors(d, s, data, cc);
    hide Held, WriteSectors, Refill, Contiguous, Distinct, Overwrite;
    forall p | 0 <= p < |secs|
      ensures Held(secs[p], WriteSectors(d, s, data, cc), Refill(buf, dsect, s, data, cc), dsect, false, Overwrite(content, q * 512, data), p)
    {
      if q <= p < q + cc {
        DirectInside(secs, d, buf, dsect, content, q, s, cc, data, p);
      } else {
        assert Held(secs[p], d, buf, dsect, false, content, p);
        DirectOutside(secs, d, buf, dsect, content, q, s, cc, data, p);
      }
    }
  }

  // ---- the view when the chain or the size changes

  /** More sectors, and more unspecified bytes. */
  lemma GrowKeeps(secs: seq<nat>, more: seq<nat>, d: Disk, e: Disk, buf: Sector, dsect: nat, dirty: bool, content: Content)
    requires Overlay(secs, d, buf, dsect, dirty, content) && |e| == |d|
    requires forall q :: 0 <= q < |secs| ==> e[secs[q]] == d[secs[q]]
    requires forall j :: 0 <= j < |more| ==> more[j] < |e|
    ensures Overlay(secs + more, e, buf, dsect, dirty, content)
  {
    var all := secs + more;
    forall q | 0 <= q < |all|
      ensures Held(all[q], e, buf, dsect, dirty, content, q)
    {
      if q < |secs| {
        assert all[q] == secs[q];
        assert Held(secs[q], d, buf, dsect, dirty, content, q);
      } else {
        assert all[q] == more[q - |secs|];
        assert forall x: Sector :: Shows(x, content, q);
      }
    }
  }

  lemma GapKeeps(secs: seq<nat>, d: Disk, buf: Sector, dsect: nat, dirty: bool, content: Content, size: nat)
    requires Overlay(secs, d, buf, dsect, dirty, content)
    requires |content| <= size <= |secs| * 512
    ensures Overlay(secs, d, buf, dsect, dirty, content + seq(size - |content|, _ => None))
  {
    var content' := content + seq(size - |content|, _ => None);
    forall q | 0 <= q < |secs|
      ensures Held(secs[q], d, buf, dsect, dirty, content', q)
    {
      assert Held(secs[q], d, buf, dsect, dirty, content, q);
    }
  }

  lemma CutKeeps(secs: seq<nat>, m: nat, d: Disk, buf: Sector, dsect: nat, content: Content, size: nat)
    requires Overlay(secs, d, buf, dsect, false, content)
    requires m <= |secs| && size <= |content| && size <= m * 512
    ensures Overlay(secs[..m], d, buf, dsect, false, content[..size])
  {
    forall q | 0 <= q < m
      ensures Held(secs[..m][q], d, buf, dsect, false, content[..size], q)
    {
      assert Held(secs[q], d, buf, dsect, false, content, q);
    }
  }

  /** What a reader gets from a sector that shows the content. */
  ghost predicate Agrees(data: seq<Byte>, content: Content, p: nat) {
    && p + |data| <= |content|
    && forall j :: p <= j < p + |data| && content[j].Some? ==> data[j - p] == content[j].value
  }

  lemma AgreesAppend(a: seq<Byte>, b: seq<Byte>, content: Content, p: nat)
    requires Agrees(a, content, p) && Agrees(b, content, p + |a|)
    ensures Agrees(a + b, content, p)
  {
  }

  lemma ShownSlice(data: Sector, content: Content, q: nat, k: nat, n: nat)
    requires Shows(data, content, q) && k + n <= 512 && q * 512 + k + n <= |content|
    ensures Agrees(data[k..k + n], content, q * 512 + k)
  {
  }
}
