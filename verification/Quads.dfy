/**
 * The compositor's quad list: growable parallel arrays of vertices, indices and
 * textures, a cached copy of the desktop's quads, and the batches that GfxPresent
 * draws from them.
 */
module Quads {

  const QUAD_WORK: nat := 2048
  const QUAD_INIT: nat := 256
  const QUAD_MAX: nat := 16384

  datatype Vertex = Vertex(sx: real, sy: real, tu: real, tv: real, color: nat)

  datatype Tex = Solid | Atlas | Page | Wall

  type Word = x: int | 0 <= x < 0x1_0000

  datatype Quad = Quad(v: seq<Vertex>, tex: Tex)

  // ---- the list that the arrays stand for

  function QuadAt(vb: seq<Vertex>, qt: seq<Tex>, q: nat): Quad
    requires 4 * q + 4 <= |vb| && q < |qt|
  {
    Quad(vb[4 * q..4 * q + 4], qt[q])
  }

  function QuadsOf(vb: seq<Vertex>, qt: seq<Tex>, n: nat): (r: seq<Quad>)
    requires 4 * n <= |vb| && n <= |qt|
    ensures |r| == n && forall q :: 0 <= q < n ==> r[q] == QuadAt(vb, qt, q)
  {
    if n == 0 then [] else QuadsOf(vb, qt, n - 1) + [QuadAt(vb, qt, n - 1)]
  }

  /** Two triangles over vertices 4q .. 4q + 3. */
  function QuadIndex(q: nat): (r: seq<int>)
  {
    [4 * q, 4 * q + 1, 4 * q + 2, 4 * q + 1, 4 * q + 3, 4 * q + 2]
  }

  /** The first n slots of an index array hold the index template. */
  ghost predicate Template(ib: seq<Word>, n: nat) {
    6 * n <= |ib| && forall q {:trigger QuadIndex(q)} :: 0 <= q < n ==> ib[6 * q..6 * q + 6] == QuadIndex(q)
  }

  lemma {:induction false} QuadsSame(vb: seq<Vertex>, qt: seq<Tex>, vc: seq<Vertex>, qu: seq<Tex>, n: nat)
    requires 4 * n <= |vb| && n <= |qt| && 4 * n <= |vc| && n <= |qu|
    requires vb[..4 * n] == vc[..4 * n] && qt[..n] == qu[..n]
    ensures QuadsOf(vb, qt, n) == QuadsOf(vc, qu, n)
  {
    forall q | 0 <= q < n
      ensures QuadAt(vb, qt, q) == QuadAt(vc, qu, q)
    {
      hide QuadsOf;
      assert vb[4 * q..4 * q + 4] == vb[..4 * n][4 * q..4 * q + 4];
      assert vc[4 * q..4 * q + 4] == vc[..4 * n][4 * q..4 * q + 4];
      assert qt[q] == qt[..n][q] && qu[q] == qu[..n][q];
    }
  }

  lemma {:induction false} TemplateSame(ib: seq<Word>, ic: seq<Word>, n: nat)
    requires 6 * n <= |ib| && 6 * n <= |ic| && ib[..6 * n] == ic[..6 * n] && Template(ib, n)
    ensures Template(ic, n)
  {
    forall q | 0 <= q < n
      ensures ic[6 * q..6 * q + 6] == QuadIndex(q)
    {
      assert ic[6 * q..6 * q + 6] == ic[..6 * n][6 * q..6 * q + 6] == ib[6 * q..6 * q + 6];
    }
  }

  lemma {:induction false} TemplatePrefix(ib: seq<Word>, n: nat, m: nat)
    requires Template(ib, n) && m <= n
    ensures Template(ib, m)
  {
  }

  // ---- GrowQuads

  /** memcpy of the first n elements */
  method CopyElements<T>(src: array<T>, dst: array<T>, n: nat)
    requires n <= src.Length && n <= dst.Length && src != dst
    modifies dst
    ensures dst[..][..n] == old(src[..])[..n]
    ensures forall i :: n <= i < dst.Length ==> dst[i] == old(dst[i])
  {
    forall i | 0 <= i < n {
      dst[i] := src[i];
    }
    assert dst[..][..n] == src[..][..n];
  }

  /** Equal elements are equal quads and an equal template. */
  lemma {:induction false} CopiedQuads(vb: seq<Vertex>, ib: seq<Word>, qt: seq<Tex>, vc: seq<Vertex>, ic: seq<Word>, qu: seq<Tex>, n: nat)
    requires 4 * n <= |vb| && n <= |qt| && 6 * n <= |ib| && 4 * n <= |vc| && n <= |qu| && 6 * n <= |ic|
    requires vc[..4 * n] == vb[..4 * n] && qu[..n] == qt[..n] && ic[..6 * n] == ib[..6 * n]
    ensures QuadsOf(vc, qu, n) == QuadsOf(vb, qt, n)
    ensures Template(ib, n) ==> Template(ic, n)
  {
    QuadsSame(vb, qt, vc, qu, n);
    if Template(ib, n) {
      TemplateSame(ib, ic, n);
    }
  }

  /** The pointers and the capacity of one set of parallel arrays. */
  class QuadBuf {
    var vb: array<Vertex>
    var ib: array<Word>
    var qt: array<Tex>
    var cap: nat

    constructor (capacity: nat)
      requires capacity <= QUAD_MAX
      ensures Shape() && cap == capacity && fresh(vb) && fresh(ib) && fresh(qt)
    {
      cap := capacity;
      vb := new Vertex[4 * capacity](i => Vertex(0.0, 0.0, 0.0, 0.0, 0));
      ib := new Word[6 * capacity](i => 0);
      qt := new Tex[capacity](i => Solid);
    }

    ghost predicate Shape()
      reads this
    {
      cap <= QUAD_MAX && vb.Length == 4 * cap && ib.Length == 6 * cap && qt.Length == cap
    }

    /** The first n quads. */
    ghost function Quads(n: nat): seq<Quad>
      requires Shape() && n <= cap
      reads this, vb, qt
    {
      QuadsOf(vb[..], qt[..], n)
    }

    ghost predicate Indexed(n: nat)
      requires Shape()
      reads this, ib
    {
      Template(ib[..], n)
    }
  }

  /** nc is cap doubled as often as nNeed asks, 256 for an empty list, and never above the ceiling. */
  predicate Doubled(cap: nat, nNeed: nat, nc: nat) {
    nc == 16384 || 2 * cap <= nc < 2 * nNeed || (cap == 0 && nc == 256)
  }

  /** Doubling from the old capacity, never above the ceiling. */
  method NewCapacity(cap: nat, nNeed: nat) returns (nc: nat)
    requires cap < nNeed <= QUAD_MAX
    ensures nNeed <= nc <= 16384
    ensures Doubled(cap, nNeed, nc)
  {
    nc := if cap != 0 then cap else QUAD_INIT;
    while nc < nNeed
      invariant nc > 0 && (nc == (if cap != 0 then cap else QUAD_INIT) || 2 * cap <= nc < 2 * nNeed)
      decreases nNeed - nc
    {
      nc := nc * 2;
    }
    if nc > QUAD_MAX {
      nc := QUAD_MAX;
    }
  }

  /** alloc is whether the three LocalAlloc calls succeed. */
  method GrowQuads(b: QuadBuf, nNeed: nat, nKeep: nat, alloc: bool) returns (ok: bool)
    requires b.Shape() && nKeep <= b.cap
    modifies b
    ensures b.Shape() && nKeep <= b.cap
    ensures ok <==> nNeed <= old(b.cap) || (nNeed <= 16384 && alloc)
    ensures ok && nNeed > old(b.cap) ==> Doubled(old(b.cap), nNeed, b.cap)
    ensures (ok ==> nNeed <= b.cap) && b.cap >= old(b.cap)
    ensures (b.vb == old(b.vb) && b.ib == old(b.ib) && b.qt == old(b.qt) && b.cap == old(b.cap)) || (fresh(b.vb) && fresh(b.ib) && fresh(b.qt))
    ensures !ok || nNeed <= old(b.cap) ==> b.vb == old(b.vb) && b.ib == old(b.ib) && b.qt == old(b.qt) && b.cap == old(b.cap)
    ensures b.Quads(nKeep) == old(b.Quads(nKeep)) && (old(b.Indexed(nKeep)) ==> b.Indexed(nKeep))
  {
    hide Doubled, QuadsOf, Template;
    if nNeed <= b.cap {
      return true;
    }
    if nNeed > QUAD_MAX {
      return false;
    }
    var nc := NewCapacity(b.cap, nNeed);
    if !alloc {
      return false;
    }
    var ovb, oib, oqt := b.vb, b.ib, b.qt;
    var pNvb := new Vertex[4 * nc](i => Vertex(0.0, 0.0, 0.0, 0.0, 0));
    var pNib := new Word[6 * nc](i => 0);
    var pNqt := new Tex[nc](i => Solid);
    CopyElements(ovb, pNvb, 4 * nKeep);
    CopyElements(oib, pNib, 6 * nKeep);
    CopyElements(oqt, pNqt, nKeep);
    CopiedQuads(ovb[..], oib[..], oqt[..], pNvb[..], pNib[..], pNqt[..], nKeep);
    b.vb, b.ib, b.qt, b.cap := pNvb, pNib, pNqt, nc;
    return true;
  }

  /** memcpy of n quads from one set of arrays to another. */
  method CopyQuads(from: QuadBuf, to: QuadBuf, n: nat)
    requires from.Shape() && to.Shape() && n <= from.cap && n <= to.cap
    requires from.vb != to.vb && from.ib != to.ib && from.qt != to.qt && from.Indexed(n)
    modifies to.vb, to.ib, to.qt
    ensures to.Quads(n) == old(from.Quads(n)) && to.Indexed(n)
    ensures from.vb[..] == old(from.vb[..]) && from.ib[..] == old(from.ib[..]) && from.qt[..] == old(from.qt[..])
  {
    hide QuadsOf, Template;
    CopyElements(from.vb, to.vb, 4 * n);
    CopyElements(from.ib, to.ib, 6 * n);
    CopyElements(from.qt, to.qt, n);
    CopiedQuads(from.vb[..], from.ib[..], from.qt[..], to.vb[..], to.ib[..], to.qt[..], n);
  }

  /** The largest of some sizes, 0 for none. */
  function Largest(sizes: seq<nat>): (m: nat)
    ensures forall i :: 0 <= i < |sizes| ==> sizes[i] <= m
    ensures m == 0 || exists i :: 0 <= i < |sizes| && sizes[i] == m
  {
    if sizes == [] then 0
    else
      var n, last := Largest(sizes[..|sizes| - 1]), sizes[|sizes| - 1];
      if last > n then last else n
  }

  // ---- one more quad

  lemma {:induction false} OneMoreQuad(vb: seq<Vertex>, qt: seq<Tex>, vc: seq<Vertex>, qu: seq<Tex>, n: nat, v: seq<Vertex>, tex: Tex)
    requires 4 * n + 4 <= |vb| == |vc| && n < |qt| == |qu| && |v| == 4
    requires vc == vb[4 * n := v[0]][4 * n + 1 := v[1]][4 * n + 2 := v[2]][4 * n + 3 := v[3]] && qu == qt[n := tex]
    ensures QuadsOf(vc, qu, n + 1) == QuadsOf(vb, qt, n) + [Quad(v, tex)]
  {
    assert vb[..4 * n] == vc[..4 * n] && qt[..n] == qu[..n];
    QuadsSame(vb, qt, vc, qu, n);
    assert vc[4 * n..4 * n + 4] == v;
  }

  lemma {:induction false} OneMoreIndex(ib: seq<Word>, ic: seq<Word>, n: nat)
    requires Template(ib, n) && 6 * n + 6 <= |ib| == |ic| && n < QUAD_MAX
    requires ib[..6 * n] == ic[..6 * n] && ic[6 * n..6 * n + 6] == QuadIndex(n)
    ensures Template(ic, n + 1)
  {
    TemplateSame(ib, ic, n);
  }

  /** The module state of the compositor back end. */
  class Gfx {
    const scene: QuadBuf // s_pVb, s_pIb, s_pQtex, s_nCap
    const desk: QuadBuf // s_pDvb, s_pDib, s_pDtex, s_nDcap
    const work: QuadBuf // the static arrays
    var nQuad: nat
    var nDQuad: nat
    var nPeak: nat
    var nFrames: nat
    ghost var recent: seq<nat> // the sizes of the frames presented since the last check

    constructor ()
      ensures Valid() && Paced() && Scene() == [] && Desk() == []
      ensures fresh(scene) && fresh(desk) && fresh(work) && fresh(scene.vb) && fresh(scene.ib) && fresh(scene.qt)
    {
      var w := new QuadBuf(QUAD_WORK);
      var s := new QuadBuf(QUAD_WORK);
      var d := new QuadBuf(0);
      s.vb, s.ib, s.qt := w.vb, w.ib, w.qt;
      scene, desk, work := s, d, w;
      nQuad, nDQuad, nPeak, nFrames, recent := 0, 0, 0, 0, [];
    }

    /** The arrays are apart, and the cached desktop is in order; nothing is said about the scene's quads. */
    ghost predicate Arranged()
      reads this, scene, desk, work, desk.ib
    {
      && scene != desk && scene != work && desk != work
      && scene.Shape() && desk.Shape() && work.Shape() && work.cap == QUAD_WORK
      && scene.vb != desk.vb && scene.ib != desk.ib && scene.qt != desk.qt
      && work.vb != desk.vb && work.ib != desk.ib && work.qt != desk.qt
      && nDQuad <= desk.cap && desk.Indexed(nDQuad)
    }

    ghost predicate Valid()
      reads this, scene, desk, work, scene.ib, desk.ib
    {
      Arranged() && nQuad <= scene.cap && scene.Indexed(nQuad)
    }

    /** nFrames and nPeak count and bound the recent frames. */
    ghost predicate Paced()
      reads this
    {
      nFrames == |recent| < 120 && nPeak == Largest(recent)
    }

    /** What has been emitted since the last present. */
    ghost function Scene(): seq<Quad>
      requires Valid()
      reads this, scene, desk, work, scene.vb, scene.ib, scene.qt, desk.ib
    {
      scene.Quads(nQuad)
    }

    /** The cached desktop. */
    ghost function Desk(): seq<Quad>
      requires Arranged()
      reads this, scene, desk, work, desk.vb, desk.ib, desk.qt
    {
      desk.Quads(nDQuad)
    }

    /** Write slot nQuad of the three arrays. */
    method StoreQuad(v: seq<Vertex>, tex: Tex)
      requires Valid() && |v| == 4 && nQuad < scene.cap
      modifies this`nQuad, scene.vb, scene.ib, scene.qt
      ensures Valid() && Scene() == old(Scene()) + [Quad(v, tex)] && Desk() == old(Desk())
    {
      hide QuadsOf, Template;
      var n := nQuad;
      var vb, ib, qt := scene.vb, scene.ib, scene.qt;
      ghost var v0, i0, q0 := vb[..], ib[..], qt[..];
      var base := 4 * n;
      StoreVertices(vb, base, v);
      StoreIndices(ib, n);
      qt[n] := tex;
      assert qt[..] == q0[n := tex];
      OneMoreQuad(v0, q0, vb[..], qt[..], n, v, tex);
      nQuad := n + 1;
    }

    /** PushQuad: visible is whether the clip left anything of the quad whose corners are then v. */
    method PushQuad(v: seq<Vertex>, tex: Tex, visible: bool, alloc: bool)
      requires Valid() && |v| == 4
      modifies this`nQuad, scene, scene.vb, scene.ib, scene.qt
      ensures Valid() && Desk() == old(Desk())
      ensures scene.cap >= old(scene.cap) && nQuad <= old(nQuad) + 1
      ensures (scene.vb == old(scene.vb) && scene.ib == old(scene.ib) && scene.qt == old(scene.qt)) || (fresh(scene.vb) && fresh(scene.ib) && fresh(scene.qt))
      ensures var room := old(nQuad) < old(scene.cap) || (old(nQuad) < 16384 && alloc);
              Scene() == if room && visible then old(Scene()) + [Quad(v, tex)] else old(Scene())
    {
      hide Doubled, QuadsOf, Template;
      var ok := GrowQuads(scene, nQuad + 1, nQuad, alloc);
      assert Scene() == old(Scene()) && Desk() == old(Desk());
      if !ok || !visible {
        return;
      }
      label Store:
      StoreQuad(v, tex);
    }

    method BeginDesktopCache()
      requires Valid()
      modifies this`nQuad
      ensures Valid() && Scene() == [] && Desk() == old(Desk())
    {
      nQuad := 0;
    }

    /** The recorded quads become the cached desktop, as many as there is room for; the scene is empty. */
    method EndDesktopCache(alloc: bool)
      requires Valid()
      modifies this`nDQuad, this`nQuad, desk, desk.vb, desk.ib, desk.qt
      ensures Valid() && Scene() == []
      ensures old(nQuad) <= old(desk.cap) || alloc ==> Desk() == old(Scene())
      ensures Desk() <= old(Scene()) && |Desk()| == if old(nQuad) <= old(desk.cap) || alloc then old(nQuad) else old(desk.cap)
    {
      hide Doubled, Template, QuadsOf;
      nDQuad := nQuad;
      EmptyTemplate(scene.ib[..]);
      var ok := GrowQuads(desk, nDQuad, 0, alloc);
      if !ok {
        nDQuad := desk.cap;
      }
      QuadsPrefix(scene.vb[..], scene.qt[..], nQuad, nDQuad);
      TemplatePrefix(scene.ib[..], nQuad, nDQuad);
      CopyQuads(scene, desk, nDQuad);
      nQuad := 0;
      EmptyTemplate(scene.ib[..]);
    }

    /** The scene becomes the cached desktop again. */
    method BlitDesktopCache(alloc: bool)
      requires Valid()
      modifies this`nQuad, scene, scene.vb, scene.ib, scene.qt
      ensures Valid() && Desk() == old(Desk())
      ensures Scene() == if old(nDQuad) <= old(scene.cap) || alloc then old(Desk()) else []
    {
      hide Doubled, Template;
      EmptyTemplate(scene.ib[..]);
      if nDQuad == 0 {
        nQuad := 0;
        return;
      }
      nQuad := 0;
      var ok := GrowQuads(scene, nDQuad, 0, alloc);
      assert Desk() == old(Desk());
      EmptyTemplate(scene.ib[..]);
      if !ok {
        return;
      }
      CopyQuads(desk, scene, nDQuad);
      nQuad := nDQuad;
    }

    /** Back to the static arrays, whose contents are stale: the caller starts the next frame from nothing. */
    method ShrinkScene(nWant: nat)
      requires Arranged()
      modifies scene
      ensures Arranged() && Desk() == old(Desk()) && nQuad == old(nQuad)
      ensures if old(scene.vb) == work.vb || nWant > QUAD_WORK then
                scene.vb == old(scene.vb) && scene.ib == old(scene.ib) && scene.qt == old(scene.qt) && scene.cap == old(scene.cap)
              else scene.vb == work.vb && scene.ib == work.ib && scene.qt == work.qt && scene.cap == QUAD_WORK
    {
      hide Template;
      if scene.vb == work.vb || nWant > QUAD_WORK {
        return;
      }
      scene.vb, scene.ib, scene.qt, scene.cap := work.vb, work.ib, work.qt, QUAD_WORK;
    }
  }

  /** The four vertices from base on. */
  method StoreVertices(vb: array<Vertex>, base: nat, v: seq<Vertex>)
    requires base + 4 <= vb.Length && |v| == 4
    modifies vb
    ensures vb[..] == old(vb[..])[base := v[0]][base + 1 := v[1]][base + 2 := v[2]][base + 3 := v[3]]
  {
    ghost var v0 := vb[..];
    vb[base], vb[base + 1], vb[base + 2], vb[base + 3] := v[0], v[1], v[2], v[3];
    assert vb[..] == v0[base := v[0]][base + 1 := v[1]][base + 2 := v[2]][base + 3 := v[3]];
  }

  /** The six indices of slot n. */
  method StoreIndices(ib: array<Word>, n: nat)
    requires 6 * n + 6 <= ib.Length && n < QUAD_MAX && Template(ib[..], n)
    modifies ib
    ensures Template(ib[..], n + 1)
  {
    ghost var i0 := ib[..];
    var k := 6 * n;
    ib[k], ib[k + 1], ib[k + 2] := 4 * n, 4 * n + 1, 4 * n + 2;
    ib[k + 3], ib[k + 4], ib[k + 5] := 4 * n + 1, 4 * n + 3, 4 * n + 2;
    assert ib[..][..k] == i0[..k];
    assert ib[..][k..k + 6] == QuadIndex(n);
    OneMoreIndex(i0, ib[..], n);
  }

  lemma {:induction false} EmptyTemplate(ib: seq<Word>)
    ensures Template(ib, 0)
  {
  }

  lemma {:induction false} QuadsPrefix(vb: seq<Vertex>, qt: seq<Tex>, n: nat, m: nat)
    requires m <= n && 4 * n <= |vb| && n <= |qt|
    ensures QuadsOf(vb, qt, m) <= QuadsOf(vb, qt, n)
  {
    if m < n {
      QuadsPrefix(vb, qt, n - 1, m);
    }
  }

  // ---- GfxPresent

  /** A DrawIndexedPrimitive call: a texture, vertices, and indices into those vertices. */
  datatype Draw = Draw(tex: Tex, verts: seq<Vertex>, idx: seq<Word>)

  datatype Tri = Tri(tex: Tex, a: Vertex, b: Vertex, c: Vertex)

  predicate Drawable(d: Draw) {
    |d.idx| % 3 == 0 && forall i :: 0 <= i < |d.idx| ==> d.idx[i] < |d.verts|
  }

  /** The first n triangles that a call draws. */
  function Triangles(d: Draw, n: nat): (r: seq<Tri>)
    requires Drawable(d) && 3 * n <= |d.idx|
  {
    if n == 0 then []
    else Triangles(d, n - 1) + [Tri(d.tex, d.verts[d.idx[3 * n - 3]], d.verts[d.idx[3 * n - 2]], d.verts[d.idx[3 * n - 1]])]
  }

  /** What a quad looks like: two triangles in its own texture. */
  function QuadTris(q: Quad): seq<Tri>
    requires |q.v| == 4
  {
    [Tri(q.tex, q.v[0], q.v[1], q.v[2]), Tri(q.tex, q.v[1], q.v[3], q.v[2])]
  }

  /** Every quad has four corners. */
  predicate Corners(qs: seq<Quad>) {
    forall i :: 0 <= i < |qs| ==> |qs[i].v| == 4
  }

  predicate AllDrawable(ds: seq<Draw>) {
    forall i :: 0 <= i < |ds| ==> Drawable(ds[i])
  }

  /** The painter's-order list as triangles. */
  function ListTris(qs: seq<Quad>): seq<Tri>
    requires Corners(qs)
  {
    if qs == [] then [] else ListTris(qs[..|qs| - 1]) + QuadTris(qs[|qs| - 1])
  }

  /** All triangles of a list of calls. */
  function DrawnTris(ds: seq<Draw>): seq<Tri>
    requires AllDrawable(ds)
  {
    if ds == [] then [] else DrawnTris(ds[..|ds| - 1]) + Triangles(ds[|ds| - 1], |ds[|ds| - 1].idx| / 3)
  }

  /** Quad k among the vertices of a call. */
  function BatchQuad(d: Draw, k: nat): Quad
    requires 4 * k + 4 <= |d.verts|
  {
    Quad(d.verts[4 * k..4 * k + 4], d.tex)
  }

  /** Call d draws quads i.. of qs with indices from slot 0 of the template. */
  ghost predicate Batch(d: Draw, qs: seq<Quad>, i: nat, n: nat) {
    && i + n <= |qs| && |d.verts| == 4 * n && |d.idx| == 6 * n && Template(d.idx, n)
    && forall k :: 0 <= k < n ==> BatchQuad(d, k) == qs[i + k]
  }

  lemma {:induction false} IndexAt(idx: seq<Word>, n: nat, k: nat)
    requires Template(idx, n) && k < n
    ensures idx[6 * k] == 4 * k && idx[6 * k + 1] == 4 * k + 1 && idx[6 * k + 2] == 4 * k + 2
    ensures idx[6 * k + 3] == 4 * k + 1 && idx[6 * k + 4] == 4 * k + 3 && idx[6 * k + 5] == 4 * k + 2
  {
    var s := idx[6 * k..6 * k + 6];
    assert s == QuadIndex(k);
    assert s[0] == idx[6 * k] && s[1] == idx[6 * k + 1] && s[2] == idx[6 * k + 2];
    assert s[3] == idx[6 * k + 3] && s[4] == idx[6 * k + 4] && s[5] == idx[6 * k + 5];
  }

  lemma {:induction false} BatchDrawable(d: Draw, qs: seq<Quad>, i: nat, n: nat)
    requires Batch(d, qs, i, n)
    ensures Drawable(d) && |d.idx| / 3 == 2 * n
  {
    forall j | 0 <= j < |d.idx|
      ensures d.idx[j] < |d.verts|
    {
      IndexAt(d.idx, n, j / 6);
      assert j == 6 * (j / 6) || j == 6 * (j / 6) + 1 || j == 6 * (j / 6) + 2 || j == 6 * (j / 6) + 3 || j == 6 * (j / 6) + 4 || j == 6 * (j / 6) + 5;
    }
  }

  /** The first k quads of a batch. */
  lemma {:induction false} BatchDraws(d: Draw, qs: seq<Quad>, i: nat, n: nat, k: nat)
    requires Batch(d, qs, i, n) && Drawable(d) && k <= n && Corners(qs)
    ensures ListTris(qs[..i + k]) == ListTris(qs[..i]) + Triangles(d, 2 * k)
    decreases k
  {
    hide Batch, Drawable, Triangles, ListTris, QuadTris;
    BatchSizes(d, qs, i, n);
    if k > 0 {
      BatchDraws(d, qs, i, n, k - 1);
      LastQuad(qs, i + k);
      assert i + k - 1 == i + (k - 1);
      QuadDrawn(d, qs, i, n, k - 1);
      TwoTriangles(d, k);
    } else {
      assert qs[..i + 0] == qs[..i];
      NoTriangles(d);
    }
  }

  lemma {:induction false} NoTriangles(d: Draw)
    requires Drawable(d)
    ensures Triangles(d, 0) == []
  {
  }

  lemma {:induction false} BatchSizes(d: Draw, qs: seq<Quad>, i: nat, n: nat)
    requires Batch(d, qs, i, n)
    ensures i + n <= |qs| && |d.verts| == 4 * n && |d.idx| == 6 * n
  {
  }

  lemma {:induction false} LastQuad(qs: seq<Quad>, n: nat)
    requires 0 < n <= |qs| && Corners(qs)
    ensures ListTris(qs[..n]) == ListTris(qs[..n - 1]) + QuadTris(qs[n - 1])
  {
    assert qs[..n][..n - 1] == qs[..n - 1];
  }

  lemma {:induction false} TwoTriangles(d: Draw, k: nat)
    requires Drawable(d) && k > 0 && 6 * k <= |d.idx|
    ensures Triangles(d, 2 * k) == Triangles(d, 2 * k - 2) + [
              Tri(d.tex, d.verts[d.idx[6 * k - 6]], d.verts[d.idx[6 * k - 5]], d.verts[d.idx[6 * k - 4]]),
              Tri(d.tex, d.verts[d.idx[6 * k - 3]], d.verts[d.idx[6 * k - 2]], d.verts[d.idx[6 * k - 1]])]
  {
    assert Triangles(d, 2 * k) == Triangles(d, 2 * k - 1) + [Tri(d.tex, d.verts[d.idx[6 * k - 3]], d.verts[d.idx[6 * k - 2]], d.verts[d.idx[6 * k - 1]])];
    assert Triangles(d, 2 * k - 1) == Triangles(d, 2 * k - 2) + [Tri(d.tex, d.verts[d.idx[6 * k - 6]], d.verts[d.idx[6 * k - 5]], d.verts[d.idx[6 * k - 4]])];
  }

  lemma {:induction false} QuadDrawn(d: Draw, qs: seq<Quad>, i: nat, n: nat, k: nat)
    requires Batch(d, qs, i, n) && Drawable(d) && k < n && |qs[i + k].v| == 4
    ensures QuadTris(qs[i + k]) == [
              Tri(d.tex, d.verts[d.idx[6 * k]], d.verts[d.idx[6 * k + 1]], d.verts[d.idx[6 * k + 2]]),
              Tri(d.tex, d.verts[d.idx[6 * k + 3]], d.verts[d.idx[6 * k + 4]], d.verts[d.idx[6 * k + 5]])]
  {
    IndexAt(d.idx, n, k);
    assert BatchQuad(d, k) == qs[i + k];
  }

  lemma {:induction false} QuadsHaveFour(vb: seq<Vertex>, qt: seq<Tex>, n: nat)
    requires 4 * n <= |vb| && n <= |qt|
    ensures Corners(QuadsOf(vb, qt, n))
  {
  }

  /** A run of equal textures, drawn with its own vertices and the first indices. */
  lemma {:induction false} RunIsBatch(vb: seq<Vertex>, ib: seq<Word>, qt: seq<Tex>, n: nat, i: nat, j: nat)
    requires 4 * n <= |vb| && n <= |qt| && Template(ib, n) && i < j <= n && forall k :: i <= k < j ==> qt[k] == qt[i]
    ensures Batch(Draw(qt[i], vb[4 * i..4 * i + 4 * (j - i)], ib[..6 * (j - i)]), QuadsOf(vb, qt, n), i, j - i)
  {
    hide QuadsOf, QuadAt, BatchQuad;
    var d, m := Draw(qt[i], vb[4 * i..4 * i + 4 * (j - i)], ib[..6 * (j - i)]), j - i;
    SceneLength(vb, qt, n);
    RunTemplate(ib, n, m);
    forall k | 0 <= k < m
      ensures BatchQuad(d, k) == QuadsOf(vb, qt, n)[i + k]
    {
      QuadOfRun(vb, qt, d, n, i, m, k);
    }
  }

  lemma {:induction false} RunTemplate(ib: seq<Word>, n: nat, m: nat)
    requires Template(ib, n) && m <= n
    ensures Template(ib[..6 * m], m)
  {
    TemplatePrefix(ib, n, m);
    assert ib[..6 * m][..6 * m] == ib[..6 * m];
    TemplateSame(ib, ib[..6 * m], m);
  }

  lemma {:induction false} QuadOfRun(vb: seq<Vertex>, qt: seq<Tex>, d: Draw, n: nat, i: nat, m: nat, k: nat)
    requires 4 * n <= |vb| && n <= |qt| && i + m <= n && k < m && qt[i + k] == d.tex && d.verts == vb[4 * i..4 * i + 4 * m]
    ensures BatchQuad(d, k) == QuadsOf(vb, qt, n)[i + k]
  {
    hide QuadsOf;
    assert QuadsOf(vb, qt, n)[i + k] == QuadAt(vb, qt, i + k);
    SliceOfSlice(vb, 4 * i, 4 * m, 4 * k);
    assert 4 * (i + k) == 4 * i + 4 * k;
  }

  lemma {:induction false} SliceOfSlice(s: seq<Vertex>, a: nat, len: nat, b: nat)
    requires a + len <= |s| && b + 4 <= len
    ensures s[a..a + len][b..b + 4] == s[a + b..a + b + 4]
  {
    var x, y := s[a..a + len][b..b + 4], s[a + b..a + b + 4];
    assert x[0] == y[0] && x[1] == y[1] && x[2] == y[2] && x[3] == y[3];
    assert x == y;
  }

  lemma {:induction false} DrawMore(ds: seq<Draw>, d: Draw, qs: seq<Quad>, i: nat, n: nat)
    requires Corners(qs) && AllDrawable(ds) && i <= |qs| && DrawnTris(ds) == ListTris(qs[..i])
    requires Batch(d, qs, i, n)
    ensures AllDrawable(ds + [d]) && DrawnTris(ds + [d]) == ListTris(qs[..i + n])
  {
    hide Batch, Drawable, Triangles, ListTris;
    BatchDrawable(d, qs, i, n);
    BatchDraws(d, qs, i, n, n);
    assert (ds + [d])[..|ds|] == ds;
  }

  /**
   * The batch loop: the calls draw exactly the emitted quads, each once, in order and in
   * its own texture; a new call starts only where the texture changes.
   */
  method DrawBatches(g: Gfx) returns (draws: seq<Draw>)
    requires g.Valid()
    ensures AllDrawable(draws) && Corners(g.Scene())
    ensures DrawnTris(draws) == ListTris(g.Scene())
    ensures forall k :: 0 < k < |draws| ==> draws[k].tex != draws[k - 1].tex
  {
    hide QuadsOf, Template, Drawable, DrawnTris, ListTris, Batch;
    var vb, ib, qt := g.scene.vb, g.scene.ib, g.scene.qt;
    ghost var qs := g.Scene();
    SceneLength(vb[..], qt[..], g.nQuad);
    QuadsHaveFour(vb[..], qt[..], g.nQuad);
    draws := [];
    NothingDrawn(qs);
    var i := 0;
    while i < g.nQuad
      invariant i <= g.nQuad
      invariant AllDrawable(draws) && Corners(qs[..i])
      invariant DrawnTris(draws) == ListTris(qs[..i])
      invariant forall k :: 0 < k < |draws| ==> draws[k].tex != draws[k - 1].tex
      invariant i > 0 && i < g.nQuad ==> |draws| > 0 && draws[|draws| - 1].tex != qt[i]
      invariant i == 0 ==> draws == []
    {
      var bTex := qt[i];
      var j := i;
      while j < g.nQuad && qt[j] == bTex
        invariant i <= j <= g.nQuad && forall k :: i <= k < j ==> qt[k] == bTex
      {
        j := j + 1;
      }
      var d := Draw(bTex, vb[4 * i..4 * i + 4 * (j - i)], ib[..6 * (j - i)]);
      assert vb[..][4 * i..4 * i + 4 * (j - i)] == d.verts && ib[..][..6 * (j - i)] == d.idx;
      RunIsBatch(vb[..], ib[..], qt[..], g.nQuad, i, j);
      DrawMore(draws, d, qs, i, j - i);
      draws := draws + [d];
      i := j;
    }
    assert qs[..i] == qs;
  }

  lemma {:induction false} SceneLength(vb: seq<Vertex>, qt: seq<Tex>, n: nat)
    requires 4 * n <= |vb| && n <= |qt|
    ensures |QuadsOf(vb, qt, n)| == n
  {
  }

  lemma {:induction false} NothingDrawn(qs: seq<Quad>)
    requires Corners(qs)
    ensures AllDrawable([]) && Corners(qs[..0])
    ensures DrawnTris([]) == ListTris(qs[..0]) == []
  {
  }

  /** A quad that GfxPresent adds on top: its corners, whether the clip leaves any of it, and whether memory lasts. */
  datatype Sprite = NoSprite | Sprite(v: seq<Vertex>, visible: bool, alloc: bool)

  predicate GoodSprite(p: Sprite) {
    p.Sprite? ==> |p.v| == 4
  }

  /** What a sprite shows when there is room for it. */
  function Top(p: Sprite): seq<Quad> {
    if p.Sprite? && p.visible then [Quad(p.v, Atlas)] else []
  }

  /** Every allocation that the two sprites could need succeeds. */
  predicate Room(n: nat, cap: nat, dragGhost: Sprite, cursor: Sprite) {
    n + 2 <= cap || (n + 2 <= QUAD_MAX && (dragGhost.Sprite? ==> dragGhost.alloc) && (cursor.Sprite? ==> cursor.alloc))
  }

  /** The drag ghost and then the cursor go on top of the scene. */
  method PushSprites(g: Gfx, dragGhost: Sprite, cursor: Sprite)
    requires g.Valid() && GoodSprite(dragGhost) && GoodSprite(cursor)
    modifies g`nQuad, g.scene, g.scene.vb, g.scene.ib, g.scene.qt
    ensures g.Valid() && g.Desk() == old(g.Desk())
    ensures old(g.Scene()) <= g.Scene()
    ensures Room(old(g.nQuad), old(g.scene.cap), dragGhost, cursor) ==> g.Scene() == old(g.Scene()) + Top(dragGhost) + Top(cursor)
  {
    hide QuadsOf, Template, Gfx.Valid, Gfx.Desk, Gfx.Scene;
    if dragGhost.Sprite? {
      g.PushQuad(dragGhost.v, Atlas, dragGhost.visible, dragGhost.alloc);
    }
    if cursor.Sprite? {
      g.PushQuad(cursor.v, Atlas, cursor.visible, cursor.alloc);
    }
  }

  /**
   * GfxPresent: the drag ghost and then the cursor go on top, the batches are drawn if the
   * scene can begin, the arrays shrink after 120 frames that were small enough, and the
   * next frame starts empty.
   */
  method Present(g: Gfx, dragGhost: Sprite, cursor: Sprite, begins: bool) returns (draws: seq<Draw>, ghost shown: seq<Quad>)
    requires g.Valid() && g.Paced() && GoodSprite(dragGhost) && GoodSprite(cursor)
    modifies g`nPeak, g`nFrames, g`nQuad, g`recent, g.scene, g.scene.vb, g.scene.ib, g.scene.qt
    ensures g.Valid() && g.Paced() && g.Scene() == [] && g.Desk() == old(g.Desk())
    ensures old(g.Scene()) <= shown
    ensures g.recent == (if |old(g.recent)| == 119 then [] else old(g.recent) + [|shown|])
    ensures Room(old(g.nQuad), old(g.scene.cap), dragGhost, cursor) ==> shown == old(g.Scene()) + Top(dragGhost) + Top(cursor)
    ensures AllDrawable(draws) && Corners(shown)
    ensures DrawnTris(draws) == if begins then ListTris(shown) else []
  {
    hide QuadsOf, Template, Drawable, DrawnTris, ListTris, Corners, AllDrawable, Gfx.Valid, Gfx.Scene, Gfx.Desk, Top, Largest, Recycled;
    PushSprites(g, dragGhost, cursor);
    shown := g.Scene();
    SceneCorners(g);
    NothingDrawn(shown);
    draws := [];
    if begins {
      draws := DrawBatches(g);
    }
    Recycle(g);
  }

  lemma SceneCorners(g: Gfx)
    requires g.Valid()
    ensures Corners(g.Scene()) && |g.Scene()| == g.nQuad
  {
    QuadsHaveFour(g.scene.vb[..], g.scene.qt[..], g.nQuad);
  }

  /** What becomes of the scene's arrays when sizes are those of the frames since the last check. */
  twostate predicate Recycled(g: Gfx, sizes: seq<nat>)
    reads g.scene, g.work
  {
    var m := Largest(sizes);
    if |sizes| == 120 && old(g.scene.vb) != g.work.vb && m + m / 2 + 32 <= 2048 then
      g.scene.vb == g.work.vb && g.scene.ib == g.work.ib && g.scene.qt == g.work.qt && g.scene.cap == 2048
    else
      g.scene.vb == old(g.scene.vb) && g.scene.ib == old(g.scene.ib) && g.scene.qt == old(g.scene.qt) && g.scene.cap == old(g.scene.cap)
  }

  /** The end of GfxPresent: every 120 frames the arrays go back to the static ones if half as much again as the largest frame, and 32, fit there. */
  method Recycle(g: Gfx)
    requires g.Valid() && g.Paced()
    modifies g`nPeak, g`nFrames, g`nQuad, g`recent, g.scene
    ensures g.Valid() && g.Paced() && g.Scene() == [] && g.Desk() == old(g.Desk())
    ensures var sizes := old(g.recent) + [old(g.nQuad)];
            g.recent == (if |sizes| == 120 then [] else sizes) && Recycled(g, sizes)
  {
    hide QuadsOf, Template;
    g.recent := g.recent + [g.nQuad];
    assert g.recent[..|g.recent| - 1] == old(g.recent);
    if g.nQuad > g.nPeak {
      g.nPeak := g.nQuad;
    }
    g.nFrames := g.nFrames + 1;
    if g.nFrames >= 120 {
      var nWant := g.nPeak + g.nPeak / 2 + 32;
      if g.scene.vb != g.work.vb && nWant <= QUAD_WORK {
        g.ShrinkScene(nWant);
      }
      g.nPeak := 0;
      g.nFrames := 0;
      g.recent := [];
    }
    EmptyTemplate(g.scene.ib[..]);
    EmptyScene(g.scene.vb[..], g.scene.qt[..]);
    g.nQuad := 0;
  }

  lemma {:induction false} EmptyScene(vb: seq<Vertex>, qt: seq<Tex>)
    ensures QuadsOf(vb, qt, 0) == []
  {
  }
}
