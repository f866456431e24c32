/**
 * The half-edge data structure of the mesh viewer (`HalfEdgeDS` and its `Vertex`, `HalfEdge` and
 * `Face` records). The records point at each other; here every such reference is an index into
 * the owning structure's `vertices`, `halfEdges` or `faces` sequence, and `null` is `None`.
 */
module HalfEdgeMesh {
  import opened Wrappers
  import opened EdgePairing

  /** A number read from a JavaScript array: `undefined` when read past its end. */
  datatype Value = Undefined | Number(r: real)

  function At(s: seq<real>, i: nat): Value {
    if i < |s| then Number(s[i]) else Undefined
  }

  /** The two colours a vertex ever has: the constructor's default and the highlight. */
  datatype Color = DefaultColor | Red

  /** The RGBA components the colour is stored as. */
  function Rgba(c: Color): (rgba: seq<real>)
    ensures |rgba| == 4 && rgba[3] == 1.0
  {
    match c
    case DefaultColor => [0.5, 0.2, 0.4, 1.0]
    case Red => [1.0, 0.0, 0.0, 1.0]
  }

  /** `position` is `[x, y, z, 1]`, `normal` four components, `he` one outgoing half-edge. */
  datatype Vertex = Vertex(vid: nat, position: seq<Value>, normal: seq<Value>, color: Color, he: Option<nat>)

  /** `vertex` is the origin, `next` the following half-edge of the same face. */
  datatype HalfEdge = HalfEdge(vertex: nat, next: nat, face: nat, opposite: Option<nat>)

  datatype Face = Face(baseHe: nat)

  /** The vertex `build` makes from the `i`-th group of four coordinates and of four normal
      components (`coords[4i..4i+2]` and `normals[4i..4i+3]`, `undefined` past the end). */
  function NewVertex(i: nat, coords: seq<real>, normals: seq<real>): Vertex {
    Vertex(i,
      [At(coords, 4 * i), At(coords, 4 * i + 1), At(coords, 4 * i + 2), Number(1.0)],
      [At(normals, 4 * i), At(normals, 4 * i + 1), At(normals, 4 * i + 2), At(normals, 4 * i + 3)],
      DefaultColor, None)
  }

  /** The number of vertices `build` makes from `n` coordinates: one per started group of four. */
  function VertexCount(n: nat): nat {
    (n + 3) / 4
  }

  /** The half-edge after `h` in its triangle: faces own the consecutive triples 3f, 3f+1, 3f+2. */
  function NextOf(h: nat): nat {
    if h % 3 == 2 then h - 2 else h + 1
  }

  /** Walking `next` three times from any half-edge comes back to it, staying in its face, and no
      two half-edges share a successor. */
  lemma NextCycle(h: nat, g: nat)
    ensures NextOf(h) != h && NextOf(NextOf(h)) != h && NextOf(NextOf(NextOf(h))) == h
    ensures NextOf(h) / 3 == h / 3
    ensures NextOf(h) == NextOf(g) ==> h == g
  {
  }

  /** Every origin and every `next` is an index into the structure. */
  ghost predicate Linked(vs: seq<Vertex>, hs: seq<HalfEdge>) {
    forall h :: 0 <= h < |hs| ==> hs[h].vertex < |vs| && hs[h].next < |hs|
  }

  /** The key of the undirected edge from the origin of `h` to the origin of its `next`. */
  ghost function KeyOf(vs: seq<Vertex>, hs: seq<HalfEdge>, h: nat): Key
    requires Linked(vs, hs) && h < |hs|
  {
    EdgeKey(vs[hs[h].vertex].vid, vs[hs[hs[h].next].vertex].vid)
  }

  /** The keys of all half-edges, in storage order. */
  ghost function Keys(vs: seq<Vertex>, hs: seq<HalfEdge>): (ks: seq<Key>)
    requires Linked(vs, hs)
    ensures |ks| == |hs|
    ensures forall h {:trigger KeyOf(vs, hs, h)} :: 0 <= h < |hs| ==> ks[h] == KeyOf(vs, hs, h)
  {
    KeysUpTo(vs, hs, |hs|)
  }

  ghost function KeysUpTo(vs: seq<Vertex>, hs: seq<HalfEdge>, n: nat): (ks: seq<Key>)
    requires Linked(vs, hs) && n <= |hs|
    ensures |ks| == n
    ensures forall h {:trigger KeyOf(vs, hs, h)} :: 0 <= h < n ==> ks[h] == KeyOf(vs, hs, h)
  {
    if n == 0 then [] else KeysUpTo(vs, hs, n - 1) + [KeyOf(vs, hs, n - 1)]
  }

  /** Two structures whose half-edges have the same keys have the same key sequence. */
  lemma SameKeys(vs: seq<Vertex>, hs: seq<HalfEdge>, ws: seq<Vertex>, gs: seq<HalfEdge>)
    requires Linked(vs, hs) && Linked(ws, gs) && |hs| == |gs|
    requires forall h :: 0 <= h < |hs| ==> KeyOf(vs, hs, h) == KeyOf(ws, gs, h)
    ensures Keys(vs, hs) == Keys(ws, gs)
  {
    var a, b := Keys(vs, hs), Keys(ws, gs);
    forall h | 0 <= h < |a| ensures a[h] == b[h] {
      assert a[h] == KeyOf(vs, hs, h) && b[h] == KeyOf(ws, gs, h);
    }
  }

  /** What steps 1 and 2 of `build` establish: dense vertex ids, four-component positions and
      normals, and three half-edges per face whose `next` links form the face's 3-cycle. */
  ghost predicate Triangulated(vs: seq<Vertex>, hs: seq<HalfEdge>, fs: seq<Face>) {
    Linked(vs, hs) &&
    (forall v :: 0 <= v < |vs| ==> vs[v].vid == v && |vs[v].position| == 4 && |vs[v].normal| == 4) &&
    |hs| == 3 * |fs| &&
    (forall h :: 0 <= h < |hs| ==> hs[h].next == NextOf(h) && hs[h].face == h / 3) &&
    (forall f :: 0 <= f < |fs| ==> fs[f].baseHe == 3 * f)
  }

  /** Opposites are symmetric, never the half-edge itself, and lie on the same undirected edge. */
  ghost predicate OppositesPaired(vs: seq<Vertex>, hs: seq<HalfEdge>)
    requires Linked(vs, hs)
  {
    forall h :: 0 <= h < |hs| && hs[h].opposite.Some? ==>
      var o := hs[h].opposite.value;
      o < |hs| && o != h && hs[o].opposite == Some(h) && KeyOf(vs, hs, o) == KeyOf(vs, hs, h)
  }

  /** A vertex's outgoing half-edge, once set, starts at that vertex. */
  ghost predicate OutgoingValid(vs: seq<Vertex>, hs: seq<HalfEdge>) {
    forall v :: 0 <= v < |vs| && vs[v].he.Some? ==> vs[v].he.value < |hs| && hs[vs[v].he.value].vertex == v
  }

  ghost predicate MeshInvariant(vs: seq<Vertex>, hs: seq<HalfEdge>, fs: seq<Face>) {
    Triangulated(vs, hs, fs) && OppositesPaired(vs, hs) && OutgoingValid(vs, hs)
  }

  /** Every paired edge is walked in opposite directions by its two half-edges, as it is on a
      consistently oriented mesh. */
  ghost predicate Oriented(hs: seq<HalfEdge>)
    requires forall h :: 0 <= h < |hs| ==> hs[h].next < |hs|
  {
    forall h :: 0 <= h < |hs| && hs[h].opposite.Some? && hs[h].opposite.value < |hs| ==>
      hs[hs[h].opposite.value].vertex == hs[hs[h].next].vertex
  }

  /** `a` unless it is unset, then `b`. */
  function OrElse(a: Option<nat>, b: Option<nat>): Option<nat> {
    if a.Some? then a else b
  }

  /** The first of the first `n` half-edges whose origin is `v`, if any. */
  function FirstOrigin(hs: seq<HalfEdge>, v: nat, n: nat): (r: Option<nat>)
    requires n <= |hs|
    ensures r.Some? ==> r.value < n && hs[r.value].vertex == v
    ensures forall j :: 0 <= j < n && (r.None? || j < r.value) ==> hs[j].vertex != v
  {
    if n == 0 then None
    else match FirstOrigin(hs, v, n - 1)
      case Some(j) => Some(j)
      case None => if hs[n - 1].vertex == v then Some(n - 1) else None
  }

  /** The flat buffers `getVBOs` returns, element by element: per vertex in id order four position,
      four colour and four normal components; per half-edge in storage order its origin's id. */
  ghost predicate IsExport(vs: seq<Vertex>, hs: seq<HalfEdge>,
                           coords: seq<Value>, colors: seq<real>, normals: seq<Value>, indices: seq<nat>)
  {
    (forall v :: 0 <= v < |vs| ==> |vs[v].position| == 4 && |vs[v].normal| == 4) &&
    (forall h :: 0 <= h < |hs| ==> hs[h].vertex < |vs|) &&
    |coords| == 4 * |vs| && |colors| == 4 * |vs| && |normals| == 4 * |vs| && |indices| == |hs| &&
    (forall j :: 0 <= j < |coords| ==>
      coords[j] == vs[j / 4].position[j % 4] && colors[j] == Rgba(vs[j / 4].color)[j % 4] &&
      normals[j] == vs[j / 4].normal[j % 4]) &&
    (forall h :: 0 <= h < |hs| ==> indices[h] == vs[hs[h].vertex].vid)
  }

  /** The export is a function of the structure: two exports of the same state are equal, so
      calling `getVBOs` again without a change in between gives the same buffers. */
  lemma ExportUnique(vs: seq<Vertex>, hs: seq<HalfEdge>,
                     c1: seq<Value>, k1: seq<real>, n1: seq<Value>, i1: seq<nat>,
                     c2: seq<Value>, k2: seq<real>, n2: seq<Value>, i2: seq<nat>)
    requires IsExport(vs, hs, c1, k1, n1, i1) && IsExport(vs, hs, c2, k2, n2, i2)
    ensures c1 == c2 && k1 == k2 && n1 == n2 && i1 == i2
  {
  }

  /** Vertex `v`'s four components sit at positions 4v to 4v+3 of each vertex buffer. */
  lemma ExportVertex(vs: seq<Vertex>, hs: seq<HalfEdge>,
                     coords: seq<Value>, colors: seq<real>, normals: seq<Value>, indices: seq<nat>, v: nat, c: nat)
    requires IsExport(vs, hs, coords, colors, normals, indices) && v < |vs| && c < 4
    ensures coords[4 * v + c] == vs[v].position[c]
    ensures colors[4 * v + c] == Rgba(vs[v].color)[c]
    ensures normals[4 * v + c] == vs[v].normal[c]
  {
    var j := 4 * v + c;
    assert j / 4 == v && j % 4 == c;
    assert j < |coords|;
  }

  /** On a built structure the index stream is the origins themselves, three per face: the
      element count the draw call passes. */
  lemma ExportIndices(vs: seq<Vertex>, hs: seq<HalfEdge>, fs: seq<Face>,
                      coords: seq<Value>, colors: seq<real>, normals: seq<Value>, indices: seq<nat>)
    requires Triangulated(vs, hs, fs) && IsExport(vs, hs, coords, colors, normals, indices)
    ensures |indices| == 3 * |fs|
    ensures forall h :: 0 <= h < |hs| ==> indices[h] == hs[h].vertex
  {
  }

  /** The half-edge the fan walk moves to from `h`: `h.opposite.next`, none without an opposite. */
  function Step(hs: seq<HalfEdge>, h: nat): Option<nat>
    requires h < |hs| && (hs[h].opposite.Some? ==> hs[h].opposite.value < |hs|)
  {
    match hs[h].opposite
    case None => None
    case Some(o) => Some(hs[o].next)
  }

  /** Every half-edge's `next` and `opposite` are indices into the structure, so `Step` is defined. */
  ghost predicate StepDefined(hs: seq<HalfEdge>) {
    forall h :: 0 <= h < |hs| ==>
      hs[h].next < |hs| && (hs[h].opposite.Some? ==> hs[h].opposite.value < |hs|)
  }

  lemma StepIsDefined(vs: seq<Vertex>, hs: seq<HalfEdge>, fs: seq<Face>)
    requires MeshInvariant(vs, hs, fs)
    ensures StepDefined(hs)
  {
  }

  /** The vertices of the face of `h`: `h`, `h.next` and `h.next.next`'s origins. */
  ghost function FaceVertices(hs: seq<HalfEdge>, h: nat): set<nat>
    requires h < |hs| && forall g :: 0 <= g < |hs| ==> hs[g].next < |hs|
  {
    {hs[h].vertex, hs[hs[h].next].vertex, hs[hs[hs[h].next].next].vertex}
  }

  /** The vertices of every face visited by a walk. */
  ghost function Painted(hs: seq<HalfEdge>, walk: seq<nat>): set<nat>
    requires forall g :: 0 <= g < |hs| ==> hs[g].next < |hs|
    requires forall i :: 0 <= i < |walk| ==> walk[i] < |hs|
  {
    if walk == [] then {}
    else Painted(hs, walk[..|walk| - 1]) + FaceVertices(hs, walk[|walk| - 1])
  }

  /** The vertices with the vertices in `painted` turned red, everything else as it was. */
  ghost function Recolored(vs: seq<Vertex>, painted: set<nat>): seq<Vertex> {
    seq(|vs|, u requires 0 <= u < |vs| => if u in painted then vs[u].(color := Red) else vs[u])
  }

  /** A fan walk: distinct half-edges, each the `Step` of the one before. */
  ghost predicate IsFanWalk(vs: seq<Vertex>, hs: seq<HalfEdge>, fs: seq<Face>, walk: seq<nat>)
    requires MeshInvariant(vs, hs, fs)
  {
    |walk| >= 1 &&
    (forall i :: 0 <= i < |walk| ==> walk[i] < |hs|) &&
    (forall i :: 0 <= i < |walk| - 1 ==> Step(hs, walk[i]) == Some(walk[i + 1])) &&
    (forall i, j :: 0 <= i < j < |walk| ==> walk[i] != walk[j])
  }

  /** The fan step is injective: `next` and `opposite` both are. */
  lemma StepInjective(vs: seq<Vertex>, hs: seq<HalfEdge>, fs: seq<Face>, a: nat, b: nat)
    requires MeshInvariant(vs, hs, fs) && a < |hs| && b < |hs|
    requires Step(hs, a).Some? && Step(hs, a) == Step(hs, b)
    ensures a == b
  {
    var oa, ob := hs[a].opposite.value, hs[b].opposite.value;
    NextCycle(oa, ob);
  }

  /** On a consistently oriented mesh the fan step keeps the pivot: `h.opposite.next` starts where
      `h` starts, because `h.opposite` runs along the same edge the other way. */
  lemma FanStepKeepsPivot(vs: seq<Vertex>, hs: seq<HalfEdge>, fs: seq<Face>, h: nat)
    requires MeshInvariant(vs, hs, fs) && Oriented(hs) && h < |hs| && Step(hs, h).Some?
    ensures hs[Step(hs, h).value].vertex == hs[h].vertex
  {
    var o := hs[h].opposite.value;
    assert KeyOf(vs, hs, o) == KeyOf(vs, hs, h);
    EdgeKeyUndirected(hs[h].vertex, hs[hs[h].next].vertex, hs[o].vertex, hs[hs[o].next].vertex);
  }

  /** A walk step that does not return to the start reaches a half-edge not visited yet. */
  lemma StepLeavesWalk(vs: seq<Vertex>, hs: seq<HalfEdge>, fs: seq<Face>, walk: seq<nat>, x: nat)
    requires MeshInvariant(vs, hs, fs) && IsFanWalk(vs, hs, fs, walk)
    requires Step(hs, walk[|walk| - 1]) == Some(x) && x != walk[0]
    ensures x !in walk
  {
    if j :| 0 <= j < |walk| && walk[j] == x {
      assert j > 0;
      StepInjective(vs, hs, fs, walk[j - 1], walk[|walk| - 1]);
    }
  }

  function Elements(w: seq<nat>): set<nat> {
    set i | 0 <= i < |w| :: w[i]
  }

  function Below(n: nat): (r: set<nat>)
    ensures |r| == n && forall x: nat :: x in r <==> x < n
  {
    if n == 0 then {} else Below(n - 1) + {n - 1}
  }

  lemma {:induction false} DistinctElements(w: seq<nat>)
    requires forall i, j :: 0 <= i < j < |w| ==> w[i] != w[j]
    ensures |Elements(w)| == |w|
  {
    if |w| > 0 {
      var u := w[..|w| - 1];
      DistinctElements(u);
      assert Elements(w) == Elements(u) + {w[|w| - 1]};
    }
  }

  /** A walk without repetitions through `n` half-edges has at most `n` steps. */
  lemma DistinctBound(w: seq<nat>, n: nat)
    requires forall i :: 0 <= i < |w| ==> w[i] < n
    requires forall i, j :: 0 <= i < j < |w| ==> w[i] != w[j]
    ensures |w| <= n
  {
    DistinctElements(w);
    var b := Below(n);
    assert b == Elements(w) + (b - Elements(w));
  }

  /** Recolouring changes no id, position, normal or outgoing half-edge, so the invariant stays. */
  lemma RecoloredKeepsInvariant(vs: seq<Vertex>, hs: seq<HalfEdge>, fs: seq<Face>, painted: set<nat>)
    requires MeshInvariant(vs, hs, fs)
    ensures MeshInvariant(Recolored(vs, painted), hs, fs)
    ensures Keys(Recolored(vs, painted), hs) == Keys(vs, hs)
  {
    var ws := Recolored(vs, painted);
    assert forall u :: 0 <= u < |vs| ==> ws[u].vid == vs[u].vid && ws[u].he == vs[u].he;
    assert Linked(ws, hs);
    assert forall h :: 0 <= h < |hs| ==> KeyOf(ws, hs, h) == KeyOf(vs, hs, h);
    SameKeys(ws, hs, vs, hs);
  }

  /** Changing only the outgoing half-edges of the vertices keeps the structure triangulated, the
      edge keys and the opposite pairing. */
  lemma OutgoingOnlyChanged(vs: seq<Vertex>, ws: seq<Vertex>, hs: seq<HalfEdge>, fs: seq<Face>)
    requires |ws| == |vs| && forall v :: 0 <= v < |vs| ==> ws[v] == vs[v].(he := ws[v].he)
    requires Triangulated(vs, hs, fs)
    ensures Triangulated(ws, hs, fs) && Keys(ws, hs) == Keys(vs, hs)
    ensures OppositesPaired(vs, hs) ==> OppositesPaired(ws, hs)
  {
    assert forall h :: 0 <= h < |hs| ==> KeyOf(ws, hs, h) == KeyOf(vs, hs, h);
    SameKeys(ws, hs, vs, hs);
  }

  /** What scanning half-edge `n` does to the half-edges: when another occurrence of its key is
      pending (an odd number of them so far) the two become each other's opposite, otherwise nothing
      changes. */
  ghost function PairStep(cur: seq<HalfEdge>, ks: seq<Key>, n: nat): (r: seq<HalfEdge>)
    requires n < |ks| == |cur|
    ensures |r| == |cur|
    ensures forall h :: 0 <= h < |r| ==> r[h] == cur[h].(opposite := r[h].opposite)
  {
    var k := ks[n];
    if Count(ks, k, n) % 2 == 1 then
      var last := LastBefore(ks, k, n) as nat;
      cur[last := cur[last].(opposite := Some(n))][n := cur[n].(opposite := Some(last))]
    else cur
  }

  /** The half-edges once `computeOpposites` has scanned the first `n` of them. */
  ghost function Scanned(hs: seq<HalfEdge>, ks: seq<Key>, n: nat): (r: seq<HalfEdge>)
    requires |ks| == |hs| && n <= |hs|
    ensures |r| == |hs|
    ensures forall h {:trigger r[h]} :: 0 <= h < |r| ==> r[h] == hs[h].(opposite := r[h].opposite)
  {
    if n == 0 then hs else PairStep(Scanned(hs, ks, n - 1), ks, n - 1)
  }

  /** The scan in closed form: after `n` steps every scanned half-edge that is paired within the
      first `n` has its partner as opposite, and every other half-edge keeps its own. */
  lemma {:induction false} ScannedClosedForm(hs: seq<HalfEdge>, ks: seq<Key>, n: nat)
    requires |ks| == |hs| && n <= |hs|
    ensures forall h {:trigger Scanned(hs, ks, n)[h]} :: 0 <= h < |hs| ==>
      Scanned(hs, ks, n)[h] ==
        hs[h].(opposite := if h < n then OrElse(PartnerIn(ks, n, h), hs[h].opposite) else hs[h].opposite)
  {
    if n > 0 {
      var m := n - 1;
      ScannedClosedForm(hs, ks, m);
      var cur := Scanned(hs, ks, m);
      var nxt := Scanned(hs, ks, n);
      assert nxt == PairStep(cur, ks, m);
      forall h | 0 <= h < |hs|
        ensures nxt[h] == hs[h].(opposite := if h < n then OrElse(PartnerIn(ks, n, h), hs[h].opposite) else hs[h].opposite)
      {
        if h <= m {
          PartnerInStep(ks, m, h);
        }
      }
    }
  }

  /** Changing only opposites keeps the structure triangulated and its edge keys. */
  lemma OppositesOnlyChanged(vs: seq<Vertex>, hs: seq<HalfEdge>, r: seq<HalfEdge>, fs: seq<Face>)
    requires |r| == |hs| && forall h :: 0 <= h < |r| ==> r[h] == hs[h].(opposite := r[h].opposite)
    requires Triangulated(vs, hs, fs)
    ensures Triangulated(vs, r, fs) && Keys(vs, r) == Keys(vs, hs)
  {
    assert Linked(vs, r);
    assert forall h :: 0 <= h < |hs| ==> KeyOf(vs, r, h) == KeyOf(vs, hs, h);
    SameKeys(vs, r, vs, hs);
  }

  /** Opposites set exactly to the partners give a symmetric pairing along equal edges. */
  lemma ScanPaired(vs: seq<Vertex>, r: seq<HalfEdge>, ks: seq<Key>)
    requires Linked(vs, r) && ks == Keys(vs, r)
    requires forall h :: 0 <= h < |r| ==> r[h].opposite == Partner(ks, h)
    ensures OppositesPaired(vs, r)
  {
    forall h | 0 <= h < |r| && r[h].opposite.Some?
      ensures var o := r[h].opposite.value;
        o < |r| && o != h && r[o].opposite == Some(h) && KeyOf(vs, r, o) == KeyOf(vs, r, h)
    {
      PartnerSymmetric(ks, h, r[h].opposite.value);
    }
  }

  /** Painting the three vertices of one more face red, one after the other. */
  lemma RecolorFace(vs: seq<Vertex>, painted: set<nat>, a: nat, b: nat, c: nat,
                    w1: seq<Vertex>, w2: seq<Vertex>, w3: seq<Vertex>)
    requires a < |vs| && b < |vs| && c < |vs|
    requires w1 == Recolored(vs, painted)[a := Recolored(vs, painted)[a].(color := Red)]
    requires w2 == w1[b := w1[b].(color := Red)]
    requires w3 == w2[c := w2[c].(color := Red)]
    ensures w3 == Recolored(vs, painted + {a, b, c})
  {
    var r := Recolored(vs, painted + {a, b, c});
    forall u | 0 <= u < |vs| ensures w3[u] == r[u] {
    }
  }

  /** The painted set grows by the face of each half-edge the walk takes. */
  lemma PaintedSnoc(hs: seq<HalfEdge>, prev: seq<nat>, x: nat)
    requires forall g :: 0 <= g < |hs| ==> hs[g].next < |hs|
    requires forall i :: 0 <= i < |prev| ==> prev[i] < |hs|
    requires x < |hs|
    ensures Painted(hs, prev + [x]) == Painted(hs, prev) + FaceVertices(hs, x)
  {
    assert (prev + [x])[..|prev|] == prev;
  }

  /** What `computeOpposites` does to the half-edges: each gets its partner as opposite, and one
      without a partner keeps the opposite it had. */
  ghost predicate OppositesComputed(vs: seq<Vertex>, before: seq<HalfEdge>, after: seq<HalfEdge>)
    requires Linked(vs, before)
  {
    |after| == |before| &&
    forall h :: 0 <= h < |before| ==>
      after[h] == before[h].(opposite := OrElse(Partner(Keys(vs, before), h), before[h].opposite))
  }

  /** What `computeVertexHe` does to the vertices: each without an outgoing half-edge gets the first
      half-edge in storage order that starts at it, if there is one. */
  ghost predicate OutgoingComputed(before: seq<Vertex>, after: seq<Vertex>, hs: seq<HalfEdge>) {
    |after| == |before| &&
    forall v :: 0 <= v < |before| ==> after[v] == before[v].(he := OrElse(before[v].he, FirstOrigin(hs, v, |hs|)))
  }

  /** The structure `build(coords, trigs, normals)` makes: one vertex per group of four coordinates
      with its first outgoing half-edge, three half-edges per index triple with their partners as
      opposites, one face per triple; and it satisfies the invariant. */
  ghost predicate IsBuilt(vs: seq<Vertex>, hs: seq<HalfEdge>, fs: seq<Face>,
                          coords: seq<real>, trigs: seq<nat>, normals: seq<real>)
  {
    MeshInvariant(vs, hs, fs) &&
    |vs| == VertexCount(|coords|) && |hs| == |trigs| && |fs| == |trigs| / 3 &&
    (forall v :: 0 <= v < |vs| ==> vs[v] == NewVertex(v, coords, normals).(he := FirstOrigin(hs, v, |hs|))) &&
    (forall h :: 0 <= h < |hs| ==> hs[h] == HalfEdge(trigs[h], NextOf(h), h / 3, Partner(Keys(vs, hs), h))) &&
    (forall f :: 0 <= f < |fs| ==> fs[f] == Face(3 * f))
  }

  /** The three phases of `build` compose: fresh vertices and faces (`verts`, `hs`, `fs`), then the
      opposites (`paired`), then the outgoing half-edges (`vs`). */
  lemma BuildPhases(coords: seq<real>, trigs: seq<nat>, normals: seq<real>,
                    verts: seq<Vertex>, hs: seq<HalfEdge>, fs: seq<Face>, paired: seq<HalfEdge>, vs: seq<Vertex>)
    requires |verts| == VertexCount(|coords|) && |hs| == |trigs| && |fs| == |trigs| / 3
    requires forall v :: 0 <= v < |verts| ==> verts[v] == NewVertex(v, coords, normals)
    requires forall h :: 0 <= h < |hs| ==> hs[h] == HalfEdge(trigs[h], NextOf(h), h / 3, None)
    requires forall f :: 0 <= f < |fs| ==> fs[f] == Face(3 * f)
    requires Triangulated(verts, hs, fs) && OppositesComputed(verts, hs, paired)
    requires Triangulated(verts, paired, fs) && Keys(verts, paired) == Keys(verts, hs)
    requires OppositesPaired(verts, paired)
    requires OutgoingComputed(verts, vs, paired) && OutgoingValid(vs, paired)
    ensures IsBuilt(vs, paired, fs, coords, trigs, normals)
  {
    OutgoingOnlyChanged(verts, vs, paired, fs);
  }

  /** Step 1 of `build`: a vertex for every group of four coordinates, the last group possibly
      incomplete. */
  method NewVertices(coords: seq<real>, normals: seq<real>) returns (vs: seq<Vertex>)
    ensures |vs| == VertexCount(|coords|)
    ensures forall v :: 0 <= v < |vs| ==> vs[v] == NewVertex(v, coords, normals)
  {
    vs := [];
    var vid := 0;
    while vid < |coords|
      invariant vid == 4 * |vs| <= |coords| + 3
      invariant forall v :: 0 <= v < |vs| ==> vs[v] == NewVertex(v, coords, normals)
    {
      var v := Vertex(vid / 4,
        [At(coords, vid), At(coords, vid + 1), At(coords, vid + 2), Number(1.0)],
        [At(normals, vid), At(normals, vid + 1), At(normals, vid + 2), At(normals, vid + 3)],
        DefaultColor, None);
      vs := vs + [v];
      vid := vid + 4;
    }
  }

  /** Step 2 of `build`: a face and three half-edges, linked in a cycle, for every index triple. */
  method NewFaces(trigs: seq<nat>) returns (hs: seq<HalfEdge>, fs: seq<Face>)
    requires |trigs| % 3 == 0
    ensures |hs| == |trigs| && |fs| == |trigs| / 3
    ensures forall h :: 0 <= h < |hs| ==> hs[h] == HalfEdge(trigs[h], NextOf(h), h / 3, None)
    ensures forall f :: 0 <= f < |fs| ==> fs[f] == Face(3 * f)
  {
    hs, fs := [], [];
    var tid := 0;
    while tid < |trigs|
      invariant tid == |hs| == 3 * |fs| <= |trigs|
      invariant forall h :: 0 <= h < |hs| ==> hs[h] == HalfEdge(trigs[h], NextOf(h), h / 3, None)
      invariant forall f :: 0 <= f < |fs| ==> fs[f] == Face(3 * f)
    {
      var v0, v1, v2 := trigs[tid], trigs[tid + 1], trigs[tid + 2];
      var face := |fs|;
      var he0 := HalfEdge(v0, tid + 1, face, None);
      var he1 := HalfEdge(v1, tid + 2, face, None);
      var he2 := HalfEdge(v2, tid, face, None);
      fs := fs + [Face(tid)];
      hs := hs + [he0, he1, he2];
      tid := tid + 3;
    }
  }

  /** The loop of `computeOpposites`: `visited` maps the key of every edge met an odd number of
      times so far to its last half-edge; meeting the key again pairs the two and removes it. */
  method PairOpposites(vs: seq<Vertex>, hs0: seq<HalfEdge>) returns (hs: seq<HalfEdge>)
    requires Linked(vs, hs0)
    ensures hs == Scanned(hs0, Keys(vs, hs0), |hs0|)
  {
    ghost var ks := Keys(vs, hs0);
    hs := hs0;
    var visited: map<Key, nat> := map[];
    var hid := 0;
    while hid < |hs|
      invariant 0 <= hid <= |hs| == |hs0| == |ks|
      invariant hs == Scanned(hs0, ks, hid)
      invariant Pending(ks, visited, hid)
    {
      var he := hs[hid];
      var a := vs[he.vertex].vid;
      var b := vs[hs[he.next].vertex].vid;
      var k := EdgeKey(a, b);
      assert k == KeyOf(vs, hs0, hid) == ks[hid];
      PendingStep(ks, visited, hid);
      assert Scanned(hs0, ks, hid + 1) == PairStep(hs, ks, hid);
      if k in visited {
        var op := visited[k];
        hs := hs[op := hs[op].(opposite := Some(hid))];
        hs := hs[hid := hs[hid].(opposite := Some(op))];
        visited := visited - {k};
      } else {
        visited := visited[k := hid];
      }
      hid := hid + 1;
    }
  }

  datatype StarOutcome =
    | NoOutgoingEdge  // the vertex has no outgoing half-edge: nothing is painted
    | FanClosed       // the walk came back to its first half-edge
    | BoundaryFault   // `currentHe.opposite` was null: the source throws a TypeError here

  /** The outcome of `estrela(vId)` on `vs`: `after` is `vs` with the vertices of the faces of
      `walk` painted red. Without an outgoing half-edge nothing is walked; otherwise `walk` is a fan
      walk from that half-edge that stops either because the next step is back at the start or
      because its last half-edge has no opposite. On a consistently oriented mesh every half-edge
      of the walk starts at `vId`. */
  ghost predicate IsStar(vs: seq<Vertex>, hs: seq<HalfEdge>, fs: seq<Face>, vId: nat,
                         outcome: StarOutcome, after: seq<Vertex>, walk: seq<nat>)
    requires MeshInvariant(vs, hs, fs) && vId < |vs|
  {
    (forall i :: 0 <= i < |walk| ==> walk[i] < |hs|) &&
    after == Recolored(vs, Painted(hs, walk)) &&
    (outcome == NoOutgoingEdge <==> vs[vId].he == None) &&
    (outcome == NoOutgoingEdge ==> walk == []) &&
    (outcome != NoOutgoingEdge ==>
      IsFanWalk(vs, hs, fs, walk) && walk[0] == vs[vId].he.value && |walk| <= |hs|) &&
    (outcome == FanClosed ==> Step(hs, walk[|walk| - 1]) == Some(walk[0])) &&
    (outcome == BoundaryFault ==> hs[walk[|walk| - 1]].opposite == None) &&
    (Oriented(hs) ==> forall i :: 0 <= i < |walk| ==> hs[walk[i]].vertex == vId)
  }

  /** The state of the walk of `estrela` from `s` before it paints the face of `cur`: the faces of
      `walk` are painted, `cur` is the step after the last of them and is new. */
  ghost predicate WalkSoFar(vs: seq<Vertex>, hs: seq<HalfEdge>, fs: seq<Face>, vId: nat, s: nat,
                            walk: seq<nat>, cur: nat)
    requires MeshInvariant(vs, hs, fs)
  {
    cur < |hs| && s < |hs| &&
    (forall i :: 0 <= i < |walk| ==> walk[i] < |hs|) &&
    (walk == [] ==> cur == s) &&
    (walk != [] ==>
      IsFanWalk(vs, hs, fs, walk) && walk[0] == s && Step(hs, walk[|walk| - 1]) == Some(cur) && cur != s) &&
    cur !in walk &&
    (Oriented(hs) ==> hs[cur].vertex == vId && forall i :: 0 <= i < |walk| ==> hs[walk[i]].vertex == vId)
  }

  /** Taking the face of `cur` keeps the walk a fan walk from `s` around `vId`. */
  lemma WalkTakes(vs: seq<Vertex>, hs: seq<HalfEdge>, fs: seq<Face>, vId: nat, s: nat, walk: seq<nat>, cur: nat)
    requires MeshInvariant(vs, hs, fs) && WalkSoFar(vs, hs, fs, vId, s, walk, cur)
    ensures var w := walk + [cur];
      IsFanWalk(vs, hs, fs, w) && w[0] == s && w[|w| - 1] == cur && |w| <= |hs| &&
      (Oriented(hs) ==> forall i :: 0 <= i < |w| ==> hs[w[i]].vertex == vId)
  {
    StepIsDefined(vs, hs, fs);
    SnocSteps(hs, walk, cur);
    SnocDistinct(walk, cur, |hs|);
  }

  /** Appending the step of the last half-edge keeps a chain of steps a chain. */
  lemma SnocSteps(hs: seq<HalfEdge>, walk: seq<nat>, cur: nat)
    requires StepDefined(hs) && cur < |hs| && forall i :: 0 <= i < |walk| ==> walk[i] < |hs|
    requires forall i {:trigger Step(hs, walk[i])} :: 0 <= i < |walk| - 1 ==> Step(hs, walk[i]) == Some(walk[i + 1])
    requires walk != [] ==> Step(hs, walk[|walk| - 1]) == Some(cur)
    ensures var w := walk + [cur];
      (forall i :: 0 <= i < |w| ==> w[i] < |hs|) &&
      forall i {:trigger Step(hs, w[i])} :: 0 <= i < |w| - 1 ==> Step(hs, w[i]) == Some(w[i + 1])
  {
    var w := walk + [cur];
    forall i {:trigger Step(hs, w[i])} | 0 <= i < |w| - 1 ensures Step(hs, w[i]) == Some(w[i + 1]) {
      assert w[i] == walk[i];
      if i < |walk| - 1 {
        assert Step(hs, walk[i]) == Some(walk[i + 1]);
      }
    }
  }

  /** Appending a new element to a sequence without repeats keeps it without repeats, and such a
      sequence of numbers below `n` is at most `n` long. */
  lemma SnocDistinct(walk: seq<nat>, cur: nat, n: nat)
    requires cur < n && cur !in walk && forall i :: 0 <= i < |walk| ==> walk[i] < n
    requires forall i, j :: 0 <= i < j < |walk| ==> walk[i] != walk[j]
    ensures var w := walk + [cur];
      (forall i, j :: 0 <= i < j < |w| ==> w[i] != w[j]) && |w| <= n
  {
    var w := walk + [cur];
    forall i, j | 0 <= i < j < |w| ensures w[i] != w[j] {
      if j == |walk| {
        assert w[i] in walk;
      }
    }
    DistinctBound(w, n);
  }

  /** Stepping from `cur` to a half-edge other than the start continues the walk. */
  lemma WalkAdvances(vs: seq<Vertex>, hs: seq<HalfEdge>, fs: seq<Face>, vId: nat, s: nat,
                     walk: seq<nat>, cur: nat, x: nat)
    requires MeshInvariant(vs, hs, fs) && WalkSoFar(vs, hs, fs, vId, s, walk, cur)
    requires Step(hs, cur) == Some(x) && x != s
    ensures WalkSoFar(vs, hs, fs, vId, s, walk + [cur], x)
  {
    WalkTakes(vs, hs, fs, vId, s, walk, cur);
    StepLeavesWalk(vs, hs, fs, walk + [cur], x);
    if Oriented(hs) {
      FanStepKeepsPivot(vs, hs, fs, cur);
    }
  }

  /** The walk stops after painting the face of `cur`, at a boundary or back at the start. */
  lemma WalkStops(vs: seq<Vertex>, hs: seq<HalfEdge>, fs: seq<Face>, vId: nat, s: nat,
                  walk: seq<nat>, cur: nat, outcome: StarOutcome, after: seq<Vertex>)
    requires MeshInvariant(vs, hs, fs) && vId < |vs| && vs[vId].he == Some(s)
    requires WalkSoFar(vs, hs, fs, vId, s, walk, cur)
    requires after == Recolored(vs, Painted(hs, walk + [cur]))
    requires outcome == BoundaryFault ==> hs[cur].opposite == None
    requires outcome == FanClosed ==> Step(hs, cur) == Some(s)
    requires outcome != NoOutgoingEdge
    ensures MeshInvariant(after, hs, fs)
    ensures IsStar(vs, hs, fs, vId, outcome, after, walk + [cur])
  {
    WalkTakes(vs, hs, fs, vId, s, walk, cur);
    RecoloredKeepsInvariant(vs, hs, fs, Painted(hs, walk + [cur]));
  }

  /** The loop of `estrela`, on the values of the structure. */
  method StarWalk(vs: seq<Vertex>, hs: seq<HalfEdge>, fs: seq<Face>, vId: nat)
    returns (outcome: StarOutcome, after: seq<Vertex>, ghost walk: seq<nat>)
    requires MeshInvariant(vs, hs, fs) && vId < |vs|
    ensures MeshInvariant(after, hs, fs)
    ensures IsStar(vs, hs, fs, vId, outcome, after, walk)
  {
    walk := [];
    after := vs;
    var startHe := vs[vId].he;
    if startHe == None {
      assert after == Recolored(vs, {});
      return NoOutgoingEdge, after, walk;
    }
    var s: nat := startHe.value;
    var currentHe: nat := s;
    while true
      invariant WalkSoFar(vs, hs, fs, vId, s, walk, currentHe)
      invariant after == Recolored(vs, Painted(hs, walk))
      decreases |hs| - |walk|
    {
      ghost var prev := walk;
      WalkTakes(vs, hs, fs, vId, s, prev, currentHe);
      var a := hs[currentHe].vertex;
      var b := hs[hs[currentHe].next].vertex;
      var c := hs[hs[hs[currentHe].next].next].vertex;
      ghost var painted := Painted(hs, prev);
      after := after[a := after[a].(color := Red)];
      ghost var w1 := after;
      after := after[b := after[b].(color := Red)];
      ghost var w2 := after;
      after := after[c := after[c].(color := Red)];
      RecolorFace(vs, painted, a, b, c, w1, w2, after);
      PaintedSnoc(hs, prev, currentHe);
      assert FaceVertices(hs, currentHe) == {a, b, c};
      walk := prev + [currentHe];
      match hs[currentHe].opposite
      case None =>
        WalkStops(vs, hs, fs, vId, s, prev, currentHe, BoundaryFault, after);
        return BoundaryFault, after, walk;
      case Some(o) =>
        var nextHe := hs[o].next;
        // The source also stops on `currentHe === null`, which cannot happen: `next` is always set.
        if nextHe == s {
          WalkStops(vs, hs, fs, vId, s, prev, currentHe, FanClosed, after);
          return FanClosed, after, walk;
        }
        WalkAdvances(vs, hs, fs, vId, s, prev, currentHe, nextHe);
        currentHe := nextHe;
    }
  }

  /** The half-edges that start at `v`. */
  ghost function Outgoing(hs: seq<HalfEdge>, v: nat): set<nat> {
    set h | 0 <= h < |hs| && hs[h].vertex == v
  }

  /** `StepInjective` for all pairs at once. */
  lemma StepInjectiveAll(vs: seq<Vertex>, hs: seq<HalfEdge>, fs: seq<Face>)
    requires MeshInvariant(vs, hs, fs)
    ensures StepDefined(hs)
    ensures forall a, b :: 0 <= a < |hs| && 0 <= b < |hs| && Step(hs, a).Some? && Step(hs, a) == Step(hs, b) ==> a == b
  {
    forall a, b | 0 <= a < |hs| && 0 <= b < |hs| && Step(hs, a).Some? && Step(hs, a) == Step(hs, b) ensures a == b {
      StepInjective(vs, hs, fs, a, b);
    }
  }

  /** A walk of an injective step whose last step returns to its start is a whole orbit of the step. */
  lemma ClosedWalkOrbit(hs: seq<HalfEdge>, walk: seq<nat>)
    requires StepDefined(hs)
    requires forall a, b :: 0 <= a < |hs| && 0 <= b < |hs| && Step(hs, a).Some? && Step(hs, a) == Step(hs, b) ==> a == b
    requires |walk| >= 1 && forall i :: 0 <= i < |walk| ==> walk[i] < |hs|
    requires forall i {:trigger Step(hs, walk[i])} :: 0 <= i < |walk| - 1 ==> Step(hs, walk[i]) == Some(walk[i + 1])
    requires Step(hs, walk[|walk| - 1]) == Some(walk[0])
    ensures forall i {:trigger Step(hs, walk[i])} :: 0 <= i < |walk| ==>
      Step(hs, walk[i]).Some? && Step(hs, walk[i]).value in walk
    ensures forall g :: 0 <= g < |hs| && Step(hs, g).Some? && Step(hs, g).value in walk ==> g in walk
  {
    forall i {:trigger Step(hs, walk[i])} | 0 <= i < |walk|
      ensures Step(hs, walk[i]).Some? && Step(hs, walk[i]).value in walk
    {
      if i < |walk| - 1 {
        assert Step(hs, walk[i]) == Some(walk[i + 1]);
      }
    }
    forall g | 0 <= g < |hs| && Step(hs, g).Some? && Step(hs, g).value in walk ensures g in walk {
      var i :| 0 <= i < |walk| && walk[i] == Step(hs, g).value;
      var p := if i == 0 then |walk| - 1 else i - 1;
      if i == 0 {
        assert Step(hs, walk[p]) == Some(walk[i]);
      } else {
        assert Step(hs, walk[i - 1]) == Some(walk[i]);
      }
      assert Step(hs, g) == Step(hs, walk[p]);
    }
  }

  /** A walk without repeats through half-edges leaving `v` has at most one step per such half-edge. */
  lemma WalkWithinOutgoing(hs: seq<HalfEdge>, v: nat, walk: seq<nat>)
    requires forall i :: 0 <= i < |walk| ==> walk[i] < |hs| && hs[walk[i]].vertex == v
    requires forall i, j :: 0 <= i < j < |walk| ==> walk[i] != walk[j]
    ensures |walk| <= |Outgoing(hs, v)|
  {
    DistinctElements(walk);
    var out := Outgoing(hs, v);
    assert Elements(walk) <= out;
    assert out == Elements(walk) + (out - Elements(walk));
  }

  /** How much of the star `estrela` paints. A walk back at its start is a whole orbit of the fan
      step: the step from each of its half-edges stays in it, and every half-edge whose step lands
      in it belongs to it. On a consistently oriented mesh the walk takes at most one step per
      half-edge leaving `vId`. */
  lemma StarCoverage(vs: seq<Vertex>, hs: seq<HalfEdge>, fs: seq<Face>, vId: nat,
                     outcome: StarOutcome, after: seq<Vertex>, walk: seq<nat>)
    requires MeshInvariant(vs, hs, fs) && vId < |vs|
    requires IsStar(vs, hs, fs, vId, outcome, after, walk)
    ensures outcome == FanClosed ==>
      forall i {:trigger Step(hs, walk[i])} :: 0 <= i < |walk| ==>
        Step(hs, walk[i]).Some? && Step(hs, walk[i]).value in walk
    ensures outcome == FanClosed ==>
      forall g :: 0 <= g < |hs| && Step(hs, g).Some? && Step(hs, g).value in walk ==> g in walk
    ensures Oriented(hs) ==> |walk| <= |Outgoing(hs, vId)|
  {
    if outcome == FanClosed {
      StepInjectiveAll(vs, hs, fs);
      ClosedWalkOrbit(hs, walk);
    }
    if Oriented(hs) {
      WalkWithinOutgoing(hs, vId, walk);
    }
  }

  class HalfEdgeDS {
    var vertices: seq<Vertex>
    var halfEdges: seq<HalfEdge>
    var faces: seq<Face>

    constructor()
      ensures vertices == [] && halfEdges == [] && faces == []
    {
      vertices, halfEdges, faces := [], [], [];
    }

    ghost predicate Valid()
      reads this
    {
      MeshInvariant(vertices, halfEdges, faces)
    }

    /** The state `build(coords, trigs, normals)` leaves behind, field by field. */
    ghost predicate BuiltFrom(coords: seq<real>, trigs: seq<nat>, normals: seq<real>)
      reads this
    {
      IsBuilt(vertices, halfEdges, faces, coords, trigs, normals)
    }

    /** `build`: one vertex per group of four coordinates, one face and three half-edges per index
        triple, then the opposites and the outgoing half-edges. */
    method Build(coords: seq<real>, trigs: seq<nat>, normals: seq<real>)
      requires vertices == [] && halfEdges == [] && faces == []
      requires |trigs| % 3 == 0
      requires forall t :: 0 <= t < |trigs| ==> trigs[t] < VertexCount(|coords|)
      modifies this
      ensures Valid() && BuiltFrom(coords, trigs, normals)
    {
      var vs := NewVertices(coords, normals);
      var hs, fs := NewFaces(trigs);
      vertices, halfEdges, faces := vs, hs, fs;
      assert Triangulated(vs, hs, fs);
      ComputeOpposites();
      ghost var paired := halfEdges;
      ComputeVertexHe();
      BuildPhases(coords, trigs, normals, vs, hs, fs, paired, vertices);
    }

    /** `computeOpposites`: the pending dictionary pairs the occurrences of each undirected-edge key
        consecutively; a paired half-edge gets its partner, an unpaired one keeps its opposite. */
    method ComputeOpposites()
      requires Triangulated(vertices, halfEdges, faces)
      modifies this
      ensures vertices == old(vertices) && faces == old(faces)
      ensures OppositesComputed(vertices, old(halfEdges), halfEdges)
      ensures Triangulated(vertices, halfEdges, faces)
      ensures Keys(vertices, halfEdges) == Keys(vertices, old(halfEdges))
      ensures (forall h :: 0 <= h < |halfEdges| ==> old(halfEdges)[h].opposite == None) ==>
        OppositesPaired(vertices, halfEdges)
    {
      ghost var hs0 := halfEdges;
      ghost var ks := Keys(vertices, halfEdges);
      halfEdges := PairOpposites(vertices, halfEdges);
      ScannedClosedForm(hs0, ks, |hs0|);
      OppositesOnlyChanged(vertices, hs0, halfEdges, faces);
      if forall h :: 0 <= h < |hs0| ==> hs0[h].opposite == None {
        ScanPaired(vertices, halfEdges, ks);
      }
    }

    /** `computeVertexHe`: every vertex without an outgoing half-edge gets the first half-edge in
        storage order that starts at it, if there is one. */
    method ComputeVertexHe()
      requires Linked(vertices, halfEdges)
      modifies this
      ensures halfEdges == old(halfEdges) && faces == old(faces)
      ensures OutgoingComputed(old(vertices), vertices, halfEdges)
      ensures OutgoingValid(old(vertices), halfEdges) ==> OutgoingValid(vertices, halfEdges)
    {
      var vs, hs := vertices, halfEdges;
      for i := 0 to |hs|
        invariant |vs| == |old(vertices)|
        invariant forall v :: 0 <= v < |vs| ==>
          vs[v] == old(vertices)[v].(he := OrElse(old(vertices)[v].he, FirstOrigin(hs, v, i)))
      {
        var v := hs[i].vertex;
        if vs[v].he == None {
          vs := vs[v := vs[v].(he := Some(i))];
        }
      }
      vertices := vs;
    }

    /** `getVBOs`: the flat position, colour, normal and index buffers; nothing is modified. */
    method GetVBOs() returns (coords: seq<Value>, colors: seq<real>, normals: seq<Value>, indices: seq<nat>)
      requires Triangulated(vertices, halfEdges, faces)
      ensures IsExport(vertices, halfEdges, coords, colors, normals, indices)
    {
      coords, colors, normals, indices := [], [], [], [];
      for i := 0 to |vertices|
        invariant |coords| == 4 * i && |colors| == 4 * i && |normals| == 4 * i
        invariant forall j :: 0 <= j < |coords| ==>
          coords[j] == vertices[j / 4].position[j % 4] && colors[j] == Rgba(vertices[j / 4].color)[j % 4] &&
          normals[j] == vertices[j / 4].normal[j % 4]
      {
        var position, color, normal := vertices[i].position, Rgba(vertices[i].color), vertices[i].normal;
        coords := coords + position;
        colors := colors + color;
        normals := normals + normal;
        assert forall j :: 4 * i <= j < 4 * i + 4 ==> j / 4 == i && j % 4 == j - 4 * i;
      }
      for i := 0 to |halfEdges|
        invariant |indices| == i
        invariant forall h :: 0 <= h < i ==> indices[h] == vertices[halfEdges[h].vertex].vid
      {
        indices := indices + [vertices[halfEdges[i].vertex].vid];
      }
    }

    /** `estrela(vId)`: paints red the three vertices of every face met by the walk that starts at
        the vertex's outgoing half-edge and steps by `he.opposite.next`, until the walk is back at
        its start or meets a half-edge without an opposite. The walk is returned as a ghost value. */
    method Estrela(vId: nat) returns (outcome: StarOutcome, ghost walk: seq<nat>)
      requires Valid() && vId < |vertices|
      modifies this
      ensures Valid()
      ensures halfEdges == old(halfEdges) && faces == old(faces) && |vertices| == |old(vertices)|
      ensures IsStar(old(vertices), halfEdges, faces, vId, outcome, vertices, walk)
    {
      var vs;
      outcome, vs, walk := StarWalk(vertices, halfEdges, faces, vId);
      vertices := vs;
    }
  }
}
