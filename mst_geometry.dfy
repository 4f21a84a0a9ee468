/**
 * The mesh utilities of mst/mesh.go: `ResortVtVn`, which gives every face
 * its own three vertices, `GetBoundbox`, the per-axis min/max of a node's
 * vertices, and `Mesh.ComputeBBox`, which joins the node boxes into one
 * `Vec3Box.Box`.
 *
 * Vertex coordinates are float32 bit patterns; the bounding-box code widens
 * them to float64 and compares them, so it is given their values as reals
 * through a parameter `value`.
 */
module MstGeometry {
  import opened Wrappers
  import opened LittleEndian
  import opened MstTypes
  import opened Vec3Box

  // ----- ResortVtVn -----

  /** The bit pattern of float32 1.0. */
  const OneF32: F32 := 0x3F80_0000

  /** `vec3.T{0, 0, 1}`: the normal of a face that has no normal indices. */
  const UpNormal: Vec3F := [0, 0, OneF32]

  /** `vec2.T{0, 0}`: the texture coordinate of a face that has no uv indices. */
  const ZeroUv: Vec2F := [0, 0]

  /** Every face of the groups, group by group. */
  function AllFaces(gs: seq<MeshTriangle>): seq<Face> {
    if gs == [] then [] else AllFaces(gs[..|gs| - 1]) + gs[|gs| - 1].faces
  }

  /** The face's indices are valid for the node; otherwise `ResortVtVn` panics. */
  predicate FaceInRange(f: Face, n: MeshNode) {
    InRange(f.vertex, |n.vertices|)
    && (f.normal.Some? ==> InRange(f.normal.value, |n.normals|))
    && (f.uv.Some? ==> InRange(f.uv.value, |n.texCoords|))
  }

  predicate InRange(ix: Idx3, len: nat) {
    ix[0] as int < len && ix[1] as int < len && ix[2] as int < len
  }

  predicate FacesInRange(fs: seq<Face>, n: MeshNode) {
    forall k :: 0 <= k < |fs| ==> FaceInRange(fs[k], n)
  }

  /** The three vertices a face names. */
  function FaceVertices(f: Face, n: MeshNode): (vs: seq<Vec3F>)
    requires FaceInRange(f, n)
    ensures |vs| == 3
  {
    [n.vertices[f.vertex[0]], n.vertices[f.vertex[1]], n.vertices[f.vertex[2]]]
  }

  /** The three normals a face names, or three up vectors when it names none. */
  function FaceNormals(f: Face, n: MeshNode): (ns: seq<Vec3F>)
    requires FaceInRange(f, n)
    ensures |ns| == 3
  {
    if f.normal.Some? then [n.normals[f.normal.value[0]], n.normals[f.normal.value[1]], n.normals[f.normal.value[2]]]
    else [UpNormal, UpNormal, UpNormal]
  }

  /** The three texture coordinates a face names, or three zeros when it names none. */
  function FaceUvs(f: Face, n: MeshNode): (ts: seq<Vec2F>)
    requires FaceInRange(f, n)
    ensures |ts| == 3
  {
    if f.uv.Some? then [n.texCoords[f.uv.value[0]], n.texCoords[f.uv.value[1]], n.texCoords[f.uv.value[2]]]
    else [ZeroUv, ZeroUv, ZeroUv]
  }

  /** The per-face entries, face after face: the shape of every list `ResortVtVn` builds. */
  function Flatten<T>(fs: seq<Face>, per: Face --> seq<T>): seq<T>
    requires forall k :: 0 <= k < |fs| ==> per.requires(fs[k])
  {
    if fs == [] then [] else Flatten(fs[..|fs| - 1], per) + per(fs[|fs| - 1])
  }

  function VerticesOf(n: MeshNode): Face --> seq<Vec3F> {
    f requires FaceInRange(f, n) => FaceVertices(f, n)
  }

  function NormalsOf(n: MeshNode): Face --> seq<Vec3F> {
    f requires FaceInRange(f, n) => FaceNormals(f, n)
  }

  function UvsOf(n: MeshNode): Face --> seq<Vec2F> {
    f requires FaceInRange(f, n) => FaceUvs(f, n)
  }

  /** Go's `uint32` addition, which wraps around. */
  function Add32(a: U32, d: U32): U32 {
    if a as int + d as int < TwoTo32 then (a as int + d as int) as U32 else (a as int + d as int - TwoTo32) as U32
  }

  /** A `uint32` counter after `x` increments from zero. */
  function Wrap(x: nat): U32 {
    if x == 0 then 0 else Add32(Wrap(x - 1), 1)
  }

  lemma {:induction false} WrapSmall(x: nat)
    requires x < TwoTo32
    ensures Wrap(x) as int == x
  {
    if x > 0 {
      WrapSmall(x - 1);
    }
  }

  /** The face pointing at its own three new vertices `{idx, uint32(idx + 1), uint32(idx + 2)}`; normal and uv indices stay. */
  function Renumber(f: Face, idx: U32): Face {
    f.(vertex := [idx, Add32(idx, 1), Add32(idx, 2)])
  }

  /** The faces renumbered in order, the running uint32 index having counted `base` vertices before them. */
  function Renumbered(fs: seq<Face>, base: nat): seq<Face> {
    if fs == [] then []
    else Renumbered(fs[..|fs| - 1], base) + [Renumber(fs[|fs| - 1], Wrap(base + 3 * (|fs| - 1)))]
  }

  /** The groups after `ResortVtVn`: the same groups, each face renumbered in overall face order. */
  function RenumberedGroups(gs: seq<MeshTriangle>): seq<MeshTriangle> {
    if gs == [] then []
    else
      var init := gs[..|gs| - 1];
      RenumberedGroups(init) + [gs[|gs| - 1].(faces := Renumbered(gs[|gs| - 1].faces, 3 * |AllFaces(init)|))]
  }

  /** The node after `ResortVtVn`: colors, matrix and outlines are untouched. */
  function Resorted(n: MeshNode): MeshNode
    requires FacesInRange(AllFaces(n.faceGroup), n)
  {
    var fs := AllFaces(n.faceGroup);
    n.(vertices := Flatten(fs, VerticesOf(n)), normals := Flatten(fs, NormalsOf(n)), texCoords := Flatten(fs, UvsOf(n)),
       faceGroup := RenumberedGroups(n.faceGroup))
  }

  /**
   * `ResortVtVn`. Go rewrites the faces through their pointers and replaces
   * the node's slices; here the updated node is returned.
   */
  method ResortVtVn(n: MeshNode) returns (r: MeshNode)
    requires FacesInRange(AllFaces(n.faceGroup), n)
    ensures r == Resorted(n)
  {
    var gs := n.faceGroup;
    var vs: seq<Vec3F> := [];
    var vns: seq<Vec3F> := [];
    var vts: seq<Vec2F> := [];
    var groups: seq<MeshTriangle> := [];
    var idx: U32 := 0;
    var i := 0;
    while i < |gs|
      invariant 0 <= i <= |gs|
      invariant Resorting(n, AllFaces(gs[..i]), vs, vns, vts)
      invariant idx == Wrap(3 * |AllFaces(gs[..i])|)
      invariant groups == RenumberedGroups(gs[..i])
    {
      var g := gs[i];
      GroupInRange(gs, i, n);
      var faces;
      vs, vns, vts, faces, idx := ResortGroup(n, g.faces, AllFaces(gs[..i]), vs, vns, vts, idx);
      GroupStep(gs, i);
      groups := groups + [g.(faces := faces)];
      i := i + 1;
    }
    assert gs[..i] == gs;
    r := n.(vertices := vs, normals := vns, texCoords := vts, faceGroup := groups);
  }

  /** `vs`, `vns` and `vts` are what `ResortVtVn` has appended for the faces `seen`. */
  predicate Resorting(n: MeshNode, seen: seq<Face>, vs: seq<Vec3F>, vns: seq<Vec3F>, vts: seq<Vec2F>) {
    FacesInRange(seen, n)
    && vs == Flatten(seen, VerticesOf(n)) && vns == Flatten(seen, NormalsOf(n)) && vts == Flatten(seen, UvsOf(n))
  }

  /** The faces of one group: what `ResortVtVn` appends for them, and the group's faces renumbered. */
  method ResortGroup(n: MeshNode, fs: seq<Face>, ghost done: seq<Face>, vs: seq<Vec3F>, vns: seq<Vec3F>, vts: seq<Vec2F>, idx: U32)
    returns (vs': seq<Vec3F>, vns': seq<Vec3F>, vts': seq<Vec2F>, faces: seq<Face>, idx': U32)
    requires Resorting(n, done, vs, vns, vts) && FacesInRange(fs, n)
    requires idx == Wrap(3 * |done|)
    ensures Resorting(n, done + fs, vs', vns', vts')
    ensures idx' == Wrap(3 * |done + fs|)
    ensures faces == Renumbered(fs, 3 * |done|)
  {
    vs', vns', vts', idx' := vs, vns, vts, idx;
    faces := [];
    ghost var seen := done;
    ghost var x: nat := 3 * |done|;
    var j := 0;
    while j < |fs|
      invariant 0 <= j <= |fs|
      invariant seen == done + fs[..j]
      invariant Resorting(n, seen, vs', vns', vts')
      invariant Numbering(fs, j, 3 * |done|, x, idx', faces)
    {
      var f := fs[j];
      var face;
      NumberStep(fs, j, 3 * |done|, x, idx', faces);
      FaceStep(seen, f, n, vs', vns', vts');
      vs', vns', vts', face, idx' := ResortFace(n, f, vs', vns', vts', idx');
      faces := faces + [face];
      SeenStep(done, fs, j);
      seen := seen + [f];
      x := x + 3;
      j := j + 1;
    }
    assert fs[..j] == fs;
  }

  /** One face of `ResortVtVn`: its vertices, normals and uvs are appended and it is renumbered. */
  method ResortFace(n: MeshNode, f: Face, vs: seq<Vec3F>, vns: seq<Vec3F>, vts: seq<Vec2F>, idx: U32)
    returns (vs': seq<Vec3F>, vns': seq<Vec3F>, vts': seq<Vec2F>, face: Face, idx': U32)
    requires FaceInRange(f, n)
    ensures vs' == vs + FaceVertices(f, n) && vns' == vns + FaceNormals(f, n) && vts' == vts + FaceUvs(f, n)
    ensures face == Renumber(f, idx) && idx' == Add32(idx, 3)
  {
    vns' := vns;
    vts' := vts;
    if f.normal.Some? {
      var ni := f.normal.value;
      vns' := vns' + [n.normals[ni[0]], n.normals[ni[1]], n.normals[ni[2]]];
    } else {
      vns' := vns' + [UpNormal, UpNormal, UpNormal];
    }
    if f.uv.Some? {
      var ti := f.uv.value;
      vts' := vts' + [n.texCoords[ti[0]], n.texCoords[ti[1]], n.texCoords[ti[2]]];
    } else {
      vts' := vts' + [ZeroUv, ZeroUv, ZeroUv];
    }
    vs' := vs + [n.vertices[f.vertex[0]], n.vertices[f.vertex[1]], n.vertices[f.vertex[2]]];
    face := f.(vertex := [idx, Add32(idx, 1), Add32(idx, 2)]);
    idx' := Add32(idx, 3);
  }

  /** The running uint32 index moves on by three. */
  /** After `j` faces of `fs` the counter `idx` stands at `Wrap(x)` and `faces` holds them renumbered. */
  predicate Numbering(fs: seq<Face>, j: nat, base: nat, x: nat, idx: U32, faces: seq<Face>)
    requires j <= |fs|
  {
    x == base + 3 * j && idx == Wrap(x) && faces == Renumbered(fs[..j], base)
  }

  lemma NumberStep(fs: seq<Face>, j: nat, base: nat, x: nat, idx: U32, faces: seq<Face>)
    requires j < |fs| && Numbering(fs, j, base, x, idx, faces)
    ensures Numbering(fs, j + 1, base, x + 3, Add32(idx, 3), faces + [Renumber(fs[j], idx)])
  {
    IdxStep(x);
    RenumberStep(fs, j, base, x);
  }

  lemma IdxStep(x: nat)
    ensures Add32(Wrap(x), 3) == Wrap(x + 3)
  {
    assert Wrap(x + 1) == Add32(Wrap(x), 1);
    assert Wrap(x + 2) == Add32(Wrap(x + 1), 1);
    assert Wrap(x + 3) == Add32(Wrap(x + 2), 1);
  }

  lemma SeenStep(done: seq<Face>, fs: seq<Face>, j: nat)
    requires j < |fs|
    ensures done + fs[..j + 1] == (done + fs[..j]) + [fs[j]]
  {
    assert fs[..j + 1] == fs[..j] + [fs[j]];
  }

  lemma RenumberStep(fs: seq<Face>, j: nat, base: nat, x: nat)
    requires j < |fs| && x == base + 3 * j
    ensures Renumbered(fs[..j + 1], base) == Renumbered(fs[..j], base) + [Renumber(fs[j], Wrap(x))]
  {
    assert fs[..j + 1][..j] == fs[..j];
  }

  /** Appending one face extends every resorted list by that face's three entries. */
  lemma FaceStep(seen: seq<Face>, f: Face, n: MeshNode, vs: seq<Vec3F>, vns: seq<Vec3F>, vts: seq<Vec2F>)
    requires Resorting(n, seen, vs, vns, vts) && FaceInRange(f, n)
    ensures Resorting(n, seen + [f], vs + FaceVertices(f, n), vns + FaceNormals(f, n), vts + FaceUvs(f, n))
  {
    FlattenSnoc(seen, f, VerticesOf(n));
    FlattenSnoc(seen, f, NormalsOf(n));
    FlattenSnoc(seen, f, UvsOf(n));
  }

  lemma FlattenSnoc<T>(fs: seq<Face>, f: Face, per: Face --> seq<T>)
    requires forall k :: 0 <= k < |fs| ==> per.requires(fs[k])
    requires per.requires(f)
    ensures Flatten(fs + [f], per) == Flatten(fs, per) + per(f)
  {
    assert (fs + [f])[..|fs|] == fs;
  }


  /** The faces of the groups up to and including group `i`. */
  lemma GroupStep(gs: seq<MeshTriangle>, i: nat)
    requires i < |gs|
    ensures gs[..i + 1][..i] == gs[..i]
    ensures AllFaces(gs[..i + 1]) == AllFaces(gs[..i]) + gs[i].faces
  {
    assert gs[..i + 1][..i] == gs[..i];
  }

  /** A group's faces and the faces before it are in range when all faces are. */
  lemma GroupInRange(gs: seq<MeshTriangle>, i: nat, n: MeshNode)
    requires i < |gs| && FacesInRange(AllFaces(gs), n)
    ensures FacesInRange(gs[i].faces, n)
  {
    PrefixInRange(gs, i + 1, n);
    var p := gs[..i + 1];
    DropLastInRange(p, n);
    assert p[|p| - 1] == gs[i];
  }

  lemma {:induction false} PrefixInRange(gs: seq<MeshTriangle>, j: nat, n: MeshNode)
    requires j <= |gs| && FacesInRange(AllFaces(gs), n)
    ensures FacesInRange(AllFaces(gs[..j]), n)
    decreases |gs|
  {
    if j < |gs| {
      var init := gs[..|gs| - 1];
      DropLastInRange(gs, n);
      PrefixInRange(init, j, n);
      assert init[..j] == gs[..j];
    } else {
      assert gs[..j] == gs;
    }
  }

  /** The faces of the last group, and of the groups before it, are in range when all faces are. */
  lemma DropLastInRange(gs: seq<MeshTriangle>, n: MeshNode)
    requires gs != [] && FacesInRange(AllFaces(gs), n)
    ensures FacesInRange(AllFaces(gs[..|gs| - 1]), n) && FacesInRange(gs[|gs| - 1].faces, n)
  {
    SplitInRange(AllFaces(gs[..|gs| - 1]), gs[|gs| - 1].faces, n);
  }

  /** Both parts of a list of faces in range are in range. */
  lemma SplitInRange(a: seq<Face>, b: seq<Face>, n: MeshNode)
    requires FacesInRange(a + b, n)
    ensures FacesInRange(a, n) && FacesInRange(b, n)
  {
    forall k | 0 <= k < |a| ensures FaceInRange(a[k], n) {
      assert (a + b)[k] == a[k];
    }
    forall k | 0 <= k < |b| ensures FaceInRange(b[k], n) {
      assert (a + b)[|a| + k] == b[k];
    }
  }

  // ----- What ResortVtVn promises -----

  /** A flattened list has three entries per face. */
  lemma {:induction false} FlattenLength<T>(fs: seq<Face>, per: Face --> seq<T>)
    requires forall k :: 0 <= k < |fs| ==> per.requires(fs[k]) && |per(fs[k])| == 3
    ensures |Flatten(fs, per)| == 3 * |fs|
    decreases |fs|
  {
    if fs != [] {
      FlattenLength(fs[..|fs| - 1], per);
    }
  }

  lemma {:induction false} FlattenAt<T>(fs: seq<Face>, per: Face --> seq<T>, k: nat, c: nat)
    requires forall k :: 0 <= k < |fs| ==> per.requires(fs[k]) && |per(fs[k])| == 3
    requires k < |fs| && c < 3
    ensures |Flatten(fs, per)| == 3 * |fs| && Flatten(fs, per)[3 * k + c] == per(fs[k])[c]
    decreases |fs|
  {
    var init := fs[..|fs| - 1];
    FlattenLength(init, per);
    FlattenLength(fs, per);
    if k < |init| {
      FlattenAt(init, per, k, c);
      assert init[k] == fs[k];
    }
  }

  /** Entry 3k+c of a flattened list is entry c of face k's part. */
  lemma FlattenLayout<T>(fs: seq<Face>, per: Face --> seq<T>)
    requires forall k :: 0 <= k < |fs| ==> per.requires(fs[k]) && |per(fs[k])| == 3
    ensures |Flatten(fs, per)| == 3 * |fs|
    ensures forall k, c :: 0 <= k < |fs| && 0 <= c < 3 ==> Flatten(fs, per)[3 * k + c] == per(fs[k])[c]
  {
    FlattenLength(fs, per);
    forall k, c | 0 <= k < |fs| && 0 <= c < 3
      ensures Flatten(fs, per)[3 * k + c] == per(fs[k])[c]
    {
      FlattenAt(fs, per, k, c);
    }
  }

  /**
   * Every face gets its own three vertices: the new vertex list has three
   * entries per face, and entry 3k+c is the vertex face k named at corner c.
   */
  lemma ResortedVerticesLayout(fs: seq<Face>, n: MeshNode)
    requires FacesInRange(fs, n)
    ensures |Flatten(fs, VerticesOf(n))| == 3 * |fs|
    ensures forall k, c :: 0 <= k < |fs| && 0 <= c < 3 ==>
              Flatten(fs, VerticesOf(n))[3 * k + c] == n.vertices[fs[k].vertex[c]]
  {
    FlattenLength(fs, VerticesOf(n));
    forall k, c | 0 <= k < |fs| && 0 <= c < 3
      ensures Flatten(fs, VerticesOf(n))[3 * k + c] == n.vertices[fs[k].vertex[c]]
    {
      var f := fs[k];
      FlattenAt(fs, VerticesOf(n), k, c);
      assert VerticesOf(n)(f) == FaceVertices(f, n);
      if c == 0 {
      } else if c == 1 {
      } else {
      }
    }
  }

  /**
   * The new normal and uv lists have three entries per face: what face k
   * named at corner c, or (0, 0, 1) and (0, 0) when it named none.
   */
  lemma ResortedAttributesLayout(fs: seq<Face>, n: MeshNode)
    requires FacesInRange(fs, n)
    ensures |Flatten(fs, NormalsOf(n))| == |Flatten(fs, UvsOf(n))| == 3 * |fs|
    ensures forall k, c :: 0 <= k < |fs| && 0 <= c < 3 ==> Flatten(fs, NormalsOf(n))[3 * k + c] == FaceNormals(fs[k], n)[c]
    ensures forall k, c :: 0 <= k < |fs| && 0 <= c < 3 ==> Flatten(fs, UvsOf(n))[3 * k + c] == FaceUvs(fs[k], n)[c]
  {
    FlattenLayout(fs, NormalsOf(n));
    FlattenLayout(fs, UvsOf(n));
  }

  /** Face k of the renumbered list names 3k, 3k+1 and 3k+2 (as uint32) past `base`, and keeps the rest. */
  lemma {:induction false} RenumberedLength(fs: seq<Face>, base: nat)
    ensures |Renumbered(fs, base)| == |fs|
    decreases |fs|
  {
    if fs != [] {
      RenumberedLength(fs[..|fs| - 1], base);
    }
  }

  lemma {:induction false} RenumberedAt(fs: seq<Face>, base: nat, k: nat)
    requires k < |fs|
    ensures |Renumbered(fs, base)| == |fs|
    ensures Renumbered(fs, base)[k] == Renumber(fs[k], Wrap(base + 3 * k))
    decreases |fs|
  {
    var init := fs[..|fs| - 1];
    RenumberedLength(init, base);
    if k < |fs| - 1 {
      RenumberedAt(init, base, k);
    }
  }

  lemma RenumberedFaces(fs: seq<Face>, base: nat)
    ensures |Renumbered(fs, base)| == |fs|
    ensures forall k :: 0 <= k < |fs| ==> Renumbered(fs, base)[k] == Renumber(fs[k], Wrap(base + 3 * k))
  {
    RenumberedLength(fs, base);
    forall k | 0 <= k < |fs|
      ensures Renumbered(fs, base)[k] == Renumber(fs[k], Wrap(base + 3 * k))
    {
      RenumberedAt(fs, base, k);
    }
  }

  lemma {:induction false} RenumberedGroupsShape(gs: seq<MeshTriangle>)
    ensures |RenumberedGroups(gs)| == |gs|
    ensures forall i :: 0 <= i < |gs| ==>
              RenumberedGroups(gs)[i].batchid == gs[i].batchid && |RenumberedGroups(gs)[i].faces| == |gs[i].faces|
    decreases |gs|
  {
    if gs != [] {
      var init := gs[..|gs| - 1];
      RenumberedGroupsShape(init);
      RenumberedLength(gs[|gs| - 1].faces, 3 * |AllFaces(init)|);
    }
  }

  lemma {:induction false} RenumberedGroupsFaces(gs: seq<MeshTriangle>)
    ensures AllFaces(RenumberedGroups(gs)) == Renumbered(AllFaces(gs), 0)
    decreases |gs|
  {
    if gs != [] {
      var init := gs[..|gs| - 1];
      var last := gs[|gs| - 1];
      var ri := RenumberedGroups(init);
      var rl := last.(faces := Renumbered(last.faces, 3 * |AllFaces(init)|));
      RenumberedGroupsFaces(init);
      AllFacesSnoc(ri, rl);
      RenumberedAppend(AllFaces(init), last.faces);
    }
  }

  lemma AllFacesSnoc(gs: seq<MeshTriangle>, g: MeshTriangle)
    ensures AllFaces(gs + [g]) == AllFaces(gs) + g.faces
  {
    assert (gs + [g])[..|gs|] == gs;
  }

  lemma {:induction false} RenumberedAppend(a: seq<Face>, b: seq<Face>)
    ensures Renumbered(a + b, 0) == Renumbered(a, 0) + Renumbered(b, 3 * |a|)
    decreases |b|
  {
    if b == [] {
      assert a + b == a;
    } else {
      var init := b[..|b| - 1];
      assert (a + b)[..|a + b| - 1] == a + init;
      RenumberedAppend(a, init);
      assert 3 * |a| + 3 * (|b| - 1) == 0 + 3 * (|a + b| - 1);
    }
  }

  /**
   * The geometry survives: for the faces `fs` of a node (`Resorted` takes
   * `AllFaces`), while their count stays below 2^32 / 3, the new vertex
   * index at corner c of face k is 3k + c and picks out of the new vertex
   * list the vertex the face named there before.
   */
  lemma ResortKeepsGeometry(fs: seq<Face>, n: MeshNode)
    requires FacesInRange(fs, n) && 3 * |fs| <= TwoTo32
    ensures var vs, rf := Flatten(fs, VerticesOf(n)), Renumbered(fs, 0);
            |vs| == 3 * |fs| && |rf| == |fs|
            && forall k, c :: 0 <= k < |fs| && 0 <= c < 3 ==>
                 rf[k].vertex[c] as int == 3 * k + c && vs[rf[k].vertex[c]] == n.vertices[fs[k].vertex[c]]
  {
    var vs, rf := Flatten(fs, VerticesOf(n)), Renumbered(fs, 0);
    RenumberedFaces(fs, 0);
    ResortedVerticesLayout(fs, n);
    forall k, c | 0 <= k < |fs| && 0 <= c < 3
      ensures rf[k].vertex[c] as int == 3 * k + c
    {
      RenumberedIndex(fs, k, c);
    }
    PickByNewIndex(fs, n, vs, rf);
  }

  lemma PickByNewIndex(fs: seq<Face>, n: MeshNode, vs: seq<Vec3F>, rf: seq<Face>)
    requires FacesInRange(fs, n) && |vs| == 3 * |fs| && |rf| == |fs|
    requires forall k, c :: 0 <= k < |fs| && 0 <= c < 3 ==> rf[k].vertex[c] as int == 3 * k + c
    requires forall k, c :: 0 <= k < |fs| && 0 <= c < 3 ==> vs[3 * k + c] == n.vertices[fs[k].vertex[c]]
    ensures forall k, c :: 0 <= k < |fs| && 0 <= c < 3 ==>
              rf[k].vertex[c] as int < |vs| && vs[rf[k].vertex[c]] == n.vertices[fs[k].vertex[c]]
  {
  }

  /** Below 2^32 counted indices, corner c of face k is renumbered to 3k + c. */
  lemma RenumberedIndex(fs: seq<Face>, k: nat, c: nat)
    requires k < |fs| && c < 3 && 3 * |fs| <= TwoTo32
    ensures |Renumbered(fs, 0)| == |fs| && Renumbered(fs, 0)[k].vertex[c] as int == 3 * k + c
  {
    RenumberedAt(fs, 0, k);
    WrapSmall(0 + 3 * k);
    RenumberCorner(fs[k], Wrap(0 + 3 * k), c);
  }

  /** Corner `c` of a renumbered face is `idx + c` while that stays below 2^32. */
  lemma RenumberCorner(f: Face, idx: U32, c: nat)
    requires c < 3 && idx as int + 2 < TwoTo32
    ensures Renumber(f, idx).vertex[c] as int == idx as int + c
  {
  }

  // ----- GetBoundbox -----

  /** `math.Min` and `math.Max` on finite values. */
  function RealMin(a: real, b: real): real {
    if b < a then b else a
  }

  function RealMax(a: real, b: real): real {
    if b > a then b else a
  }

  /** The running minimum on one axis, from `math.MaxFloat64`. */
  function Low(vs: seq<Vec3F>, axis: nat, value: F32 -> real): real
    requires axis < 3
  {
    if vs == [] then MaxFloat64 else RealMin(Low(vs[..|vs| - 1], axis, value), value(vs[|vs| - 1][axis]))
  }

  /** The running maximum on one axis, from `-math.MaxFloat64`. */
  function High(vs: seq<Vec3F>, axis: nat, value: F32 -> real): real
    requires axis < 3
  {
    if vs == [] then -MaxFloat64 else RealMax(High(vs[..|vs| - 1], axis, value), value(vs[|vs| - 1][axis]))
  }

  /** The six numbers `GetBoundbox` returns: the minima, then the maxima. */
  function Bounds(vs: seq<Vec3F>, value: F32 -> real): (b: seq<real>)
    ensures |b| == 6
  {
    [Low(vs, 0, value), Low(vs, 1, value), Low(vs, 2, value), High(vs, 0, value), High(vs, 1, value), High(vs, 2, value)]
  }

  /** `GetBoundbox`: a min/max fold over the vertices. */
  method GetBoundbox(n: MeshNode, value: F32 -> real) returns (b: seq<real>)
    ensures b == Bounds(n.vertices, value)
  {
    var vs := n.vertices;
    var minX, minY, minZ := MaxFloat64, MaxFloat64, MaxFloat64;
    var maxX, maxY, maxZ := -MaxFloat64, -MaxFloat64, -MaxFloat64;
    var i := 0;
    while i < |vs|
      invariant 0 <= i <= |vs|
      invariant minX == Low(vs[..i], 0, value) && minY == Low(vs[..i], 1, value) && minZ == Low(vs[..i], 2, value)
      invariant maxX == High(vs[..i], 0, value) && maxY == High(vs[..i], 1, value) && maxZ == High(vs[..i], 2, value)
    {
      assert vs[..i + 1][..i] == vs[..i];
      minX := RealMin(minX, value(vs[i][0]));
      minY := RealMin(minY, value(vs[i][1]));
      minZ := RealMin(minZ, value(vs[i][2]));
      maxX := RealMax(maxX, value(vs[i][0]));
      maxY := RealMax(maxY, value(vs[i][1]));
      maxZ := RealMax(maxZ, value(vs[i][2]));
      i := i + 1;
    }
    assert vs[..i] == vs;
    b := [minX, minY, minZ, maxX, maxY, maxZ];
  }

  /** Every coordinate of every vertex is a finite float64. */
  predicate AllFinite(vs: seq<Vec3F>, value: F32 -> real) {
    forall k, a :: 0 <= k < |vs| && 0 <= a < 3 ==> -MaxFloat64 <= value(vs[k][a]) <= MaxFloat64
  }

  /** Every vertex lies inside the bounds; a node without vertices gets the inverted box of the two sentinels. */
  lemma {:induction false} BoundsHoldVertices(vs: seq<Vec3F>, value: F32 -> real)
    ensures forall k, a :: 0 <= k < |vs| && 0 <= a < 3 ==> Low(vs, a, value) <= value(vs[k][a]) <= High(vs, a, value)
    ensures vs == [] ==> Bounds(vs, value) == [MaxFloat64, MaxFloat64, MaxFloat64, -MaxFloat64, -MaxFloat64, -MaxFloat64]
    decreases |vs|
  {
    if vs != [] {
      var init := vs[..|vs| - 1];
      BoundsHoldVertices(init, value);
      forall k, a | 0 <= k < |vs| && 0 <= a < 3
        ensures Low(vs, a, value) <= value(vs[k][a]) <= High(vs, a, value)
      {
        if k < |init| {
          assert init[k] == vs[k];
        }
      }
    }
  }

  /** With finite coordinates each bound is a vertex's coordinate, or the sentinel when there is no vertex. */
  lemma {:induction false} BoundsAttained(vs: seq<Vec3F>, value: F32 -> real, a: nat)
    requires a < 3 && AllFinite(vs, value)
    ensures -MaxFloat64 <= Low(vs, a, value) <= MaxFloat64 && -MaxFloat64 <= High(vs, a, value) <= MaxFloat64
    ensures vs != [] ==> exists k :: 0 <= k < |vs| && Low(vs, a, value) == value(vs[k][a])
    ensures vs != [] ==> exists k :: 0 <= k < |vs| && High(vs, a, value) == value(vs[k][a])
    decreases |vs|
  {
    if vs != [] {
      var init := vs[..|vs| - 1];
      var last := |vs| - 1;
      assert AllFinite(init, value) by {
        forall k, b | 0 <= k < |init| && 0 <= b < 3 ensures -MaxFloat64 <= value(init[k][b]) <= MaxFloat64 {
          assert init[k] == vs[k];
        }
      }
      BoundsAttained(init, value, a);
      if init != [] && Low(vs, a, value) == Low(init, a, value) {
        var k :| 0 <= k < |init| && Low(init, a, value) == value(init[k][a]);
        assert vs[k] == init[k];
      } else {
        assert Low(vs, a, value) == value(vs[last][a]);
      }
      if init != [] && High(vs, a, value) == High(init, a, value) {
        var k :| 0 <= k < |init| && High(init, a, value) == value(init[k][a]);
        assert vs[k] == init[k];
      } else {
        assert High(vs, a, value) == value(vs[last][a]);
      }
    }
  }

  // ----- ComputeBBox -----

  const Origin: Vec3 := Vec3(0.0, 0.0, 0.0)

  function NodeLow(n: MeshNode, value: F32 -> real): Vec3 {
    Vec3(Low(n.vertices, 0, value), Low(n.vertices, 1, value), Low(n.vertices, 2, value))
  }

  function NodeHigh(n: MeshNode, value: F32 -> real): Vec3 {
    Vec3(High(n.vertices, 0, value), High(n.vertices, 1, value), High(n.vertices, 2, value))
  }

  /** The Min corner after joining each node's box, in order, into a box whose Min is `start`. */
  function JoinedLow(ns: seq<MeshNode>, value: F32 -> real, start: Vec3): Vec3 {
    if ns == [] then start else Min(JoinedLow(ns[..|ns| - 1], value, start), NodeLow(ns[|ns| - 1], value))
  }

  /** The Max corner after joining each node's box, in order, into a box whose Max is `start`. */
  function JoinedHigh(ns: seq<MeshNode>, value: F32 -> real, start: Vec3): Vec3 {
    if ns == [] then start else Max(JoinedHigh(ns[..|ns| - 1], value, start), NodeHigh(ns[|ns| - 1], value))
  }

  /** `Mesh.ComputeBBox`: the zero box without nodes, otherwise `MaxBox` joined with every node's box. */
  method ComputeBBox(m: Mesh, value: F32 -> real) returns (b: Box)
    ensures fresh(b)
    ensures m.base.nodes == [] ==> b.min == Origin && b.max == Origin
    ensures m.base.nodes != [] ==>
              b.min == JoinedLow(m.base.nodes, value, MinVal) && b.max == JoinedHigh(m.base.nodes, value, MaxVal)
  {
    var ns := m.base.nodes;
    if |ns| == 0 {
      b := new Box(Origin, Origin);
      return;
    }
    b := MaxBox();
    JoinNodeBoxes(b, ns, value);
  }

  /**
   * `ComputeBBox` as evidently intended: the same loop started from
   * `MinBox`, the identity of `Join`.
   */
  method ComputeBBoxFromMinBox(m: Mesh, value: F32 -> real) returns (b: Box)
    ensures fresh(b)
    ensures m.base.nodes == [] ==> b.min == Origin && b.max == Origin
    ensures m.base.nodes != [] ==>
              b.min == JoinedLow(m.base.nodes, value, MaxVal) && b.max == JoinedHigh(m.base.nodes, value, MinVal)
  {
    var ns := m.base.nodes;
    if |ns| == 0 {
      b := new Box(Origin, Origin);
      return;
    }
    b := MinBox();
    JoinNodeBoxes(b, ns, value);
  }

  /** The loop of `ComputeBBox`: each node's `GetBoundbox` becomes a box that is joined into `b`. */
  method JoinNodeBoxes(b: Box, ns: seq<MeshNode>, value: F32 -> real)
    modifies b
    ensures b.min == JoinedLow(ns, value, old(b.min)) && b.max == JoinedHigh(ns, value, old(b.max))
  {
    ghost var lo, hi := b.min, b.max;
    var i := 0;
    while i < |ns|
      invariant 0 <= i <= |ns|
      invariant b.min == JoinedLow(ns[..i], value, lo) && b.max == JoinedHigh(ns[..i], value, hi)
    {
      var bx := GetBoundbox(ns[i], value);
      var bbx := new Box(Vec3(bx[0], bx[1], bx[2]), Vec3(bx[3], bx[4], bx[5]));
      b.Join(bbx);
      assert ns[..i + 1][..i] == ns[..i];
      i := i + 1;
    }
    assert ns[..i] == ns;
  }

  /** Every node's vertices are finite. */
  predicate NodesFinite(ns: seq<MeshNode>, value: F32 -> real) {
    forall i :: 0 <= i < |ns| ==> AllFinite(ns[i].vertices, value)
  }

  /** A node box of finite vertices lies within the finite range. */
  lemma NodeBoxFinite(n: MeshNode, value: F32 -> real)
    requires AllFinite(n.vertices, value)
    ensures Finite(NodeLow(n, value)) && Finite(NodeHigh(n, value))
  {
    BoundsAttained(n.vertices, value, 0);
    BoundsAttained(n.vertices, value, 1);
    BoundsAttained(n.vertices, value, 2);
  }

  /**
   * As written, `ComputeBBox` returns `MaxBox` for every mesh with a node
   * and finite coordinates: `MaxBox` already holds every finite box.
   */
  lemma {:induction false} ComputeBBoxIsMaxBox(ns: seq<MeshNode>, value: F32 -> real)
    requires NodesFinite(ns, value)
    ensures JoinedLow(ns, value, MinVal) == MinVal && JoinedHigh(ns, value, MaxVal) == MaxVal
    decreases |ns|
  {
    if ns != [] {
      var init := ns[..|ns| - 1];
      assert NodesFinite(init, value) by {
        forall i | 0 <= i < |init| ensures AllFinite(init[i].vertices, value) {
          assert init[i] == ns[i];
        }
      }
      ComputeBBoxIsMaxBox(init, value);
      NodeBoxFinite(ns[|ns| - 1], value);
      MaxBoxAbsorbs(NodeLow(ns[|ns| - 1], value), NodeHigh(ns[|ns| - 1], value));
    }
  }

  function Coord(v: Vec3, a: nat): real
    requires a < 3
  {
    if a == 0 then v.x else if a == 1 then v.y else v.z
  }

  lemma CoordMin(u: Vec3, v: Vec3)
    ensures forall a :: 0 <= a < 3 ==> Coord(Min(u, v), a) <= Coord(u, a) && Coord(Min(u, v), a) <= Coord(v, a)
  {
  }

  lemma CoordMax(u: Vec3, v: Vec3)
    ensures forall a :: 0 <= a < 3 ==> Coord(Max(u, v), a) >= Coord(u, a) && Coord(Max(u, v), a) >= Coord(v, a)
  {
  }

  /** Joining node boxes from any start covers every vertex of every node. */
  lemma {:induction false} JoinedHoldsVertices(ns: seq<MeshNode>, value: F32 -> real, lo: Vec3, hi: Vec3)
    ensures forall i, k, a :: 0 <= i < |ns| && 0 <= k < |ns[i].vertices| && 0 <= a < 3 ==>
              Coord(JoinedLow(ns, value, lo), a) <= value(ns[i].vertices[k][a]) <= Coord(JoinedHigh(ns, value, hi), a)
    decreases |ns|
  {
    if ns != [] {
      var init := ns[..|ns| - 1];
      JoinedHoldsVertices(init, value, lo, hi);
      BoundsHoldVertices(ns[|ns| - 1].vertices, value);
      CoordMin(JoinedLow(init, value, lo), NodeLow(ns[|ns| - 1], value));
      CoordMax(JoinedHigh(init, value, hi), NodeHigh(ns[|ns| - 1], value));
      forall i, k, a | 0 <= i < |ns| && 0 <= k < |ns[i].vertices| && 0 <= a < 3
        ensures Coord(JoinedLow(ns, value, lo), a) <= value(ns[i].vertices[k][a]) <= Coord(JoinedHigh(ns, value, hi), a)
      {
        if i < |init| {
          assert init[i] == ns[i];
        }
      }
    }
  }

  /**
   * Started from `MinBox`, the joined box is the tightest one: any bound
   * that is finite and below (above) every vertex coordinate is below
   * (above) the joined Min (Max).
   */
  lemma {:induction false} JoinedFromMinBoxIsTight(ns: seq<MeshNode>, value: F32 -> real, a: nat, lo: real, hi: real)
    requires a < 3 && lo <= MaxFloat64 && -MaxFloat64 <= hi
    requires forall i, k :: 0 <= i < |ns| && 0 <= k < |ns[i].vertices| ==> lo <= value(ns[i].vertices[k][a]) <= hi
    ensures lo <= Coord(JoinedLow(ns, value, MaxVal), a) && Coord(JoinedHigh(ns, value, MinVal), a) <= hi
    decreases |ns|
  {
    if ns != [] {
      var init := ns[..|ns| - 1];
      var last := ns[|ns| - 1];
      forall i, k | 0 <= i < |init| && 0 <= k < |init[i].vertices|
        ensures lo <= value(init[i].vertices[k][a]) <= hi
      {
        assert init[i] == ns[i];
      }
      JoinedFromMinBoxIsTight(init, value, a, lo, hi);
      NodeBoundsTight(last.vertices, value, a, lo, hi);
    }
  }

  /** A node's bounds lie within any finite bounds of its vertices. */
  lemma {:induction false} NodeBoundsTight(vs: seq<Vec3F>, value: F32 -> real, a: nat, lo: real, hi: real)
    requires a < 3 && lo <= MaxFloat64 && -MaxFloat64 <= hi
    requires forall k :: 0 <= k < |vs| ==> lo <= value(vs[k][a]) <= hi
    ensures lo <= Low(vs, a, value) && High(vs, a, value) <= hi
    decreases |vs|
  {
    if vs != [] {
      var init := vs[..|vs| - 1];
      forall k | 0 <= k < |init| ensures lo <= value(init[k][a]) <= hi {
        assert init[k] == vs[k];
      }
      NodeBoundsTight(init, value, a, lo, hi);
    }
  }
}
