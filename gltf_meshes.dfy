/**
 * The accessor side of mst/gltf.go: `buildMesh` and `buildOutline` turn one
 * node into a glTF mesh of one primitive per face (or edge) group, plus the
 * accessors the primitives name: one index accessor per group, all in the
 * node's index view, then a position accessor with the node's bounding box,
 * then uv and normal accessors when the node has them.
 */
module GltfMeshes {
  import opened Wrappers
  import opened LittleEndian
  import opened MstTypes
  import opened MstGeometry
  import opened GltfDoc

  /** The attribute names a primitive uses. */
  const Position: string := "POSITION"
  const TexCoord0: string := "TEXCOORD_0"
  const Normal: string := "NORMAL"

  /** The material of a group: its batch id (a negative one counts as 0) past the materials already in the document. */
  function MaterialId(batchid: int, mtlSize: int): int {
    (if batchid < 0 then 0 else batchid) + mtlSize
  }

  /**
   * The attributes of a triangle primitive: positions at `pos`, then the uv
   * and normal accessors, each only when the node has them, numbered on.
   */
  function TriangleAttributes(pos: int, hasTex: bool, hasNormal: bool): map<string, int> {
    var a := map[Position := pos];
    var a := if hasTex then a[TexCoord0 := pos + 1] else a;
    if hasNormal then a[Normal := pos + (if hasTex then 2 else 1)] else a
  }

  /** An index accessor: `count` uint32 scalars at `byteOffset` in a view. */
  function IndexAccessor(bv: ViewRef, byteOffset: int, count: int): Accessor {
    Accessor(bv, byteOffset, ComponentUint, AccessorScalar, count, [], [])
  }

  /** A float32 accessor of `count` elements from the start of a view, without bounds. */
  function FloatAccessor(bv: ViewRef, t: AccessorType, count: int): Accessor {
    Accessor(bv, 0, ComponentFloat, t, count, [], [])
  }

  /** The position accessor: one vec3 per vertex, bounded by the node's box. */
  function PositionAccessor(bv: ViewRef, vs: seq<Vec3F>, value: F32 -> real): Accessor {
    var b := Bounds(vs, value);
    Accessor(bv, 0, ComponentFloat, AccessorVec3, |vs|, b[..3], b[3..])
  }

  // ----- buildMesh -----

  /** One triangle primitive per face group; group k uses index accessor `idx + k`. */
  function TrianglePrimitives(gs: seq<MeshTriangle>, idx: int, mtlSize: int, attrs: map<string, int>): (r: seq<Primitive>)
    ensures |r| == |gs|
  {
    if gs == [] then []
    else
      var init := gs[..|gs| - 1];
      TrianglePrimitives(init, idx, mtlSize, attrs)
      + [Primitive(MaterialId(gs[|gs| - 1].batchid, mtlSize), idx + |init|, attrs, Triangles)]
  }

  /** One index accessor per face group, each starting after the faces of the groups before it, 12 bytes a face. */
  function FaceIndexAccessors(gs: seq<MeshTriangle>, bv: int): (r: seq<Accessor>)
    ensures |r| == |gs|
  {
    if gs == [] then []
    else
      var init := gs[..|gs| - 1];
      FaceIndexAccessors(init, bv) + [IndexAccessor(ViewIndex(bv), 12 * |AllFaces(init)|, 3 * |gs[|gs| - 1].faces|)]
  }

  /** The accessors `buildMesh` appends, given the views the context names. */
  function MeshAccessors(nd: MeshNode, bvIndex: int, bvPos: int, bvTex: int, bvNorm: int, value: F32 -> real): (r: seq<Accessor>)
    ensures |r| == |nd.faceGroup| + 1 + (if |nd.texCoords| > 0 then 1 else 0) + (if |nd.normals| > 0 then 1 else 0)
  {
    FaceIndexAccessors(nd.faceGroup, bvIndex)
    + [PositionAccessor(ViewIndex(bvPos), nd.vertices, value)]
    + (if |nd.texCoords| > 0 then [FloatAccessor(ViewIndex(bvTex), AccessorVec2, |nd.texCoords|)] else [])
    + (if |nd.normals| > 0 then [FloatAccessor(ViewIndex(bvNorm), AccessorVec3, |nd.normals|)] else [])
  }

  /** The attributes every primitive of a node gets when its accessors start at `idx`. */
  function NodeAttributes(nd: MeshNode, idx: int): map<string, int> {
    TriangleAttributes(idx + |nd.faceGroup|, |nd.texCoords| > 0, |nd.normals| > 0)
  }

  /**
   * `buildMesh`: one primitive per face group and the accessors they name,
   * appended to `accessors`. `value` reads a float32 coordinate for the
   * bounding box.
   */
  method BuildMesh(ctx: BuildContext, accessors: seq<Accessor>, nd: MeshNode, value: F32 -> real)
    returns (mesh: GltfMesh, accs: seq<Accessor>)
    ensures mesh == GltfMesh(TrianglePrimitives(nd.faceGroup, |accessors|, ctx.mtlSize, NodeAttributes(nd, |accessors|)))
    ensures accs == accessors + MeshAccessors(nd, ctx.bvIndex, ctx.bvPos, ctx.bvTex, ctx.bvNorm, value)
  {
    mesh, accs := TriangleGroups(ctx.mtlSize, ctx.bvIndex, accessors, nd);
    var box := GetBoundbox(nd, value);
    accs := accs + [Accessor(ViewIndex(ctx.bvPos), 0, ComponentFloat, AccessorVec3, |nd.vertices|, box[..3], box[3..])];
    if |nd.texCoords| > 0 {
      accs := accs + [FloatAccessor(ViewIndex(ctx.bvTex), AccessorVec2, |nd.texCoords|)];
    }
    if |nd.normals| > 0 {
      accs := accs + [FloatAccessor(ViewIndex(ctx.bvNorm), AccessorVec3, |nd.normals|)];
    }
  }

  /** The group loop of `buildMesh`: a primitive and an index accessor per face group. */
  method TriangleGroups(mtlSize: int, bvIndex: int, accessors: seq<Accessor>, nd: MeshNode)
    returns (mesh: GltfMesh, accs: seq<Accessor>)
    ensures mesh == GltfMesh(TrianglePrimitives(nd.faceGroup, |accessors|, mtlSize, NodeAttributes(nd, |accessors|)))
    ensures accs == accessors + FaceIndexAccessors(nd.faceGroup, bvIndex)
  {
    var gs := nd.faceGroup;
    var prims: seq<Primitive> := [];
    var idx := |accessors|;
    var indexPos := |gs| + idx;
    var start := 0;
    accs := accessors;
    var i := 0;
    while i < |gs|
      invariant 0 <= i <= |gs| && start == |AllFaces(gs[..i])|
      invariant prims == TrianglePrimitives(gs[..i], idx, mtlSize, NodeAttributes(nd, idx))
      invariant accs == accessors + FaceIndexAccessors(gs[..i], bvIndex)
    {
      var patch := gs[i];
      var batchId := patch.batchid;
      if batchId < 0 {
        batchId := 0;
      }
      var mtlId := batchId + mtlSize;
      var attributes := PrimitiveAttributes(indexPos, |nd.texCoords| > 0, |nd.normals| > 0);
      assert mtlId == MaterialId(gs[i].batchid, mtlSize) && attributes == NodeAttributes(nd, idx);
      prims := prims + [Primitive(mtlId, i + idx, attributes, Triangles)];
      var indexacc := IndexAccessor(ViewIndex(bvIndex), start * 12, |patch.faces| * 3);
      start := start + |patch.faces|;
      accs := accs + [indexacc];
      TriangleStep(gs, i, idx, mtlSize, NodeAttributes(nd, idx), bvIndex);
      i := i + 1;
    }
    assert gs[..i] == gs;
    mesh := GltfMesh(prims);
  }

  /** The attribute map `buildMesh` fills for each primitive, counting on from the position accessor. */
  method PrimitiveAttributes(indexPos: int, hasTex: bool, hasNormal: bool) returns (attributes: map<string, int>)
    ensures attributes == TriangleAttributes(indexPos, hasTex, hasNormal)
  {
    var tmp := indexPos;
    attributes := map[Position := indexPos];
    if hasTex {
      tmp := tmp + 1;
      attributes := attributes[TexCoord0 := tmp];
    }
    if hasNormal {
      tmp := tmp + 1;
      attributes := attributes[Normal := tmp];
    }
  }

  /** One more face group adds its primitive, its index accessor and its faces. */
  lemma TriangleStep(gs: seq<MeshTriangle>, i: nat, idx: int, mtlSize: int, attrs: map<string, int>, bv: int)
    requires i < |gs|
    ensures TrianglePrimitives(gs[..i + 1], idx, mtlSize, attrs)
            == TrianglePrimitives(gs[..i], idx, mtlSize, attrs) + [Primitive(MaterialId(gs[i].batchid, mtlSize), idx + i, attrs, Triangles)]
    ensures FaceIndexAccessors(gs[..i + 1], bv)
            == FaceIndexAccessors(gs[..i], bv) + [IndexAccessor(ViewIndex(bv), 12 * |AllFaces(gs[..i])|, 3 * |gs[i].faces|)]
    ensures AllFaces(gs[..i + 1]) == AllFaces(gs[..i]) + gs[i].faces
  {
    GroupStep(gs, i);
  }

  /** Primitive k has group k's material, index accessor `idx + k` and the node's attributes. */
  lemma {:induction false} TrianglePrimitiveAt(gs: seq<MeshTriangle>, idx: int, mtlSize: int, attrs: map<string, int>, k: nat)
    requires k < |gs|
    ensures TrianglePrimitives(gs, idx, mtlSize, attrs)[k] == Primitive(MaterialId(gs[k].batchid, mtlSize), idx + k, attrs, Triangles)
    decreases |gs|
  {
    if k < |gs| - 1 {
      TrianglePrimitiveAt(gs[..|gs| - 1], idx, mtlSize, attrs, k);
    }
  }

  /** Index accessor k starts after the faces of groups 0..k-1, 12 bytes each, and holds 3 indices per face of group k. */
  lemma {:induction false} FaceIndexAccessorAt(gs: seq<MeshTriangle>, bv: int, k: nat)
    requires k < |gs|
    ensures FaceIndexAccessors(gs, bv)[k] == IndexAccessor(ViewIndex(bv), 12 * |AllFaces(gs[..k])|, 3 * |gs[k].faces|)
    decreases |gs|
  {
    var init := gs[..|gs| - 1];
    if k < |init| {
      FaceIndexAccessorAt(init, bv, k);
      assert init[..k] == gs[..k];
    } else {
      assert init == gs[..k];
    }
  }

  // ----- buildOutline -----

  /** One line-strip primitive per edge group; every one reads positions from accessor `pos`. */
  function OutlinePrimitives(es: seq<MeshOutline>, idx: int, mtlSize: int, pos: int): (r: seq<Primitive>)
    ensures |r| == |es|
  {
    if es == [] then []
    else
      var init := es[..|es| - 1];
      OutlinePrimitives(init, idx, mtlSize, pos)
      + [Primitive(MaterialId(es[|es| - 1].batchid, mtlSize), idx + |init|, map[Position := pos], LineStrip)]
  }

  /** The number of edges of the groups. */
  function EdgeCount(es: seq<MeshOutline>): nat {
    if es == [] then 0 else EdgeCount(es[..|es| - 1]) + |es[|es| - 1].edges|
  }

  /** One index accessor per edge group, each starting after the edges of the groups before it, 8 bytes an edge. */
  function EdgeIndexAccessors(es: seq<MeshOutline>, bv: int): (r: seq<Accessor>)
    ensures |r| == |es|
  {
    if es == [] then []
    else
      var init := es[..|es| - 1];
      EdgeIndexAccessors(init, bv) + [IndexAccessor(ViewIndex(bv), 8 * EdgeCount(init), 2 * |es[|es| - 1].edges|)]
  }

  /**
   * The accessors `buildOutline` appends. The position accessor's view is
   * `pos`: the address of the context's `bvPos` as written, a copy of it
   * once corrected.
   */
  function OutlineAccessors(nd: MeshNode, bvIndex: int, pos: ViewRef, value: F32 -> real): (r: seq<Accessor>)
    ensures |r| == |nd.edgeGroup| + 1
  {
    EdgeIndexAccessors(nd.edgeGroup, bvIndex) + [PositionAccessor(pos, nd.vertices, value)]
  }

  /**
   * `buildOutline` as written: the position accessor stores the address of
   * the context's `bvPos` field, so it names whatever view that field holds
   * when the document is encoded, not the view of this node's vertices.
   */
  method BuildOutline(ctx: BuildContext, accessors: seq<Accessor>, nd: MeshNode, value: F32 -> real)
    returns (mesh: GltfMesh, accs: seq<Accessor>)
    ensures mesh == GltfMesh(OutlinePrimitives(nd.edgeGroup, |accessors|, ctx.mtlSize, |accessors| + |nd.edgeGroup|))
    ensures accs == accessors + OutlineAccessors(nd, ctx.bvIndex, PosSlot(ctx), value)
  {
    mesh, accs := OutlineGroups(ctx.mtlSize, ctx.bvIndex, accessors, nd);
    var box := GetBoundbox(nd, value);
    accs := accs + [Accessor(PosSlot(ctx), 0, ComponentFloat, AccessorVec3, |nd.vertices|, box[..3], box[3..])];
  }

  /**
   * `buildOutline` as evidently intended: the position accessor names a
   * copy of `bvPos`, the view just recorded for this node's vertices, as
   * `buildMesh` does.
   */
  method BuildOutlineCopied(ctx: BuildContext, accessors: seq<Accessor>, nd: MeshNode, value: F32 -> real)
    returns (mesh: GltfMesh, accs: seq<Accessor>)
    ensures mesh == GltfMesh(OutlinePrimitives(nd.edgeGroup, |accessors|, ctx.mtlSize, |accessors| + |nd.edgeGroup|))
    ensures accs == accessors + OutlineAccessors(nd, ctx.bvIndex, ViewIndex(ctx.bvPos), value)
  {
    mesh, accs := OutlineGroups(ctx.mtlSize, ctx.bvIndex, accessors, nd);
    var box := GetBoundbox(nd, value);
    var bvPos := ctx.bvPos;
    accs := accs + [Accessor(ViewIndex(bvPos), 0, ComponentFloat, AccessorVec3, |nd.vertices|, box[..3], box[3..])];
  }

  /** The group loop of `buildOutline`: a primitive and an index accessor per edge group. */
  method OutlineGroups(mtlSize: int, bvIndex: int, accessors: seq<Accessor>, nd: MeshNode)
    returns (mesh: GltfMesh, accs: seq<Accessor>)
    ensures mesh == GltfMesh(OutlinePrimitives(nd.edgeGroup, |accessors|, mtlSize, |accessors| + |nd.edgeGroup|))
    ensures accs == accessors + EdgeIndexAccessors(nd.edgeGroup, bvIndex)
  {
    var es := nd.edgeGroup;
    var prims: seq<Primitive> := [];
    var idx := |accessors|;
    var indexPos := |es| + idx;
    var start := 0;
    accs := accessors;
    var i := 0;
    while i < |es|
      invariant 0 <= i <= |es| && start == EdgeCount(es[..i])
      invariant prims == OutlinePrimitives(es[..i], idx, mtlSize, indexPos)
      invariant accs == accessors + EdgeIndexAccessors(es[..i], bvIndex)
    {
      var patch := es[i];
      var batchId := patch.batchid;
      if batchId < 0 {
        batchId := 0;
      }
      var mtlId := batchId + mtlSize;
      assert mtlId == MaterialId(es[i].batchid, mtlSize);
      prims := prims + [Primitive(mtlId, i + idx, map[Position := indexPos], LineStrip)];
      var indexacc := IndexAccessor(ViewIndex(bvIndex), start * 8, |patch.edges| * 2);
      start := start + |patch.edges|;
      accs := accs + [indexacc];
      OutlineStep(es, i, idx, mtlSize, indexPos, bvIndex);
      i := i + 1;
    }
    assert es[..i] == es;
    mesh := GltfMesh(prims);
  }

  /** One more edge group adds its primitive, its index accessor and its edges. */
  lemma OutlineStep(es: seq<MeshOutline>, i: nat, idx: int, mtlSize: int, pos: int, bv: int)
    requires i < |es|
    ensures OutlinePrimitives(es[..i + 1], idx, mtlSize, pos)
            == OutlinePrimitives(es[..i], idx, mtlSize, pos) + [Primitive(MaterialId(es[i].batchid, mtlSize), idx + i, map[Position := pos], LineStrip)]
    ensures EdgeIndexAccessors(es[..i + 1], bv)
            == EdgeIndexAccessors(es[..i], bv) + [IndexAccessor(ViewIndex(bv), 8 * EdgeCount(es[..i]), 2 * |es[i].edges|)]
    ensures EdgeCount(es[..i + 1]) == EdgeCount(es[..i]) + |es[i].edges|
  {
    assert es[..i + 1][..i] == es[..i];
  }
}
