/**
 * One node of `buildGltf` in mst/gltf.go: the node's buffer views,
 * accessors and glTF mesh (as an outline or as triangles), then the glTF
 * nodes that place that mesh in scene 0 (one plain node, one node per
 * transform, or the GPU instances).
 */
module GltfNodes {
  import opened Wrappers
  import opened LittleEndian
  import opened MstTypes
  import opened MstGeometry
  import opened GltfDoc
  import opened GltfBuffers
  import opened GltfMeshes
  import opened GltfLayout
  import opened GltfInstance

  /** `buildGltf` writes a node as an outline when outlines are asked for and the node has edge groups. */
  predicate AsOutline(exportOutline: bool, nd: MeshNode) {
    exportOutline && |nd.edgeGroup| > 0
  }

  /** The bytes a node's buffer gets. */
  function NodeBytes(nd: MeshNode, outline: bool): seq<Byte> {
    if outline then Vec3Bytes(nd.vertices) else MeshBytes(nd)
  }

  /** The views a node's buffer gets, the buffer holding `start` bytes before. */
  function NodeViews(nd: MeshNode, outline: bool, start: int): seq<BufferView> {
    if outline then OutlineViews(nd, start) else MeshViews(nd, start)
  }

  /** The accessors a node gets, its views numbered from `bv`. */
  function NodeAccessors(nd: MeshNode, outline: bool, bv: int, value: F32 -> real): seq<Accessor> {
    if outline then OutlineAccessors(nd, bv, ViewIndex(bv + 1), value)
    else MeshAccessors(nd, bv, bv + 1, bv + 2, bv + 2 + (if |nd.texCoords| > 0 then 1 else 0), value)
  }

  /** The glTF mesh of a node, its accessors numbered from `idx`. */
  function NodeMesh(nd: MeshNode, outline: bool, idx: int, mtlSize: int): GltfMesh {
    if outline then GltfMesh(OutlinePrimitives(nd.edgeGroup, idx, mtlSize, idx + |nd.edgeGroup|))
    else GltfMesh(TrianglePrimitives(nd.faceGroup, idx, mtlSize, NodeAttributes(nd, idx)))
  }

  /** The document after a node's buffer, accessors and mesh are built, the buffer holding `len` bytes before. */
  function NodeMeshState(s: DocState, len: int, nd: MeshNode, outline: bool, mtlSize: int, value: F32 -> real): DocState {
    s.(bufferViews := s.bufferViews + NodeViews(nd, outline, len),
       accessors := s.accessors + NodeAccessors(nd, outline, |s.bufferViews|, value),
       meshes := s.meshes + [NodeMesh(nd, outline, |s.accessors|, mtlSize)])
  }

  /** `buildOutlineBuffer`, then `buildOutline` with the position view copied, then the mesh is appended. */
  method BuildOutlineNode(doc: Document, buffer: Buffer, ctx: BuildContext, nd: MeshNode, value: F32 -> real)
    requires |doc.buffers| > 0 && doc.buffers[0] == buffer
    modifies doc, ctx, buffer
    ensures doc.State() == NodeMeshState(old(doc.State()), old(buffer.byteLength), nd, true, old(ctx.mtlSize), value)
    ensures buffer.data == old(buffer.data) + NodeBytes(nd, true)
    ensures buffer.byteLength == old(buffer.byteLength) + |NodeBytes(nd, true)|
    ensures ctx.mtlSize == old(ctx.mtlSize)
  {
    OutlineViewsStep(doc, buffer, ctx, nd);
    OutlineMeshStep(doc, ctx, nd, value);
  }

  /** `buildOutlineBuffer` on the document's buffer and views. */
  method OutlineViewsStep(doc: Document, buffer: Buffer, ctx: BuildContext, nd: MeshNode)
    modifies doc, ctx, buffer
    ensures doc.State() == old(doc.State()).(bufferViews := old(doc.bufferViews) + NodeViews(nd, true, old(buffer.byteLength)))
    ensures buffer.data == old(buffer.data) + NodeBytes(nd, true)
    ensures buffer.byteLength == old(buffer.byteLength) + |NodeBytes(nd, true)|
    ensures ctx.mtlSize == old(ctx.mtlSize) && ctx.bvIndex == old(|doc.bufferViews|) && ctx.bvPos == old(|doc.bufferViews|) + 1
  {
    doc.bufferViews := BuildOutlineBuffer(ctx, buffer, doc.bufferViews, nd);
  }

  /** `buildOutline` with the position view copied, on the document's accessors; the mesh is appended. */
  method OutlineMeshStep(doc: Document, ctx: BuildContext, nd: MeshNode, value: F32 -> real)
    requires ctx.bvPos == ctx.bvIndex + 1
    modifies doc
    ensures doc.State() == old(doc.State()).(accessors := old(doc.accessors) + NodeAccessors(nd, true, ctx.bvIndex, value),
                                             meshes := old(doc.meshes) + [NodeMesh(nd, true, old(|doc.accessors|), ctx.mtlSize)])
  {
    var mesh;
    mesh, doc.accessors := BuildOutlineCopied(ctx, doc.accessors, nd, value);
    doc.meshes := doc.meshes + [mesh];
  }

  /** `buildMeshBuffer`, then `buildMesh`, then the mesh is appended. */
  method BuildTriangleNode(doc: Document, buffer: Buffer, ctx: BuildContext, nd: MeshNode, value: F32 -> real)
    requires |doc.buffers| > 0 && doc.buffers[0] == buffer
    modifies doc, ctx, buffer
    ensures doc.State() == NodeMeshState(old(doc.State()), old(buffer.byteLength), nd, false, old(ctx.mtlSize), value)
    ensures buffer.data == old(buffer.data) + NodeBytes(nd, false)
    ensures buffer.byteLength == old(buffer.byteLength) + |NodeBytes(nd, false)|
    ensures ctx.mtlSize == old(ctx.mtlSize)
  {
    doc.bufferViews := BuildMeshBuffer(ctx, buffer, doc.bufferViews, nd);
    var mesh;
    mesh, doc.accessors := BuildMesh(ctx, doc.accessors, nd, value);
    doc.meshes := doc.meshes + [mesh];
  }

  // ----- Placing the mesh -----

  /** The nodes of mesh `l` for transforms without instancing: each with the transform's decomposition. */
  function TransformNodes(ms: seq<Mat4>, l: int, decompose: Mat4 -> Trs): (r: seq<Node>)
    ensures |r| == |ms|
  {
    if ms == [] then [] else TransformNodes(ms[..|ms| - 1], l, decompose) + [Node(l, Some(decompose(ms[|ms| - 1])), None)]
  }

  /** The document after the nodes of `ms` are placed without instancing. */
  function TransformedState(s: DocState, l: int, ms: seq<Mat4>, decompose: Mat4 -> Trs): DocState
    requires |s.scenes| > 0
  {
    s.(nodes := s.nodes + TransformNodes(ms, l, decompose),
       scenes := s.scenes[0 := Scene(s.scenes[0].nodes + Range(|s.nodes|, |ms|))])
  }

  /** How many glTF nodes place a mesh: one without transforms, else one per transform. */
  function PlacedCount(trans: Option<seq<Mat4>>): nat {
    match trans
    case None => 1
    case Some(ms) => |ms|
  }

  /** The document after mesh `l` is placed, the buffer holding `len` bytes before. */
  function PlaceState(s: DocState, len: int, l: int, trans: Option<seq<Mat4>>, gpu: bool, decompose: Mat4 -> Trs): DocState
    requires |s.scenes| > 0
  {
    match trans
    case None => s.(nodes := s.nodes + [Node(l, None, None)], scenes := s.scenes[0 := Scene(s.scenes[0].nodes + [|s.nodes|])])
    case Some(ms) => if gpu then InstanceState(s, len, l, |ms|) else TransformedState(s, l, ms, decompose)
  }

  /** The bytes placing a mesh writes: the instances' transforms, or nothing. */
  function PlaceBytes(trans: Option<seq<Mat4>>, gpu: bool, decompose: Mat4 -> Trs): seq<Byte> {
    if trans.Some? && gpu then InstanceBytes(trans.value, decompose) else []
  }

  /** `buildGltf`'s loop over the transforms without instancing: a node per transform, listed in scene 0. */
  method PlaceTransformed(doc: Document, l: int, ms: seq<Mat4>, decompose: Mat4 -> Trs)
    requires |doc.scenes| > 0
    modifies doc
    ensures doc.State() == TransformedState(old(doc.State()), l, ms, decompose)
  {
    ghost var s0 := doc.State();
    assert s0.scenes[0].nodes + Range(|s0.nodes|, 0) == s0.scenes[0].nodes;
    assert TransformedState(s0, l, [], decompose) == s0;
    for i := 0 to |ms|
      invariant doc.State() == TransformedState(s0, l, ms[..i], decompose)
    {
      var nd := Node(l, Some(decompose(ms[i])), None);
      doc.nodes := doc.nodes + [nd];
      doc.scenes := doc.scenes[0 := Scene(doc.scenes[0].nodes + [|doc.nodes| - 1])];
      TransformedStep(s0, l, ms, decompose, i);
    }
    assert ms[..|ms|] == ms;
  }

  /** One more transform adds its node and lists it in scene 0. */
  lemma TransformedStep(s: DocState, l: int, ms: seq<Mat4>, decompose: Mat4 -> Trs, i: nat)
    requires |s.scenes| > 0 && i < |ms|
    ensures var t := TransformedState(s, l, ms[..i], decompose);
            TransformedState(s, l, ms[..i + 1], decompose)
            == t.(nodes := t.nodes + [Node(l, Some(decompose(ms[i])), None)],
                  scenes := t.scenes[0 := Scene(t.scenes[0].nodes + [|t.nodes + [Node(l, Some(decompose(ms[i])), None)]| - 1])])
  {
    assert ms[..i + 1][..i] == ms[..i];
    var t := TransformedState(s, l, ms[..i], decompose);
    assert s.scenes[0].nodes + Range(|s.nodes|, i + 1) == t.scenes[0].nodes + [|s.nodes| + i];
  }

  /**
   * The placement half of `buildGltf`'s node loop: without transforms, one
   * node of mesh `l`; with them, the GPU instances or one node per
   * transform; every node listed in scene 0.
   */
  method PlaceNode(doc: Document, l: int, trans: Option<seq<Mat4>>, gpu: bool, decompose: Mat4 -> Trs)
    requires |doc.buffers| > 0 && |doc.scenes| > 0
    modifies doc, doc.buffers[0]
    ensures doc.State() == PlaceState(old(doc.State()), old(doc.buffers[0].byteLength), l, trans, gpu, decompose)
    ensures doc.buffers[0].data == old(doc.buffers[0].data) + PlaceBytes(trans, gpu, decompose)
    ensures doc.buffers[0].byteLength == old(doc.buffers[0].byteLength) + |PlaceBytes(trans, gpu, decompose)|
  {
    match trans
    case None =>
      doc.scenes := doc.scenes[0 := Scene(doc.scenes[0].nodes + [|doc.nodes|])];
      doc.nodes := doc.nodes + [Node(l, None, None)];
    case Some(ms) =>
      if gpu {
        BuildInstance(doc, l, ms, decompose);
      } else {
        PlaceTransformed(doc, l, ms, decompose);
      }
  }

  // ----- What a node's mesh reads -----

  /** The parts of the state after a triangle node that the read-back lemmas look at: views, accessors and primitive k. */
  lemma TriangleNodeParts(s: DocState, len: int, nd: MeshNode, mtlSize: int, value: F32 -> real, k: nat)
    requires k < |nd.faceGroup|
    ensures var s', idx, bv := NodeMeshState(s, len, nd, false, mtlSize, value), |s.accessors|, |s.bufferViews|;
            && s'.bufferViews == s.bufferViews + MeshViews(nd, len)
            && s'.accessors == s.accessors + MeshAccessors(nd, bv, bv + 1, bv + 2, bv + 2 + (if |nd.texCoords| > 0 then 1 else 0), value)
            && |s.meshes| < |s'.meshes| && k < |s'.meshes[|s.meshes|].primitives|
            && s'.meshes[|s.meshes|].primitives[k] == Primitive(MaterialId(nd.faceGroup[k].batchid, mtlSize), idx + k, NodeAttributes(nd, idx), Triangles)
  {
    TrianglePrimitiveAt(nd.faceGroup, |s.accessors|, mtlSize, NodeAttributes(nd, |s.accessors|), k);
  }

  /**
   * Primitive k of a node's triangle mesh has face group k's material, and
   * read back through the views recorded for the node its index accessor
   * gives the group's vertex indices.
   */
  lemma MeshNodeIndicesRead(s: DocState, data: seq<Byte>, nd: MeshNode, mtlSize: int, value: F32 -> real, k: nat)
    requires k < |nd.faceGroup|
    ensures var s', data' := NodeMeshState(s, |data|, nd, false, mtlSize, value), data + NodeBytes(nd, false);
            var p := s'.meshes[|s.meshes|].primitives[k];
            && p.material == MaterialId(nd.faceGroup[k].batchid, mtlSize) && p.mode == Triangles
            && 0 <= p.indices < |s'.accessors|
            && ReadAccessor(s'.accessors[p.indices], s'.bufferViews, data') == Some(IndexBytes(nd.faceGroup[k].faces))
  {
    var idx, bv, n := |s.accessors|, |s.bufferViews|, |nd.faceGroup|;
    var s' := NodeMeshState(s, |data|, nd, false, mtlSize, value);
    var accs := MeshAccessors(nd, bv, bv + 1, bv + 2, bv + 2 + (if |nd.texCoords| > 0 then 1 else 0), value);
    TriangleNodeParts(s, |data|, nd, mtlSize, value, k);
    assert s'.accessors[idx + k] == FaceIndexAccessors(nd.faceGroup, bv)[k] by {
      MeshAccessorsAt(nd, bv, bv + 1, bv + 2, bv + 2 + (if |nd.texCoords| > 0 then 1 else 0), value);
      assert accs[..n][k] == accs[k];
    }
    MeshIndicesRead(nd, data, s.bufferViews, k);
  }

  /**
   * Every primitive of a node's triangle mesh reads the node's vertices as
   * its positions, back through the views recorded for the node.
   */
  lemma MeshNodePositionsRead(s: DocState, data: seq<Byte>, nd: MeshNode, mtlSize: int, value: F32 -> real, k: nat)
    requires k < |nd.faceGroup|
    ensures var s', data' := NodeMeshState(s, |data|, nd, false, mtlSize, value), data + NodeBytes(nd, false);
            var a := s'.meshes[|s.meshes|].primitives[k].attributes;
            && Position in a && 0 <= a[Position] < |s'.accessors|
            && ReadAccessor(s'.accessors[a[Position]], s'.bufferViews, data') == Some(Vec3Bytes(nd.vertices))
  {
    var idx, bv := |s.accessors|, |s.bufferViews|;
    TriangleNodeParts(s, |data|, nd, mtlSize, value, k);
    AttributesAt(nd, idx);
    MeshAccessorsAt(nd, bv, bv + 1, bv + 2, bv + 2 + (if |nd.texCoords| > 0 then 1 else 0), value);
    MeshPositionsRead(nd, value, data, s.bufferViews);
  }

  /** A triangle node with uvs: the accessor its uv attribute names reads the uvs. */
  lemma NodeUvsRead(s: DocState, data: seq<Byte>, nd: MeshNode, mtlSize: int, value: F32 -> real)
    requires |nd.texCoords| > 0
    ensures var s', data', at := NodeMeshState(s, |data|, nd, false, mtlSize, value), data + NodeBytes(nd, false), NodeAttributes(nd, |s.accessors|)[TexCoord0];
            0 <= at < |s'.accessors| && ReadAccessor(s'.accessors[at], s'.bufferViews, data') == Some(Vec2Bytes(nd.texCoords))
  {
    var idx, bv, n := |s.accessors|, |s.bufferViews|, |nd.faceGroup|;
    var m := MeshAccessors(nd, bv, bv + 1, bv + 2, bv + 3, value);
    AttributesAt(nd, idx);
    assert NodeMeshState(s, |data|, nd, false, mtlSize, value).accessors[idx + (n + 1)] == m[n + 1];
    MeshAccessorsAt(nd, bv, bv + 1, bv + 2, bv + 3, value);
    MeshUvsRead(nd, data, s.bufferViews);
  }

  /** A triangle node with normals: the accessor its normal attribute names reads the normals. */
  lemma NodeNormalsRead(s: DocState, data: seq<Byte>, nd: MeshNode, mtlSize: int, value: F32 -> real)
    requires |nd.normals| > 0
    ensures var s', data', at := NodeMeshState(s, |data|, nd, false, mtlSize, value), data + NodeBytes(nd, false), NodeAttributes(nd, |s.accessors|)[Normal];
            0 <= at < |s'.accessors| && ReadAccessor(s'.accessors[at], s'.bufferViews, data') == Some(Vec3Bytes(nd.normals))
  {
    var idx, bv := |s.accessors|, |s.bufferViews|;
    var bvNorm := bv + 2 + (if |nd.texCoords| > 0 then 1 else 0);
    var m := MeshAccessors(nd, bv, bv + 1, bv + 2, bvNorm, value);
    AttributesAt(nd, idx);
    assert NodeMeshState(s, |data|, nd, false, mtlSize, value).accessors[idx + (|m| - 1)] == m[|m| - 1];
    MeshAccessorsAt(nd, bv, bv + 1, bv + 2, bvNorm, value);
    MeshNormalsRead(nd, data, s.bufferViews);
  }

  /**
   * A node with uvs or normals: every triangle primitive's uv and normal
   * attributes read the node's uvs and normals back through its views.
   */
  lemma MeshNodeAttributesRead(s: DocState, data: seq<Byte>, nd: MeshNode, mtlSize: int, value: F32 -> real, k: nat)
    requires k < |nd.faceGroup|
    ensures var s', data' := NodeMeshState(s, |data|, nd, false, mtlSize, value), data + NodeBytes(nd, false);
            var a := s'.meshes[|s.meshes|].primitives[k].attributes;
            && (TexCoord0 in a <==> |nd.texCoords| > 0) && (Normal in a <==> |nd.normals| > 0)
            && (TexCoord0 in a ==> 0 <= a[TexCoord0] < |s'.accessors| && ReadAccessor(s'.accessors[a[TexCoord0]], s'.bufferViews, data') == Some(Vec2Bytes(nd.texCoords)))
            && (Normal in a ==> 0 <= a[Normal] < |s'.accessors| && ReadAccessor(s'.accessors[a[Normal]], s'.bufferViews, data') == Some(Vec3Bytes(nd.normals)))
  {
    var a := NodeAttributes(nd, |s.accessors|);
    TriangleNodeParts(s, |data|, nd, mtlSize, value, k);
    AttributesAt(nd, |s.accessors|);
    if TexCoord0 in a {
      NodeUvsRead(s, data, nd, mtlSize, value);
    }
    if Normal in a {
      NodeNormalsRead(s, data, nd, mtlSize, value);
    }
  }

  /**
   * Every line-strip primitive of a node's outline mesh has its edge
   * group's material, and its position accessor reads the node's vertices
   * back through the view recorded for them.
   */
  lemma OutlineNodeReads(s: DocState, data: seq<Byte>, nd: MeshNode, mtlSize: int, value: F32 -> real, k: nat)
    requires k < |nd.edgeGroup|
    ensures var s', data' := NodeMeshState(s, |data|, nd, true, mtlSize, value), data + NodeBytes(nd, true);
            var p := s'.meshes[|s.meshes|].primitives[k];
            && p.material == MaterialId(nd.edgeGroup[k].batchid, mtlSize) && p.mode == LineStrip
            && p.attributes == map[Position := |s.accessors| + |nd.edgeGroup|] && 0 <= p.indices < |s'.accessors|
            && ReadAccessor(s'.accessors[p.attributes[Position]], s'.bufferViews, data') == Some(Vec3Bytes(nd.vertices))
  {
    var idx, bv, n := |s.accessors|, |s.bufferViews|, |nd.edgeGroup|;
    OutlinePrimitiveAt(nd.edgeGroup, idx, mtlSize, idx + n, k);
    var accs := NodeAccessors(nd, true, bv, value);
    var views := s.bufferViews + NodeViews(nd, true, |data|);
    var v := views[bv + 1];
    var a := PositionAccessor(ViewIndex(bv + 1), nd.vertices, value);
    assert accs[n] == a;
    OutlineViewsLayout(nd, data);
    assert v == OutlineViews(nd, |data|)[1];
    assert a.count == |nd.vertices| && a.byteOffset == 0 && a.accessorType == AccessorVec3;
    ReadInView(a, views, data + NodeBytes(nd, true), v, 0, 12 * |nd.vertices|);
    assert (data + NodeBytes(nd, true))[v.byteOffset + 0..v.byteOffset + 0 + 12 * |nd.vertices|] == Vec3Bytes(nd.vertices);
  }

  /** Primitive k of an outline has group k's material, index accessor `idx + k` and positions at `pos`. */
  lemma {:induction false} OutlinePrimitiveAt(es: seq<MeshOutline>, idx: int, mtlSize: int, pos: int, k: nat)
    requires k < |es|
    ensures OutlinePrimitives(es, idx, mtlSize, pos)[k] == Primitive(MaterialId(es[k].batchid, mtlSize), idx + k, map[Position := pos], LineStrip)
    decreases |es|
  {
    if k < |es| - 1 {
      OutlinePrimitiveAt(es[..|es| - 1], idx, mtlSize, pos, k);
    }
  }

  /** Index accessor k of an outline starts after the edges of groups 0..k-1, 8 bytes each, and holds two indices per edge of group k. */
  lemma {:induction false} EdgeIndexAccessorAt(es: seq<MeshOutline>, bv: int, k: nat)
    requires k < |es|
    ensures EdgeIndexAccessors(es, bv)[k] == IndexAccessor(ViewIndex(bv), 8 * EdgeCount(es[..k]), 2 * |es[k].edges|)
    decreases |es|
  {
    var init := es[..|es| - 1];
    if k < |init| {
      EdgeIndexAccessorAt(init, bv, k);
      assert init[..k] == es[..k];
    } else {
      assert init == es[..k];
    }
  }

  /**
   * The edges are Go `int` pairs, which encoding/binary does not write, so
   * an outline's index view is empty: once any group up to group k has
   * edges, group k's index accessor reaches past its view and a glTF reader
   * gets nothing from it; before that it reads no bytes.
   */
  lemma OutlineIndicesUnread(s: DocState, data: seq<Byte>, nd: MeshNode, mtlSize: int, value: F32 -> real, k: nat)
    requires k < |nd.edgeGroup|
    ensures var s', data' := NodeMeshState(s, |data|, nd, true, mtlSize, value), data + NodeBytes(nd, true);
            var p := s'.meshes[|s.meshes|].primitives[k];
            && 0 <= p.indices < |s'.accessors|
            && ReadAccessor(s'.accessors[p.indices], s'.bufferViews, data') == (if EdgeCount(nd.edgeGroup[..k + 1]) == 0 then Some([]) else None)
  {
    var idx, bv := |s.accessors|, |s.bufferViews|;
    OutlinePrimitiveAt(nd.edgeGroup, idx, mtlSize, idx + |nd.edgeGroup|, k);
    EdgeIndexAccessorAt(nd.edgeGroup, bv, k);
    OutlineStep(nd.edgeGroup, k, idx, mtlSize, idx + |nd.edgeGroup|, bv);
    var accs := NodeAccessors(nd, true, bv, value);
    assert accs[k] == EdgeIndexAccessors(nd.edgeGroup, bv)[k];
    var views := s.bufferViews + NodeViews(nd, true, |data|);
    assert views[bv] == BufferView(0, |data|, 0);
  }

  /** The view index an accessor's `BufferView` pointer reads when the document is encoded. */
  function ResolvedView(r: ViewRef): Option<int>
    reads if r.PosSlot? then {r.ctx} else {}
  {
    match r
    case NoView => None
    case ViewIndex(i) => Some(i)
    case PosSlot(ctx) => Some(ctx.bvPos)
  }

  /**
   * Two outline nodes built in a row with `buildOutline` as written: the
   * first node's position accessor, which points at the context's `bvPos`,
   * reads the second node's position view once that node's buffer is built,
   * not the view recorded for the first node's vertices.
   */
  method OutlineAliasAsWritten(nd1: MeshNode, nd2: MeshNode, value: F32 -> real) returns (recorded: int, resolved: Option<int>)
    ensures recorded == 1 && resolved == Some(3)
  {
    var buffer := new Buffer();
    var ctx := new BuildContext(0);
    var views := BuildOutlineBuffer(ctx, buffer, [], nd1);
    recorded := ctx.bvPos;
    var mesh, accs := BuildOutline(ctx, [], nd1, value);
    views := BuildOutlineBuffer(ctx, buffer, views, nd2);
    resolved := ResolvedView(accs[|accs| - 1].bufferView);
  }

  /** The same two outline nodes with the position view copied: the first node's accessor keeps its own view. */
  method OutlineAliasCopied(nd1: MeshNode, nd2: MeshNode, value: F32 -> real) returns (recorded: int, resolved: Option<int>)
    ensures recorded == 1 && resolved == Some(recorded)
  {
    var buffer := new Buffer();
    var ctx := new BuildContext(0);
    var views := BuildOutlineBuffer(ctx, buffer, [], nd1);
    recorded := ctx.bvPos;
    var mesh, accs := BuildOutlineCopied(ctx, [], nd1, value);
    views := BuildOutlineBuffer(ctx, buffer, views, nd2);
    resolved := ResolvedView(accs[|accs| - 1].bufferView);
  }
}
