/**
 * `buildGltf` of mst/gltf.go: turns the nodes of one base mesh into glTF
 * meshes, places each one (plainly, per transform or as GPU instances) and
 * fills the mesh's materials.
 */
module GltfBuild {
  import opened Wrappers
  import opened LittleEndian
  import opened MstTypes
  import opened GltfDoc
  import opened GltfBuffers
  import opened GltfMeshes
  import opened GltfMaterials
  import opened GltfInstance
  import opened GltfNodes
  import opened GltfBounds

  /**
   * What one `buildGltf` call builds with: the transforms (none for a base
   * mesh), whether outlines and GPU instancing are asked for, the number of
   * materials already in the document, and the foreign conversions of a
   * float32 coordinate and of a transform.
   */
  datatype BuildParams = BuildParams(
    trans: Option<seq<Mat4>>,
    exportOutline: bool,
    gpu: bool,
    mtlSize: int,
    value: F32 -> real,
    decompose: Mat4 -> Trs)

  /** The bytes one node appends: its blocks, then its instances' transforms. */
  function NodeAllBytes(nd: MeshNode, p: BuildParams): seq<Byte> {
    NodeBytes(nd, AsOutline(p.exportOutline, nd)) + PlaceBytes(p.trans, p.gpu, p.decompose)
  }

  /** The bytes the first `n` nodes append, in order. */
  function NodesBytes(nds: seq<MeshNode>, n: nat, p: BuildParams): seq<Byte>
    requires n <= |nds|
  {
    if n == 0 then [] else NodesBytes(nds, n - 1, p) + NodeAllBytes(nds[n - 1], p)
  }

  /**
   * The meshes the nodes added by the first `n` turns show, in order, when
   * every turn adds mesh `first + k` and places it `c` times.
   */
  function Placements(first: int, n: nat, c: nat): seq<int> {
    if n == 0 then [] else Placements(first, n - 1, c) + seq(c, _ => first + n - 1)
  }

  /** `n` turns of `c` placements each add `n * c` nodes. */
  lemma {:induction false} PlacementsLength(first: int, n: nat, c: nat)
    ensures |Placements(first, n, c)| == n * c
  {
    if n > 0 {
      PlacementsLength(first, n - 1, c);
      assert (n - 1) * c + c == n * c;
    }
  }

  /** Slot `j` of turn `k` shows mesh `first + k`. */
  lemma {:induction false} PlacementsAt(first: int, n: nat, c: nat, k: nat, j: nat)
    requires k < n && j < c
    ensures k * c + j < |Placements(first, n, c)| && Placements(first, n, c)[k * c + j] == first + k
  {
    PlacementsLength(first, n, c);
    PlacementsLength(first, n - 1, c);
    assert (n - 1) * c + c == n * c;
    if k < n - 1 {
      PlacementsAt(first, n - 1, c, k, j);
    } else {
      assert k * c == (n - 1) * c;
    }
  }

  // ----- What one turn of the node loop does to the document -----

  /** `t` is `s` with `mesh` appended to its meshes; its nodes, scenes, buffers and materials are as they were. */
  ghost predicate MeshAdded(s: DocState, t: DocState, mesh: GltfMesh) {
    t.meshes == s.meshes + [mesh] && t.nodes == s.nodes && t.scenes == s.scenes && t.buffers == s.buffers
    && t.materials == s.materials
  }

  /**
   * `t` is `s` with `c` more nodes, all showing mesh `l`, listed in order at
   * the end of scene 0; its meshes, buffers and materials are as they were.
   */
  ghost predicate Placed(s: DocState, t: DocState, l: int, c: nat) {
    && |s.scenes| > 0
    && t.meshes == s.meshes && t.buffers == s.buffers && t.materials == s.materials
    && |t.nodes| == |s.nodes| + c && t.nodes[..|s.nodes|] == s.nodes
    && (forall x :: |s.nodes| <= x < |t.nodes| ==> t.nodes[x].mesh == l)
    && t.scenes == s.scenes[0 := Scene(s.scenes[0].nodes + Range(|s.nodes|, c))]
  }

  /** Building a node's views, accessors and mesh appends that mesh and touches no node, scene or buffer. */
  lemma NodeMeshStateAdded(s: DocState, len: int, nd: MeshNode, outline: bool, mtlSize: int, value: F32 -> real)
    ensures MeshAdded(s, NodeMeshState(s, len, nd, outline, mtlSize, value), NodeMesh(nd, outline, |s.accessors|, mtlSize))
  {
  }

  /** Placing mesh `l` adds `PlacedCount` nodes showing it and lists them in order in scene 0. */
  lemma PlaceStatePlaced(s: DocState, len: int, l: int, trans: Option<seq<Mat4>>, gpu: bool, decompose: Mat4 -> Trs)
    requires |s.scenes| > 0
    ensures Placed(s, PlaceState(s, len, l, trans, gpu, decompose), l, PlacedCount(trans))
  {
    var r := PlaceState(s, len, l, trans, gpu, decompose);
    match trans
    case None =>
      assert Range(|s.nodes|, 1) == [|s.nodes|];
    case Some(ms) =>
      if gpu {
        InstanceNodesWithin(|ms|, l, |s.accessors|);
        assert forall x :: |s.nodes| <= x < |r.nodes| ==> r.nodes[x] == InstanceNodes(|ms|, l, |s.accessors|)[x - |s.nodes|];
      } else {
        TransformNodesShape(ms, l, decompose);
        assert forall x :: |s.nodes| <= x < |r.nodes| ==> r.nodes[x] == TransformNodes(ms, l, decompose)[x - |s.nodes|];
      }
  }

  /**
   * The mesh half of `buildGltf`'s node loop: `buildOutlineBuffer` and
   * `buildOutline` (with the position view copied), or `buildMeshBuffer`
   * and `buildMesh`; the mesh goes to the end of the document's list.
   */
  method BuildNodeMesh(doc: Document, buffer: Buffer, ctx: BuildContext, nd: MeshNode, outline: bool, value: F32 -> real)
    requires |doc.buffers| > 0 && doc.buffers[0] == buffer
    modifies doc, ctx, buffer
    ensures MeshAdded(old(doc.State()), doc.State(), NodeMesh(nd, outline, old(|doc.accessors|), old(ctx.mtlSize)))
    ensures old(Within(doc.State(), buffer.byteLength) && 0 <= buffer.byteLength) ==> Within(doc.State(), buffer.byteLength)
    ensures buffer.data == old(buffer.data) + NodeBytes(nd, outline)
    ensures buffer.byteLength == old(buffer.byteLength) + |NodeBytes(nd, outline)|
    ensures ctx.mtlSize == old(ctx.mtlSize)
  {
    ghost var s0, len0, mtlSize := doc.State(), buffer.byteLength, ctx.mtlSize;
    if outline {
      BuildOutlineNode(doc, buffer, ctx, nd, value);
    } else {
      BuildTriangleNode(doc, buffer, ctx, nd, value);
    }
    NodeMeshStateAdded(s0, len0, nd, outline, mtlSize, value);
    if Within(s0, len0) && 0 <= len0 {
      NodeMeshStateWithin(s0, len0, nd, outline, mtlSize, value);
    }
  }

  /**
   * The placement half of `buildGltf`'s node loop: mesh `l` is placed once,
   * once per transform, or as GPU instances.
   */
  method PlaceMesh(doc: Document, buffer: Buffer, l: int, trans: Option<seq<Mat4>>, gpu: bool, decompose: Mat4 -> Trs)
    requires |doc.buffers| > 0 && doc.buffers[0] == buffer && |doc.scenes| > 0
    modifies doc, buffer
    ensures Placed(old(doc.State()), doc.State(), l, PlacedCount(trans))
    ensures old(Within(doc.State(), buffer.byteLength) && 0 <= buffer.byteLength) && 0 <= l < old(|doc.meshes|) ==> Within(doc.State(), buffer.byteLength)
    ensures buffer.data == old(buffer.data) + PlaceBytes(trans, gpu, decompose)
    ensures buffer.byteLength == old(buffer.byteLength) + |PlaceBytes(trans, gpu, decompose)|
  {
    ghost var s0, len0 := doc.State(), buffer.byteLength;
    PlaceNode(doc, l, trans, gpu, decompose);
    PlaceStatePlaced(s0, len0, l, trans, gpu, decompose);
    if Within(s0, len0) && 0 <= len0 && 0 <= l < |s0.meshes| {
      PlaceStateWithin(s0, len0, l, trans, gpu, decompose);
    }
  }

  /**
   * `t` is `s` after `n` turns of the node loop: `n` meshes were appended,
   * and nodes showing the meshes `ps` say, listed in order at the end of
   * scene 0; the buffers are as they were.
   */
  ghost predicate Built(s: DocState, t: DocState, n: nat, ps: seq<int>) {
    && |s.scenes| > 0
    && t.buffers == s.buffers
    && |t.meshes| == |s.meshes| + n && t.meshes[..|s.meshes|] == s.meshes
    && |t.nodes| == |s.nodes| + |ps| && t.nodes[..|s.nodes|] == s.nodes
    && (forall x :: |s.nodes| <= x < |t.nodes| ==> t.nodes[x].mesh == ps[x - |s.nodes|])
    && t.scenes == s.scenes[0 := Scene(s.scenes[0].nodes + Range(|s.nodes|, |ps|))]
  }

  /** One more turn, adding a mesh and placing it `c` times, extends what was built. */
  lemma BuiltStep(s: DocState, t: DocState, u: DocState, n: nat, ps: seq<int>, mesh: GltfMesh, c: nat)
    requires Built(s, t, n, ps)
    requires u.meshes == t.meshes + [mesh] && Placed(t.(meshes := u.meshes), u, |t.meshes|, c)
    ensures Built(s, u, n + 1, ps + seq(c, _ => |t.meshes|))
  {
    var ps' := ps + seq(c, _ => |t.meshes|);
    assert u.meshes[..|s.meshes|] == s.meshes by {
      assert u.meshes[..|t.meshes|] == t.meshes;
    }
    assert u.nodes[..|s.nodes|] == s.nodes by {
      assert u.nodes[..|t.nodes|] == t.nodes;
    }
    forall x | |s.nodes| <= x < |u.nodes|
      ensures u.nodes[x].mesh == ps'[x - |s.nodes|]
    {
      if x < |t.nodes| {
        assert u.nodes[x] == u.nodes[..|t.nodes|][x];
      }
    }
    var head := s.scenes[0].nodes;
    RangeAppend(|s.nodes|, |ps|, c);
    assert t.scenes[0].nodes + Range(|t.nodes|, c) == head + Range(|s.nodes|, |ps'|) by {
      assert t.scenes[0].nodes == head + Range(|s.nodes|, |ps|);
    }
  }

  /** One turn of `buildGltf`'s node loop: the node's mesh, then its placement. */
  method BuildNode(doc: Document, buffer: Buffer, ctx: BuildContext, nd: MeshNode, p: BuildParams)
    requires |doc.buffers| > 0 && doc.buffers[0] == buffer && |doc.scenes| > 0 && ctx.mtlSize == p.mtlSize
    modifies doc, buffer, ctx
    ensures doc.meshes == old(doc.meshes) + [NodeMesh(nd, AsOutline(p.exportOutline, nd), old(|doc.accessors|), p.mtlSize)]
    ensures Placed(old(doc.State()).(meshes := doc.meshes), doc.State(), old(|doc.meshes|), PlacedCount(p.trans))
    ensures old(Within(doc.State(), buffer.byteLength) && 0 <= buffer.byteLength) ==> Within(doc.State(), buffer.byteLength)
    ensures buffer.data == old(buffer.data) + NodeAllBytes(nd, p)
    ensures buffer.byteLength == old(buffer.byteLength) + |NodeAllBytes(nd, p)|
    ensures ctx.mtlSize == p.mtlSize
  {
    ghost var d0 := buffer.data;
    var l := |doc.meshes|;
    var outline := p.exportOutline && |nd.edgeGroup| > 0;
    BuildNodeMesh(doc, buffer, ctx, nd, outline, p.value);
    PlaceMesh(doc, buffer, l, p.trans, p.gpu, p.decompose);
    Regroup2(d0, NodeBytes(nd, outline), PlaceBytes(p.trans, p.gpu, p.decompose));
  }

  // ----- buildGltf -----

  /**
   * After turn `i` of `buildGltf`'s node loop, from the document `s0` and
   * the buffer bytes `data0`: what was built, the materials untouched, and
   * the bytes of the first `i` nodes appended.
   */
  ghost predicate NodesDone(s0: DocState, data0: seq<Byte>, nds: seq<MeshNode>, i: nat, p: BuildParams, t: DocState, data: seq<Byte>)
    requires i <= |nds|
  {
    && Built(s0, t, i, Placements(|s0.meshes|, i, PlacedCount(p.trans)))
    && t.materials == s0.materials
    && data == data0 + NodesBytes(nds, i, p)
  }

  /** Turn `i` of `buildGltf`'s node loop. */
  method BuildNext(doc: Document, buffer: Buffer, ctx: BuildContext, nds: seq<MeshNode>, i: nat, p: BuildParams,
                   ghost s0: DocState, ghost data0: seq<Byte>)
    requires |doc.buffers| > 0 && doc.buffers[0] == buffer && i < |nds| && ctx.mtlSize == p.mtlSize
    requires NodesDone(s0, data0, nds, i, p, doc.State(), buffer.data)
    modifies doc, buffer, ctx
    ensures NodesDone(s0, data0, nds, i + 1, p, doc.State(), buffer.data)
    ensures old(Within(doc.State(), buffer.byteLength) && 0 <= buffer.byteLength) ==> Within(doc.State(), buffer.byteLength)
    ensures buffer.byteLength == old(buffer.byteLength) + |NodeAllBytes(nds[i], p)|
    ensures ctx.mtlSize == p.mtlSize
  {
    ghost var t := doc.State();
    BuildNode(doc, buffer, ctx, nds[i], p);
    BuiltStep(s0, t, doc.State(), i, Placements(|s0.meshes|, i, PlacedCount(p.trans)), doc.meshes[|t.meshes|], PlacedCount(p.trans));
    Regroup2(data0, NodesBytes(nds, i, p), NodeAllBytes(nds[i], p));
  }

  /**
   * `buildGltf`'s node loop: one glTF mesh per node, in order, each placed
   * `PlacedCount` times; scene 0 lists the new nodes in order, and node `j`
   * of those placing node `k`'s mesh shows mesh `k` (`PlacementsAt`); the
   * buffer gets each node's bytes in order, and a well-formed document
   * stays well formed.
   */
  method BuildNodes(doc: Document, buffer: Buffer, nds: seq<MeshNode>, p: BuildParams)
    requires |doc.buffers| > 0 && doc.buffers[0] == buffer && |doc.scenes| > 0
    modifies doc, buffer
    ensures Built(old(doc.State()), doc.State(), |nds|, Placements(old(|doc.meshes|), |nds|, PlacedCount(p.trans)))
    ensures doc.materials == old(doc.materials)
    ensures old(Within(doc.State(), buffer.byteLength) && 0 <= buffer.byteLength) ==> Within(doc.State(), buffer.byteLength)
    ensures buffer.data == old(buffer.data) + NodesBytes(nds, |nds|, p)
    ensures buffer.byteLength == old(buffer.byteLength) + |NodesBytes(nds, |nds|, p)|
  {
    ghost var s0, len0, data0 := doc.State(), buffer.byteLength, buffer.data;
    var ctx := new BuildContext(p.mtlSize);
    assert s0.scenes[0].nodes + Range(|s0.nodes|, 0) == s0.scenes[0].nodes;
    for i := 0 to |nds|
      invariant NodesDone(s0, data0, nds, i, p, doc.State(), buffer.data)
      invariant Within(s0, len0) && 0 <= len0 ==> Within(doc.State(), buffer.byteLength)
      invariant buffer.byteLength == len0 + |NodesBytes(nds, i, p)|
      invariant ctx.mtlSize == p.mtlSize
    {
      BuildNext(doc, buffer, ctx, nds, i, p, s0, data0);
    }
  }

  /**
   * `buildGltf`: one glTF mesh per node of `mh`, placed as the transforms
   * say, then `fillMaterials`. A material whose texture does not load makes
   * it answer `false`; the meshes and nodes stay built.
   */
  method BuildGltfBase(doc: Document, mh: BaseMesh, trans: Option<seq<Mat4>>, exportOutline: bool, gpu: bool,
                       value: F32 -> real, value32: F32 -> real, decompose: Mat4 -> Trs, png: Texture -> Option<seq<Byte>>)
    returns (ok: bool, ghost texIds: map<int, int>)
    requires |doc.buffers| > 0 && |doc.scenes| > 0
    modifies doc, doc.buffers[0]
    ensures Built(old(doc.State()), doc.State(), |mh.nodes|, Placements(old(|doc.meshes|), |mh.nodes|, PlacedCount(trans)))
    ensures var p := BuildParams(trans, exportOutline, gpu, old(|doc.materials|), value, decompose);
            old(doc.buffers[0].data) + NodesBytes(mh.nodes, |mh.nodes|, p) <= doc.buffers[0].data
    ensures old(doc.Valid()) ==> doc.Valid()
    ensures !ok ==> exists k :: 0 <= k < |mh.materials| && LoadFails(mh.materials[k], png)
    ensures ok ==> |doc.materials| == old(|doc.materials|) + |mh.materials| && doc.materials[..old(|doc.materials|)] == old(doc.materials)
    ensures ok ==> forall k :: 0 <= k < |mh.materials| ==> FilledWith(doc.materials, old(|doc.materials|), mh.materials, k, texIds, value32)
  {
    var p := BuildParams(trans, exportOutline, gpu, |doc.materials|, value, decompose);
    var buffer := doc.buffers[0];
    BuildNodes(doc, buffer, mh.nodes, p);
    ok, texIds := FillMaterials(doc, mh.materials, value32, png);
  }
}
