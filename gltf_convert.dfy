/**
 * The conversion entry points of mst/gltf.go: `BuildGltf` builds a mesh and
 * then each of its instances into a document; `MstToGltf` and
 * `MstToGltfWithOutline` do that for a list of meshes in a fresh document.
 */
module GltfConvert {
  import opened Wrappers
  import opened LittleEndian
  import opened MstTypes
  import opened GltfDoc
  import opened GltfMaterials
  import opened GltfInstance
  import opened GltfNodes
  import opened GltfBuild

  /** The glTF meshes the instances of a mesh add: one per node of each instance's mesh. */
  function InstanceMeshCount(insts: seq<InstanceMesh>): nat {
    if insts == [] then 0 else InstanceMeshCount(insts[..|insts| - 1]) + |insts[|insts| - 1].mesh.nodes|
  }

  /** The glTF nodes the instances of a mesh add: each node of an instance's mesh once per transform. */
  function InstanceNodeCount(insts: seq<InstanceMesh>): nat {
    if insts == [] then 0
    else InstanceNodeCount(insts[..|insts| - 1]) + |Placements(0, |insts[|insts| - 1].mesh.nodes|, |insts[|insts| - 1].transfors|)|
  }

  /** Without transforms, node `k` of a base mesh shows mesh `first + k`. */
  lemma {:induction false} PlacedOnce(first: int, n: nat)
    ensures |Placements(first, n, 1)| == n
    ensures forall k :: 0 <= k < n ==> Placements(first, n, 1)[k] == first + k
  {
    if n > 0 {
      PlacedOnce(first, n - 1);
    }
  }

  /** Where an instance is placed, the count of its meshes does not depend on which mesh ids they show. */
  lemma {:induction false} PlacementsCount(first: int, first': int, n: nat, c: nat)
    ensures |Placements(first, n, c)| == |Placements(first', n, c)|
  {
    if n > 0 {
      PlacementsCount(first, first', n - 1, c);
    }
  }

  /**
   * `t` with buffer bytes `data` extends `s0` with bytes `data0`: same
   * buffers and number of scenes, `m` more meshes and `n` more nodes after
   * the old ones, scene 0 and the bytes only grown.
   */
  ghost predicate Extends(s0: DocState, data0: seq<Byte>, t: DocState, data: seq<Byte>, m: nat, n: nat) {
    && t.buffers == s0.buffers && |t.scenes| == |s0.scenes|
    && |t.meshes| == |s0.meshes| + m && t.meshes[..|s0.meshes|] == s0.meshes
    && |t.nodes| == |s0.nodes| + n && t.nodes[..|s0.nodes|] == s0.nodes
    && (|s0.scenes| > 0 ==> s0.scenes[0].nodes <= t.scenes[0].nodes)
    && data0 <= data
  }

  /** One turn of the instance loop of `BuildGltf`: instance i's mesh, with its transforms and no outlines. */
  method BuildInstanceNext(doc: Document, insts: seq<InstanceMesh>, i: nat, gpu: bool, value: F32 -> real, value32: F32 -> real,
                           decompose: Mat4 -> Trs, png: Texture -> Option<seq<Byte>>, ghost s0: DocState, ghost data0: seq<Byte>)
    requires |doc.buffers| > 0 && |doc.scenes| > 0 && i < |insts|
    requires Extends(s0, data0, doc.State(), doc.buffers[0].data, InstanceMeshCount(insts[..i]), InstanceNodeCount(insts[..i]))
    modifies doc, doc.buffers[0]
    ensures |doc.buffers| > 0 && doc.buffers[0] == old(doc.buffers[0]) && |doc.scenes| > 0
    ensures Extends(s0, data0, doc.State(), doc.buffers[0].data, InstanceMeshCount(insts[..i + 1]), InstanceNodeCount(insts[..i + 1]))
    ensures old(doc.Valid()) ==> doc.Valid()
  {
    var inst := insts[i];
    ghost var t := doc.State();
    var built;
    ghost var ids;
    built, ids := BuildGltfBase(doc, inst.mesh, Some(inst.transfors), false, gpu, value, value32, decompose, png);
    PlacementsCount(|t.meshes|, 0, |inst.mesh.nodes|, |inst.transfors|);
    assert insts[..i + 1][..i] == insts[..i];
    assert doc.nodes[..|s0.nodes|] == s0.nodes by {
      assert doc.nodes[..|t.nodes|] == t.nodes;
    }
    assert doc.meshes[..|s0.meshes|] == s0.meshes by {
      assert doc.meshes[..|t.meshes|] == t.meshes;
    }
  }

  /**
   * The instance loop of `BuildGltf`: each instance's mesh is built with its
   * transforms and no outlines, and an instance whose materials fail is
   * passed over. What was in the document stays, in front.
   */
  method BuildInstances(doc: Document, insts: seq<InstanceMesh>, gpu: bool, value: F32 -> real, value32: F32 -> real,
                        decompose: Mat4 -> Trs, png: Texture -> Option<seq<Byte>>)
    requires |doc.buffers| > 0 && |doc.scenes| > 0
    modifies doc, doc.buffers[0]
    ensures doc.buffers == old(doc.buffers) && |doc.scenes| == old(|doc.scenes|)
    ensures old(doc.Valid()) ==> doc.Valid()
    ensures |doc.meshes| == old(|doc.meshes|) + InstanceMeshCount(insts) && doc.meshes[..old(|doc.meshes|)] == old(doc.meshes)
    ensures |doc.nodes| == old(|doc.nodes|) + InstanceNodeCount(insts) && doc.nodes[..old(|doc.nodes|)] == old(doc.nodes)
    ensures old(doc.scenes[0].nodes) <= doc.scenes[0].nodes
    ensures old(doc.buffers[0].data) <= doc.buffers[0].data
  {
    ghost var s0, data0 := doc.State(), doc.buffers[0].data;
    assert Extends(s0, data0, s0, data0, 0, 0) by {
      assert s0.meshes[..|s0.meshes|] == s0.meshes && s0.nodes[..|s0.nodes|] == s0.nodes;
    }
    for i := 0 to |insts|
      invariant |doc.buffers| > 0 && doc.buffers[0] == s0.buffers[0] && |doc.scenes| > 0
      invariant Extends(s0, data0, doc.State(), doc.buffers[0].data, InstanceMeshCount(insts[..i]), InstanceNodeCount(insts[..i]))
      invariant old(doc.Valid()) ==> doc.Valid()
    {
      BuildInstanceNext(doc, insts, i, gpu, value, value32, decompose, png, s0, data0);
    }
    assert insts[..|insts|] == insts;
  }

  /**
   * `BuildGltf`: the base mesh is built first, without transforms; when its
   * materials fail the call answers `false` at once. Then the instances are
   * built. Node `k` of the base mesh becomes mesh `len(Meshes) + k`, shown
   * by node `len(Nodes) + k`, which scene 0 lists next; the buffer starts
   * with the base mesh's bytes.
   */
  method BuildGltf(doc: Document, mh: Mesh, exportOutline: bool, gpu: bool, value: F32 -> real, value32: F32 -> real,
                   decompose: Mat4 -> Trs, png: Texture -> Option<seq<Byte>>)
    returns (ok: bool)
    requires |doc.buffers| > 0 && |doc.scenes| > 0
    modifies doc, doc.buffers[0]
    ensures doc.buffers == old(doc.buffers) && |doc.scenes| == old(|doc.scenes|)
    ensures old(doc.Valid()) ==> doc.Valid()
    ensures !ok ==> exists k :: 0 <= k < |mh.base.materials| && LoadFails(mh.base.materials[k], png)
    ensures var m0, n0 := old(|doc.meshes|), old(|doc.nodes|);
            && |doc.meshes| == m0 + NodeCount(mh) + (if ok then InstanceMeshCount(mh.instanceNode) else 0)
            && |doc.nodes| == n0 + NodeCount(mh) + (if ok then InstanceNodeCount(mh.instanceNode) else 0)
            && doc.meshes[..m0] == old(doc.meshes) && doc.nodes[..n0] == old(doc.nodes)
            && (forall x :: n0 <= x < n0 + |mh.base.nodes| ==> doc.nodes[x].mesh == m0 + (x - n0))
            && old(doc.scenes[0].nodes) + Range(n0, |mh.base.nodes|) <= doc.scenes[0].nodes
    ensures var p := BuildParams(None, exportOutline, gpu, old(|doc.materials|), value, decompose);
            old(doc.buffers[0].data) + NodesBytes(mh.base.nodes, |mh.base.nodes|, p) <= doc.buffers[0].data
  {
    ghost var m0, n0 := |doc.meshes|, |doc.nodes|;
    ghost var texIds;
    ok, texIds := BuildGltfBase(doc, mh.base, None, exportOutline, gpu, value, value32, decompose, png);
    PlacedOnce(m0, |mh.base.nodes|);
    if !ok {
      return;
    }
    ghost var s1 := doc.State();
    BuildInstances(doc, mh.instanceNode, gpu, value, value32, decompose, png);
    assert doc.nodes[..n0] == s1.nodes[..n0] && doc.meshes[..m0] == s1.meshes[..m0] by {
      assert doc.nodes[..|s1.nodes|] == s1.nodes;
      assert doc.meshes[..|s1.meshes|] == s1.meshes;
    }
    forall x | n0 <= x < n0 + |mh.base.nodes|
      ensures doc.nodes[x].mesh == m0 + (x - n0)
    {
      assert doc.nodes[x] == doc.nodes[..|s1.nodes|][x];
    }
  }

  /** The glTF meshes a list of meshes becomes: one per node of each mesh and of each of its instances. */
  function MeshTotal(msts: seq<Mesh>): nat {
    if msts == [] then 0
    else MeshTotal(msts[..|msts| - 1]) + NodeCount(msts[|msts| - 1]) + InstanceMeshCount(msts[|msts| - 1].instanceNode)
  }

  /** The glTF nodes a list of meshes becomes. */
  function NodeTotal(msts: seq<Mesh>): nat {
    if msts == [] then 0
    else NodeTotal(msts[..|msts| - 1]) + NodeCount(msts[|msts| - 1]) + InstanceNodeCount(msts[|msts| - 1].instanceNode)
  }

  /**
   * The loop shared by `MstToGltf` and `MstToGltfWithOutline`: a fresh
   * document, then `BuildGltf` on each mesh in turn with GPU instancing;
   * the first mesh whose materials fail gives `None`. Otherwise the document
   * is well formed and holds a glTF mesh for every node of every mesh and
   * instance.
   */
  method Convert(msts: seq<Mesh>, exportOutline: bool, value: F32 -> real, value32: F32 -> real,
                 decompose: Mat4 -> Trs, png: Texture -> Option<seq<Byte>>)
    returns (r: Option<Document>)
    ensures r.None? ==> exists i, k :: 0 <= i < |msts| && 0 <= k < |msts[i].base.materials| && LoadFails(msts[i].base.materials[k], png)
    ensures r.Some? ==> && fresh(r.value) && r.value.Valid()
                        && |r.value.meshes| == MeshTotal(msts) && |r.value.nodes| == NodeTotal(msts)
  {
    var doc := CreateDoc();
    ghost var buffers := doc.buffers;
    for i := 0 to |msts|
      invariant fresh(doc) && doc.buffers == buffers && fresh(buffers[0]) && doc.Valid()
      invariant |doc.meshes| == MeshTotal(msts[..i]) && |doc.nodes| == NodeTotal(msts[..i])
    {
      var ok := BuildGltf(doc, msts[i], exportOutline, true, value, value32, decompose, png);
      if !ok {
        return None;
      }
      assert msts[..i + 1][..i] == msts[..i];
    }
    assert msts[..|msts|] == msts;
    r := Some(doc);
  }

  /** `MstToGltf`: the meshes in a fresh document, without outlines. */
  method MstToGltf(msts: seq<Mesh>, value: F32 -> real, value32: F32 -> real, decompose: Mat4 -> Trs,
                   png: Texture -> Option<seq<Byte>>)
    returns (r: Option<Document>)
    ensures r.None? ==> exists i, k :: 0 <= i < |msts| && 0 <= k < |msts[i].base.materials| && LoadFails(msts[i].base.materials[k], png)
    ensures r.Some? ==> fresh(r.value) && r.value.Valid() && |r.value.meshes| == MeshTotal(msts) && |r.value.nodes| == NodeTotal(msts)
  {
    r := Convert(msts, false, value, value32, decompose, png);
  }

  /** `MstToGltfWithOutline`: the meshes in a fresh document, a node with edge groups as outlines. */
  method MstToGltfWithOutline(msts: seq<Mesh>, value: F32 -> real, value32: F32 -> real, decompose: Mat4 -> Trs,
                              png: Texture -> Option<seq<Byte>>)
    returns (r: Option<Document>)
    ensures r.None? ==> exists i, k :: 0 <= i < |msts| && 0 <= k < |msts[i].base.materials| && LoadFails(msts[i].base.materials[k], png)
    ensures r.Some? ==> fresh(r.value) && r.value.Valid() && |r.value.meshes| == MeshTotal(msts) && |r.value.nodes| == NodeTotal(msts)
  {
    r := Convert(msts, true, value, value32, decompose, png);
  }
}
