/**
 * GPU instancing in mst/gltf.go (`buildInstance`): every transform of an
 * instanced mesh becomes a node of the mesh with the
 * `EXT_mesh_gpu_instancing` extension, whose translation, scale and
 * rotation accessors read 40 bytes of float32 from one shared view.
 *
 * `mat4.Decompose` and the float32 rounding of its results are foreign
 * code: `decompose` gives the rounded translation, rotation and scale.
 */
module GltfInstance {
  import opened Wrappers
  import opened LittleEndian
  import opened MstTypes
  import opened MstFormat
  import opened GltfDoc
  import opened GltfLayout

  /** The 40 bytes of one instance: its translation, scale and rotation as little-endian float32, in that order. */
  function TransformBytes(t: Trs): (b: seq<Byte>)
    ensures |b| == 40
  {
    EncodeAllLength(t.translation, LeU32, 4);
    EncodeAllLength(t.scale, LeU32, 4);
    EncodeAllLength(t.rotation, LeU32, 4);
    EncodeVec3F(t.translation) + EncodeVec3F(t.scale) + EncodeU32s(t.rotation)
  }

  /** What `buildInstance` writes for the transforms: 40 bytes each, in order. */
  function InstanceBytes(ms: seq<Mat4>, decompose: Mat4 -> Trs): (b: seq<Byte>)
    ensures |b| == 40 * |ms|
  {
    if ms == [] then [] else InstanceBytes(ms[..|ms| - 1], decompose) + TransformBytes(decompose(ms[|ms| - 1]))
  }

  /** The accessors of instance i in view `bv`: translation at byte 40i, scale 12 bytes on, rotation 12 more on. */
  function TransformAccessors(i: int, bv: int): seq<Accessor> {
    [Accessor(ViewIndex(bv), 40 * i, ComponentFloat, AccessorVec3, 1, [], []),
     Accessor(ViewIndex(bv), 40 * i + 12, ComponentFloat, AccessorVec3, 1, [], []),
     Accessor(ViewIndex(bv), 40 * i + 24, ComponentFloat, AccessorVec4, 1, [], [])]
  }

  /** The accessors of `n` instances, three per instance. */
  function InstanceAccessors(n: nat, bv: int): (r: seq<Accessor>)
    ensures |r| == 3 * n
  {
    if n == 0 then [] else InstanceAccessors(n - 1, bv) + TransformAccessors(n - 1, bv)
  }

  /** An instance node of mesh `l` whose extension names accessors `acc`, `acc + 1` and `acc + 2`. */
  function InstanceNode(l: int, acc: int): Node {
    Node(l, None, Some(Instancing(acc, acc + 1, acc + 2)))
  }

  /** The nodes of `n` instances of mesh `l`, the accessors of instance i starting at `acc + 3i`. */
  function InstanceNodes(n: nat, l: int, acc: int): (r: seq<Node>)
    ensures |r| == n
  {
    if n == 0 then [] else InstanceNodes(n - 1, l, acc) + [InstanceNode(l, acc + 3 * (n - 1))]
  }

  /** The indices `from`, `from + 1`, ..., `from + n - 1`. */
  function Range(from: int, n: nat): (r: seq<int>)
    ensures |r| == n
  {
    if n == 0 then [] else Range(from, n - 1) + [from + n - 1]
  }

  /** Element k of a range is `from + k`. */
  lemma {:induction false} RangeAt(from: int, n: nat, k: nat)
    requires k < n
    ensures Range(from, n)[k] == from + k
  {
    if k < n - 1 {
      RangeAt(from, n - 1, k);
    }
  }

  /** A range followed by the range that goes on from its end is one longer range. */
  lemma {:induction false} RangeAppend(from: int, n: nat, m: nat)
    ensures Range(from, n) + Range(from + n, m) == Range(from, n + m)
  {
    if m > 0 {
      RangeAppend(from, n, m - 1);
    }
  }

  /** The document after `buildInstance` of `n` transforms of mesh `l`, the buffer holding `len` bytes before. */
  function InstanceState(s: DocState, len: int, l: int, n: nat): DocState
    requires |s.scenes| > 0
  {
    s.(bufferViews := s.bufferViews + [BufferView(0, len, 40 * n)],
       accessors := s.accessors + InstanceAccessors(n, |s.bufferViews|),
       nodes := s.nodes + InstanceNodes(n, l, |s.accessors|),
       scenes := s.scenes[0 := Scene(s.scenes[0].nodes + Range(|s.nodes|, n))])
  }

  /** The document after the first `i` steps of `buildInstance`'s loop, from `s` with `bv` views. */
  function InstancesSoFar(s: DocState, l: int, bv: int, i: nat): DocState
    requires |s.scenes| > 0
  {
    s.(accessors := s.accessors + InstanceAccessors(i, bv),
       nodes := s.nodes + InstanceNodes(i, l, |s.accessors|),
       scenes := s.scenes[0 := Scene(s.scenes[0].nodes + Range(|s.nodes|, i))])
  }

  /** One more step of the loop adds instance i's accessors, its node and its scene entry. */
  lemma InstanceStep(s: DocState, l: int, bv: int, i: nat)
    requires |s.scenes| > 0
    ensures var t := InstancesSoFar(s, l, bv, i);
            InstancesSoFar(s, l, bv, i + 1)
            == t.(accessors := t.accessors + TransformAccessors(i, bv),
                  nodes := t.nodes + [InstanceNode(l, |s.accessors| + 3 * i)],
                  scenes := t.scenes[0 := Scene(t.scenes[0].nodes + [|t.nodes|])])
  {
    var t := InstancesSoFar(s, l, bv, i);
    assert s.scenes[0].nodes + Range(|s.nodes|, i + 1) == t.scenes[0].nodes + [|t.nodes|];
  }

  /** After the loop, the view over the bytes of all `n` instances completes `buildInstance`. */
  lemma InstancesDone(s: DocState, len: int, l: int, n: nat)
    requires |s.scenes| > 0
    ensures var t := InstancesSoFar(s, l, |s.bufferViews|, n);
            t.(bufferViews := t.bufferViews + [BufferView(0, len, 40 * n)]) == InstanceState(s, len, l, n)
  {
  }

  /**
   * One step of `buildInstance`'s loop: the 40 bytes of instance i, its
   * translation, scale and rotation accessors on view `bv`, and its node,
   * listed in scene 0.
   */
  method AddInstance(doc: Document, l: int, i: int, bv: int, accInx: int, t: Trs) returns (bytes: seq<Byte>)
    requires |doc.scenes| > 0
    modifies doc
    ensures bytes == TransformBytes(t)
    ensures doc.State() == old(doc.State()).(accessors := old(doc.accessors) + TransformAccessors(i, bv),
                                             nodes := old(doc.nodes) + [InstanceNode(l, accInx)],
                                             scenes := old(doc.scenes)[0 := Scene(old(doc.scenes[0].nodes) + [old(|doc.nodes|)])])
  {
    bytes := EncodeVec3F(t.translation);
    bytes := bytes + EncodeVec3F(t.scale);
    bytes := bytes + EncodeU32s(t.rotation);
    var posAcc := Accessor(ViewIndex(bv), i * 40, ComponentFloat, AccessorVec3, 1, [], []);
    doc.accessors := doc.accessors + [posAcc];
    var sclAcc := Accessor(ViewIndex(bv), posAcc.byteOffset + 12, ComponentFloat, AccessorVec3, 1, [], []);
    doc.accessors := doc.accessors + [sclAcc];
    var rotAcc := Accessor(ViewIndex(bv), sclAcc.byteOffset + 12, ComponentFloat, AccessorVec4, 1, [], []);
    doc.accessors := doc.accessors + [rotAcc];
    doc.nodes := doc.nodes + [InstanceNode(l, accInx)];
    doc.scenes := doc.scenes[0 := Scene(doc.scenes[0].nodes + [|doc.nodes| - 1])];
  }

  /** `buildInstance`'s loop: the bytes, accessors, nodes and scene entries of every transform, on view `bv`. */
  method AddInstances(doc: Document, l: int, trans: seq<Mat4>, decompose: Mat4 -> Trs, bv: int) returns (buf: seq<Byte>)
    requires |doc.scenes| > 0
    modifies doc
    ensures |old(doc.scenes)| > 0 && doc.State() == InstancesSoFar(old(doc.State()), l, bv, |trans|)
    ensures buf == InstanceBytes(trans, decompose)
  {
    var accInx := |doc.accessors|;
    buf := [];
    ghost var s0 := doc.State();
    assert s0.scenes[0].nodes + Range(|s0.nodes|, 0) == s0.scenes[0].nodes;
    assert InstancesSoFar(s0, l, bv, 0) == s0;
    for i := 0 to |trans|
      invariant buf == InstanceBytes(trans[..i], decompose)
      invariant accInx == |s0.accessors| + 3 * i
      invariant doc.State() == InstancesSoFar(s0, l, bv, i)
    {
      var bytes := AddInstance(doc, l, i, bv, accInx, decompose(trans[i]));
      buf := buf + bytes;
      accInx := accInx + 3;
      InstanceStep(s0, l, bv, i);
      assert trans[..i + 1][..i] == trans[..i];
    }
    assert trans[..|trans|] == trans;
  }

  /**
   * `buildInstance`: for each transform, the 40 bytes of its decomposition,
   * three accessors on one new view and a node of mesh `l` listed in scene 0;
   * then the view over all the bytes, which go to the end of buffer 0.
   */
  method BuildInstance(doc: Document, l: int, trans: seq<Mat4>, decompose: Mat4 -> Trs)
    requires |doc.buffers| > 0 && |doc.scenes| > 0
    modifies doc, doc.buffers[0]
    ensures doc.State() == InstanceState(old(doc.State()), old(doc.buffers[0].byteLength), l, |trans|)
    ensures doc.buffers[0].data == old(doc.buffers[0].data) + InstanceBytes(trans, decompose)
    ensures doc.buffers[0].byteLength == old(doc.buffers[0].byteLength) + 40 * |trans|
  {
    var bvIdx := |doc.bufferViews|;
    var startByte := doc.buffers[0].byteLength;
    ghost var s0 := doc.State();
    var buf := AddInstances(doc, l, trans, decompose, bvIdx);
    var bv := BufferView(0, startByte, |buf|);
    InstancesDone(s0, startByte, l, |trans|);
    doc.bufferViews := doc.bufferViews + [bv];
    doc.buffers[0].Append(buf);
  }

  // ----- What the instances read -----

  /** Instance i's 40 bytes sit at byte 40i of what `buildInstance` writes. */
  lemma {:induction false} InstanceBytesAt(ms: seq<Mat4>, decompose: Mat4 -> Trs, i: nat)
    requires i < |ms|
    ensures InstanceBytes(ms, decompose)[40 * i..40 * i + 40] == TransformBytes(decompose(ms[i]))
  {
    var init := ms[..|ms| - 1];
    if i < |init| {
      InstanceBytesAt(init, decompose, i);
      assert init[i] == ms[i];
      assert InstanceBytes(ms, decompose)[..40 * |init|] == InstanceBytes(init, decompose);
    }
  }

  /** Accessor 3i + j of the instances is accessor j of instance i. */
  lemma {:induction false} InstanceAccessorAt(n: nat, bv: int, i: nat, j: nat)
    requires i < n && j < 3
    ensures InstanceAccessors(n, bv)[3 * i + j] == TransformAccessors(i, bv)[j]
  {
    if i < n - 1 {
      InstanceAccessorAt(n - 1, bv, i, j);
    }
  }

  /** Node i of the instances names accessors `acc + 3i`, `acc + 3i + 1` and `acc + 3i + 2`. */
  lemma {:induction false} InstanceNodeAt(n: nat, l: int, acc: int, i: nat)
    requires i < n
    ensures InstanceNodes(n, l, acc)[i] == InstanceNode(l, acc + 3 * i)
  {
    if i < n - 1 {
      InstanceNodeAt(n - 1, l, acc, i);
    }
  }

  /**
   * An accessor on the view appended over bytes `all`, written after `pre`,
   * whose elements are bytes `off` to `off + len` of a block at byte `base`
   * of `all`, reads them.
   */
  lemma ReadInBlock(a: Accessor, views0: seq<BufferView>, pre: seq<Byte>, all: seq<Byte>, base: nat, block: seq<Byte>, off: nat, len: nat)
    requires a.bufferView == ViewIndex(|views0|) && a.byteOffset == base + off && AccessorLength(a) == len && 0 <= a.count
    requires off + len <= |block| && base + |block| <= |all| && all[base..base + |block|] == block
    ensures ReadAccessor(a, views0 + [BufferView(0, |pre|, |all|)], pre + all) == Some(block[off..off + len])
  {
    var views, data, v := views0 + [BufferView(0, |pre|, |all|)], pre + all, BufferView(0, |pre|, |all|);
    assert views[|views0|] == v;
    assert data[|pre|..|pre| + |all|] == all;
    SliceOfSlice(data, |pre|, |pre| + |all|, all, base, |block|);
    SliceOfSlice(data, |pre| + base, |pre| + base + |block|, block, off, len);
    ReadInView(a, views, data, v, base + off, len);
  }

  /** Accessor j of an instance starts 12j bytes into the instance's 40 and takes 12 bytes, 16 for the rotation. */
  lemma TransformAccessorShape(i: int, bv: int, j: nat)
    requires j < 3
    ensures var a := TransformAccessors(i, bv)[j];
            a.bufferView == ViewIndex(bv) && a.byteOffset == 40 * i + 12 * j && a.count == 1
            && AccessorLength(a) == (if j == 2 then 16 else 12)
  {
  }

  /** Where translation, scale and rotation lie in an instance's 40 bytes. */
  lemma TransformFields(t: Trs)
    ensures var b := TransformBytes(t);
            b[0..12] == EncodeVec3F(t.translation) && b[12..24] == EncodeVec3F(t.scale) && b[24..40] == EncodeU32s(t.rotation)
  {
    EncodeAllLength(t.translation, LeU32, 4);
    EncodeAllLength(t.scale, LeU32, 4);
    EncodeAllLength(t.rotation, LeU32, 4);
  }

  /** Accessor j of instance i reads bytes `off` to `off + len` of the instance's 40 bytes. */
  lemma InstanceFieldRead(ms: seq<Mat4>, decompose: Mat4 -> Trs, pre: seq<Byte>, views0: seq<BufferView>, i: nat, j: nat, off: nat, len: nat)
    requires i < |ms| && j < 3 && off == 12 * j && len == (if j == 2 then 16 else 12)
    ensures ReadAccessor(InstanceAccessors(|ms|, |views0|)[3 * i + j], views0 + [BufferView(0, |pre|, 40 * |ms|)], pre + InstanceBytes(ms, decompose))
            == Some(TransformBytes(decompose(ms[i]))[off..off + len])
  {
    var all, b := InstanceBytes(ms, decompose), TransformBytes(decompose(ms[i]));
    var a := TransformAccessors(i, |views0|)[j];
    assert InstanceAccessors(|ms|, |views0|)[3 * i + j] == a by {
      InstanceAccessorAt(|ms|, |views0|, i, j);
    }
    assert all[40 * i..40 * i + |b|] == b by {
      InstanceBytesAt(ms, decompose, i);
    }
    TransformAccessorShape(i, |views0|, j);
    ReadInBlock(a, views0, pre, all, 40 * i, b, off, len);
  }

  /**
   * Read back through the view `buildInstance` records, instance i's three
   * accessors give its translation, scale and rotation as float32, and its
   * node names those three accessors.
   */
  lemma InstanceRead(ms: seq<Mat4>, decompose: Mat4 -> Trs, pre: seq<Byte>, views0: seq<BufferView>, l: int, acc: int, i: nat)
    requires i < |ms|
    ensures var accs, views, data := InstanceAccessors(|ms|, |views0|), views0 + [BufferView(0, |pre|, 40 * |ms|)], pre + InstanceBytes(ms, decompose);
            var t := decompose(ms[i]);
            && ReadAccessor(accs[3 * i], views, data) == Some(EncodeVec3F(t.translation))
            && ReadAccessor(accs[3 * i + 1], views, data) == Some(EncodeVec3F(t.scale))
            && ReadAccessor(accs[3 * i + 2], views, data) == Some(EncodeU32s(t.rotation))
            && InstanceNodes(|ms|, l, acc)[i].instancing == Some(Instancing(acc + 3 * i, acc + 3 * i + 1, acc + 3 * i + 2))
  {
    TransformFields(decompose(ms[i]));
    InstanceFieldRead(ms, decompose, pre, views0, i, 0, 0, 12);
    InstanceFieldRead(ms, decompose, pre, views0, i, 1, 12, 12);
    InstanceFieldRead(ms, decompose, pre, views0, i, 2, 24, 16);
    InstanceNodeAt(|ms|, l, acc, i);
  }

  // ----- The document stays within its buffer -----

  /** Every instance accessor is on view `bv`. */
  lemma {:induction false} InstanceAccessorViews(n: nat, bv: int)
    ensures forall a <- InstanceAccessors(n, bv) :: a.bufferView == ViewIndex(bv)
  {
    if n > 0 {
      InstanceAccessorViews(n - 1, bv);
    }
  }

  /** Every instance node shows mesh `l` and names accessors below `acc + 3n`. */
  lemma {:induction false} InstanceNodesWithin(n: nat, l: int, acc: int)
    requires 0 <= acc
    ensures forall nd <- InstanceNodes(n, l, acc) :: nd.mesh == l && nd.instancing.Some? && InstancingIn(nd.instancing.value, acc + 3 * n)
  {
    if n > 0 {
      InstanceNodesWithin(n - 1, l, acc);
    }
  }

  /** Every index of a range lies between its ends. */
  lemma {:induction false} RangeWithin(from: int, n: nat)
    ensures forall i <- Range(from, n) :: from <= i < from + n
  {
    if n > 0 {
      RangeWithin(from, n - 1);
    }
  }

  /** `buildInstance` of an existing mesh keeps a document whose buffer held `len` bytes within its grown buffer. */
  lemma InstanceWithin(s: DocState, len: int, l: int, n: nat)
    requires Within(s, len) && 0 <= len && 0 <= l < |s.meshes|
    ensures Within(InstanceState(s, len, l, n), len + 40 * n)
  {
    var s' := InstanceState(s, len, l, n);
    InstanceAccessorViews(n, |s.bufferViews|);
    InstanceNodesWithin(n, l, |s.accessors|);
    RangeWithin(|s.nodes|, n);
    assert ViewsWithin(s'.bufferViews, len + 40 * n);
    assert AccessorsWithin(s'.accessors, |s'.bufferViews|);
    assert MeshesWithin(s'.meshes, |s'.accessors|) by {
      forall m <- s'.meshes, p <- m.primitives
        ensures PrimitiveWithin(p, |s'.accessors|)
      {
        assert PrimitiveWithin(p, |s.accessors|);
      }
    }
    assert NodesWithin(s'.nodes, |s'.meshes|, |s'.accessors|) by {
      forall nd <- s'.nodes
        ensures 0 <= nd.mesh < |s'.meshes| && (nd.instancing.Some? ==> InstancingIn(nd.instancing.value, |s'.accessors|))
      {
      }
    }
    assert ScenesWithin(s'.scenes, |s'.nodes|) by {
      forall sc <- s'.scenes, i <- sc.nodes
        ensures 0 <= i < |s'.nodes|
      {
        if sc != s'.scenes[0] {
          var k :| 0 <= k < |s'.scenes| && s'.scenes[k] == sc;
          assert sc == s.scenes[k];
        } else if i !in s.scenes[0].nodes {
          assert i in Range(|s.nodes|, n);
        }
      }
    }
  }
}
