/**
 * What keeps a document built by mst/gltf.go well formed: every view a
 * node adds lies in the bytes it appends, every accessor names one of the
 * views, every primitive names some of the accessors, and every node and
 * scene entry names an existing mesh and node.
 */
module GltfBounds {
  import opened Wrappers
  import opened LittleEndian
  import opened MstTypes
  import opened GltfDoc
  import opened GltfBuffers
  import opened GltfMeshes
  import opened GltfInstance
  import opened GltfNodes

  /** The views of a write of blocks lie, back to back, in the bytes written after `start`. */
  lemma {:induction false} ViewsOfWithin(bs: seq<seq<Byte>>, start: int)
    requires 0 <= start
    ensures ViewsWithin(ViewsOf(bs, start), start + |Concat(bs)|)
    decreases |bs|
  {
    if bs != [] {
      var init := bs[..|bs| - 1];
      ViewsOfWithin(init, start);
      assert |Concat(bs)| == |Concat(init)| + |bs[|bs| - 1]|;
    }
  }

  /** A node's views lie in the buffer once its bytes are appended. */
  lemma NodeViewsWithin(nd: MeshNode, outline: bool, len: int)
    requires 0 <= len
    ensures ViewsWithin(NodeViews(nd, outline, len), len + |NodeBytes(nd, outline)|)
  {
    if !outline {
      ViewsOfWithin(MeshBlocks(nd), len);
    }
  }

  /** The number of views a node adds. */
  function NodeViewCount(nd: MeshNode, outline: bool): nat {
    if outline then 2 else 2 + (if |nd.texCoords| > 0 then 1 else 0) + (if |nd.normals| > 0 then 1 else 0)
  }

  /** A node adds as many views as it writes blocks. */
  lemma NodeViewsCount(nd: MeshNode, outline: bool, len: int)
    ensures |NodeViews(nd, outline, len)| == NodeViewCount(nd, outline)
  {
    if !outline {
      MeshBlocksLayout(nd);
    }
  }

  /** Every index accessor of a node's face groups is on view `bv`. */
  lemma {:induction false} FaceIndexViews(gs: seq<MeshTriangle>, bv: int)
    ensures forall a <- FaceIndexAccessors(gs, bv) :: a.bufferView == ViewIndex(bv)
    decreases |gs|
  {
    if gs != [] {
      FaceIndexViews(gs[..|gs| - 1], bv);
    }
  }

  /** Every index accessor of a node's edge groups is on view `bv`. */
  lemma {:induction false} EdgeIndexViews(es: seq<MeshOutline>, bv: int)
    ensures forall a <- EdgeIndexAccessors(es, bv) :: a.bufferView == ViewIndex(bv)
    decreases |es|
  {
    if es != [] {
      EdgeIndexViews(es[..|es| - 1], bv);
    }
  }

  /** A node's accessors name the views it adds after the `bv` there were. */
  lemma NodeAccessorsWithin(nd: MeshNode, outline: bool, bv: int, value: F32 -> real)
    requires 0 <= bv
    ensures AccessorsWithin(NodeAccessors(nd, outline, bv, value), bv + NodeViewCount(nd, outline))
  {
    if outline {
      EdgeIndexViews(nd.edgeGroup, bv);
    } else {
      FaceIndexViews(nd.faceGroup, bv);
    }
  }

  /** Triangle primitive k uses index accessor `idx + k` and the node's attributes. */
  lemma {:induction false} TrianglesShape(gs: seq<MeshTriangle>, idx: int, mtlSize: int, attrs: map<string, int>)
    ensures forall p <- TrianglePrimitives(gs, idx, mtlSize, attrs) :: idx <= p.indices < idx + |gs| && p.attributes == attrs
    decreases |gs|
  {
    if gs != [] {
      TrianglesShape(gs[..|gs| - 1], idx, mtlSize, attrs);
    }
  }

  /** Outline primitive k uses index accessor `idx + k` and reads positions from `pos`. */
  lemma {:induction false} OutlinesShape(es: seq<MeshOutline>, idx: int, mtlSize: int, pos: int)
    ensures forall p <- OutlinePrimitives(es, idx, mtlSize, pos) :: idx <= p.indices < idx + |es| && p.attributes == map[Position := pos]
    decreases |es|
  {
    if es != [] {
      OutlinesShape(es[..|es| - 1], idx, mtlSize, pos);
    }
  }

  /** The primitives of a node's mesh name the accessors it adds after the `idx` there were. */
  lemma NodeMeshWithin(nd: MeshNode, outline: bool, idx: int, mtlSize: int, bv: int, value: F32 -> real)
    requires 0 <= idx
    ensures forall p <- NodeMesh(nd, outline, idx, mtlSize).primitives :: PrimitiveWithin(p, idx + |NodeAccessors(nd, outline, bv, value)|)
  {
    var n := idx + |NodeAccessors(nd, outline, bv, value)|;
    if outline {
      OutlinesShape(nd.edgeGroup, idx, mtlSize, idx + |nd.edgeGroup|);
      forall p <- NodeMesh(nd, outline, idx, mtlSize).primitives
        ensures PrimitiveWithin(p, n)
      {
        assert forall k <- p.attributes :: p.attributes[k] == idx + |nd.edgeGroup|;
      }
    } else {
      var attrs := NodeAttributes(nd, idx);
      TrianglesShape(nd.faceGroup, idx, mtlSize, attrs);
      assert forall k <- attrs :: idx <= attrs[k] < n;
    }
  }

  /** Building a node's views, accessors and mesh keeps a well-formed document well formed in the grown buffer. */
  lemma NodeMeshStateWithin(s: DocState, len: int, nd: MeshNode, outline: bool, mtlSize: int, value: F32 -> real)
    requires Within(s, len) && 0 <= len
    ensures Within(NodeMeshState(s, len, nd, outline, mtlSize, value), len + |NodeBytes(nd, outline)|)
  {
    var s' := NodeMeshState(s, len, nd, outline, mtlSize, value);
    var len' := len + |NodeBytes(nd, outline)|;
    var accs := NodeAccessors(nd, outline, |s.bufferViews|, value);
    NodeViewsWithin(nd, outline, len);
    NodeViewsCount(nd, outline, len);
    NodeAccessorsWithin(nd, outline, |s.bufferViews|, value);
    NodeMeshWithin(nd, outline, |s.accessors|, mtlSize, |s.bufferViews|, value);
    assert ViewsWithin(s'.bufferViews, len') by {
      forall v <- s'.bufferViews
        ensures v.buffer == 0 && 0 <= v.byteOffset && 0 <= v.byteLength && v.byteOffset + v.byteLength <= len'
      {
        if v in s.bufferViews {
        } else {
          assert v in NodeViews(nd, outline, len);
        }
      }
    }
    assert AccessorsWithin(s'.accessors, |s'.bufferViews|) by {
      forall a <- s'.accessors | a.bufferView.ViewIndex?
        ensures 0 <= a.bufferView.index < |s'.bufferViews|
      {
        if a in s.accessors {
        } else {
          assert a in accs;
        }
      }
    }
    assert MeshesWithin(s'.meshes, |s'.accessors|) by {
      forall m <- s'.meshes, p <- m.primitives
        ensures PrimitiveWithin(p, |s'.accessors|)
      {
        if m in s.meshes {
          assert PrimitiveWithin(p, |s.accessors|);
        }
      }
    }
    assert NodesWithin(s'.nodes, |s'.meshes|, |s'.accessors|) by {
      forall nd' <- s'.nodes
        ensures 0 <= nd'.mesh < |s'.meshes| && (nd'.instancing.Some? ==> InstancingIn(nd'.instancing.value, |s'.accessors|))
      {
      }
    }
    assert ImagesWithin(s'.images, |s'.bufferViews|) by {
      forall i <- s'.images
        ensures 0 <= i.bufferView < |s'.bufferViews|
      {
      }
    }
  }

  /** Every node placed without instancing shows mesh `l` and has no instancing extension. */
  lemma {:induction false} TransformNodesShape(ms: seq<Mat4>, l: int, decompose: Mat4 -> Trs)
    ensures forall nd <- TransformNodes(ms, l, decompose) :: nd.mesh == l && nd.instancing == None
    decreases |ms|
  {
    if ms != [] {
      TransformNodesShape(ms[..|ms| - 1], l, decompose);
    }
  }

  /** Placing an existing mesh keeps a well-formed document well formed in the grown buffer. */
  lemma PlaceStateWithin(s: DocState, len: int, l: int, trans: Option<seq<Mat4>>, gpu: bool, decompose: Mat4 -> Trs)
    requires Within(s, len) && 0 <= len && 0 <= l < |s.meshes|
    ensures Within(PlaceState(s, len, l, trans, gpu, decompose), len + |PlaceBytes(trans, gpu, decompose)|)
  {
    if trans.Some? && gpu {
      InstanceWithin(s, len, l, |trans.value|);
    } else {
      var s' := PlaceState(s, len, l, trans, gpu, decompose);
      var added := if trans.None? then [|s.nodes|] else Range(|s.nodes|, |trans.value|);
      if trans.Some? {
        TransformNodesShape(trans.value, l, decompose);
        RangeWithin(|s.nodes|, |trans.value|);
      }
      assert s'.scenes[0].nodes == s.scenes[0].nodes + added;
      assert forall i <- added :: |s.nodes| <= i < |s'.nodes|;
      assert NodesWithin(s'.nodes, |s'.meshes|, |s'.accessors|) by {
        forall nd <- s'.nodes
          ensures 0 <= nd.mesh < |s'.meshes| && (nd.instancing.Some? ==> InstancingIn(nd.instancing.value, |s'.accessors|))
        {
        }
      }
      assert ScenesWithin(s'.scenes, |s'.nodes|) by {
        forall sc <- s'.scenes, i <- sc.nodes
          ensures 0 <= i < |s'.nodes|
        {
          if sc != s'.scenes[0] {
            var k :| 0 <= k < |s'.scenes| && s'.scenes[k] == sc;
            assert sc == s.scenes[k];
          } else if i !in s.scenes[0].nodes {
            assert i in added;
          }
        }
      }
    }
  }
}
