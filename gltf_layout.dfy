/**
 * What `buildMeshBuffer` and `buildMesh` together promise: read back
 * through the views and accessors they record, the buffer yields exactly
 * the node's data. Primitive k's index accessor reads the vertex indices of
 * face group k, and its position, uv and normal attributes read the node's
 * vertices, uvs and normals.
 */
module GltfLayout {
  import opened Wrappers
  import opened LittleEndian
  import opened MstTypes
  import opened MstGeometry
  import opened GltfDoc
  import opened GltfBuffers
  import opened GltfMeshes

  /**
   * An accessor on view j of a write of blocks, whose elements fit in the
   * block, reads that part of the block.
   */
  lemma ReadsBlock(bs: seq<seq<Byte>>, pre: seq<Byte>, views0: seq<BufferView>, j: nat, a: Accessor, off: nat, len: nat)
    requires j < |bs| && a.bufferView == ViewIndex(|views0| + j)
    requires a.byteOffset == off && AccessorLength(a) == len && 0 <= a.count && off + len <= |bs[j]|
    ensures ReadAccessor(a, views0 + ViewsOf(bs, |pre|), pre + Concat(bs)) == Some(bs[j][off..off + len])
  {
    var vs, data := ViewsOf(bs, |pre|), pre + Concat(bs);
    assert HeldAt(vs, data, j, bs[j]) by {
      ViewHoldsBlock(bs, pre, j);
    }
    ReadHeld(a, views0, vs, data, j, bs[j], off, len);
  }

  /** View j of `vs` lies in `data` and holds `block` there. */
  ghost predicate HeldAt(vs: seq<BufferView>, data: seq<Byte>, j: nat, block: seq<Byte>) {
    j < |vs| && 0 <= vs[j].byteOffset && 0 <= vs[j].byteLength && vs[j].byteOffset + vs[j].byteLength <= |data|
    && data[vs[j].byteOffset..vs[j].byteOffset + vs[j].byteLength] == block
  }

  /** An accessor on a view that holds a block reads the part of the block its elements cover. */
  lemma ReadHeld(a: Accessor, views0: seq<BufferView>, vs: seq<BufferView>, data: seq<Byte>, j: nat, block: seq<Byte>, off: nat, len: nat)
    requires HeldAt(vs, data, j, block) && a.bufferView == ViewIndex(|views0| + j)
    requires a.byteOffset == off && AccessorLength(a) == len && 0 <= a.count && off + len <= |block|
    ensures ReadAccessor(a, views0 + vs, data) == Some(block[off..off + len])
  {
    var v := vs[j];
    assert (views0 + vs)[|views0| + j] == v;
    SliceOfSlice(data, v.byteOffset, v.byteOffset + v.byteLength, block, off, len);
    ReadInView(a, views0 + vs, data, v, off, len);
  }

  /** A slice of a slice is a slice. */
  lemma SliceOfSlice<T>(s: seq<T>, lo: int, hi: int, t: seq<T>, i: int, n: int)
    requires 0 <= lo <= hi <= |s| && s[lo..hi] == t && 0 <= i && 0 <= n && i + n <= hi - lo
    ensures s[lo + i..lo + i + n] == t[i..i + n]
  {
    forall k | lo + i <= k < lo + i + n
      ensures s[k] == t[k - lo]
    {
    }
  }

  /** An accessor whose view exists and whose elements fit in it, in a view that fits in the buffer, reads its bytes. */
  lemma ReadInView(a: Accessor, views: seq<BufferView>, data: seq<Byte>, v: BufferView, off: nat, len: nat)
    requires a.bufferView.ViewIndex? && 0 <= a.bufferView.index < |views| && views[a.bufferView.index] == v
    requires a.byteOffset == off && AccessorLength(a) == len && 0 <= a.count
    requires 0 <= v.byteOffset && off + len <= v.byteLength && v.byteOffset + v.byteLength <= |data|
    ensures ReadAccessor(a, views, data) == Some(data[v.byteOffset + off..v.byteOffset + off + len])
  {
  }

  /** The faces of two runs of groups are the faces of the first, then those of the second. */
  lemma {:induction false} AllFacesAppend(a: seq<MeshTriangle>, b: seq<MeshTriangle>)
    ensures AllFaces(a + b) == AllFaces(a) + AllFaces(b)
    decreases |b|
  {
    if b == [] {
      assert a + b == a;
    } else {
      var init, last := b[..|b| - 1], b[|b| - 1];
      assert (a + b)[..|a + b| - 1] == a + init && (a + b)[|a + b| - 1] == last;
      AllFacesAppend(a, init);
      calc {
        AllFaces(a + b);
        AllFaces(a + init) + last.faces;
        (AllFaces(a) + AllFaces(init)) + last.faces;
        { Regroup2(AllFaces(a), AllFaces(init), last.faces); }
        AllFaces(a) + (AllFaces(init) + last.faces);
        AllFaces(a) + AllFaces(b);
      }
    }
  }

  /**
   * In the index block, group k's face indices sit 12 bytes per face after
   * the faces of the groups before it.
   */
  lemma IndexSlice(gs: seq<MeshTriangle>, k: nat)
    requires k < |gs|
    ensures var all, off, len := IndexBytes(AllFaces(gs)), 12 * |AllFaces(gs[..k])|, 12 * |gs[k].faces|;
            off + len <= |all| && all[off..off + len] == IndexBytes(gs[k].faces)
  {
    var before, here, after := AllFaces(gs[..k]), gs[k].faces, AllFaces(gs[k + 1..]);
    assert gs == gs[..k + 1] + gs[k + 1..];
    AllFacesAppend(gs[..k + 1], gs[k + 1..]);
    GroupStep(gs, k);
    assert AllFaces(gs) == before + here + after;
    EncodeAllAppend(before + here, after, FaceIndexBytes);
    EncodeAllAppend(before, here, FaceIndexBytes);
    BlockLengths(before, [], []);
    BlockLengths(here, [], []);
    var all := IndexBytes(AllFaces(gs));
    assert all == IndexBytes(before) + IndexBytes(here) + IndexBytes(after);
    assert all[|IndexBytes(before)|..|IndexBytes(before)| + |IndexBytes(here)|] == IndexBytes(here);
  }

  /** Where `buildMesh` puts the accessors of a node, counted from the first one it appends. */
  lemma MeshAccessorsAt(nd: MeshNode, bvIndex: int, bvPos: int, bvTex: int, bvNorm: int, value: F32 -> real)
    ensures var m, n, t := MeshAccessors(nd, bvIndex, bvPos, bvTex, bvNorm, value), |nd.faceGroup|, |nd.texCoords| > 0;
            && m[..n] == FaceIndexAccessors(nd.faceGroup, bvIndex)
            && m[n] == PositionAccessor(ViewIndex(bvPos), nd.vertices, value)
            && (t ==> m[n + 1] == FloatAccessor(ViewIndex(bvTex), AccessorVec2, |nd.texCoords|))
            && (|nd.normals| > 0 ==> m[|m| - 1] == FloatAccessor(ViewIndex(bvNorm), AccessorVec3, |nd.normals|))
  {
  }

  /** An accessor on view j of a write of blocks that covers the whole block reads the block. */
  lemma ReadsWholeBlock(bs: seq<seq<Byte>>, pre: seq<Byte>, views0: seq<BufferView>, j: nat, a: Accessor)
    requires j < |bs| && a.bufferView == ViewIndex(|views0| + j)
    requires a.byteOffset == 0 && 0 <= a.count && AccessorLength(a) == |bs[j]|
    ensures ReadAccessor(a, views0 + ViewsOf(bs, |pre|), pre + Concat(bs)) == Some(bs[j])
  {
    ReadsBlock(bs, pre, views0, j, a, 0, |bs[j]|);
    assert bs[j][0..|bs[j]|] == bs[j];
  }

  /** Group k's index accessor reads the vertex indices of group k's faces out of the index block. */
  lemma IndicesRead(gs: seq<MeshTriangle>, bs: seq<seq<Byte>>, pre: seq<Byte>, views0: seq<BufferView>, k: nat)
    requires |bs| > 0 && bs[0] == IndexBytes(AllFaces(gs)) && k < |gs|
    ensures ReadAccessor(FaceIndexAccessors(gs, |views0|)[k], views0 + ViewsOf(bs, |pre|), pre + Concat(bs))
            == Some(IndexBytes(gs[k].faces))
  {
    var a := FaceIndexAccessors(gs, |views0|)[k];
    var off, len := 12 * |AllFaces(gs[..k])|, 12 * |gs[k].faces|;
    FaceIndexAccessorAt(gs, |views0|, k);
    assert a.byteOffset == off && AccessorLength(a) == len;
    IndexSlice(gs, k);
    assert bs[0][off..off + len] == IndexBytes(gs[k].faces);
    ReadsBlock(bs, pre, views0, 0, a, off, len);
  }

  /** The index accessor `buildMesh` makes for group k reads group k's face indices from the views `buildMeshBuffer` records. */
  lemma MeshIndicesRead(nd: MeshNode, pre: seq<Byte>, views0: seq<BufferView>, k: nat)
    requires k < |nd.faceGroup|
    ensures ReadAccessor(FaceIndexAccessors(nd.faceGroup, |views0|)[k], views0 + MeshViews(nd, |pre|), pre + MeshBytes(nd))
            == Some(IndexBytes(nd.faceGroup[k].faces))
  {
    IndicesRead(nd.faceGroup, MeshBlocks(nd), pre, views0, k);
  }

  /** The position accessor `buildMesh` makes reads the node's vertices from the views `buildMeshBuffer` records. */
  lemma MeshPositionsRead(nd: MeshNode, value: F32 -> real, pre: seq<Byte>, views0: seq<BufferView>)
    ensures ReadAccessor(PositionAccessor(ViewIndex(|views0| + 1), nd.vertices, value), views0 + MeshViews(nd, |pre|), pre + MeshBytes(nd))
            == Some(Vec3Bytes(nd.vertices))
  {
    var a := PositionAccessor(ViewIndex(|views0| + 1), nd.vertices, value);
    assert a.byteOffset == 0 && a.count == |nd.vertices| && a.accessorType == AccessorVec3;
    MeshBlocksLayout(nd);
    ReadsWholeBlock(MeshBlocks(nd), pre, views0, 1, a);
  }

  /** The uv accessor `buildMesh` makes for a node with uvs reads them. */
  lemma MeshUvsRead(nd: MeshNode, pre: seq<Byte>, views0: seq<BufferView>)
    requires |nd.texCoords| > 0
    ensures ReadAccessor(FloatAccessor(ViewIndex(|views0| + 2), AccessorVec2, |nd.texCoords|), views0 + MeshViews(nd, |pre|), pre + MeshBytes(nd))
            == Some(Vec2Bytes(nd.texCoords))
  {
    MeshBlocksLayout(nd);
    ReadsWholeBlock(MeshBlocks(nd), pre, views0, 2, FloatAccessor(ViewIndex(|views0| + 2), AccessorVec2, |nd.texCoords|));
  }

  /** The normal accessor `buildMesh` makes for a node with normals reads them from the view after the uvs, if any. */
  lemma MeshNormalsRead(nd: MeshNode, pre: seq<Byte>, views0: seq<BufferView>)
    requires |nd.normals| > 0
    ensures var bvNorm := |views0| + 2 + (if |nd.texCoords| > 0 then 1 else 0);
            ReadAccessor(FloatAccessor(ViewIndex(bvNorm), AccessorVec3, |nd.normals|), views0 + MeshViews(nd, |pre|), pre + MeshBytes(nd))
            == Some(Vec3Bytes(nd.normals))
  {
    var bs := MeshBlocks(nd);
    MeshBlocksLayout(nd);
    var bvNorm := |views0| + 2 + (if |nd.texCoords| > 0 then 1 else 0);
    assert bvNorm == |views0| + (|bs| - 1);
    ReadsWholeBlock(bs, pre, views0, |bs| - 1, FloatAccessor(ViewIndex(bvNorm), AccessorVec3, |nd.normals|));
  }

  /** Where the attributes of a node's primitives point, counted from the first accessor `buildMesh` appends. */
  lemma AttributesAt(nd: MeshNode, idx: int)
    ensures var a, n := NodeAttributes(nd, idx), idx + |nd.faceGroup|;
            && Position in a && a[Position] == n
            && (TexCoord0 in a <==> |nd.texCoords| > 0) && (TexCoord0 in a ==> a[TexCoord0] == n + 1)
            && (Normal in a <==> |nd.normals| > 0) && (Normal in a ==> a[Normal] == n + 1 + (if |nd.texCoords| > 0 then 1 else 0))
  {
  }
}
