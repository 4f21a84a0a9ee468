/**
 * The byte side of mst/gltf.go: `buildMeshBuffer` and `buildOutlineBuffer`
 * write one node's face indices, vertices, uvs and normals into a scratch
 * buffer, append it to the document's buffer, and record one buffer view per
 * block. Vertex data is float32 here: 12 bytes per vertex and normal, 8 per
 * uv, 12 per face (three uint32 indices).
 */
module GltfBuffers {
  import opened Wrappers
  import opened LittleEndian
  import opened MstTypes
  import opened MstFormat
  import opened MstGeometry
  import opened GltfDoc

  // ----- The bytes of one node -----

  /** `binary.Write` of a face's `[3]uint32` vertex indices. */
  function FaceIndexBytes(f: Face): (b: seq<Byte>)
    ensures |b| == 12
  {
    EncodeAllLength(f.vertex, LeU32, 4);
    EncodeU32s(f.vertex)
  }

  /** The index block: every face of every group, in order. */
  function IndexBytes(fs: seq<Face>): seq<Byte> {
    EncodeAll(fs, FaceIndexBytes)
  }

  /** `binary.Write` of a `[][3]float32` (vertices, normals). */
  function Vec3Bytes(vs: seq<Vec3F>): seq<Byte> {
    EncodeAll(vs, EncodeVec3F)
  }

  /** `binary.Write` of a `[][2]float32` (uvs). */
  function Vec2Bytes(ts: seq<Vec2F>): seq<Byte> {
    EncodeAll(ts, EncodeVec2F)
  }

  /** `binary.Write` of an outline edge `[2]int`: encoding/binary rejects Go `int` and writes nothing. */
  function EdgeBytes(e: (int, int)): seq<Byte> {
    []
  }

  /** The blocks `buildMeshBuffer` writes for a node: indices, vertices, then uvs and normals when there are any. */
  function MeshBlocks(nd: MeshNode): seq<seq<Byte>> {
    [IndexBytes(AllFaces(nd.faceGroup)), Vec3Bytes(nd.vertices)]
    + (if |nd.texCoords| > 0 then [Vec2Bytes(nd.texCoords)] else [])
    + (if |nd.normals| > 0 then [Vec3Bytes(nd.normals)] else [])
  }

  /** Everything `buildMeshBuffer` appends for a node. */
  function MeshBytes(nd: MeshNode): seq<Byte> {
    Concat(MeshBlocks(nd))
  }

  /** The views `buildMeshBuffer` records when the buffer held `start` bytes. */
  function MeshViews(nd: MeshNode, start: int): seq<BufferView> {
    ViewsOf(MeshBlocks(nd), start)
  }

  // ----- Blocks and their views -----

  /** Blocks written one after the other. */
  function Concat(bs: seq<seq<Byte>>): seq<Byte> {
    if bs == [] then [] else Concat(bs[..|bs| - 1]) + bs[|bs| - 1]
  }

  /** One view per block, each starting where the blocks before it end, counted from `start`. */
  function ViewsOf(bs: seq<seq<Byte>>, start: int): (vs: seq<BufferView>)
    ensures |vs| == |bs|
  {
    if bs == [] then [] else ViewsOf(bs[..|bs| - 1], start) + [BufferView(0, start + |Concat(bs[..|bs| - 1])|, |bs[|bs| - 1]|)]
  }

  /** Writing one more block adds its bytes and one view. */
  lemma BlockStep(bs: seq<seq<Byte>>, b: seq<Byte>, start: int)
    ensures Concat(bs + [b]) == Concat(bs) + b
    ensures ViewsOf(bs + [b], start) == ViewsOf(bs, start) + [BufferView(0, start + |Concat(bs)|, |b|)]
  {
    assert (bs + [b])[..|bs|] == bs;
  }

  /**
   * Views are back to back: view k starts where the blocks before it end and
   * is as long as block k, in buffer 0.
   */
  lemma {:induction false} ViewAt(bs: seq<seq<Byte>>, start: int, k: nat)
    requires k < |bs|
    ensures ViewsOf(bs, start)[k] == BufferView(0, start + |Concat(bs[..k])|, |bs[k]|)
    decreases |bs|
  {
    var init := bs[..|bs| - 1];
    if k < |init| {
      ViewAt(init, start, k);
      assert init[..k] == bs[..k];
    } else {
      assert init == bs[..k];
    }
  }

  /** The blocks before block k, then block k, are a prefix of all blocks' bytes. */
  lemma {:induction false} ConcatPrefix(bs: seq<seq<Byte>>, k: nat)
    requires k < |bs|
    ensures Concat(bs[..k + 1]) == Concat(bs[..k]) + bs[k]
    ensures Concat(bs[..k + 1]) <= Concat(bs)
    decreases |bs|
  {
    assert bs[..k + 1][..k] == bs[..k];
    var init := bs[..|bs| - 1];
    if k < |init| {
      ConcatPrefix(init, k);
      assert init[..k + 1] == bs[..k + 1] && init[..k] == bs[..k];
    } else {
      assert bs[..k + 1] == bs;
    }
  }

  /** Read out of the grown buffer, view k of a write of blocks is block k. */
  lemma ViewHoldsBlock(bs: seq<seq<Byte>>, pre: seq<Byte>, k: nat)
    requires k < |bs|
    ensures var v, data := ViewsOf(bs, |pre|)[k], pre + Concat(bs);
            0 <= v.byteOffset && 0 <= v.byteLength && v.byteOffset + v.byteLength <= |data|
            && data[v.byteOffset..v.byteOffset + v.byteLength] == bs[k]
  {
    ViewAt(bs, |pre|, k);
    ConcatPrefix(bs, k);
    SliceAfterPrefix(pre, Concat(bs), Concat(bs[..k]), bs[k]);
  }

  /** When `p + b` begins `c`, `b` sits right after `pre + p` in `pre + c`. */
  lemma SliceAfterPrefix<T>(pre: seq<T>, c: seq<T>, p: seq<T>, b: seq<T>)
    requires p + b <= c
    ensures |pre| + |p| + |b| <= |pre + c| && (pre + c)[|pre| + |p|..|pre| + |p| + |b|] == b
  {
    var data, lo := pre + c, |pre| + |p|;
    forall t | 0 <= t < |b|
      ensures data[lo + t] == b[t]
    {
      assert data[lo + t] == c[|p| + t];
      assert c[|p| + t] == (p + b)[|p| + t];
    }
  }

  /** The last view ends where the written bytes end. */
  lemma ViewsEnd(bs: seq<seq<Byte>>, start: int)
    requires bs != []
    ensures var v := ViewsOf(bs, start)[|bs| - 1];
            v.byteOffset + v.byteLength == start + |Concat(bs)|
  {
    ViewAt(bs, start, |bs| - 1);
    assert bs[..|bs| - 1] == bs[..|bs| - 1];
  }

  // ----- Lengths -----

  lemma {:induction false} EncodeAllAppend<T>(a: seq<T>, b: seq<T>, enc: T -> seq<Byte>)
    ensures EncodeAll(a + b, enc) == EncodeAll(a, enc) + EncodeAll(b, enc)
    decreases |a|
  {
    if a == [] {
      assert a + b == b;
    } else {
      assert (a + b)[1..] == a[1..] + b;
      EncodeAllAppend(a[1..], b, enc);
    }
  }

  /** Twelve bytes per face, per vertex and per normal; eight per uv. */
  lemma BlockLengths(fs: seq<Face>, vs: seq<Vec3F>, ts: seq<Vec2F>)
    ensures |IndexBytes(fs)| == 12 * |fs|
    ensures |Vec3Bytes(vs)| == 12 * |vs|
    ensures |Vec2Bytes(ts)| == 8 * |ts|
  {
    EncodeAllLength(fs, FaceIndexBytes, 12);
    forall v: Vec3F ensures |EncodeVec3F(v)| == 12 {
      EncodeAllLength(v, LeU32, 4);
    }
    EncodeAllLength(vs, EncodeVec3F, 12);
    forall t: Vec2F ensures |EncodeVec2F(t)| == 8 {
      EncodeAllLength(t, LeU32, 4);
    }
    EncodeAllLength(ts, EncodeVec2F, 8);
  }

  /**
   * A node is written as two to four blocks: 12 bytes per face, then 12 per
   * vertex, then, only when the node has any, 8 per uv and 12 per normal.
   */
  lemma MeshBlocksLayout(nd: MeshNode)
    ensures var bs, fs := MeshBlocks(nd), AllFaces(nd.faceGroup);
            && |bs| == 2 + (if |nd.texCoords| > 0 then 1 else 0) + (if |nd.normals| > 0 then 1 else 0)
            && |bs[0]| == 12 * |fs| && |bs[1]| == 12 * |nd.vertices|
            && (|nd.texCoords| > 0 ==> bs[2] == Vec2Bytes(nd.texCoords) && |bs[2]| == 8 * |nd.texCoords|)
            && (|nd.normals| > 0 ==> bs[|bs| - 1] == Vec3Bytes(nd.normals) && |bs[|bs| - 1]| == 12 * |nd.normals|)
  {
    BlockLengths(AllFaces(nd.faceGroup), nd.vertices, nd.texCoords);
    BlockLengths([], nd.normals, []);
  }

  // ----- buildMeshBuffer -----

  /**
   * `buildMeshBuffer`: appends the node's blocks to the buffer and their
   * views to the list, and records in the context where the index,
   * position, uv and normal views are.
   */
  method BuildMeshBuffer(ctx: BuildContext, buffer: Buffer, bufferViews: seq<BufferView>, nd: MeshNode)
    returns (views: seq<BufferView>)
    modifies ctx, buffer
    ensures views == bufferViews + MeshViews(nd, old(buffer.byteLength))
    ensures buffer.data == old(buffer.data) + MeshBytes(nd)
    ensures buffer.byteLength == old(buffer.byteLength) + |MeshBytes(nd)|
    ensures ctx.mtlSize == old(ctx.mtlSize)
    ensures ctx.bvIndex == |bufferViews| && ctx.bvPos == |bufferViews| + 1 && ctx.bvTex == |bufferViews| + 2
    ensures ctx.bvNorm == |bufferViews| + 2 + (if |nd.texCoords| > 0 then 1 else 0)
  {
    var startLen := buffer.byteLength;
    var buf: seq<Byte>;
    buf, views, ctx.bvIndex, ctx.bvPos, ctx.bvTex, ctx.bvNorm := WriteMeshBlocks(nd, bufferViews, startLen);
    buffer.Append(buf);
  }

  /**
   * The scratch buffer of `buildMeshBuffer` with the views it records and
   * the view numbers it stores in the context (index, position, uv, normal).
   */
  method WriteMeshBlocks(nd: MeshNode, bufferViews: seq<BufferView>, startLen: int)
    returns (buf: seq<Byte>, views: seq<BufferView>, bvIndex: int, bvPos: int, bvTex: int, bvNorm: int)
    ensures buf == MeshBytes(nd) && views == bufferViews + MeshViews(nd, startLen)
    ensures bvIndex == |bufferViews| && bvPos == |bufferViews| + 1 && bvTex == |bufferViews| + 2
    ensures bvNorm == |bufferViews| + 2 + (if |nd.texCoords| > 0 then 1 else 0)
  {
    buf := [];
    bvIndex := |bufferViews|;
    views := bufferViews;
    var indices := WriteIndices(nd.faceGroup);
    buf, views := WriteBlock(buf, views, [], bufferViews, indices, startLen);
    ghost var blocks := [indices];

    bvPos := |views|;
    buf, views := WriteBlock(buf, views, blocks, bufferViews, Vec3Bytes(nd.vertices), startLen);
    blocks := blocks + [Vec3Bytes(nd.vertices)];

    bvTex := |views|;
    buf, views, blocks := WriteBlockIf(|nd.texCoords| > 0, buf, views, blocks, bufferViews, Vec2Bytes(nd.texCoords), startLen);

    bvNorm := |views|;
    buf, views, blocks := WriteBlockIf(|nd.normals| > 0, buf, views, blocks, bufferViews, Vec3Bytes(nd.normals), startLen);
    assert blocks == MeshBlocks(nd);
  }

  /**
   * One stanza of `buildMeshBuffer`: the view starts where the scratch
   * buffer ends (counted from `startLen`), the block is written, and the
   * view is as long as what was written.
   */
  method WriteBlock(buf: seq<Byte>, views: seq<BufferView>, ghost blocks: seq<seq<Byte>>, ghost views0: seq<BufferView>,
                    block: seq<Byte>, startLen: int)
    returns (buf': seq<Byte>, views': seq<BufferView>)
    requires buf == Concat(blocks) && views == views0 + ViewsOf(blocks, startLen)
    ensures buf' == Concat(blocks + [block]) && views' == views0 + ViewsOf(blocks + [block], startLen)
    ensures |views'| == |views| + 1
  {
    var offset := |buf| + startLen;
    buf' := buf + block;
    views' := views + [BufferView(0, offset, |buf'| - offset + startLen)];
    BlockStep(blocks, block, startLen);
  }

  /** A stanza of `buildMeshBuffer` that only writes when the node has the attribute. */
  method WriteBlockIf(cond: bool, buf: seq<Byte>, views: seq<BufferView>, ghost blocks: seq<seq<Byte>>, ghost views0: seq<BufferView>,
                      block: seq<Byte>, startLen: int)
    returns (buf': seq<Byte>, views': seq<BufferView>, ghost blocks': seq<seq<Byte>>)
    requires buf == Concat(blocks) && views == views0 + ViewsOf(blocks, startLen)
    ensures blocks' == blocks + (if cond then [block] else [])
    ensures buf' == Concat(blocks') && views' == views0 + ViewsOf(blocks', startLen)
    ensures |views'| == |views| + (if cond then 1 else 0)
  {
    if cond {
      buf', views' := WriteBlock(buf, views, blocks, views0, block, startLen);
      blocks' := blocks + [block];
    } else {
      buf', views', blocks' := buf, views, blocks;
      assert blocks + [] == blocks;
    }
  }

  /** The group loop of `buildMeshBuffer`: the vertex indices of every face, group by group. */
  method WriteIndices(gs: seq<MeshTriangle>) returns (buf': seq<Byte>)
    ensures buf' == IndexBytes(AllFaces(gs))
  {
    buf' := [];
    var i := 0;
    while i < |gs|
      invariant 0 <= i <= |gs|
      invariant buf' == IndexBytes(AllFaces(gs[..i]))
    {
      buf' := WriteFaceIndices(buf', gs[i].faces);
      GroupStep(gs, i);
      EncodeAllAppend(AllFaces(gs[..i]), gs[i].faces, FaceIndexBytes);
      i := i + 1;
    }
    assert gs[..i] == gs;
  }

  /** The inner loop of `buildMeshBuffer`: the vertex indices of one group's faces. */
  method WriteFaceIndices(buf: seq<Byte>, faces: seq<Face>) returns (buf': seq<Byte>)
    ensures buf' == buf + IndexBytes(faces)
  {
    buf' := buf;
    var j := 0;
    while j < |faces|
      invariant 0 <= j <= |faces|
      invariant buf' == buf + IndexBytes(faces[..j])
    {
      EncodeAllSnoc(faces[..j], faces[j], FaceIndexBytes);
      assert faces[..j + 1] == faces[..j] + [faces[j]];
      buf' := buf' + FaceIndexBytes(faces[j]);
      j := j + 1;
    }
    assert faces[..j] == faces;
  }

  // ----- buildOutlineBuffer -----

  /**
   * `buildOutlineBuffer`: the edges write nothing, so the index view is
   * empty; the vertices follow as the position view. Only `bvIndex` and
   * `bvPos` of the context change.
   */
  method BuildOutlineBuffer(ctx: BuildContext, buffer: Buffer, bufferViews: seq<BufferView>, nd: MeshNode)
    returns (views: seq<BufferView>)
    modifies ctx, buffer
    ensures views == bufferViews + OutlineViews(nd, old(buffer.byteLength))
    ensures buffer.data == old(buffer.data) + Vec3Bytes(nd.vertices)
    ensures buffer.byteLength == old(buffer.byteLength) + |Vec3Bytes(nd.vertices)|
    ensures ctx.bvIndex == |bufferViews| && ctx.bvPos == |bufferViews| + 1
    ensures ctx.mtlSize == old(ctx.mtlSize) && ctx.bvTex == old(ctx.bvTex) && ctx.bvNorm == old(ctx.bvNorm)
  {
    var buf: seq<Byte> := [];
    ctx.bvIndex := |bufferViews|;
    views := bufferViews;
    var startLen := buffer.byteLength;
    var indexOffset := startLen;
    var gs := nd.edgeGroup;
    var i := 0;
    while i < |gs|
      invariant 0 <= i <= |gs|
      invariant buf == []
    {
      var es := gs[i].edges;
      var j := 0;
      while j < |es|
        invariant 0 <= j <= |es|
        invariant buf == []
      {
        buf := buf + EdgeBytes(es[j]);
        j := j + 1;
      }
      i := i + 1;
    }
    views := views + [BufferView(0, indexOffset, |buf|)];

    var posOffset := |buf| + startLen;
    buf := buf + Vec3Bytes(nd.vertices);
    ctx.bvPos := |views|;
    views := views + [BufferView(0, posOffset, |buf| - posOffset + startLen)];
    buffer.Append(buf);
  }

  /** The two views of an outline node: an empty index view, then the vertices. */
  function OutlineViews(nd: MeshNode, start: int): seq<BufferView> {
    [BufferView(0, start, 0), BufferView(0, start, |Vec3Bytes(nd.vertices)|)]
  }

  /**
   * The outline's index view is empty however many edges there are, and its
   * position view is the vertex block it was recorded for.
   */
  lemma OutlineViewsLayout(nd: MeshNode, old_data: seq<Byte>)
    ensures var vw, data := OutlineViews(nd, |old_data|), old_data + Vec3Bytes(nd.vertices);
            && vw[0].byteLength == 0 && vw[1].byteOffset == vw[0].byteOffset == |old_data|
            && vw[1].byteLength == 12 * |nd.vertices|
            && data[vw[1].byteOffset..vw[1].byteOffset + vw[1].byteLength] == Vec3Bytes(nd.vertices)
  {
    BlockLengths([], nd.vertices, []);
    var data := old_data + Vec3Bytes(nd.vertices);
    assert data[|old_data|..] == Vec3Bytes(nd.vertices);
  }
}
