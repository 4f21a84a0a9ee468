# MST meshes and their glTF export, modelled in Dafny

This project models the core of the `xr` Go repository.

- **The MST codec.** MST is the repository's binary mesh format: a `fwtm` signature, a version word, then the base mesh and the instanced meshes. Each `Marshal`/`UnMarshal` routine is a method on a byte writer or a byte reader. Each method is proved equal to a pure encoder or decoder over `seq<Byte>`. The pure functions carry the round-trip theorems and the quirks of the format.
- **The mesh utilities.**
  - Resorting a node's vertices per face corner (`ResortVtVn`).
  - A node's bounding box (`GetBoundbox`).
  - A mesh's bounding box (`ComputeBBox`).
  - The small getters.
- **The glTF builder.**
  - A `Document` class whose fields the builder appends to.
  - A `Buffer` class for the single binary buffer.
  - Mesh, outline, instance, texture and material construction.
  - The top-level converters `MstToGltf` and `MstToGltfWithOutline`.

  Each builder step is proved against a function of the old document state. Lemmas then show two things about the result:
  - every buffer-view, accessor, mesh, node, scene, texture, sampler and image index the builder writes names an existing entry, and every buffer view lies inside the buffer (`Document.Valid`); a primitive's material index is not covered;
  - reading an accessor back through its buffer view yields exactly the bytes the builder wrote for it.
- **Integer helpers.** `IsEven`, `IsPrime` and `Factorial`, with Go's 64-bit `int`.
- **Geometry.** The axis-aligned 2-D rectangle and 3-D box, as classes whose `Join`/`Extend` update the receiver.

Floating-point values are kept as their bit patterns (`F32`, `F64`). Where a number is needed, the coordinate is read through a parameter (`value`, `value32`) that stands for IEEE decoding. External calls become parameters:
- `mat4.Decompose` is the `decompose` parameter;
- texture loading and PNG encoding together are the `png` parameter.

The reader follows the Go code. `encoding/binary` never fails on short input: a short read consumes what is left and leaves the target unchanged. So `MeshUnMarshal` always returns a mesh, and there is no error path.

## Model

| member | source | states |
|---|---|---|
| MstTypes.MeshMaterial.GetTexture | mst/mesh.go:110-130 | a texture is returned exactly when `HasTexture` holds, and it is the texture of the material's texture part |
| MstRoundTrip.AccessorsSurviveMaterialRoundTrip | mst/mesh.go:102-178 | a material read back from the file answers `GetColor`, `GetEmissive`, `HasTexture` and `GetTexture` as the material written did; the texture comes back with its id cleared |
| MstRoundTrip.NewMeshRoundTrip | mst/mesh.go:315-317 | the new mesh is written as 28 bytes and reads back as itself |
| MstRoundTrip.CountsSurviveRoundTrip | mst/mesh.go:319-325 | `NodeCount` and `MaterialCount` of a mesh read back from the file equal those of the mesh written |
| LittleEndian.LeU32RoundTrip | mst/mesh.go:343-351 | writing a 32-bit word little-endian and reading it back gives the word; every 4-byte block is the encoding of the word read from it |
| LittleEndian.LeU64RoundTrip | mst/mesh.go:343-351 | the same for 64-bit words |
| LittleEndian.ReadsOnEmpty | mst/mesh.go:360-362 | reading from exhausted input consumes nothing and leaves each target at its previous value |
| MstCodec.ByteWriter.Write | mst/mesh.go:353-358 | the writer's bytes grow by exactly the bytes written |
| MstCodec.ByteReader.Full | mst/mesh.go:360-362 | a read returns the next n bytes when there are n; otherwise it consumes the rest and returns nothing |
| MstCodec.BaseMaterialMarshal | mst/mesh.go:364-367 | appends exactly the encoding of the colour and transparency |
| MstCodec.BaseMaterialUnMarshal | mst/mesh.go:369-374 | returns the decoder's value on the unread input and consumes exactly what the decoder reads |
| MstCodec.TextureMarshal | mst/mesh.go:376-387 | appends exactly the texture encoding; the Go `int` id writes nothing |
| MstCodec.TextureUnMarshal | mst/mesh.go:389-407 | returns the decoded texture and consumes exactly its bytes |
| MstCodec.TextureMaterialMarshal | mst/mesh.go:409-423 | appends the base material, then each optional texture behind a 16-bit presence flag |
| MstCodec.TextureMaterialUnMarshal | mst/mesh.go:425-439 | returns the decoded textured material; the normal texture is read only if the first flag variable, reused, reads 1 |
| MstCodec.PbrMaterialMarshal | mst/mesh.go:441-460 | appends the textured part, then the PBR fields, in version-dependent layout |
| MstCodec.PbrMaterialUnMarshal | mst/mesh.go:462-485 | returns the decoded PBR material for the given version |
| MstCodec.LambertMaterialMarshal | mst/mesh.go:487-492 | appends the textured part and the three Lambert colours |
| MstCodec.LambertMaterialUnMarshal | mst/mesh.go:494-502 | returns the decoded Lambert material |
| MstCodec.PhongMaterialMarshal | mst/mesh.go:504-509 | appends the Lambert part, the specular colour, the shininess and the specularity |
| MstCodec.PhongMaterialUnMarshal | mst/mesh.go:511-519 | returns the decoded Phong material |
| MstCodec.MaterialMarshal | mst/mesh.go:521-539 | appends the variant's 32-bit tag and body; a nil material writes nothing |
| MstCodec.MaterialUnMarshal | mst/mesh.go:541-558 | returns the variant named by the tag; an unknown tag yields no material and reads no body |
| MstCodec.MtlsMarshal | mst/mesh.go:560-565 | appends the count and each material |
| MstCodec.MtlsUnMarshal | mst/mesh.go:567-575 | returns a fresh array of as many materials as the count read |
| MstCodec.MeshTriangleMarshal | mst/mesh.go:577-583 | appends the face count and the vertex indices of each face; the Go `int` batch id writes nothing |
| MstCodec.MeshTriangleUnMarshal | mst/mesh.go:585-597 | returns the decoded face group |
| MstCodec.MeshOutlineMarshal | mst/mesh.go:599-605 | appends only the 32-bit edge count, because the Go `int` batch id and edges write nothing |
| MstCodec.MeshOutlineUnMarshal | mst/mesh.go:607-617 | consumes nothing and returns an outline with no edges, because the count is read into a Go `int` |
| MstCodec.MeshNodeMarshal | mst/mesh.go:619-656 | appends each counted attribute list, the optional matrix behind a byte flag, and the face and edge groups |
| MstCodec.MeshNodeUnMarshal | mst/mesh.go:658-704 | returns the decoded node; every count is read into one reused variable |
| MstCodec.MeshNodesMarshal | mst/mesh.go:706-711 | appends the count and each node |
| MstCodec.MeshNodesUnMarshal | mst/mesh.go:713-721 | returns a fresh array of the decoded nodes |
| MstCodec.MeshMarshal | mst/mesh.go:723-731 | appends the signature, the version, the base mesh, the instances and, in version 4, the code |
| MstCodec.BaseMeshMarshal | mst/mesh.go:733-739 | appends the materials, the nodes and, in version 4, the code |
| MstCodec.MeshUnMarshal | mst/mesh.go:741-752 | returns the decoded mesh; the signature is read but never checked |
| MstCodec.BaseMeshUnMarshal | mst/mesh.go:754-762 | returns the decoded base mesh for the given version |
| MstCodec.InstancesMarshal | mst/mesh.go:764-769 | appends the count and each instanced mesh |
| MstCodec.InstanceMarshal | mst/mesh.go:771-786 | appends the transforms, the feature ids, the box, the base mesh and the hash |
| MstCodec.InstancesUnMarshal | mst/mesh.go:788-796 | returns a fresh array of the decoded instanced meshes |
| MstCodec.InstanceUnMarshal | mst/mesh.go:798-829 | returns the decoded instanced mesh; before version 3 the feature ids are 32-bit and widened |
| MstRoundTrip.BaseMaterialRoundTrip | mst/mesh.go:364-374 | decoding an encoded base material gives it back and leaves the following bytes |
| MstRoundTrip.TextureRoundTrip | mst/mesh.go:376-407 | a texture whose lengths fit in 32 bits reads back with its id reset to 0 |
| MstRoundTrip.TextureMaterialRoundTrip | mst/mesh.go:409-439 | a textured material reads back with texture ids reset |
| MstRoundTrip.PbrMaterialRoundTrip | mst/mesh.go:441-485 | a PBR material reads back, in every version, with texture ids reset |
| MstRoundTrip.LambertMaterialRoundTrip | mst/mesh.go:487-502 | a Lambert material reads back with texture ids reset |
| MstRoundTrip.PhongMaterialRoundTrip | mst/mesh.go:504-519 | a Phong material reads back with texture ids reset |
| MstRoundTrip.MaterialRoundTrip | mst/mesh.go:521-558 | any non-nil material reads back as the same variant, in any version |
| MstRoundTrip.MaterialsRoundTrip | mst/mesh.go:560-575 | a list of non-nil materials reads back element by element |
| MstRoundTrip.TriangleRoundTrip | mst/mesh.go:577-597 | a face group reads back with batch id 0 and only the vertex indices of each face |
| MstRoundTrip.NodeRoundTrip | mst/mesh.go:619-704 | a node without outline groups reads back (batch ids and face attributes normalised) and leaves the following bytes |
| MstRoundTrip.NodeReadStopsShort | mst/mesh.go:652-702 | with outline groups, the node reads back but the outline bodies are left unread |
| MstRoundTrip.OutlineDesyncs | mst/mesh.go:599-617 | an outline with k edges decodes as an empty outline and leaves the 4-byte count k in front of the following bytes |
| MstRoundTrip.NodesRoundTrip | mst/mesh.go:706-721 | a node list reads back element by element |
| MstRoundTrip.CodeRoundTrip | mst/mesh.go:728-749 | the code word is written and read only in version 4; otherwise the reader keeps its previous value |
| MstRoundTrip.BaseMeshRoundTrip | mst/mesh.go:733-762 | a base mesh reads back in any version, with the code kept only in version 4 |
| MstRoundTrip.FeaturesRoundTrip | mst/mesh.go:779-822 | feature ids read back from version 3 on, and an empty list reads back in every version |
| MstRoundTrip.FeaturesNarrowedBeforeV3 | mst/mesh.go:779-822 | before version 3, one 64-bit feature written is read as 32 bits, leaving 4 zero bytes unread |
| MstRoundTrip.InstanceRoundTrip | mst/mesh.go:771-829 | an instanced mesh reads back in its version |
| MstRoundTrip.InstancesRoundTrip | mst/mesh.go:764-796 | a list of instanced meshes reads back element by element |
| MstRoundTrip.MeshRoundTrip | mst/mesh.go:723-752 | decoding an encoded mesh gives back the normalised mesh and leaves the following bytes |
| MstFacts.HeaderLayout | mst/mesh.go:723-725 | every encoded mesh starts with `fwtm` and then the version in little-endian order |
| MstFacts.SignatureIgnored | mst/mesh.go:741-745 | any four leading bytes decode like the real signature |
| MstFacts.ShortInputDecodesToZero | mst/mesh.go:741-752 | at most four bytes of input decode to the empty version-0 mesh |
| MstFacts.MaterialListSameFromV2 | mst/mesh.go:441-460 | from version 2 on, the material list encodes the same in every version |
| MstFacts.CodeAppendedInV4 | mst/mesh.go:733-739 | the version-4 base mesh is the version-3 one followed by the code |
| MstFacts.CodeIgnoredOutsideV4 | mst/mesh.go:733-739 | outside version 4, the code does not affect the encoding |
| MstFacts.CodeTwiceInV4 | mst/mesh.go:723-739 | in version 4, the code ends both the base mesh and the whole file |
| MstFacts.TrailingCodeWins | mst/mesh.go:741-762 | when the two version-4 codes differ, the decoded mesh keeps the trailing one |
| MstFacts.ParentBodyFirst | mst/mesh.go:409-519 | each material body starts with the body of the material it extends |
| MstFacts.UnknownTagReadsNoBody | mst/mesh.go:541-558 | a tag above Phong yields no material and consumes only the tag |
| MstFacts.NilMaterialSwallowsNext | mst/mesh.go:521-575 | a list holding one nil material is written as count 1 with no body; reading it takes the next bytes as the material |
| MstFacts.OptTextureFlagNotOne | mst/mesh.go:425-439 | a texture flag other than 1 yields no texture and consumes only the flag |
| MstFacts.OptMatFlagNotOne | mst/mesh.go:682-690 | a matrix flag other than 1 yields no matrix and consumes only the flag |
| MstFacts.GoIntsWriteNothing | mst/mesh.go:376-605 | batch ids, texture ids and outline edges, all Go `int`, do not affect the encoding |
| MstGeometry.ResortVtVn | mst/mesh.go:205-239 | the node is replaced by its resorted form: three fresh vertices (normals, uvs) per face corner, renumbered 0,1,2,3,… |
| MstGeometry.ResortKeepsGeometry | mst/mesh.go:205-239 | after resorting, corner c of face k has index 3k+c, and the new vertex there is the old vertex that corner named |
| MstGeometry.RenumberedGroupsFaces | mst/mesh.go:205-239 | the face groups keep their order, and their faces are renumbered consecutively across groups |
| MstGeometry.ResortedAttributesLayout | mst/mesh.go:205-239 | the resorted normal and uv lists hold each face's corner attributes at 3k+c |
| MstGeometry.GetBoundbox | mst/mesh.go:284-301 | returns the per-axis minimum and maximum of the node's vertices, starting from the float64 extremes |
| MstGeometry.BoundsHoldVertices | mst/mesh.go:284-301 | every vertex lies inside the returned bounds; a node with no vertices gives the inverted extreme box |
| MstGeometry.BoundsAttained | mst/mesh.go:284-301 | for finite vertices, each bound is the coordinate of some vertex |
| MstGeometry.ComputeBBox | mst/mesh.go:327-341 | a mesh with no nodes gives the zero box; otherwise the box starting from the largest box is joined with each node's bounds |
| MstGeometry.ComputeBBoxIsMaxBox | mst/mesh.go:327-341 | with finite vertices, that join is always the largest box |
| MstGeometry.ComputeBBoxFromMinBox | mst/mesh.go:327-341 | the corrected version: the join starts from the empty (inverted) box |
| MstGeometry.JoinedHoldsVertices | mst/mesh.go:327-341 | the joined box contains every vertex of every node |
| MstGeometry.JoinedFromMinBoxIsTight | mst/mesh.go:327-341 | starting from the empty box, the join lies inside any bounds the vertices respect |
| IntMath.IsEven | utils/math.go:7-9 | true exactly for multiples of 2, negative numbers included |
| IntMath.IsPrime | utils/math.go:12-31 | with the loop guard as Go's wrapping `i*i`, and for n up to `IsPrimeLimit`: true exactly when n > 1 has no divisor strictly between 1 and n |
| IntMath.SquareExact | utils/math.go:24 | up to `SquareRootBound`, Go's `i*i` is the exact square |
| IntMath.SquareWrapsPastBound | utils/math.go:24 | one past `SquareRootBound`, Go's `i*i` wraps to a negative number |
| IntMath.IsEvenSymmetric | utils/math.go:7-9 | evenness ignores the sign and alternates between consecutive numbers |
| IntMath.IsPrimeExamples | utils/math.go:12-31 | -1, 0, 1, 4, 9 and 25 are not prime; 2, 3, 5 and 7 are |
| IntMath.Factorial | utils/math.go:34-39 | the recursive product with Go's 64-bit wrap-around; every result fits in int64 |
| IntMath.FactorialExactUpTo20 | utils/math.go:34-39 | up to 20 the Go result is the true factorial (1 for n ≤ 1) |
| IntMath.FactorialOverflowsAt21 | utils/math.go:34-39 | 21! wraps to -4249290049419214848 |
| Vec3Box.Box.constructor | pkg/go3d/vec3/box.go:19-21 | a box with the given corners |
| Vec3Box.MaxBox | pkg/go3d/vec3/box.go:13-17 | the largest box contains every finite point |
| Vec3Box.MinBox | pkg/go3d/vec3/box.go:13-17 | the inverted box contains no point |
| Vec3Box.FromSlice | pkg/go3d/vec3/box.go:19-21 | the box whose `Array` is the first six numbers |
| Vec3Box.ArrayDeterminesBox | pkg/go3d/vec3/box.go:40-45 | two boxes with the same array have the same corners |
| Vec3Box.ContainsMeansAllPoints | pkg/go3d/vec3/box.go:48-59 | for a well-formed t, `Contains(t)` holds exactly when every point of t is a point of the box |
| Vec3Box.ContainsIsPreorder | pkg/go3d/vec3/box.go:55-59 | containment is reflexive and transitive |
| Vec3Box.BiggerBoxNotContained | pkg/go3d/vec3/box.go:55-59 | the [0,2]³ box does not contain the [-1,3]³ box, but is contained in it |
| Vec3Box.IntersectsIsOverlap | pkg/go3d/vec3/box.go:76-86 | two boxes intersect exactly when they overlap on every axis |
| Vec3Box.IntersectsMeansCommonPoint | pkg/go3d/vec3/box.go:76-86 | well-formed boxes intersect exactly when they share a point |
| Vec3Box.Box.Join | pkg/go3d/vec3/box.go:89-92 | the receiver becomes the corner-wise min/max with the other box and stays well formed |
| Vec3Box.JoinContainsBoth | pkg/go3d/vec3/box.go:89-106 | the join of two well-formed boxes contains both |
| Vec3Box.JoinIsLeast | pkg/go3d/vec3/box.go:89-106 | any box containing both contains their join |
| Vec3Box.Box.Extend | pkg/go3d/vec3/box.go:95-98 | the receiver grows to contain the point and keeps every point it had |
| Vec3Box.Joined | pkg/go3d/vec3/box.go:101-106 | a fresh box that is the corner-wise min/max of the two |
| Vec3Box.MaxBoxAbsorbs | pkg/go3d/vec3/box.go:13-17 | joining anything finite with the largest box gives the largest box |
| Vec3Box.MinBoxIsJoinIdentity | pkg/go3d/vec3/box.go:13-17 | joining with the inverted box changes nothing |
| Vec2Rect.NewRect | go3d/vec2/rect.go:15-19 | the corners are sorted, so the rectangle is well formed and contains both points |
| Vec2Rect.Rect.Width | go3d/vec2/rect.go:27-29 | the absolute x-extent, which is max.x − min.x when well formed |
| Vec2Rect.Rect.Height | go3d/vec2/rect.go:31-33 | the absolute y-extent |
| Vec2Rect.Rect.Size | go3d/vec2/rect.go:35-39 | the larger of width and height |
| Vec2Rect.SidesIgnoreCornerOrder | go3d/vec2/rect.go:27-39 | swapping the corners keeps width, height and size |
| Vec2Rect.ArrayListsCorners | go3d/vec2/rect.go:46-51 | the array lists min then max |
| Vec2Rect.AreaOfWellFormed | go3d/vec2/rect.go:73-75 | for a well-formed rectangle the area is width × height and not negative |
| Vec2Rect.ContainsMeansAllPoints | go3d/vec2/rect.go:59-70 | containment of a well-formed rectangle is containment of all its points |
| Vec2Rect.ContainsIsPreorder | go3d/vec2/rect.go:65-70 | containment is reflexive and transitive |
| Vec2Rect.IntersectsSymmetric | go3d/vec2/rect.go:77-82 | intersection is symmetric |
| Vec2Rect.IntersectsMeansCommonPoint | go3d/vec2/rect.go:77-82 | well-formed rectangles intersect exactly when they share a point |
| Vec2Rect.Rect.Join | go3d/vec2/rect.go:85-88 | the receiver becomes the corner-wise min/max and stays well formed |
| Vec2Rect.Rect.Extend | go3d/vec2/rect.go:90-93 | the receiver grows to contain the point and keeps every point it had |
| Vec2Rect.Joined | go3d/vec2/rect.go:96-100 | a fresh rectangle that is the corner-wise min/max of the two |
| Vec2Rect.JoinContainsBoth | go3d/vec2/rect.go:85-100 | the join contains both rectangles |
| Vec2Rect.JoinIsLeast | go3d/vec2/rect.go:85-100 | any rectangle containing both contains their join |
| GltfDoc.CreateDoc | mst/gltf.go:38-46 | a fresh glTF 2.0 document with scene 0, one empty scene and one empty buffer; it is valid |
| GltfDoc.Buffer.Append | mst/gltf.go:471-472 | data and byte length grow together by the chunk |
| GltfBinary.SizeWriter.constructor | mst/gltf.go:68-71 | a size writer over a fresh empty byte buffer, with size 0 |
| GltfBinary.SizeWriter.Write | mst/gltf.go:53-58 | forwards the bytes, adds their length to the size and reports that length |
| GltfBinary.SizeWriter.GetSize | mst/gltf.go:64-66 | the length of the bytes written so far |
| GltfBinary.CalcPadding | mst/gltf.go:73-79 | with Go's truncating remainder, the padding lies in [0, unit) for a non-negative offset |
| GltfBinary.PaddingAligns | mst/gltf.go:73-79 | offset + padding is a multiple of the unit, and the padding is 0 exactly when the offset is already aligned |
| GltfBinary.PaddingIsLeast | mst/gltf.go:73-79 | no smaller padding aligns the offset |
| GltfBinary.GetGltfBinary | mst/gltf.go:81-98 | returns the encoder's output unchanged, or its error (see Findings) |
| GltfBinary.UnpaddedExample | mst/gltf.go:81-98 | a one-byte output, which needs 3 bytes of padding to 4, is returned unpadded |
| GltfBinary.GetGltfBinaryPadded | mst/gltf.go:81-98 | the corrected version: the output followed by the computed number of spaces |
| GltfBinary.PaddedIsAligned | mst/gltf.go:81-98 | the padded output is a multiple of the unit, keeps the original bytes first, and adds less than one unit |
| GltfBuffers.BuildMeshBuffer | mst/gltf.go:120-167 | appends the index, position, uv and normal blocks (the last two only if present) to the buffer and one view per block; records the view indices in the context |
| GltfBuffers.MeshBlocksLayout | mst/gltf.go:120-167 | the blocks are 12 bytes per face, 12 per vertex, 8 per uv and 12 per normal |
| GltfBuffers.ViewHoldsBlock | mst/gltf.go:120-167 | each new view lies inside the buffer and covers exactly its block |
| GltfBuffers.BuildOutlineBuffer | mst/gltf.go:169-197 | appends the vertex block; adds an empty index view and a position view at the end of the old data |
| GltfBuffers.OutlineViewsLayout | mst/gltf.go:169-197 | the index view is empty, and the position view covers exactly the vertex bytes |
| GltfMeshes.BuildMesh | mst/gltf.go:252-330 | one triangle primitive per face group, with material batchid (negative ids clamped to 0) + material offset, and the shared attribute map; one index accessor per group, then position, uv and normal accessors |
| GltfMeshes.TrianglePrimitiveAt | mst/gltf.go:252-330 | primitive k uses index accessor idx+k, its group's material and triangle mode |
| GltfMeshes.FaceIndexAccessorAt | mst/gltf.go:252-330 | index accessor k starts after the faces of the earlier groups and counts 3 per face |
| GltfLayout.AttributesAt | mst/gltf.go:252-330 | POSITION is always present; TEXCOORD_0 and NORMAL exactly when the node has uvs or normals, at consecutive indices |
| GltfMeshes.BuildOutline | mst/gltf.go:199-250 | as written: one line-strip primitive per edge group; the position accessor points at the context's view counter, not at a copy |
| GltfMeshes.BuildOutlineCopied | mst/gltf.go:199-250 | the corrected outline: the position accessor records the view index the context holds now |
| GltfMeshes.OutlinePrimitiveAt | mst/gltf.go:199-250 | outline primitive k uses index accessor idx+k, its group's material, line-strip mode and the single position attribute |
| GltfNodes.BuildTriangleNode | mst/gltf.go:336-350 | the document becomes the node-mesh state of a triangle node, and the buffer grows by the node's bytes |
| GltfNodes.BuildOutlineNode | mst/gltf.go:336-343 | corrected: the document becomes the node-mesh state of an outline node whose position accessor keeps the view index current when it was built, and the buffer grows by the vertex bytes |
| GltfNodes.MeshNodeIndicesRead | mst/gltf.go:120-330 | after a triangle node is built, primitive k's index accessor reads back exactly group k's face indices |
| GltfNodes.MeshNodePositionsRead | mst/gltf.go:120-330 | every primitive's POSITION accessor reads back exactly the node's vertex bytes |
| GltfNodes.MeshNodeAttributesRead | mst/gltf.go:120-330 | TEXCOORD_0 and NORMAL are present exactly when the node has them, and they read back exactly the uv and normal bytes |
| GltfNodes.OutlineNodeReads | mst/gltf.go:169-250 | an outline primitive's POSITION accessor reads back the vertex bytes |
| GltfNodes.OutlineIndicesUnread | mst/gltf.go:169-250 | an outline index accessor points into the empty index view, so it reads back only when no edges come before or in its group |
| GltfNodes.OutlineAliasAsWritten | mst/gltf.go:243 | two outline nodes built in a row: the first position accessor recorded view 1 but resolves to view 3 |
| GltfNodes.OutlineAliasCopied | mst/gltf.go:243 | with the copy, the first position accessor still resolves to the view it recorded |
| GltfNodes.PlaceTransformed | mst/gltf.go:361-371 | one node per transform, carrying the decomposed transform, each appended to scene 0 |
| GltfNodes.PlaceNode | mst/gltf.go:352-373 | without transforms, one plain node in scene 0; with transforms, instancing or per-transform nodes; the buffer grows only for instancing |
| GltfInstance.BuildInstance | mst/gltf.go:385-446 | appends 40 bytes and three accessors per transform, one instancing node per transform in scene 0, and one view over all the bytes |
| GltfInstance.InstanceRead | mst/gltf.go:385-446 | the translation, scale and rotation accessors of transform i read back exactly its decomposed fields, and node i's instancing names them |
| GltfInstance.InstanceWithin | mst/gltf.go:385-446 | instancing keeps every index and view of a valid document in range |
| GltfBuild.BuildNodes | mst/gltf.go:336-375 | one mesh per node, placed at its mesh index by each placement, scene 0 extended in order, earlier entries kept |
| GltfBuild.BuildGltfBase | mst/gltf.go:332-383 | the nodes are built as above; then, unless a texture fails to load, one material per MST material; validity is kept |
| GltfBuild.PlacementsAt | mst/gltf.go:352-373 | node j of the placements of mesh k points at mesh first+k |
| GltfBounds.NodeMeshStateWithin | mst/gltf.go:336-350 | building a node keeps every index and view in range |
| GltfBounds.PlaceStateWithin | mst/gltf.go:352-373 | placing a mesh keeps every index and view in range |
| GltfMaterials.BuildTextureBuffer | mst/gltf.go:448-486 | if the image loads: the PNG bytes are appended with a view, an image, a sampler matching `repeated`, and a texture naming that sampler and image; otherwise nothing changes |
| GltfMaterials.AddTextureReads | mst/gltf.go:448-486 | the new texture reads back its sampler and exactly the PNG bytes; earlier textures read back as before |
| GltfMaterials.SamplerFor | mst/gltf.go:477-482 | repeat wrapping on both axes exactly when the texture repeats; clamp-to-edge otherwise |
| GltfMaterials.TextureIndex | mst/gltf.go:547-578 | a texture id seen before reuses its index; a new id gets the next texture index and its buffer |
| GltfMaterials.Contains | mst/gltf.go:594-604 | true exactly when the name is already among the used extensions |
| GltfMaterials.MaterialForFactors | mst/gltf.go:494-545 | the base colour is the material colour over 255 plus opacity; the emissive is black for plain and textured materials; specular-glossiness exactly for Lambert and Phong |
| GltfMaterials.AnySpecularExists | mst/gltf.go:512-541 | the extension flag is set exactly when some material is Lambert or Phong |
| GltfMaterials.FillMaterials | mst/gltf.go:488-607 | corrected Lambert diffuse factor; on success, one material per MST material with texture indices by id; the extension is added once if needed; otherwise some texture failed to load; validity is kept |
| GltfMaterials.LambertDiffuseAsWrittenIsBinary | mst/gltf.go:517 | each as-written diffuse channel is 1 for 255 and 0 otherwise |
| GltfMaterials.LambertDiffuseRecoversColor | mst/gltf.go:517 | the corrected diffuse channel times 255 is the colour byte |
| GltfConvert.BuildGltf | mst/gltf.go:100-110 | the base mesh's nodes are built as plain nodes; instanced meshes are added only after a successful base build; earlier content is kept; validity is kept |
| GltfConvert.BuildInstances | mst/gltf.go:105-107 | each instanced mesh adds its nodes' meshes and placements, and any error is ignored |
| GltfConvert.MstToGltf | mst/gltf.go:17-26 | the result is a fresh, valid document with the total number of meshes and nodes of all inputs, or nothing only if some texture of a base mesh failed to load |
| GltfConvert.MstToGltfWithOutline | mst/gltf.go:28-37 | the same (nothing only if some texture of a base mesh failed to load), with outline nodes exported as line strips |

## Left out

- File and stream I/O (`MeshReadFrom`, `MeshWriteTo`, `CreateTexture`), zlib compression and the image codecs (`LoadTexture`, PNG encoding). Texture loading and PNG encoding together are the `png` parameter; its `None` is the load error.
- The glTF JSON/GLB encoder: `GetGltfBinary` takes the encoder's output (or its error) as input.
- `mat4.Decompose`: a parameter. The float32 rounding of its results is not modelled.
- `ReComputeNormal` and all floating-point arithmetic. Coordinates are bit patterns read through a parameter. Colour factors are exact reals, not float32 quotients.
- `utils.Round` and the rest of the go3d vector and matrix algebra; only the box and rectangle are modelled.
- `Vec3Box.Box.Center` and `Vec3Box.Box.Diagonal` are modelled as functions without further properties.
- `MstTypes.MeshMaterial.TexturePart` stands in for `GetNormalTexture`: the normal texture is read directly from a material's texture part.
- MstRoundTrip.MeshRoundTrip: requires every node to have no outline group, because the reader desynchronises on outlines (`OutlineDesyncs`). It also requires every material to be non-nil and every list to fit a 32-bit count.
- GltfBuild.BuildGltfBase: states the node meshes and placements by count, index and scene order. The per-accessor contents are stated node by node (`MeshNodeIndicesRead` and its neighbours), not carried through the node loop.
- GltfConvert.BuildInstances: states counts and prefixes only; errors from an instanced mesh's materials are ignored, as in the source.
- GltfConvert.BuildGltf: does not state that the asset version and the default scene stay unchanged.
- GltfMaterials.FillMaterials: states texture indices and material factors. It does not state which PNG bytes each texture holds (`AddTextureReads` states that per texture).
- GltfMaterials.FillMaterials: builds a Lambert material's diffuse factor with the corrected `LambertDiffuse` (each byte over 255), not the integer division of mst/gltf.go:517; the as-written factor is `LambertDiffuseAsWritten` (see Findings). So `MstToGltf` writes 128/255 where Go writes 0.
- GltfNodes.BuildOutlineNode: builds the outline's position accessor with the corrected copy of the view index (`BuildOutlineCopied`), not the `&ctx.bvPos` pointer of mst/gltf.go:243; the aliased behaviour is `BuildOutline` and `OutlineAliasAsWritten` (see Findings). So with two outline nodes the model's first accessor names view 1 where Go's resolves to view 3.
- GltfDoc.Document.Valid: does not check a primitive's material index (the batch id plus the material offset, mst/gltf.go:265-270). That index dangles when a batch id reaches the material count, or when `FillMaterials` fails after the nodes are built.
- IntMath.IsPrime: requires n <= `IsPrimeLimit` = 3037000493². Up to there the loop's `i*i` never wraps (`SquareExact`). Above some larger bound Go's `i*i` can wrap (`SquareWrapsPastBound`) and the loop keeps running on wrapped squares. The limit is stricter than necessary: inputs between it and 3037000499² do not wrap either, but are not covered.
- GltfConvert.MstToGltf, GltfConvert.MstToGltfWithOutline: state failure in one direction only. The converse does not hold in the source either: a texture whose id was already met is taken from the id map and never loaded again, and errors from instanced meshes are ignored (mst/gltf.go:105-107).
- GltfBinary.CalcPadding: requires a non-zero unit. With unit 0 Go's `%` panics with a division by zero; that panic is not modelled. `GetGltfBinary` requires it only when the encoder succeeded, since Go returns the encoder's error before dividing.
- GltfConvert.BuildInstances: always places an instance's nodes with its transforms. In Go an in-memory instance whose `Transfors` slice is nil takes the plain-node branch (mst/gltf.go:352); a decoded mesh never has a nil slice, because the reader always allocates it.
- MstGeometry.ResortVtVn: requires every face index to be in range (`FacesInRange`); Go panics with an index out of range there, which is not modelled. Faces are values, so a `*Face` shared between two groups in Go is two separate faces here.
- Vertex, normal and texture-coordinate elements are float32 throughout, so a vertex is always 12 bytes in the glTF buffer; the element width is not a parameter.
- `Vec2Rect`: the float32 rounding of `Width`, `Height` and `Area` is not modelled; coordinates are exact reals.
- IntMath.Factorial: the Go recursion is modelled with an explicit 64-bit wrap on each multiplication.
- The repository's description of the format treats a truncated file as an error. The code never fails, and the model follows the code.
- The repository's box test expects a bigger box to be contained in a smaller one (pkg/go3d/vec3/box_test.go:78-80). The code says otherwise, and the model follows the code (`BiggerBoxNotContained`).

## Findings

| source | as written | input that shows it | evidently intended | confidence | as-written member | corrected member |
|---|---|---|---|---|---|---|
| utils/math.go:34-39 | `n * Factorial(n-1)` in 64-bit `int` | n = 21 gives -4249290049419214848 | n! (or an overflow error) | high, not executed | IntMath.Factorial, IntMath.FactorialOverflowsAt21 | IntMath.MathFactorial, IntMath.FactorialExactUpTo20 |
| mst/mesh.go:327-341 | the join starts from `MaxBox` | any mesh with finite vertices gets the largest box | start from `MinBox`, giving the tight box | high, not executed | MstGeometry.ComputeBBox, MstGeometry.ComputeBBoxIsMaxBox | MstGeometry.ComputeBBoxFromMinBox, MstGeometry.JoinedFromMinBoxIsTight |
| mst/gltf.go:81-98 | padding computed from `w.Size`, which the encoder never updates | an output of 1 byte with unit 4 is returned unpadded | pad with spaces to a multiple of the unit | high, not executed | GltfBinary.GetGltfBinary, GltfBinary.UnpaddedExample | GltfBinary.GetGltfBinaryPadded, GltfBinary.PaddedIsAligned |
| mst/gltf.go:243 | the position accessor stores `&ctx.bvPos` | two outline nodes: the first accessor resolves to view 3 instead of 1 | store a copy of the current view index | high, not executed | GltfMeshes.BuildOutline, GltfNodes.OutlineAliasAsWritten | GltfMeshes.BuildOutlineCopied, GltfNodes.OutlineAliasCopied |
| mst/gltf.go:517 | Lambert diffuse uses integer `byte / 255` | diffuse (128,128,128) gives (0,0,0,1) | (128/255, 128/255, 128/255, 1) as for Phong | high, not executed | GltfMaterials.LambertDiffuseAsWritten, GltfMaterials.LambertDiffuseAsWrittenIsBinary | GltfMaterials.LambertDiffuse, GltfMaterials.LambertDiffuseRecoversColor |
