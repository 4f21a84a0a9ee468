/**
 * The MST byte format (mst/mesh.go, the *Marshal and *UnMarshal functions)
 * as pure functions: `EncodeX(x)` is the byte sequence the marshaller writes
 * for `x`, and `DecodeX(s)` is what the unmarshaller builds from the input
 * `s` together with the input it leaves unread.
 *
 * The decoders follow the code exactly: a short read never fails but leaves
 * its target as it was (zero for a fresh variable, the previous count for the
 * reused `size` and `hasTex` variables); the signature is read and never
 * checked; an unknown material tag yields `NoVariant` and no body; Go `int`
 * fields (batch ids, texture ids, outline edges and the outline edge count)
 * consume nothing and stay zero.
 */
module MstFormat {
  import opened Wrappers
  import opened LittleEndian
  import opened MstTypes

  // ----- Fixed-size records -----

  function EncodeColor(c: Color): seq<Byte> {
    c
  }

  function DecodeColor(s: seq<Byte>): Parsed<Color> {
    var r := ReadBytes(s, 3, Black);
    Parsed(r.value, r.rest)
  }

  /** A `[3]float32`, written and read as one block of 12 bytes. */
  function EncodeVec3F(v: Vec3F): seq<Byte> {
    EncodeU32s(v)
  }

  function DecodeVec3F(s: seq<Byte>): Parsed<Vec3F> {
    var r := ReadU32s(s, 3);
    Parsed(r.value, r.rest)
  }

  /** A `[2]float32`, written and read as one block of 8 bytes. */
  function EncodeVec2F(v: Vec2F): seq<Byte> {
    EncodeU32s(v)
  }

  function DecodeVec2F(s: seq<Byte>): Parsed<Vec2F> {
    var r := ReadU32s(s, 2);
    Parsed(r.value, r.rest)
  }

  /** A matrix, written and read row by row, 32 bytes per row. */
  function EncodeMat(m: Mat4): seq<Byte> {
    EncodeU64s(m[0..4]) + EncodeU64s(m[4..8]) + EncodeU64s(m[8..12]) + EncodeU64s(m[12..16])
  }

  function DecodeMat(s: seq<Byte>): Parsed<Mat4> {
    var r0 := ReadU64s(s, 4);
    var r1 := ReadU64s(r0.rest, 4);
    var r2 := ReadU64s(r1.rest, 4);
    var r3 := ReadU64s(r2.rest, 4);
    Parsed(r0.value + r1.value + r2.value + r3.value, r3.rest)
  }

  // ----- Textures and materials -----

  /** `TextureMarshal`: the id writes nothing; name and data are prefixed by their uint32 lengths. */
  function EncodeTexture(t: Texture): seq<Byte> {
    LeU32(U32Of(|t.name|)) + t.name + EncodeU64s(t.size) + LeU16(t.format) + LeU16(t.pixelType)
    + LeU16(t.compressed) + LeU32(U32Of(|t.data|)) + t.data + LeBool(t.repeated)
  }

  /** `TextureUnMarshal`: the name is one `Read` into a zeroed buffer of the announced size. */
  function DecodeTexture(s: seq<Byte>): Parsed<Texture> {
    var nameSize := ReadU32(s, 0);
    var name := ReadSome(nameSize.rest, nameSize.value as nat);
    var size := ReadU64s(name.rest, 2);
    var format := ReadU16(size.rest, 0);
    var pixelType := ReadU16(format.rest, 0);
    var compressed := ReadU16(pixelType.rest, 0);
    var dataSize := ReadU32(compressed.rest, 0);
    var data := ReadBytes(dataSize.rest, dataSize.value as nat, Zeros(dataSize.value as nat));
    var repeated := ReadBool(data.rest, false);
    Parsed(Texture(0, name.value, size.value, format.value, pixelType.value, compressed.value, data.value, repeated.value),
           repeated.rest)
  }

  function EncodeBaseMaterial(m: BaseMaterial): seq<Byte> {
    EncodeColor(m.color) + LeU32(m.transparency)
  }

  function DecodeBaseMaterial(s: seq<Byte>): Parsed<BaseMaterial> {
    var color := DecodeColor(s);
    var transparency := ReadU32(color.rest, 0);
    Parsed(BaseMaterial(color.value, transparency.value), transparency.rest)
  }

  /** An optional texture: a uint16 flag 1 followed by the texture, or the flag 0. */
  function EncodeOptTexture(t: Option<Texture>): seq<Byte> {
    match t
    case Some(x) => LeU16(1) + EncodeTexture(x)
    case None => LeU16(0)
  }

  /** Reads the flag into a variable holding `flag`, then the texture when the flag is 1. */
  function DecodeOptTexture(s: seq<Byte>, flag: U16): (r: (Parsed<Option<Texture>>, U16)) {
    var has := ReadU16(s, flag);
    if has.value == 1 then
      var t := DecodeTexture(has.rest);
      (Parsed(Some(t.value), t.rest), has.value)
    else (Parsed(None, has.rest), has.value)
  }

  function EncodeTextureMaterial(m: TextureMaterial): seq<Byte> {
    EncodeBaseMaterial(m.base) + EncodeOptTexture(m.texture) + EncodeOptTexture(m.normal)
  }

  /** `TextureMaterialUnMarshal`: both flags are read into the same variable `hasTex`. */
  function DecodeTextureMaterial(s: seq<Byte>): Parsed<TextureMaterial> {
    var base := DecodeBaseMaterial(s);
    var (texture, hasTex) := DecodeOptTexture(base.rest, 0);
    var (normal, _) := DecodeOptTexture(texture.rest, hasTex);
    Parsed(TextureMaterial(base.value, texture.value, normal.value), normal.rest)
  }

  /** The padding byte PBR materials carry after the emissive color before version 2. */
  const PbrPad: Byte := 255

  function EncodePbrMaterial(m: PbrMaterial, v: U32): seq<Byte> {
    EncodeTextureMaterial(m.textured) + EncodeColor(m.emissive) + (if v < V2 then [PbrPad] else [])
    + EncodePbrFields(m)
  }

  /** The PBR fields after the emissive color and the padding byte. */
  function EncodePbrFields(m: PbrMaterial): seq<Byte> {
    LeU32(m.metallic) + LeU32(m.roughness) + LeU32(m.reflectance) + LeU32(m.ambientOcclusion)
    + LeU32(m.clearCoat) + LeU32(m.clearCoatRoughness) + EncodeColor(m.clearCoatNormal)
    + LeU32(m.anisotropy) + EncodeVec3F(m.anisotropyDirection) + LeU32(m.thickness)
    + LeU32(m.subSurfacePower) + EncodeColor(m.sheenColor) + EncodeColor(m.subSurfaceColor)
  }

  /** Before version 2 one byte after the emissive color is read and dropped. */
  function SkipPbrPad(s: seq<Byte>, v: U32): seq<Byte> {
    if v < V2 then ReadU8(s, 0).rest else s
  }

  function DecodePbrMaterial(s: seq<Byte>, v: U32): Parsed<PbrMaterial> {
    var textured := DecodeTextureMaterial(s);
    var emissive := DecodeColor(textured.rest);
    DecodePbrFields(SkipPbrPad(emissive.rest, v), textured.value, emissive.value)
  }

  /** Reads the PBR fields after the emissive color and the padding byte. */
  function DecodePbrFields(s: seq<Byte>, textured: TextureMaterial, emissive: Color): Parsed<PbrMaterial> {
    var metallic := ReadU32(s, 0);
    var roughness := ReadU32(metallic.rest, 0);
    var reflectance := ReadU32(roughness.rest, 0);
    var ambientOcclusion := ReadU32(reflectance.rest, 0);
    var clearCoat := ReadU32(ambientOcclusion.rest, 0);
    var clearCoatRoughness := ReadU32(clearCoat.rest, 0);
    var clearCoatNormal := DecodeColor(clearCoatRoughness.rest);
    var anisotropy := ReadU32(clearCoatNormal.rest, 0);
    var anisotropyDirection := DecodeVec3F(anisotropy.rest);
    var thickness := ReadU32(anisotropyDirection.rest, 0);
    var subSurfacePower := ReadU32(thickness.rest, 0);
    var sheenColor := DecodeColor(subSurfacePower.rest);
    var subSurfaceColor := DecodeColor(sheenColor.rest);
    Parsed(PbrMaterial(textured, emissive, metallic.value, roughness.value, reflectance.value,
                       ambientOcclusion.value, clearCoat.value, clearCoatRoughness.value, clearCoatNormal.value,
                       anisotropy.value, anisotropyDirection.value, thickness.value, subSurfacePower.value,
                       sheenColor.value, subSurfaceColor.value),
           subSurfaceColor.rest)
  }

  function EncodeLambertMaterial(m: LambertMaterial): seq<Byte> {
    EncodeTextureMaterial(m.textured) + EncodeColor(m.ambient) + EncodeColor(m.diffuse) + EncodeColor(m.emissive)
  }

  function DecodeLambertMaterial(s: seq<Byte>): Parsed<LambertMaterial> {
    var textured := DecodeTextureMaterial(s);
    var ambient := DecodeColor(textured.rest);
    var diffuse := DecodeColor(ambient.rest);
    var emissive := DecodeColor(diffuse.rest);
    Parsed(LambertMaterial(textured.value, ambient.value, diffuse.value, emissive.value), emissive.rest)
  }

  function EncodePhongMaterial(m: PhongMaterial): seq<Byte> {
    EncodeLambertMaterial(m.lambert) + EncodeColor(m.specular) + LeU64(m.shininess) + LeU64(m.specularity)
  }

  function DecodePhongMaterial(s: seq<Byte>): Parsed<PhongMaterial> {
    var lambert := DecodeLambertMaterial(s);
    var specular := DecodeColor(lambert.rest);
    var shininess := ReadU64(specular.rest, 0);
    var specularity := ReadU64(shininess.rest, 0);
    Parsed(PhongMaterial(lambert.value, specular.value, shininess.value, specularity.value), specularity.rest)
  }

  /** `MaterialMarshal`: the uint32 tag, then the variant's body; any other value writes nothing. */
  function EncodeMaterial(m: MeshMaterial, v: U32): seq<Byte> {
    if m.NoVariant? then [] else LeU32(MaterialTag(m)) + MaterialBody(m, v)
  }

  /** The tag each of the five variants is framed by. */
  function MaterialTag(m: MeshMaterial): U32
    requires !m.NoVariant?
  {
    match m
    case Base(_) => TagColor
    case Textured(_) => TagTexture
    case Pbr(_) => TagPbr
    case Lambert(_) => TagLambert
    case Phong(_) => TagPhong
  }

  /** The body of a variant, its parent's body first. */
  function MaterialBody(m: MeshMaterial, v: U32): seq<Byte> {
    match m
    case Base(b) => EncodeBaseMaterial(b)
    case Textured(t) => EncodeTextureMaterial(t)
    case Pbr(p) => EncodePbrMaterial(p, v)
    case Lambert(l) => EncodeLambertMaterial(l)
    case Phong(p) => EncodePhongMaterial(p)
    case NoVariant => []
  }

  /** `MaterialUnMarshal`: reads the tag, then the body it names. */
  function DecodeMaterial(s: seq<Byte>, v: U32): Parsed<MeshMaterial> {
    var tag := ReadU32(s, 0);
    DecodeMaterialBody(tag.value, tag.rest, v)
  }

  /** Dispatches on the tag; an unknown tag reads no body and gives nil. */
  function DecodeMaterialBody(tag: U32, s: seq<Byte>, v: U32): Parsed<MeshMaterial> {
    BodyDecoder(tag)(s, v)
  }

  /** The reader each tag selects; every reader is given the version, which only PBR uses. */
  function BodyDecoder(tag: U32): (seq<Byte>, U32) -> Parsed<MeshMaterial> {
    if tag == TagColor then DecodeBaseBody
    else if tag == TagTexture then DecodeTexturedBody
    else if tag == TagPbr then DecodePbrBody
    else if tag == TagLambert then DecodeLambertBody
    else if tag == TagPhong then DecodePhongBody
    else SkipBody
  }

  function DecodeBaseBody(s: seq<Byte>, v: U32): Parsed<MeshMaterial> {
    var b := DecodeBaseMaterial(s); Parsed(Base(b.value), b.rest)
  }

  function DecodeTexturedBody(s: seq<Byte>, v: U32): Parsed<MeshMaterial> {
    var t := DecodeTextureMaterial(s); Parsed(Textured(t.value), t.rest)
  }

  function DecodePbrBody(s: seq<Byte>, v: U32): Parsed<MeshMaterial> {
    var p := DecodePbrMaterial(s, v); Parsed(Pbr(p.value), p.rest)
  }

  function DecodeLambertBody(s: seq<Byte>, v: U32): Parsed<MeshMaterial> {
    var l := DecodeLambertMaterial(s); Parsed(Lambert(l.value), l.rest)
  }

  function DecodePhongBody(s: seq<Byte>, v: U32): Parsed<MeshMaterial> {
    var p := DecodePhongMaterial(s); Parsed(Phong(p.value), p.rest)
  }

  /** An unknown tag: nothing is read and the material is nil. */
  function SkipBody(s: seq<Byte>, v: U32): Parsed<MeshMaterial> {
    Parsed(NoVariant, s)
  }

  function MaterialEncoder(v: U32): MeshMaterial -> seq<Byte> {
    m => EncodeMaterial(m, v)
  }

  function MaterialDecoder(v: U32): seq<Byte> -> Parsed<MeshMaterial> {
    s => DecodeMaterial(s, v)
  }

  /** `MtlsMarshal`: a uint32 count, then each material. */
  function EncodeMaterials(ms: seq<MeshMaterial>, v: U32): seq<Byte> {
    EncodeCounted(ms, MaterialEncoder(v))
  }

  function DecodeMaterials(s: seq<Byte>, v: U32): Parsed<seq<MeshMaterial>> {
    var r := DecodeCounted(s, 0, MaterialDecoder(v));
    Parsed(r.value.items, r.rest)
  }

  // ----- Geometry -----

  /** A face writes its three vertex indices only. */
  function EncodeFace(f: Face): seq<Byte> {
    EncodeU32s(f.vertex)
  }

  function DecodeFace(s: seq<Byte>): Parsed<Face> {
    var r := ReadU32s(s, 3);
    Parsed(Face(r.value, None, None), r.rest)
  }

  /** `MeshTriangleMarshal`: the batch id writes nothing; a uint32 count, then the faces. */
  function EncodeTriangle(g: MeshTriangle): seq<Byte> {
    EncodeCounted(g.faces, EncodeFace)
  }

  function DecodeTriangle(s: seq<Byte>): Parsed<MeshTriangle> {
    var faces := DecodeCounted(s, 0, DecodeFace);
    Parsed(MeshTriangle(0, faces.value.items), faces.rest)
  }

  /** `MeshOutlineMarshal`: the batch id and the edges write nothing; only the uint32 edge count is written. */
  function EncodeOutline(g: MeshOutline): seq<Byte> {
    LeU32(U32Of(|g.edges|))
  }

  /** `MeshOutlineUnMarshal`: the count is read into a Go `int`, so nothing is consumed and no edge is made. */
  function DecodeOutline(s: seq<Byte>): Parsed<MeshOutline> {
    Parsed(MeshOutline(0, []), s)
  }

  function EncodeOptMat(m: Option<Mat4>): seq<Byte> {
    match m
    case Some(x) => [1] + EncodeMat(x)
    case None => [0]
  }

  function DecodeOptMat(s: seq<Byte>): Parsed<Option<Mat4>> {
    var isMat := ReadU8(s, 0);
    if isMat.value == 1 then
      var m := DecodeMat(isMat.rest); Parsed(Some(m.value), m.rest)
    else Parsed(None, isMat.rest)
  }

  /** `MeshNodeMarshal`: each array is a counted list; the matrix is flagged by a byte. */
  function EncodeNode(n: MeshNode): seq<Byte> {
    EncodeCounted(n.vertices, EncodeVec3F) + EncodeCounted(n.normals, EncodeVec3F)
    + EncodeCounted(n.colors, EncodeColor) + EncodeCounted(n.texCoords, EncodeVec2F)
    + EncodeOptMat(n.mat)
    + EncodeCounted(n.faceGroup, EncodeTriangle) + EncodeCounted(n.edgeGroup, EncodeOutline)
  }

  /** `MeshNodeUnMarshal`: every count is read into the same variable, which still holds the previous one. */
  function DecodeNode(s: seq<Byte>): Parsed<MeshNode> {
    var vertices := DecodeCounted(s, 0, DecodeVec3F);
    var normals := DecodeCounted(vertices.rest, vertices.value.count, DecodeVec3F);
    var colors := DecodeCounted(normals.rest, normals.value.count, DecodeColor);
    var texCoords := DecodeCounted(colors.rest, colors.value.count, DecodeVec2F);
    var mat := DecodeOptMat(texCoords.rest);
    var faceGroup := DecodeCounted(mat.rest, texCoords.value.count, DecodeTriangle);
    var edgeGroup := DecodeCounted(faceGroup.rest, faceGroup.value.count, DecodeOutline);
    Parsed(MeshNode(vertices.value.items, normals.value.items, colors.value.items, texCoords.value.items, mat.value,
                    faceGroup.value.items, edgeGroup.value.items),
           edgeGroup.rest)
  }

  /** `MeshNodesMarshal`: a uint32 count, then each node. */
  function EncodeNodes(ns: seq<MeshNode>): seq<Byte> {
    EncodeCounted(ns, EncodeNode)
  }

  function DecodeNodes(s: seq<Byte>): Parsed<seq<MeshNode>> {
    var r := DecodeCounted(s, 0, DecodeNode);
    Parsed(r.value.items, r.rest)
  }

  // ----- Meshes -----

  /** The trailing `Code` word, present only in version 4. */
  function EncodeCode(code: U32, v: U32): seq<Byte> {
    if v == V4 then LeU32(code) else []
  }

  /** Reads the `Code` word into a field holding `d`, in version 4 only. */
  function DecodeCode(s: seq<Byte>, v: U32, d: U32): Parsed<U32> {
    if v == V4 then ReadU32(s, d) else Parsed(d, s)
  }

  /** `baseMeshMarshal`: materials, nodes, and in version 4 the code. */
  function EncodeBaseMesh(b: BaseMesh, v: U32): seq<Byte> {
    EncodeMaterials(b.materials, v) + EncodeNodes(b.nodes) + EncodeCode(b.code, v)
  }

  function DecodeBaseMesh(s: seq<Byte>, v: U32): Parsed<BaseMesh> {
    var materials := DecodeMaterials(s, v);
    var nodes := DecodeNodes(materials.rest);
    var code := DecodeCode(nodes.rest, v, 0);
    Parsed(BaseMesh(materials.value, nodes.value, code.value), code.rest)
  }

  /** Feature ids are always written as uint64. */
  function EncodeFeatures(fs: seq<U64>): seq<Byte> {
    LeU32(U32Of(|fs|)) + EncodeU64s(fs)
  }

  /** `uint64(f)` for a uint32 `f`. */
  function Widen(x: U32): U64 {
    x as U64
  }

  /** Before version 3 the ids are read as one block of uint32 and widened; from version 3 as uint64. */
  function DecodeFeatures(s: seq<Byte>, v: U32): Parsed<seq<U64>> {
    var size := ReadU32(s, 0);
    if v < V3 then
      var narrow := ReadU32s(size.rest, size.value as nat);
      Parsed(Map(narrow.value, Widen), narrow.rest)
    else ReadU64s(size.rest, size.value as nat)
  }

  function DecodeBBox(s: seq<Byte>): Parsed<BBox6> {
    var r := ReadU64s(s, 6);
    Parsed(r.value, r.rest)
  }

  /** `MeshInstanceNodeMarshal`: transforms, feature ids, box, base mesh and hash. */
  function EncodeInstance(i: InstanceMesh, v: U32): seq<Byte> {
    EncodeCounted(i.transfors, EncodeMat) + EncodeFeatures(i.features)
    + EncodeU64s(i.bbox) + EncodeBaseMesh(i.mesh, v) + LeU64(i.hash)
  }

  function DecodeInstance(s: seq<Byte>, v: U32): Parsed<InstanceMesh> {
    var transfors := DecodeCounted(s, 0, DecodeMat);
    var features := DecodeFeatures(transfors.rest, v);
    var bbox := DecodeBBox(features.rest);
    var mesh := DecodeBaseMesh(bbox.rest, v);
    var hash := ReadU64(mesh.rest, 0);
    Parsed(InstanceMesh(transfors.value.items, features.value, bbox.value, mesh.value, hash.value), hash.rest)
  }

  function InstanceEncoder(v: U32): InstanceMesh -> seq<Byte> {
    i => EncodeInstance(i, v)
  }

  function InstanceDecoder(v: U32): seq<Byte> -> Parsed<InstanceMesh> {
    s => DecodeInstance(s, v)
  }

  /** `MeshInstanceNodesMarshal`: a uint32 count, then each instance. */
  function EncodeInstances(insts: seq<InstanceMesh>, v: U32): seq<Byte> {
    EncodeCounted(insts, InstanceEncoder(v))
  }

  function DecodeInstances(s: seq<Byte>, v: U32): Parsed<seq<InstanceMesh>> {
    var r := DecodeCounted(s, 0, InstanceDecoder(v));
    Parsed(r.value.items, r.rest)
  }

  /** `MeshMarshal`: signature, version, base mesh, instances and in version 4 the code once more. */
  function EncodeMesh(m: Mesh): seq<Byte> {
    Signature + LeU32(m.version) + EncodeBaseMesh(m.base, m.version) + EncodeInstances(m.instanceNode, m.version)
    + EncodeCode(m.base.code, m.version)
  }

  /** `MeshUnMarshal`: the four signature bytes are read and ignored; both code words land in the same field. */
  function DecodeMesh(s: seq<Byte>): Parsed<Mesh> {
    var sig := ReadSome(s, 4);
    var version := ReadU32(sig.rest, 0);
    var base := DecodeBaseMesh(version.rest, version.value);
    var instances := DecodeInstances(base.rest, version.value);
    var code := DecodeCode(instances.rest, version.value, base.value.code);
    Parsed(Mesh(base.value.(code := code.value), version.value, instances.value), code.rest)
  }
}
