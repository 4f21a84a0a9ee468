/**
 * What survives a write followed by a read of the MST format.
 *
 * Under the conditions of `MeshEncodable` (every length fits in a uint32,
 * every material is one of the five variants, no node carries an outline
 * group, and feature ids are only present from version 3 on) reading back
 * `EncodeMesh(m)` gives `NormMesh(m)`: the mesh with every Go `int` field
 * (batch ids, texture ids) at zero and every face's normal and uv indices
 * dropped, since the codec persists neither. The remaining lemmas show what
 * happens outside those conditions.
 */
module MstRoundTrip {
  import opened Wrappers
  import opened LittleEndian
  import opened MstTypes
  import opened MstFormat

  // ----- What the reader gives back -----

  function NormTexture(t: Texture): Texture {
    t.(id := 0)
  }

  function NormOptTexture(t: Option<Texture>): Option<Texture> {
    match t
    case Some(x) => Some(NormTexture(x))
    case None => None
  }

  function NormTextureMaterial(m: TextureMaterial): TextureMaterial {
    m.(texture := NormOptTexture(m.texture), normal := NormOptTexture(m.normal))
  }

  function NormPbr(m: PbrMaterial): PbrMaterial {
    m.(textured := NormTextureMaterial(m.textured))
  }

  function NormLambert(m: LambertMaterial): LambertMaterial {
    m.(textured := NormTextureMaterial(m.textured))
  }

  function NormPhong(m: PhongMaterial): PhongMaterial {
    m.(lambert := NormLambert(m.lambert))
  }

  function NormMaterial(m: MeshMaterial): MeshMaterial {
    match m
    case Base(b) => Base(b)
    case Textured(t) => Textured(NormTextureMaterial(t))
    case Pbr(p) => Pbr(NormPbr(p))
    case Lambert(l) => Lambert(NormLambert(l))
    case Phong(p) => Phong(NormPhong(p))
    case NoVariant => NoVariant
  }

  function NormFace(f: Face): Face {
    Face(f.vertex, None, None)
  }

  function NormTriangle(g: MeshTriangle): MeshTriangle {
    MeshTriangle(0, Map(g.faces, NormFace))
  }

  /** An outline group reads back with no edges and batch id 0. */
  function NormOutline(g: MeshOutline): MeshOutline {
    MeshOutline(0, [])
  }

  function NormNode(n: MeshNode): MeshNode {
    n.(faceGroup := Map(n.faceGroup, NormTriangle), edgeGroup := Map(n.edgeGroup, NormOutline))
  }

  /** The code word survives only in version 4; other versions read back 0. */
  function NormBaseMesh(b: BaseMesh, v: U32): BaseMesh {
    BaseMesh(Map(b.materials, NormMaterial), Map(b.nodes, NormNode), if v == V4 then b.code else 0)
  }

  function NormInstance(i: InstanceMesh, v: U32): InstanceMesh {
    i.(mesh := NormBaseMesh(i.mesh, v))
  }

  function InstanceNormalizer(v: U32): InstanceMesh -> InstanceMesh {
    i => NormInstance(i, v)
  }

  function NormMesh(m: Mesh): Mesh {
    Mesh(NormBaseMesh(m.base, m.version), m.version, Map(m.instanceNode, InstanceNormalizer(m.version)))
  }

  function Id<T>(x: T): T {
    x
  }

  // ----- When a value can be written and read back -----

  predicate Fits32(n: nat) {
    n < TwoTo32
  }

  predicate TextureEncodable(t: Texture) {
    Fits32(|t.name|) && Fits32(|t.data|)
  }

  predicate OptTextureEncodable(t: Option<Texture>) {
    t.Some? ==> TextureEncodable(t.value)
  }

  predicate TextureMaterialEncodable(m: TextureMaterial) {
    OptTextureEncodable(m.texture) && OptTextureEncodable(m.normal)
  }

  /** One of the five variants, with textures whose lengths fit. */
  predicate MaterialEncodable(m: MeshMaterial) {
    match m
    case Base(_) => true
    case Textured(t) => TextureMaterialEncodable(t)
    case Pbr(p) => TextureMaterialEncodable(p.textured)
    case Lambert(l) => TextureMaterialEncodable(l.textured)
    case Phong(p) => TextureMaterialEncodable(p.lambert.textured)
    case NoVariant => false
  }

  predicate TriangleEncodable(g: MeshTriangle) {
    Fits32(|g.faces|)
  }

  predicate NodeCountsFit(n: MeshNode) {
    Fits32(|n.vertices|) && Fits32(|n.normals|) && Fits32(|n.colors|) && Fits32(|n.texCoords|)
    && Fits32(|n.faceGroup|) && (forall g :: g in n.faceGroup ==> TriangleEncodable(g))
    && Fits32(|n.edgeGroup|)
  }

  /** Counts fit, and the node has no outline group. */
  predicate NodeEncodable(n: MeshNode) {
    NodeCountsFit(n) && n.edgeGroup == []
  }

  predicate BaseMeshEncodable(b: BaseMesh) {
    Fits32(|b.materials|) && (forall m :: m in b.materials ==> MaterialEncodable(m))
    && Fits32(|b.nodes|) && (forall n :: n in b.nodes ==> NodeEncodable(n))
  }

  /** Counts fit, and feature ids are only present from version 3 on. */
  predicate InstanceEncodable(i: InstanceMesh, v: U32) {
    Fits32(|i.transfors|) && Fits32(|i.features|) && (v >= V3 || i.features == [])
    && BaseMeshEncodable(i.mesh)
  }

  predicate MeshEncodable(m: Mesh) {
    BaseMeshEncodable(m.base) && Fits32(|m.instanceNode|)
    && forall i :: i in m.instanceNode ==> InstanceEncodable(i, m.version)
  }

  // ----- Round trips, from the leaves up -----

  lemma ColorRoundTrip(c: Color, t: seq<Byte>)
    ensures DecodeColor(EncodeColor(c) + t) == Parsed(c, t)
  {
    ReadBytesAfter(c, t, Black);
  }

  lemma Vec3FRoundTrip(v: Vec3F, t: seq<Byte>)
    ensures DecodeVec3F(EncodeVec3F(v) + t) == Parsed(v, t)
  {
    ReadU32sAfter(v, t);
  }

  lemma Vec2FRoundTrip(v: Vec2F, t: seq<Byte>)
    ensures DecodeVec2F(EncodeVec2F(v) + t) == Parsed(v, t)
  {
    ReadU32sAfter(v, t);
  }

  lemma MatRoundTrip(m: Mat4, t: seq<Byte>)
    ensures DecodeMat(EncodeMat(m) + t) == Parsed(m, t)
  {
    var t3 := EncodeU64s(m[12..16]) + t;
    var t2 := EncodeU64s(m[8..12]) + t3;
    var t1 := EncodeU64s(m[4..8]) + t2;
    assert EncodeMat(m) + t == EncodeU64s(m[0..4]) + t1;
    ReadU64sAfter(m[0..4], t1);
    ReadU64sAfter(m[4..8], t2);
    ReadU64sAfter(m[8..12], t3);
    ReadU64sAfter(m[12..16], t);
    assert m[0..4] + m[4..8] + m[8..12] + m[12..16] == m;
  }

  /** A texture's encoding followed by `t`, field by field. */
  lemma TextureBytes(x: Texture, t: seq<Byte>)
    ensures EncodeTexture(x) + t
            == LeU32(U32Of(|x.name|)) + (x.name + (EncodeU64s(x.size) + (LeU16(x.format) + (LeU16(x.pixelType)
               + (LeU16(x.compressed) + (LeU32(U32Of(|x.data|)) + (x.data + (LeBool(x.repeated) + t))))))))
  {
  }

  /** A texture reads back whole except its id, which becomes 0. */
  lemma TextureRoundTrip(x: Texture, t: seq<Byte>)
    requires TextureEncodable(x)
    ensures DecodeTexture(EncodeTexture(x) + t) == Parsed(NormTexture(x), t)
  {
    var t8 := LeBool(x.repeated) + t;
    var t7 := x.data + t8;
    var t6 := LeU32(U32Of(|x.data|)) + t7;
    var t5 := LeU16(x.compressed) + t6;
    var t4 := LeU16(x.pixelType) + t5;
    var t3 := LeU16(x.format) + t4;
    var t2 := EncodeU64s(x.size) + t3;
    var t1 := x.name + t2;
    TextureBytes(x, t);
    ReadU32After(U32Of(|x.name|), t1, 0);
    ReadSomeAfter(x.name, t2);
    ReadU64sAfter(x.size, t3);
    ReadU16After(x.format, t4, 0);
    ReadU16After(x.pixelType, t5, 0);
    ReadU16After(x.compressed, t6, 0);
    ReadU32After(U32Of(|x.data|), t7, 0);
    ReadBytesAfter(x.data, t8, Zeros(|x.data|));
    ReadBoolAfter(x.repeated, t, false);
  }

  lemma BaseMaterialRoundTrip(m: BaseMaterial, t: seq<Byte>)
    ensures DecodeBaseMaterial(EncodeBaseMaterial(m) + t) == Parsed(m, t)
  {
    assert EncodeBaseMaterial(m) + t == EncodeColor(m.color) + (LeU32(m.transparency) + t);
    ColorRoundTrip(m.color, LeU32(m.transparency) + t);
    ReadU32After(m.transparency, t, 0);
  }

  /** The presence flag is read over whatever the flag variable held. */
  lemma OptTextureRoundTrip(x: Option<Texture>, t: seq<Byte>, flag: U16)
    requires OptTextureEncodable(x)
    ensures DecodeOptTexture(EncodeOptTexture(x) + t, flag).0 == Parsed(NormOptTexture(x), t)
    ensures DecodeOptTexture(EncodeOptTexture(x) + t, flag).1 == (if x.Some? then 1 else 0)
  {
    match x
    case Some(y) =>
      assert EncodeOptTexture(x) + t == LeU16(1) + (EncodeTexture(y) + t);
      ReadU16After(1, EncodeTexture(y) + t, flag);
      TextureRoundTrip(y, t);
    case None =>
      ReadU16After(0, t, flag);
  }

  lemma TextureMaterialRoundTrip(m: TextureMaterial, t: seq<Byte>)
    requires TextureMaterialEncodable(m)
    ensures DecodeTextureMaterial(EncodeTextureMaterial(m) + t) == Parsed(NormTextureMaterial(m), t)
  {
    var t2 := EncodeOptTexture(m.normal) + t;
    var t1 := EncodeOptTexture(m.texture) + t2;
    assert EncodeTextureMaterial(m) + t == EncodeBaseMaterial(m.base) + t1;
    BaseMaterialRoundTrip(m.base, t1);
    OptTextureRoundTrip(m.texture, t2, 0);
    var flag := DecodeOptTexture(t1, 0).1;
    OptTextureRoundTrip(m.normal, t, flag);
  }

  /** The PBR fields after the padding byte read back, whatever material parts were read before them. */
  lemma PbrFieldsRoundTrip(m: PbrMaterial, t: seq<Byte>)
    ensures DecodePbrFields(EncodePbrFields(m) + t, m.textured, m.emissive) == Parsed(m, t)
  {
    var t12 := EncodeColor(m.subSurfaceColor) + t;
    var t11 := EncodeColor(m.sheenColor) + t12;
    var t10 := LeU32(m.subSurfacePower) + t11;
    var t9 := LeU32(m.thickness) + t10;
    var t8 := EncodeVec3F(m.anisotropyDirection) + t9;
    var t7 := LeU32(m.anisotropy) + t8;
    var t6 := EncodeColor(m.clearCoatNormal) + t7;
    var t5 := LeU32(m.clearCoatRoughness) + t6;
    var t4 := LeU32(m.clearCoat) + t5;
    var t3 := LeU32(m.ambientOcclusion) + t4;
    var t2 := LeU32(m.reflectance) + t3;
    var t1 := LeU32(m.roughness) + t2;
    assert EncodePbrFields(m) + t == LeU32(m.metallic) + t1 by {
      var p1 := LeU32(m.metallic) + LeU32(m.roughness);
      var p2 := p1 + LeU32(m.reflectance);
      var p3 := p2 + LeU32(m.ambientOcclusion);
      var p4 := p3 + LeU32(m.clearCoat);
      var p5 := p4 + LeU32(m.clearCoatRoughness);
      var p6 := p5 + EncodeColor(m.clearCoatNormal);
      var p7 := p6 + LeU32(m.anisotropy);
      var p8 := p7 + EncodeVec3F(m.anisotropyDirection);
      var p9 := p8 + LeU32(m.thickness);
      var p10 := p9 + LeU32(m.subSurfacePower);
      var p11 := p10 + EncodeColor(m.sheenColor);
      assert EncodePbrFields(m) == p11 + EncodeColor(m.subSurfaceColor);
      assert p11 + EncodeColor(m.subSurfaceColor) + t == p11 + t12;
      assert p11 + t12 == p10 + t11;
      assert p10 + t11 == p9 + t10;
      assert p9 + t10 == p8 + t9;
      assert p8 + t9 == p7 + t8;
      assert p7 + t8 == p6 + t7;
      assert p6 + t7 == p5 + t6;
      assert p5 + t6 == p4 + t5;
      assert p4 + t5 == p3 + t4;
      assert p3 + t4 == p2 + t3;
      assert p2 + t3 == p1 + t2;
      assert p1 + t2 == LeU32(m.metallic) + t1;
    }
    ReadU32After(m.metallic, t1, 0);
    ReadU32After(m.roughness, t2, 0);
    ReadU32After(m.reflectance, t3, 0);
    ReadU32After(m.ambientOcclusion, t4, 0);
    ReadU32After(m.clearCoat, t5, 0);
    ReadU32After(m.clearCoatRoughness, t6, 0);
    ColorRoundTrip(m.clearCoatNormal, t7);
    ReadU32After(m.anisotropy, t8, 0);
    Vec3FRoundTrip(m.anisotropyDirection, t9);
    ReadU32After(m.thickness, t10, 0);
    ReadU32After(m.subSurfacePower, t11, 0);
    ColorRoundTrip(m.sheenColor, t12);
    ColorRoundTrip(m.subSurfaceColor, t);
  }

  /** A PBR material reads back at every version: the decoder skips exactly the padding byte the encoder wrote. */
  lemma PbrMaterialRoundTrip(m: PbrMaterial, v: U32, t: seq<Byte>)
    requires TextureMaterialEncodable(m.textured)
    ensures DecodePbrMaterial(EncodePbrMaterial(m, v) + t, v) == Parsed(NormPbr(m), t)
  {
    var pad: seq<Byte> := if v < V2 then [PbrPad] else [];
    var t2 := EncodePbrFields(m) + t;
    var t1 := EncodeColor(m.emissive) + (pad + t2);
    assert EncodePbrMaterial(m, v) + t == EncodeTextureMaterial(m.textured) + t1;
    TextureMaterialRoundTrip(m.textured, t1);
    ColorRoundTrip(m.emissive, pad + t2);
    if v < V2 {
      ReadU8After(PbrPad, t2, 0);
    }
    assert SkipPbrPad(pad + t2, v) == t2;
    PbrFieldsRoundTrip(NormPbr(m), t);
  }

  lemma LambertMaterialRoundTrip(m: LambertMaterial, t: seq<Byte>)
    requires TextureMaterialEncodable(m.textured)
    ensures DecodeLambertMaterial(EncodeLambertMaterial(m) + t) == Parsed(NormLambert(m), t)
  {
    var t3 := EncodeColor(m.emissive) + t;
    var t2 := EncodeColor(m.diffuse) + t3;
    var t1 := EncodeColor(m.ambient) + t2;
    assert EncodeLambertMaterial(m) + t == EncodeTextureMaterial(m.textured) + t1;
    TextureMaterialRoundTrip(m.textured, t1);
    ColorRoundTrip(m.ambient, t2);
    ColorRoundTrip(m.diffuse, t3);
    ColorRoundTrip(m.emissive, t);
  }

  lemma PhongMaterialRoundTrip(m: PhongMaterial, t: seq<Byte>)
    requires TextureMaterialEncodable(m.lambert.textured)
    ensures DecodePhongMaterial(EncodePhongMaterial(m) + t) == Parsed(NormPhong(m), t)
  {
    var t3 := LeU64(m.specularity) + t;
    var t2 := LeU64(m.shininess) + t3;
    var t1 := EncodeColor(m.specular) + t2;
    assert EncodePhongMaterial(m) + t == EncodeLambertMaterial(m.lambert) + t1;
    LambertMaterialRoundTrip(m.lambert, t1);
    ColorRoundTrip(m.specular, t2);
    ReadU64After(m.shininess, t3, 0);
    ReadU64After(m.specularity, t, 0);
  }

  /** The body a variant writes reads back under its tag. */
  lemma MaterialBodyRoundTrip(m: MeshMaterial, v: U32, t: seq<Byte>)
    requires MaterialEncodable(m)
    ensures DecodeMaterialBody(MaterialTag(m), MaterialBody(m, v) + t, v) == Parsed(NormMaterial(m), t)
  {
    match m
    case Base(b) =>
      BaseMaterialRoundTrip(b, t);
      BaseDispatch(EncodeBaseMaterial(b) + t, v, b, t);
    case Textured(x) =>
      TextureMaterialRoundTrip(x, t);
      TexturedDispatch(EncodeTextureMaterial(x) + t, v, NormTextureMaterial(x), t);
    case Pbr(p) =>
      PbrMaterialRoundTrip(p, v, t);
      PbrDispatch(EncodePbrMaterial(p, v) + t, v, NormPbr(p), t);
    case Lambert(l) =>
      LambertMaterialRoundTrip(l, t);
      LambertDispatch(EncodeLambertMaterial(l) + t, v, NormLambert(l), t);
    case Phong(p) =>
      PhongMaterialRoundTrip(p, t);
      PhongDispatch(EncodePhongMaterial(p) + t, v, NormPhong(p), t);
  }

  // Each tag hands the whole body to its variant's reader.

  lemma BaseDispatch(s: seq<Byte>, v: U32, q: BaseMaterial, t: seq<Byte>)
    requires DecodeBaseMaterial(s) == Parsed(q, t)
    ensures DecodeMaterialBody(TagColor, s, v) == Parsed(Base(q), t)
  {
  }

  lemma TexturedDispatch(s: seq<Byte>, v: U32, q: TextureMaterial, t: seq<Byte>)
    requires DecodeTextureMaterial(s) == Parsed(q, t)
    ensures DecodeMaterialBody(TagTexture, s, v) == Parsed(Textured(q), t)
  {
  }

  lemma PbrDispatch(s: seq<Byte>, v: U32, q: PbrMaterial, t: seq<Byte>)
    requires DecodePbrMaterial(s, v) == Parsed(q, t)
    ensures DecodeMaterialBody(TagPbr, s, v) == Parsed(Pbr(q), t)
  {
  }

  lemma LambertDispatch(s: seq<Byte>, v: U32, q: LambertMaterial, t: seq<Byte>)
    requires DecodeLambertMaterial(s) == Parsed(q, t)
    ensures DecodeMaterialBody(TagLambert, s, v) == Parsed(Lambert(q), t)
  {
  }

  lemma PhongDispatch(s: seq<Byte>, v: U32, q: PhongMaterial, t: seq<Byte>)
    requires DecodePhongMaterial(s) == Parsed(q, t)
    ensures DecodeMaterialBody(TagPhong, s, v) == Parsed(Phong(q), t)
  {
  }

  /** A tagged material of any of the five variants reads back as the same variant. */
  lemma MaterialRoundTrip(m: MeshMaterial, v: U32, t: seq<Byte>)
    requires MaterialEncodable(m)
    ensures DecodeMaterial(EncodeMaterial(m, v) + t, v) == Parsed(NormMaterial(m), t)
  {
    var tag, body := MaterialTag(m), MaterialBody(m, v);
    Regroup2(LeU32(tag), body, t);
    ReadU32After(tag, body + t, 0);
    MaterialBodyRoundTrip(m, v, t);
  }

  /** A material list reads back element by element. */
  lemma MaterialsRoundTrip(ms: seq<MeshMaterial>, v: U32, t: seq<Byte>)
    requires Fits32(|ms|) && forall m :: m in ms ==> MaterialEncodable(m)
    ensures DecodeMaterials(EncodeMaterials(ms, v) + t, v) == Parsed(Map(ms, NormMaterial), t)
  {
    assert ItemsRoundTrip(ms, MaterialEncoder(v), MaterialDecoder(v), NormMaterial) by {
      forall i, u | 0 <= i < |ms|
        ensures MaterialDecoder(v)(MaterialEncoder(v)(ms[i]) + u) == Parsed(NormMaterial(ms[i]), u)
      {
        MaterialRoundTrip(ms[i], v, u);
      }
    }
    CountedRoundTrip(ms, MaterialEncoder(v), MaterialDecoder(v), NormMaterial, t, 0);
  }

  /** A counted list whose items read back unchanged reads back whole. */
  lemma SameCountedRoundTrip<T>(xs: seq<T>, enc: T -> seq<Byte>, dec: seq<Byte> -> Parsed<T>, t: seq<Byte>, d: U32)
    requires Fits32(|xs|) && ItemsRoundTrip(xs, enc, dec, Id)
    ensures DecodeCounted(EncodeCounted(xs, enc) + t, d, dec) == Parsed(Counted(|xs| as U32, xs), t)
  {
    CountedRoundTrip(xs, enc, dec, Id, t, d);
    assert Map(xs, Id) == xs;
  }

  lemma FaceRoundTrip(f: Face, t: seq<Byte>)
    ensures DecodeFace(EncodeFace(f) + t) == Parsed(NormFace(f), t)
  {
    ReadU32sAfter(f.vertex, t);
  }

  /** A face group reads back with batch id 0 and every face reduced to its vertex indices. */
  lemma TriangleRoundTrip(g: MeshTriangle, t: seq<Byte>)
    requires TriangleEncodable(g)
    ensures DecodeTriangle(EncodeTriangle(g) + t) == Parsed(NormTriangle(g), t)
  {
    assert ItemsRoundTrip(g.faces, EncodeFace, DecodeFace, NormFace) by {
      forall i, u | 0 <= i < |g.faces| ensures DecodeFace(EncodeFace(g.faces[i]) + u) == Parsed(NormFace(g.faces[i]), u) {
        FaceRoundTrip(g.faces[i], u);
      }
    }
    CountedRoundTrip(g.faces, EncodeFace, DecodeFace, NormFace, t, 0);
  }

  lemma OptMatRoundTrip(m: Option<Mat4>, t: seq<Byte>)
    ensures DecodeOptMat(EncodeOptMat(m) + t) == Parsed(m, t)
  {
    match m
    case Some(x) =>
      assert EncodeOptMat(m) + t == [1] + (EncodeMat(x) + t);
      ReadU8After(1, EncodeMat(x) + t, 0);
      MatRoundTrip(x, t);
    case None =>
      assert EncodeOptMat(m) + t == [0] + t;
      ReadU8After(0, t, 0);
  }

  /** Outline groups consume nothing, however many the count asks for. */
  lemma {:induction false} OutlinesReadNothing(gs: seq<MeshOutline>, s: seq<Byte>)
    ensures DecodeAll(|gs|, s, DecodeOutline) == Parsed(Map(gs, NormOutline), s)
    decreases |gs|
  {
    if gs != [] {
      OutlinesReadNothing(gs[1..], s);
      assert [NormOutline(gs[0])] + Map(gs[1..], NormOutline) == Map(gs, NormOutline);
    }
  }

  /** A counted list of outline groups reads back its count, and then stops at the first group's edge count. */
  lemma OutlinesCounted(gs: seq<MeshOutline>, t: seq<Byte>, d: U32)
    requires Fits32(|gs|)
    ensures DecodeCounted(EncodeCounted(gs, EncodeOutline) + t, d, DecodeOutline)
         == Parsed(Counted(|gs| as U32, Map(gs, NormOutline)), EncodeAll(gs, EncodeOutline) + t)
  {
    CountAfter(gs, EncodeOutline, t, d);
    OutlinesReadNothing(gs, EncodeAll(gs, EncodeOutline) + t);
  }

  lemma VertexItemsRoundTrip(n: MeshNode)
    ensures ItemsRoundTrip(n.vertices, EncodeVec3F, DecodeVec3F, Id)
    ensures ItemsRoundTrip(n.normals, EncodeVec3F, DecodeVec3F, Id)
    ensures ItemsRoundTrip(n.colors, EncodeColor, DecodeColor, Id)
    ensures ItemsRoundTrip(n.texCoords, EncodeVec2F, DecodeVec2F, Id)
  {
    forall x, u ensures DecodeVec3F(EncodeVec3F(x) + u) == Parsed(Id(x), u) {
      Vec3FRoundTrip(x, u);
    }
    forall x, u ensures DecodeColor(EncodeColor(x) + u) == Parsed(Id(x), u) {
      ColorRoundTrip(x, u);
    }
    forall x, u ensures DecodeVec2F(EncodeVec2F(x) + u) == Parsed(Id(x), u) {
      Vec2FRoundTrip(x, u);
    }
  }

  lemma FaceGroupItemsRoundTrip(n: MeshNode)
    requires forall g :: g in n.faceGroup ==> TriangleEncodable(g)
    ensures ItemsRoundTrip(n.faceGroup, EncodeTriangle, DecodeTriangle, NormTriangle)
  {
    forall i, u | 0 <= i < |n.faceGroup|
      ensures DecodeTriangle(EncodeTriangle(n.faceGroup[i]) + u) == Parsed(NormTriangle(n.faceGroup[i]), u)
    {
      TriangleRoundTrip(n.faceGroup[i], u);
    }
  }

  /**
   * A node reads back with its face groups normalised, but every outline
   * group leaves the four bytes of its edge count unread: the reader
   * stops short of the end of the node by exactly those counts.
   */
  lemma NodeReadStopsShort(n: MeshNode, t: seq<Byte>)
    requires NodeCountsFit(n)
    ensures DecodeNode(EncodeNode(n) + t) == Parsed(NormNode(n), EncodeAll(n.edgeGroup, EncodeOutline) + t)
  {
    var a := EncodeCounted(n.vertices, EncodeVec3F);
    var b := EncodeCounted(n.normals, EncodeVec3F);
    var c := EncodeCounted(n.colors, EncodeColor);
    var d := EncodeCounted(n.texCoords, EncodeVec2F);
    var m := EncodeOptMat(n.mat);
    var f := EncodeCounted(n.faceGroup, EncodeTriangle);
    var e := EncodeCounted(n.edgeGroup, EncodeOutline);
    var t6 := e + t;
    var t5 := f + t6;
    var t4 := m + t5;
    var t3 := d + t4;
    var t2 := c + t3;
    var t1 := b + t2;
    Regroup7(a, b, c, d, m, f, e, t);
    VertexItemsRoundTrip(n);
    FaceGroupItemsRoundTrip(n);
    SameCountedRoundTrip(n.vertices, EncodeVec3F, DecodeVec3F, t1, 0);
    SameCountedRoundTrip(n.normals, EncodeVec3F, DecodeVec3F, t2, |n.vertices| as U32);
    SameCountedRoundTrip(n.colors, EncodeColor, DecodeColor, t3, |n.normals| as U32);
    SameCountedRoundTrip(n.texCoords, EncodeVec2F, DecodeVec2F, t4, |n.colors| as U32);
    OptMatRoundTrip(n.mat, t5);
    CountedRoundTrip(n.faceGroup, EncodeTriangle, DecodeTriangle, NormTriangle, t6, |n.texCoords| as U32);
    OutlinesCounted(n.edgeGroup, t, |n.faceGroup| as U32);
  }

  /** Without outline groups a node reads back whole. */
  lemma NodeRoundTrip(n: MeshNode, t: seq<Byte>)
    requires NodeEncodable(n)
    ensures DecodeNode(EncodeNode(n) + t) == Parsed(NormNode(n), t)
  {
    NodeReadStopsShort(n, t);
  }

  /** One outline group with `k` edges: the reader is left at the group's count instead of after the node. */
  lemma OutlineDesyncs(n: MeshNode, k: nat, t: seq<Byte>)
    requires NodeCountsFit(n) && |n.edgeGroup| == 1 && |n.edgeGroup[0].edges| == k && k < TwoTo32
    ensures DecodeNode(EncodeNode(n) + t).rest == LeU32(k as U32) + t
    ensures DecodeNode(EncodeNode(n) + t).value.edgeGroup == [MeshOutline(0, [])]
  {
    var g := n.edgeGroup[0];
    assert EncodeAll(n.edgeGroup, EncodeOutline) == LeU32(k as U32) by {
      assert n.edgeGroup[1..] == [];
      assert EncodeAll(n.edgeGroup, EncodeOutline) == EncodeOutline(g) + [];
    }
    assert Map(n.edgeGroup, NormOutline) == [MeshOutline(0, [])];
    NodeReadStopsShort(n, t);
  }

  lemma NodesRoundTrip(ns: seq<MeshNode>, t: seq<Byte>)
    requires Fits32(|ns|) && forall n :: n in ns ==> NodeEncodable(n)
    ensures DecodeNodes(EncodeNodes(ns) + t) == Parsed(Map(ns, NormNode), t)
  {
    assert ItemsRoundTrip(ns, EncodeNode, DecodeNode, NormNode) by {
      forall i, u | 0 <= i < |ns| ensures DecodeNode(EncodeNode(ns[i]) + u) == Parsed(NormNode(ns[i]), u) {
        NodeRoundTrip(ns[i], u);
      }
    }
    CountedRoundTrip(ns, EncodeNode, DecodeNode, NormNode, t, 0);
  }

  lemma CodeRoundTrip(code: U32, v: U32, t: seq<Byte>, d: U32)
    ensures DecodeCode(EncodeCode(code, v) + t, v, d) == Parsed(if v == V4 then code else d, t)
  {
    if v == V4 {
      ReadU32After(code, t, d);
    } else {
      assert EncodeCode(code, v) + t == t;
    }
  }

  /** A base mesh reads back, its code word only in version 4. */
  lemma BaseMeshRoundTrip(b: BaseMesh, v: U32, t: seq<Byte>)
    requires BaseMeshEncodable(b)
    ensures DecodeBaseMesh(EncodeBaseMesh(b, v) + t, v) == Parsed(NormBaseMesh(b, v), t)
  {
    var t2 := EncodeCode(b.code, v) + t;
    var t1 := EncodeNodes(b.nodes) + t2;
    Regroup3(EncodeMaterials(b.materials, v), EncodeNodes(b.nodes), EncodeCode(b.code, v), t);
    MaterialsRoundTrip(b.materials, v, t1);
    NodesRoundTrip(b.nodes, t2);
    CodeRoundTrip(b.code, v, t, 0);
  }

  /** Feature ids read back from version 3 on, and an empty list at every version. */
  lemma FeaturesRoundTrip(fs: seq<U64>, v: U32, t: seq<Byte>)
    requires Fits32(|fs|) && (v >= V3 || fs == [])
    ensures DecodeFeatures(EncodeFeatures(fs) + t, v) == Parsed(fs, t)
  {
    var body := EncodeU64s(fs) + t;
    assert EncodeFeatures(fs) + t == LeU32(U32Of(|fs|)) + body;
    ReadU32After(U32Of(|fs|), body, 0);
    if v < V3 {
      assert body == t;
      assert ReadU32s(t, 0) == Parsed([], t) by {
        assert t[..0] == [];
      }
    } else {
      ReadU64sAfter(fs, t);
    }
  }

  /**
   * Before version 3 a single feature id reads back as its low half, and
   * its high four (zero) bytes are left for the next field.
   */
  lemma FeaturesNarrowedBeforeV3(x: U32, t: seq<Byte>)
    ensures DecodeFeatures(EncodeFeatures([x as U64]) + t, V2) == Parsed([x as U64], [0, 0, 0, 0] + t)
  {
    assert LeU64(x as U64) == LeU32(x) + [0, 0, 0, 0] by {
      LeBytesSplit(x as nat, 4, 4);
      ShiftSmall(x as nat, 4);
    }
    var rest := [0, 0, 0, 0] + t;
    assert [x][1..] == [] && [x as U64][1..] == [];
    assert EncodeAll([x], LeU32) == LeU32(x) + EncodeAll([], LeU32);
    assert EncodeAll([x as U64], LeU64) == LeU64(x as U64) + EncodeAll([], LeU64);
    assert EncodeFeatures([x as U64]) + t == LeU32(1) + (EncodeU32s([x]) + rest);
    ReadU32After(1, EncodeU32s([x]) + rest, 0);
    ReadU32sAfter([x], rest);
    assert Map([x], Widen) == [x as U64];
  }

  /** The bytes of an instance followed by `t`, regrouped field by field. */
  lemma InstanceBytes(i: InstanceMesh, v: U32, t: seq<Byte>)
    ensures EncodeInstance(i, v) + t
         == EncodeCounted(i.transfors, EncodeMat) + (EncodeFeatures(i.features)
            + (EncodeU64s(i.bbox) + (EncodeBaseMesh(i.mesh, v) + (LeU64(i.hash) + t))))
  {
    Regroup5(EncodeCounted(i.transfors, EncodeMat), EncodeFeatures(i.features), EncodeU64s(i.bbox),
             EncodeBaseMesh(i.mesh, v), LeU64(i.hash), t);
  }

  /** The bytes of a mesh followed by `t`, regrouped part by part. */
  lemma MeshBytes(m: Mesh, t: seq<Byte>)
    ensures EncodeMesh(m) + t
         == Signature + (LeU32(m.version) + (EncodeBaseMesh(m.base, m.version)
            + (EncodeInstances(m.instanceNode, m.version) + (EncodeCode(m.base.code, m.version) + t))))
  {
    Regroup5(Signature, LeU32(m.version), EncodeBaseMesh(m.base, m.version), EncodeInstances(m.instanceNode, m.version),
             EncodeCode(m.base.code, m.version), t);
  }

  /** An instance reads back when its feature ids are readable at this version. */
  lemma InstanceRoundTrip(i: InstanceMesh, v: U32, t: seq<Byte>)
    requires InstanceEncodable(i, v)
    ensures DecodeInstance(EncodeInstance(i, v) + t, v) == Parsed(NormInstance(i, v), t)
  {
    var t4 := LeU64(i.hash) + t;
    var t3 := EncodeBaseMesh(i.mesh, v) + t4;
    var t2 := EncodeU64s(i.bbox) + t3;
    var t1 := EncodeFeatures(i.features) + t2;
    InstanceBytes(i, v, t);
    forall x, u ensures DecodeMat(EncodeMat(x) + u) == Parsed(Id(x), u) {
      MatRoundTrip(x, u);
    }
    SameCountedRoundTrip(i.transfors, EncodeMat, DecodeMat, t1, 0);
    FeaturesRoundTrip(i.features, v, t2);
    ReadU64sAfter(i.bbox, t3);
    BaseMeshRoundTrip(i.mesh, v, t4);
    ReadU64After(i.hash, t, 0);
  }

  lemma InstancesRoundTrip(insts: seq<InstanceMesh>, v: U32, t: seq<Byte>)
    requires Fits32(|insts|) && forall i :: i in insts ==> InstanceEncodable(i, v)
    ensures DecodeInstances(EncodeInstances(insts, v) + t, v) == Parsed(Map(insts, InstanceNormalizer(v)), t)
  {
    assert ItemsRoundTrip(insts, InstanceEncoder(v), InstanceDecoder(v), InstanceNormalizer(v)) by {
      forall k, u | 0 <= k < |insts|
        ensures InstanceDecoder(v)(InstanceEncoder(v)(insts[k]) + u) == Parsed(InstanceNormalizer(v)(insts[k]), u)
      {
        InstanceRoundTrip(insts[k], v, u);
      }
    }
    CountedRoundTrip(insts, InstanceEncoder(v), InstanceDecoder(v), InstanceNormalizer(v), t, 0);
  }

  /**
   * The round trip: a mesh within `MeshEncodable` reads back as `NormMesh`
   * of itself, at every version, and leaves exactly what followed it.
   */
  lemma MeshRoundTrip(m: Mesh, t: seq<Byte>)
    requires MeshEncodable(m)
    ensures DecodeMesh(EncodeMesh(m) + t) == Parsed(NormMesh(m), t)
  {
    var v := m.version;
    var t4 := EncodeCode(m.base.code, v) + t;
    var t3 := EncodeInstances(m.instanceNode, v) + t4;
    var t2 := EncodeBaseMesh(m.base, v) + t3;
    var t1 := LeU32(v) + t2;
    MeshBytes(m, t);
    ReadSomeAfter(Signature, t1);
    ReadU32After(v, t2, 0);
    BaseMeshRoundTrip(m.base, v, t3);
    InstancesRoundTrip(m.instanceNode, v, t4);
    CodeRoundTrip(m.base.code, v, t, NormBaseMesh(m.base, v).code);
  }

  // ----- What the accessors see after a round trip -----

  /**
   * A material read back from the file answers the accessors of mst/mesh.go
   * as the material written does: the same colour, the same emissive colour,
   * a texture exactly when the written one had one, and that texture with
   * only its id cleared.
   */
  lemma AccessorsSurviveMaterialRoundTrip(m: MeshMaterial, v: U32, t: seq<Byte>)
    requires MaterialEncodable(m)
    ensures var d := DecodeMaterial(EncodeMaterial(m, v) + t, v).value;
            && !d.NoVariant?
            && d.GetColor() == m.GetColor()
            && d.GetEmissive() == m.GetEmissive()
            && (d.HasTexture() <==> m.HasTexture())
            && (m.HasTexture() ==> d.GetTexture() == Some(NormTexture(m.GetTexture().value)))
  {
    MaterialRoundTrip(m, v, t);
  }

  /** `NewMesh` writes as 28 bytes (header, two empty lists, code, no instances, code) and reads back unchanged. */
  lemma NewMeshRoundTrip(t: seq<Byte>)
    ensures |EncodeMesh(NewMesh())| == 28
    ensures DecodeMesh(EncodeMesh(NewMesh()) + t) == Parsed(NewMesh(), t)
  {
    var m := NewMesh();
    assert MeshEncodable(m);
    MeshRoundTrip(m, t);
    assert NormMesh(m) == m;
  }

  /** The node and material counts of a mesh survive a write followed by a read. */
  lemma CountsSurviveRoundTrip(m: Mesh, t: seq<Byte>)
    requires MeshEncodable(m)
    ensures var d := DecodeMesh(EncodeMesh(m) + t).value;
            NodeCount(d) == NodeCount(m) && MaterialCount(d) == MaterialCount(m)
  {
    MeshRoundTrip(m, t);
  }
}
