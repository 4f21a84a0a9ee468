/**
 * The MST mesh data model (mst/mesh.go): textures, the five material
 * variants, faces, triangle and outline groups, nodes, instanced meshes and
 * the mesh itself, with the getters the rest of the package uses.
 *
 * Go's fixed arrays become sequences of a fixed length. Go pointers that the
 * codec writes through unconditionally (nodes, faces, groups, instance
 * meshes, their bounding boxes) are values here; pointers the code tests for
 * nil (a material's textures, a node's matrix, a face's normal and uv
 * indices) are `Option`s. Floats are bit patterns (`F32`, `F64`).
 */
module MstTypes {
  import opened Wrappers
  import opened LittleEndian

  /** `MESH_SIGNATURE`, the ASCII bytes of "fwtm". */
  const Signature: seq<Byte> := [0x66, 0x77, 0x74, 0x6D]

  const V1: U32 := 1
  const V2: U32 := 2
  const V3: U32 := 3
  const V4: U32 := 4

  /** The material tags `MESH_TRIANGLE_MATERIAL_TYPE_*`. */
  const TagColor: U32 := 0
  const TagTexture: U32 := 1
  const TagPbr: U32 := 2
  const TagLambert: U32 := 3
  const TagPhong: U32 := 4

  type Color = c: seq<Byte> | |c| == 3 witness [0, 0, 0]
  type Vec3F = v: seq<F32> | |v| == 3 witness [0, 0, 0]
  type Vec2F = v: seq<F32> | |v| == 2 witness [0, 0]
  type Idx3 = v: seq<U32> | |v| == 3 witness [0, 0, 0]
  type Size2 = v: seq<U64> | |v| == 2 witness [0, 0]
  /** A `dmat.T`: four rows of four float64, in storage order. */
  type Mat4 = m: seq<F64> | |m| == 16 witness seq(16, _ => 0)
  /** A bounding box `[6]float64`: min x, y, z, then max x, y, z. */
  type BBox6 = b: seq<F64> | |b| == 6 witness [0, 0, 0, 0, 0, 0]

  const Black: Color := [0, 0, 0]

  /** `Texture`. `id` is a Go `int`, which the codec cannot persist. */
  datatype Texture = Texture(
    id: int,
    name: seq<Byte>,
    size: Size2,
    format: U16,
    pixelType: U16,
    compressed: U16,
    data: seq<Byte>,
    repeated: bool)

  datatype BaseMaterial = BaseMaterial(color: Color, transparency: F32)

  datatype TextureMaterial = TextureMaterial(base: BaseMaterial, texture: Option<Texture>, normal: Option<Texture>)

  datatype PbrMaterial = PbrMaterial(
    textured: TextureMaterial,
    emissive: Color,
    metallic: F32,
    roughness: F32,
    reflectance: F32,
    ambientOcclusion: F32,
    clearCoat: F32,
    clearCoatRoughness: F32,
    clearCoatNormal: Color,
    anisotropy: F32,
    anisotropyDirection: Vec3F,
    thickness: F32,
    subSurfacePower: F32,
    sheenColor: Color,
    subSurfaceColor: Color)

  datatype LambertMaterial = LambertMaterial(textured: TextureMaterial, ambient: Color, diffuse: Color, emissive: Color)

  datatype PhongMaterial = PhongMaterial(lambert: LambertMaterial, specular: Color, shininess: F64, specularity: F64)

  /**
   * A `MeshMaterial` interface value: one of the five variants, or
   * `NoVariant` for nil or any other implementation, which the codec skips.
   */
  datatype MeshMaterial =
    | Base(base: BaseMaterial)
    | Textured(textured: TextureMaterial)
    | Pbr(pbr: PbrMaterial)
    | Lambert(lambert: LambertMaterial)
    | Phong(phong: PhongMaterial)
    | NoVariant
  {
    /** The texture-material part every variant except `Base` embeds. */
    function TexturePart(): (t: TextureMaterial)
      requires !Base? && !NoVariant?
    {
      match this
      case Textured(t) => t
      case Pbr(p) => p.textured
      case Lambert(l) => l.textured
      case Phong(p) => p.lambert.textured
    }

    /** `HasTexture`: false for a base material, otherwise whether a texture is attached. */
    predicate HasTexture()
      requires !NoVariant?
    {
      !Base? && TexturePart().texture.Some?
    }

    /** `GetTexture`: nil for a base material, otherwise the attached texture. */
    function GetTexture(): (t: Option<Texture>)
      requires !NoVariant?
      ensures t.Some? <==> HasTexture()
      ensures !Base? ==> t == TexturePart().texture
    {
      if Base? then None else TexturePart().texture
    }

    /** `HasNormalTexture`, promoted from the texture material. */
    predicate HasNormalTexture()
      requires !Base? && !NoVariant?
    {
      TexturePart().normal.Some?
    }

    /** `GetColor`: the base color every variant embeds. */
    function GetColor(): (c: Color)
      requires !NoVariant?
      ensures Base? ==> c == base.color
      ensures !Base? ==> c == TexturePart().base.color
    {
      if Base? then base.color else TexturePart().base.color
    }

    /**
     * `GetEmissive`: black for base and texture materials, the own emissive
     * color for PBR and Lambert, and Lambert's for Phong.
     */
    function GetEmissive(): (e: Color)
      requires !NoVariant?
      ensures Base? || Textured? ==> e == Black
      ensures Pbr? ==> e == pbr.emissive
      ensures Lambert? ==> e == lambert.emissive
      ensures Phong? ==> e == phong.lambert.emissive
    {
      match this
      case Base(_) => Black
      case Textured(_) => Black
      case Pbr(p) => p.emissive
      case Lambert(l) => l.emissive
      case Phong(p) => p.lambert.emissive
    }
  }

  datatype Face = Face(vertex: Idx3, normal: Option<Idx3>, uv: Option<Idx3>)

  /** `MeshTriangle`: a face group; `batchid` is a Go `int`. */
  datatype MeshTriangle = MeshTriangle(batchid: int, faces: seq<Face>)

  /** `MeshOutline`: an edge group; the batch id and the `[2]int` edges are Go `int`s. */
  datatype MeshOutline = MeshOutline(batchid: int, edges: seq<(int, int)>)

  datatype MeshNode = MeshNode(
    vertices: seq<Vec3F>,
    normals: seq<Vec3F>,
    colors: seq<Color>,
    texCoords: seq<Vec2F>,
    mat: Option<Mat4>,
    faceGroup: seq<MeshTriangle>,
    edgeGroup: seq<MeshOutline>)

  datatype BaseMesh = BaseMesh(materials: seq<MeshMaterial>, nodes: seq<MeshNode>, code: U32)

  datatype InstanceMesh = InstanceMesh(transfors: seq<Mat4>, features: seq<U64>, bbox: BBox6, mesh: BaseMesh, hash: U64)

  /** `Mesh`: the embedded base mesh (whose `code` is also the mesh's), a version and the instances. */
  datatype Mesh = Mesh(base: BaseMesh, version: U32, instanceNode: seq<InstanceMesh>)

  /** `NewMesh`: an empty mesh of the current version 4. */
  function NewMesh(): (m: Mesh)
    ensures m.version == V4
    ensures m.base.materials == [] && m.base.nodes == [] && m.base.code == 0 && m.instanceNode == []
  {
    Mesh(BaseMesh([], [], 0), V4, [])
  }

  /** `NodeCount`: the number of top-level nodes. */
  function NodeCount(m: Mesh): (n: nat)
    ensures n == |m.base.nodes|
  {
    |m.base.nodes|
  }

  /** `MaterialCount`: the number of top-level materials. */
  function MaterialCount(m: Mesh): (n: nat)
    ensures n == |m.base.materials|
  {
    |m.base.materials|
  }
}
