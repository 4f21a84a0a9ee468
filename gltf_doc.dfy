/**
 * The glTF 2.0 document that mst/gltf.go fills, with the parts of the
 * github.com/qmuntal/gltf types the builder touches: one growing binary
 * buffer, buffer views, accessors, meshes of primitives, nodes, one scene,
 * materials, textures, images and samplers. Cross references are indices
 * into the document's lists, as in the glTF JSON (section 3.6 of the glTF
 * 2.0 specification describes buffers, buffer views and accessors).
 *
 * The Go document holds pointers to its entries; an entry is never changed
 * after it is appended, except the first scene (its node list grows) and the
 * first buffer (its bytes grow), so entries are values here and `Buffer` is
 * a class.
 */
module GltfDoc {
  import opened Wrappers
  import opened LittleEndian
  import opened MstTypes

  /** `GLTF_VERSION`. */
  const GltfVersion: string := "2.0"
  /** `specular.ExtensionName`. */
  const SpecularGlossinessName: string := "KHR_materials_pbrSpecularGlossiness"

  /** `gltf.Buffer`: its byte length and its bytes. */
  class Buffer {
    var byteLength: int
    var data: seq<Byte>

    constructor ()
      ensures byteLength == 0 && data == []
    {
      byteLength := 0;
      data := [];
    }

    /** `ByteLength` counts the bytes of `Data`. */
    predicate Consistent()
      reads this
    {
      byteLength == |data|
    }

    /** `ByteLength += len(chunk)` and `Data = append(Data, chunk...)`, as every builder ends. */
    method Append(chunk: seq<Byte>)
      modifies this
      ensures byteLength == old(byteLength) + |chunk| && data == old(data) + chunk
      ensures Consistent() <==> old(Consistent())
    {
      byteLength := byteLength + |chunk|;
      data := data + chunk;
    }
  }

  /** `buildContext`: the material offset and the buffer views of the node being built. */
  class BuildContext {
    var mtlSize: int
    var bvIndex: int
    var bvPos: int
    var bvTex: int
    var bvNorm: int

    /** `&buildContext{}` followed by `ctx.mtlSize = mtlSize`. */
    constructor (mtlSize: int)
      ensures this.mtlSize == mtlSize && bvIndex == 0 && bvPos == 0 && bvTex == 0 && bvNorm == 0
    {
      this.mtlSize := mtlSize;
      bvIndex, bvPos, bvTex, bvNorm := 0, 0, 0, 0;
    }
  }

  /** `gltf.BufferView`: a byte range of a buffer. */
  datatype BufferView = BufferView(buffer: int, byteOffset: int, byteLength: int)

  datatype ComponentType = ComponentFloat | ComponentUint
  datatype AccessorType = AccessorScalar | AccessorVec2 | AccessorVec3 | AccessorVec4

  /**
   * An accessor's `BufferView` pointer: unset, the address of a copied
   * index, or the address of the `bvPos` field of a build context (which
   * then reads whatever that field holds when the document is encoded).
   */
  datatype ViewRef = NoView | ViewIndex(index: int) | PosSlot(ctx: BuildContext)

  /** `gltf.Accessor`; `min` and `max` are empty when unset. */
  datatype Accessor = Accessor(
    bufferView: ViewRef,
    byteOffset: int,
    componentType: ComponentType,
    accessorType: AccessorType,
    count: int,
    min: seq<real>,
    max: seq<real>)

  /** The bytes an accessor's elements take: 1, 2, 3 or 4 components of four bytes (float32 or uint32) each. */
  function AccessorLength(a: Accessor): int {
    match a.accessorType
    case AccessorScalar => 4 * a.count
    case AccessorVec2 => 8 * a.count
    case AccessorVec3 => 12 * a.count
    case AccessorVec4 => 16 * a.count
  }

  /**
   * The bytes a glTF reader takes for an accessor that names a buffer view:
   * `count` elements of four-byte components (float32 or uint32), starting
   * `byteOffset` bytes into the view; `None` when the view does not exist or
   * the elements do not fit in the view or the view in the buffer (section
   * 3.6.2 of the glTF 2.0 specification).
   */
  function ReadAccessor(a: Accessor, views: seq<BufferView>, data: seq<Byte>): (r: Option<seq<Byte>>)
    ensures r.Some? ==> |r.value| == AccessorLength(a)
  {
    if !a.bufferView.ViewIndex? || !(0 <= a.bufferView.index < |views|) then None
    else
      var v := views[a.bufferView.index];
      var len := AccessorLength(a);
      if 0 <= v.byteOffset && 0 <= a.byteOffset && 0 <= a.count && a.byteOffset + len <= v.byteLength
         && v.byteOffset + v.byteLength <= |data|
      then Some(data[v.byteOffset + a.byteOffset..v.byteOffset + a.byteOffset + len])
      else None
  }

  datatype Mode = Triangles | LineStrip

  /** `gltf.Primitive`: its material, its index accessor and its attribute accessors. */
  datatype Primitive = Primitive(material: int, indices: int, attributes: map<string, int>, mode: Mode)

  /** `gltf.Mesh`. */
  datatype GltfMesh = GltfMesh(primitives: seq<Primitive>)

  type Quat = q: seq<F32> | |q| == 4 witness [0, 0, 0, 0]

  /** What `mat4.Decompose` yields for a transform, rounded to float32. */
  datatype Trs = Trs(translation: Vec3F, rotation: Quat, scale: Vec3F)

  /** The accessors an `EXT_mesh_gpu_instancing` node names. */
  datatype Instancing = Instancing(translation: int, scale: int, rotation: int)

  /** `gltf.Node`: its mesh, and a transform or an instancing extension when set. */
  datatype Node = Node(mesh: int, transform: Option<Trs>, instancing: Option<Instancing>)

  datatype Scene = Scene(nodes: seq<int>)

  datatype Wrap = WrapRepeat | WrapClampToEdge
  datatype Sampler = Sampler(wrapS: Wrap, wrapT: Wrap)
  datatype Image = Image(mimeType: string, bufferView: int)
  /** `gltf.Texture`: its sampler and its image. */
  datatype GltfTexture = GltfTexture(sampler: int, source: int)

  datatype AlphaMode = AlphaOpaque | AlphaMask | AlphaBlend

  /** `specular.PBRSpecularGlossiness`. */
  datatype SpecularGlossiness = SpecularGlossiness(diffuse: seq<real>, specular: Option<seq<real>>, glossiness: Option<F64>)

  /** `gltf.Material` as `fillMaterials` leaves it; a nil base colour is `None`. */
  datatype Material = Material(
    doubleSided: bool,
    alphaMode: AlphaMode,
    baseColor: Option<seq<real>>,
    baseColorTexture: Option<int>,
    metallic: real,
    roughness: real,
    emissive: seq<real>,
    normalTexture: Option<int>,
    specularGlossiness: Option<SpecularGlossiness>)

  /** `gltf.Document`. */
  class Document {
    var version: string
    var scene: Option<int>
    var scenes: seq<Scene>
    var buffers: seq<Buffer>
    var bufferViews: seq<BufferView>
    var accessors: seq<Accessor>
    var meshes: seq<GltfMesh>
    var nodes: seq<Node>
    var materials: seq<Material>
    var textures: seq<GltfTexture>
    var images: seq<Image>
    var samplers: seq<Sampler>
    var extensionsUsed: seq<string>

    /** `&gltf.Document{}`. */
    constructor ()
      ensures version == "" && scene == None && scenes == [] && buffers == []
      ensures bufferViews == [] && accessors == [] && meshes == [] && nodes == []
      ensures materials == [] && textures == [] && images == [] && samplers == [] && extensionsUsed == []
    {
      version, scene, scenes, buffers := "", None, [], [];
      bufferViews, accessors, meshes, nodes := [], [], [], [];
      materials, textures, images, samplers, extensionsUsed := [], [], [], [], [];
    }

    /** The first buffer, which every builder appends to. */
    function Buffer0(): Buffer
      reads this
      requires |buffers| > 0
    {
      buffers[0]
    }

    /** The document's fields, as one value. */
    function State(): DocState
      reads this
    {
      DocState(version, scene, scenes, buffers, bufferViews, accessors, meshes, nodes,
               materials, textures, images, samplers, extensionsUsed)
    }

    /**
     * What the builder keeps: a buffer and a scene to append to, the
     * buffer's length counting its bytes, every view inside the buffer and
     * every index naming an existing entry.
     */
    predicate Valid()
      reads this, buffers
    {
      |buffers| > 0 && buffers[0].Consistent() && Within(State(), buffers[0].byteLength)
    }
  }

  /** The fields of a `Document`. */
  datatype DocState = DocState(
    version: string,
    scene: Option<int>,
    scenes: seq<Scene>,
    buffers: seq<Buffer>,
    bufferViews: seq<BufferView>,
    accessors: seq<Accessor>,
    meshes: seq<GltfMesh>,
    nodes: seq<Node>,
    materials: seq<Material>,
    textures: seq<GltfTexture>,
    images: seq<Image>,
    samplers: seq<Sampler>,
    extensionsUsed: seq<string>)

  /** Every index in the document names an existing entry, and every view lies in the first `len` bytes of buffer 0. */
  predicate Within(s: DocState, len: int) {
    |s.scenes| > 0
    && ViewsWithin(s.bufferViews, len)
    && AccessorsWithin(s.accessors, |s.bufferViews|)
    && MeshesWithin(s.meshes, |s.accessors|)
    && NodesWithin(s.nodes, |s.meshes|, |s.accessors|)
    && ScenesWithin(s.scenes, |s.nodes|)
    && MaterialsWithin(s.materials, |s.textures|)
    && TexturesWithin(s.textures, |s.samplers|, |s.images|)
    && ImagesWithin(s.images, |s.bufferViews|)
  }

  /** Every view is a range of buffer 0, which holds `len` bytes. */
  predicate ViewsWithin(views: seq<BufferView>, len: int) {
    forall v <- views :: v.buffer == 0 && 0 <= v.byteOffset && 0 <= v.byteLength && v.byteOffset + v.byteLength <= len
  }

  /** Accessors that name a view by index name one of `n` views. */
  predicate AccessorsWithin(accs: seq<Accessor>, n: int) {
    forall a <- accs :: a.bufferView.ViewIndex? ==> 0 <= a.bufferView.index < n
  }

  /** A primitive's indices and attributes name some of `n` accessors. */
  predicate PrimitiveWithin(p: Primitive, n: int) {
    0 <= p.indices < n && forall k <- p.attributes :: 0 <= p.attributes[k] < n
  }

  predicate MeshesWithin(meshes: seq<GltfMesh>, n: int) {
    forall m <- meshes, p <- m.primitives :: PrimitiveWithin(p, n)
  }

  predicate InstancingIn(g: Instancing, n: int) {
    0 <= g.translation < n && 0 <= g.scale < n && 0 <= g.rotation < n
  }

  /** Nodes name one of `nMeshes` meshes and, when instanced, some of `nAccs` accessors. */
  predicate NodesWithin(nodes: seq<Node>, nMeshes: int, nAccs: int) {
    forall n <- nodes :: 0 <= n.mesh < nMeshes && (n.instancing.Some? ==> InstancingIn(n.instancing.value, nAccs))
  }

  predicate ScenesWithin(scenes: seq<Scene>, n: int) {
    forall s <- scenes, i <- s.nodes :: 0 <= i < n
  }

  /** Materials name some of `n` textures. */
  predicate MaterialsWithin(materials: seq<Material>, n: int) {
    forall m <- materials :: (m.baseColorTexture.Some? ==> 0 <= m.baseColorTexture.value < n)
                          && (m.normalTexture.Some? ==> 0 <= m.normalTexture.value < n)
  }

  predicate TexturesWithin(textures: seq<GltfTexture>, nSamplers: int, nImages: int) {
    forall t <- textures :: 0 <= t.sampler < nSamplers && 0 <= t.source < nImages
  }

  predicate ImagesWithin(images: seq<Image>, n: int) {
    forall i <- images :: 0 <= i.bufferView < n
  }

  /** `CreateDoc`: version 2.0, scene 0 of one empty scene, and one empty buffer. */
  method CreateDoc() returns (doc: Document)
    ensures fresh(doc) && |doc.buffers| == 1 && fresh(doc.buffers[0])
    ensures doc.version == GltfVersion && doc.scene == Some(0) && doc.scenes == [Scene([])]
    ensures doc.buffers[0].byteLength == 0 && doc.buffers[0].data == []
    ensures doc.bufferViews == [] && doc.accessors == [] && doc.meshes == [] && doc.nodes == []
    ensures doc.materials == [] && doc.textures == [] && doc.images == [] && doc.samplers == [] && doc.extensionsUsed == []
    ensures doc.Valid()
  {
    doc := new Document();
    doc.version := GltfVersion;
    var srcIndex := 0;
    doc.scene := Some(srcIndex);
    doc.scenes := doc.scenes + [Scene([])];
    var b := new Buffer();
    doc.buffers := doc.buffers + [b];
  }
}
