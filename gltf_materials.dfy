/**
 * The materials and textures of mst/gltf.go: `buildTextureBuffer`, which
 * appends a texture's PNG image to the buffer with its view, image and
 * sampler, and `fillMaterials`, which turns each MST material into a glTF
 * material, loads each texture once (textures are shared by their id) and
 * declares the specular-glossiness extension when a Lambert or Phong
 * material needs it.
 *
 * Decoding and PNG-encoding a texture is foreign code: `png` gives the
 * encoded bytes of a texture, `None` when loading it fails. Float32 values
 * read through `value32`.
 */
module GltfMaterials {
  import opened Wrappers
  import opened LittleEndian
  import opened MstTypes
  import opened GltfDoc

  const PngMime: string := "image/png"

  /** A colour byte as a factor: the byte over 255. */
  function Channel(c: Byte): (r: real)
    ensures 0.0 <= r <= 1.0 && r * 255.0 == c as int as real
  {
    c as int as real / 255.0
  }

  /** The three factors of a colour. */
  function Channels(c: Color): (r: seq<real>)
    ensures |r| == 3
  {
    [Channel(c[0]), Channel(c[1]), Channel(c[2])]
  }

  /** The base material every variant embeds, with its colour and transparency. */
  function BaseOf(m: MeshMaterial): BaseMaterial
    requires !m.NoVariant?
  {
    if m.Base? then m.base else m.TexturePart().base
  }

  /** The base colour factor: the colour over 255, then one minus the transparency; unset for an unknown material. */
  function BaseColorFactor(m: MeshMaterial, value32: F32 -> real): Option<seq<real>> {
    if m.NoVariant? then None else Some(Channels(m.GetColor()) + [1.0 - value32(BaseOf(m).transparency)])
  }

  /**
   * The diffuse factor of a Lambert material as written: each channel is
   * the byte divided by 255 in byte arithmetic, converted afterwards.
   */
  function LambertDiffuseAsWritten(c: Color): seq<real> {
    [(c[0] as int / 255) as real, (c[1] as int / 255) as real, (c[2] as int / 255) as real, 1.0]
  }

  /** The diffuse factor of a Lambert material as intended, and as Phong materials compute it: each channel over 255. */
  function LambertDiffuse(c: Color): seq<real> {
    Channels(c) + [1.0]
  }

  /** As written, a diffuse channel is 1 for a byte of 255 and 0 for every other byte. */
  lemma LambertDiffuseAsWrittenIsBinary(c: Color)
    ensures var d := LambertDiffuseAsWritten(c);
            |d| == 4 && d[3] == 1.0 && forall i :: 0 <= i < 3 ==> d[i] == (if c[i] == 255 then 1.0 else 0.0)
  {
    forall i | 0 <= i < 3
      ensures (c[i] as int / 255) as real == (if c[i] == 255 then 1.0 else 0.0)
    {
      ByteOver255(c[i] as int);
    }
  }

  /** Integer division of a byte by 255 is 1 for 255 and 0 below it. */
  lemma ByteOver255(x: int)
    requires 0 <= x < 256
    ensures x / 255 == (if x == 255 then 1 else 0)
  {
  }

  /** As intended, each diffuse channel times 255 gives back the colour byte, and the alpha is 1. */
  lemma LambertDiffuseRecoversColor(c: Color)
    ensures var d := LambertDiffuse(c);
            |d| == 4 && d[3] == 1.0 && forall i :: 0 <= i < 3 ==> d[i] * 255.0 == c[i] as int as real
  {
  }

  /** A mid-grey diffuse colour: as written its factor is black, as intended it is 128/255 in each channel. */
  lemma LambertDiffuseExample()
    ensures LambertDiffuseAsWritten([128, 128, 128]) == [0.0, 0.0, 0.0, 1.0]
    ensures LambertDiffuse([128, 128, 128]) == [128.0 / 255.0, 128.0 / 255.0, 128.0 / 255.0, 1.0]
  {
  }

  /** The specular-glossiness extension of Lambert and Phong materials. */
  function SpecularFor(m: MeshMaterial): Option<SpecularGlossiness> {
    match m
    case Lambert(l) => Some(SpecularGlossiness(LambertDiffuse(l.diffuse), None, None))
    case Phong(p) => Some(SpecularGlossiness(Channels(p.lambert.diffuse) + [1.0], Some(Channels(p.specular)), Some(p.shininess)))
    case _ => None
  }

  predicate UsesSpecular(m: MeshMaterial) {
    m.Lambert? || m.Phong?
  }

  /** The texture of a material's texture part, when it has one. */
  function BaseTexture(m: MeshMaterial): Option<Texture> {
    if m.NoVariant? || m.Base? then None else m.TexturePart().texture
  }

  /** The normal texture of a material's texture part, when it has one. */
  function NormalTexture(m: MeshMaterial): Option<Texture> {
    if m.NoVariant? || m.Base? then None else m.TexturePart().normal
  }

  /**
   * The glTF material `fillMaterials` makes for `m`, given the indices of
   * its textures: double sided, alpha mask, metallic and roughness from a
   * PBR material and 0 and 1 otherwise.
   */
  function MaterialFor(m: MeshMaterial, baseTex: Option<int>, normalTex: Option<int>, value32: F32 -> real): Material {
    Material(
      true, AlphaMask, BaseColorFactor(m, value32), baseTex,
      if m.Pbr? then value32(m.pbr.metallic) else 0.0,
      if m.Pbr? then value32(m.pbr.roughness) else 1.0,
      if m.NoVariant? then [0.0, 0.0, 0.0] else Channels(m.GetEmissive()),
      normalTex, SpecularFor(m))
  }

  /** The factors of a material are those of its variant, and the extension is set exactly for Lambert and Phong. */
  lemma MaterialForFactors(m: MeshMaterial, baseTex: Option<int>, normalTex: Option<int>, value32: F32 -> real)
    requires !m.NoVariant?
    ensures var g := MaterialFor(m, baseTex, normalTex, value32);
            && g.baseColor.Some? && |g.baseColor.value| == 4
            && (forall i :: 0 <= i < 3 ==> g.baseColor.value[i] * 255.0 == m.GetColor()[i] as int as real)
            && (forall i :: 0 <= i < 3 ==> g.emissive[i] * 255.0 == m.GetEmissive()[i] as int as real)
            && (g.specularGlossiness.Some? <==> UsesSpecular(m))
            && (m.Base? || m.Textured? ==> g.emissive == [0.0, 0.0, 0.0])
  {
  }

  /** Whether some material of `ms` needs the specular-glossiness extension, scanning left to right. */
  function AnySpecular(ms: seq<MeshMaterial>): bool {
    ms != [] && (AnySpecular(ms[..|ms| - 1]) || UsesSpecular(ms[|ms| - 1]))
  }

  /** The scan finds exactly the lists with a Lambert or Phong material. */
  lemma {:induction false} AnySpecularExists(ms: seq<MeshMaterial>)
    ensures AnySpecular(ms) <==> exists k :: 0 <= k < |ms| && UsesSpecular(ms[k])
  {
    if ms != [] {
      var init := ms[..|ms| - 1];
      AnySpecularExists(init);
      if exists k :: 0 <= k < |init| && UsesSpecular(init[k]) {
        var k :| 0 <= k < |init| && UsesSpecular(init[k]);
        assert ms[k] == init[k];
      }
      if exists k :: 0 <= k < |ms| && UsesSpecular(ms[k]) {
        var k :| 0 <= k < |ms| && UsesSpecular(ms[k]);
        if k < |init| {
          assert init[k] == ms[k];
        }
      }
    }
  }

  /** The sampler of a texture: repeat in both directions when it repeats, clamp to edge otherwise. */
  function SamplerFor(repeated: bool): (s: Sampler)
    ensures s.wrapS == s.wrapT && (s.wrapS == WrapRepeat <==> repeated) && (s.wrapS == WrapClampToEdge <==> !repeated)
  {
    if repeated then Sampler(WrapRepeat, WrapRepeat) else Sampler(WrapClampToEdge, WrapClampToEdge)
  }

  /** The document after texture `t`, encoded as `b`, is appended at byte `len`: a view, a PNG image, a sampler, a texture. */
  function AddTexture(s: DocState, len: int, t: Texture, b: seq<Byte>): DocState {
    s.(bufferViews := s.bufferViews + [BufferView(0, len, |b|)],
       images := s.images + [Image(PngMime, |s.bufferViews|)],
       samplers := s.samplers + [SamplerFor(t.repeated)],
       textures := s.textures + [GltfTexture(|s.samplers|, |s.images|)])
  }

  /** The sampler and the image bytes a reader finds for texture `k`, `None` when an index or a range is off. */
  function TextureAt(s: DocState, data: seq<Byte>, k: int): Option<(Sampler, seq<Byte>)> {
    if !(0 <= k < |s.textures|) then None
    else
      var tx := s.textures[k];
      if !(0 <= tx.sampler < |s.samplers| && 0 <= tx.source < |s.images|) then None
      else
        var img := s.images[tx.source];
        if !(0 <= img.bufferView < |s.bufferViews|) then None
        else
          var v := s.bufferViews[img.bufferView];
          if 0 <= v.byteOffset && 0 <= v.byteLength && v.byteOffset + v.byteLength <= |data|
          then Some((s.samplers[tx.sampler], data[v.byteOffset..v.byteOffset + v.byteLength]))
          else None
  }

  /**
   * Appending a texture keeps the document within its grown buffer, the new
   * texture reads back the texture's sampler and bytes, and every texture
   * that read back before reads back the same.
   */
  lemma AddTextureReads(s: DocState, data: seq<Byte>, t: Texture, b: seq<Byte>)
    ensures var s' := AddTexture(s, |data|, t, b);
            && (Within(s, |data|) ==> Within(s', |data + b|))
            && TextureAt(s', data + b, |s.textures|) == Some((SamplerFor(t.repeated), b))
            && forall k :: TextureAt(s, data, k).Some? ==> TextureAt(s', data + b, k) == TextureAt(s, data, k)
  {
    var s' := AddTexture(s, |data|, t, b);
    assert (data + b)[|data|..|data| + |b|] == b;
    forall k | TextureAt(s, data, k).Some?
      ensures TextureAt(s', data + b, k) == TextureAt(s, data, k)
    {
      var v := s.bufferViews[s.images[s.textures[k].source].bufferView];
      assert (data + b)[v.byteOffset..v.byteOffset + v.byteLength] == data[v.byteOffset..v.byteOffset + v.byteLength];
    }
  }

  /** The texture indices a material refers to, looked up by texture id. */
  function TexRef(t: Option<Texture>, ids: map<int, int>): Option<int>
    requires t.Some? ==> t.value.id in ids
  {
    if t.Some? then Some(ids[t.value.id]) else None
  }

  /** Every texture of `m` has an index. */
  predicate Known(m: MeshMaterial, ids: map<int, int>) {
    (BaseTexture(m).Some? ==> BaseTexture(m).value.id in ids) && (NormalTexture(m).Some? ==> NormalTexture(m).value.id in ids)
  }

  /** Some texture of `m` fails to load. */
  predicate LoadFails(m: MeshMaterial, png: Texture -> Option<seq<Byte>>) {
    (BaseTexture(m).Some? && png(BaseTexture(m).value).None?) || (NormalTexture(m).Some? && png(NormalTexture(m).value).None?)
  }

  /**
   * `buildTextureBuffer`: the texture will be number `len(Samplers)` of
   * samplers and `len(Images)` of images; its PNG bytes go to the end of
   * `buffer` with a view, a PNG image on that view and a sampler. When the
   * texture does not load nothing changes.
   */
  method BuildTextureBuffer(doc: Document, buffer: Buffer, texture: Texture, png: Texture -> Option<seq<Byte>>)
    returns (tx: Option<GltfTexture>)
    modifies doc, buffer
    ensures png(texture).None? ==> tx.None? && unchanged(doc, buffer)
    ensures png(texture).Some? ==>
              var b := png(texture).value;
              && tx == Some(GltfTexture(old(|doc.samplers|), old(|doc.images|)))
              && buffer.data == old(buffer.data) + b && buffer.byteLength == old(buffer.byteLength) + |b|
              && doc.State() == old(doc.State()).(
                   bufferViews := old(doc.bufferViews) + [BufferView(0, old(buffer.byteLength), |b|)],
                   images := old(doc.images) + [Image(PngMime, old(|doc.bufferViews|))],
                   samplers := old(doc.samplers) + [SamplerFor(texture.repeated)])
  {
    var spCount := |doc.samplers|;
    var imCount := |doc.images|;
    var t := GltfTexture(spCount, imCount);
    var imgIndex := |doc.bufferViews|;
    var gimg := Image(PngMime, imgIndex);
    var img := png(texture);
    if img.None? {
      return None;
    }
    var view := BufferView(0, buffer.byteLength, |img.value|);
    buffer.Append(img.value);
    doc.bufferViews := doc.bufferViews + [view];
    doc.images := doc.images + [gimg];
    var sp := SamplerFor(texture.repeated);
    doc.samplers := doc.samplers + [sp];
    tx := Some(t);
  }

  /**
   * One texture lookup of `fillMaterials`: a texture id seen before gives
   * its index; a new id is given the next texture index, then the texture
   * is built and appended, or `None` when it does not load.
   */
  method TextureIndex(doc: Document, buffer: Buffer, texMap: map<int, int>, t: Texture, png: Texture -> Option<seq<Byte>>)
    returns (idx: Option<int>, texMap': map<int, int>)
    modifies doc, buffer
    ensures t.id in texMap ==> idx == Some(texMap[t.id]) && texMap' == texMap && unchanged(doc, buffer)
    ensures t.id !in texMap ==> texMap' == texMap[t.id := old(|doc.textures|)]
    ensures t.id !in texMap && png(t).None? ==> idx.None? && unchanged(doc, buffer)
    ensures t.id !in texMap && png(t).Some? ==>
              && idx == Some(old(|doc.textures|))
              && buffer.data == old(buffer.data) + png(t).value
              && buffer.byteLength == old(buffer.byteLength) + |png(t).value|
              && doc.State() == AddTexture(old(doc.State()), old(buffer.byteLength), t, png(t).value)
  {
    if t.id in texMap {
      return Some(texMap[t.id]), texMap;
    }
    var texIndex := |doc.textures|;
    texMap' := texMap[t.id := texIndex];
    var tex := BuildTextureBuffer(doc, buffer, t, png);
    if tex.None? {
      return None, texMap';
    }
    doc.textures := doc.textures + [tex.value];
    idx := Some(texIndex);
  }

  /** `name` is in `names`, found by a scan that stops at the first match. */
  method Contains(names: seq<string>, name: string) returns (has: bool)
    ensures has <==> name in names
  {
    has := false;
    var j := 0;
    while j < |names|
      invariant 0 <= j <= |names|
      invariant name !in names[..j]
    {
      if names[j] == name {
        has := true;
        break;
      }
      j := j + 1;
    }
    if !has {
      assert names[..j] == names;
    }
  }

  /**
   * The textures built so far: ids map to distinct indices from `t0` on,
   * one texture per id.
   */
  predicate TexIndices(textures: seq<GltfTexture>, ids: map<int, int>, t0: int) {
    && (forall id <- ids :: t0 <= ids[id] < |textures|)
    && |textures| == t0 + |ids|
    && (forall a <- ids, b <- ids :: a != b ==> ids[a] != ids[b])
  }

  /** Building the texture of a new id keeps the textures one per id, and the document within its buffer. */
  lemma TextureStep(s: DocState, data: seq<Byte>, ids: map<int, int>, t: Texture, b: seq<Byte>, t0: int)
    requires TexIndices(s.textures, ids, t0) && t.id !in ids
    ensures var s' := AddTexture(s, |data|, t, b);
            && TexIndices(s'.textures, ids[t.id := |s.textures|], t0)
            && (Within(s, |data|) ==> Within(s', |data + b|))
  {
    AddTextureReads(s, data, t, b);
  }

  /**
   * The lookup of one texture of a material: a known id gives its index and
   * changes nothing; a new id gets the next index and its texture is built,
   * or the lookup fails when the texture does not load.
   */
  method LookUpTexture(doc: Document, buffer: Buffer, texMap: map<int, int>, t: Texture, png: Texture -> Option<seq<Byte>>, ghost t0: int)
    returns (idx: Option<int>, texMap': map<int, int>)
    requires TexIndices(doc.textures, texMap, t0)
    modifies doc, buffer
    ensures idx.None? ==> t.id !in texMap && png(t).None? && unchanged(doc, buffer)
    ensures idx.Some? ==> && t.id in texMap' && idx.value == texMap'[t.id]
                          && (forall id <- texMap :: id in texMap' && texMap'[id] == texMap[id])
                          && TexIndices(doc.textures, texMap', t0)
    ensures old(buffer.Consistent()) && Within(old(doc.State()), old(buffer.byteLength)) ==> Within(doc.State(), buffer.byteLength)
    ensures buffer.Consistent() <==> old(buffer.Consistent())
    ensures old(buffer.data) <= buffer.data
    ensures doc.State() == old(doc.State()).(bufferViews := doc.bufferViews, images := doc.images,
                                              samplers := doc.samplers, textures := doc.textures)
  {
    ghost var s, data := doc.State(), buffer.data;
    idx, texMap' := TextureIndex(doc, buffer, texMap, t, png);
    if idx.Some? && t.id !in texMap {
      TextureStep(s, data, texMap, t, png(t).value, t0);
    }
  }

  /** The texture lookups of one material: the index of its texture and of its normal texture, when it has them. */
  method MaterialTextures(doc: Document, buffer: Buffer, texMap: map<int, int>, mtl: MeshMaterial,
                          png: Texture -> Option<seq<Byte>>, ghost t0: int)
    returns (ok: bool, baseTex: Option<int>, normalTex: Option<int>, texMap': map<int, int>)
    requires TexIndices(doc.textures, texMap, t0)
    modifies doc, buffer
    ensures !ok ==> LoadFails(mtl, png)
    ensures ok ==> && Known(mtl, texMap')
                   && baseTex == TexRef(BaseTexture(mtl), texMap') && normalTex == TexRef(NormalTexture(mtl), texMap')
                   && (forall id <- texMap :: id in texMap' && texMap'[id] == texMap[id])
                   && TexIndices(doc.textures, texMap', t0)
    ensures old(buffer.Consistent()) && Within(old(doc.State()), old(buffer.byteLength)) ==> Within(doc.State(), buffer.byteLength)
    ensures buffer.Consistent() <==> old(buffer.Consistent())
    ensures old(buffer.data) <= buffer.data
    ensures doc.State() == old(doc.State()).(bufferViews := doc.bufferViews, images := doc.images,
                                              samplers := doc.samplers, textures := doc.textures)
  {
    ok, baseTex, normalTex, texMap' := true, None, None, texMap;
    var t := BaseTexture(mtl);
    if t.Some? {
      var idx;
      idx, texMap' := LookUpTexture(doc, buffer, texMap', t.value, png, t0);
      if idx.None? {
        return false, None, None, texMap';
      }
      baseTex := idx;
    }
    var n := NormalTexture(mtl);
    if n.Some? {
      var idx;
      idx, texMap' := LookUpTexture(doc, buffer, texMap', n.value, png, t0);
      if idx.None? {
        return false, None, None, texMap';
      }
      normalTex := idx;
    }
  }

  /** A texture looked up by id names one of the textures. */
  lemma TexRefWithin(t: Option<Texture>, ids: map<int, int>, textures: seq<GltfTexture>, t0: int)
    requires (t.Some? ==> t.value.id in ids) && TexIndices(textures, ids, t0) && 0 <= t0
    ensures TexRef(t, ids).Some? ==> 0 <= TexRef(t, ids).value < |textures|
  {
  }

  /** A material whose texture indices name existing textures keeps the materials within the textures. */
  lemma MaterialsGrow(ms: seq<Material>, m: Material, n: int)
    requires MaterialsWithin(ms, n)
    requires (m.baseColorTexture.Some? ==> 0 <= m.baseColorTexture.value < n) && (m.normalTexture.Some? ==> 0 <= m.normalTexture.value < n)
    ensures MaterialsWithin(ms + [m], n)
  {
  }

  /** The material of position `k` of `mts`, whose textures are known, with its textures looked up by id. */
  predicate FilledWith(materials: seq<Material>, m0: int, mts: seq<MeshMaterial>, k: int, ids: map<int, int>, value32: F32 -> real)
    requires 0 <= m0 && 0 <= k < |mts|
  {
    && Known(mts[k], ids) && m0 + k < |materials|
    && materials[m0 + k] == MaterialFor(mts[k], TexRef(BaseTexture(mts[k]), ids), TexRef(NormalTexture(mts[k]), ids), value32)
  }

  /** Appending the material of position `i` keeps the earlier materials filled, as their ids keep their indices. */
  lemma FilledStep(materials: seq<Material>, m0: int, mts: seq<MeshMaterial>, i: int, ids: map<int, int>, ids': map<int, int>,
                   gm: Material, value32: F32 -> real)
    requires 0 <= m0 && 0 <= i < |mts| && |materials| == m0 + i
    requires forall k :: 0 <= k < i ==> FilledWith(materials, m0, mts, k, ids, value32)
    requires forall id <- ids :: id in ids' && ids'[id] == ids[id]
    requires Known(mts[i], ids')
    requires gm == MaterialFor(mts[i], TexRef(BaseTexture(mts[i]), ids'), TexRef(NormalTexture(mts[i]), ids'), value32)
    ensures forall k :: 0 <= k < i + 1 ==> FilledWith(materials + [gm], m0, mts, k, ids', value32)
  {
    forall k | 0 <= k < i + 1
      ensures FilledWith(materials + [gm], m0, mts, k, ids', value32)
    {
      if k < i {
        assert FilledWith(materials, m0, mts, k, ids, value32);
      }
    }
  }

  /**
   * One pass of the loop of `fillMaterials`: the textures of material `i`
   * are looked up or built, and its glTF material is appended; or the pass
   * fails when a texture does not load.
   */
  method FillOne(doc: Document, buffer: Buffer, mts: seq<MeshMaterial>, i: int, texMap: map<int, int>, useExtension: bool,
                 value32: F32 -> real, png: Texture -> Option<seq<Byte>>, ghost m0: int, ghost t0: int)
    returns (fine: bool, texMap': map<int, int>, useExtension': bool)
    requires |doc.buffers| > 0 && buffer == doc.buffers[0] && 0 <= m0 && 0 <= t0 && 0 <= i < |mts|
    requires |doc.materials| == m0 + i
    requires forall k :: 0 <= k < i ==> FilledWith(doc.materials, m0, mts, k, texMap, value32)
    requires TexIndices(doc.textures, texMap, t0)
    requires useExtension == AnySpecular(mts[..i])
    modifies doc, buffer
    ensures doc.State() == old(doc.State()).(bufferViews := doc.bufferViews, images := doc.images, samplers := doc.samplers,
                                              textures := doc.textures, materials := doc.materials)
    ensures old(doc.Valid()) ==> doc.Valid()
    ensures old(buffer.data) <= buffer.data
    ensures !fine ==> LoadFails(mts[i], png) && doc.materials == old(doc.materials)
    ensures fine ==> && |doc.materials| == m0 + i + 1 && doc.materials[..m0 + i] == old(doc.materials)
                     && (forall k :: 0 <= k < i + 1 ==> FilledWith(doc.materials, m0, mts, k, texMap', value32))
                     && TexIndices(doc.textures, texMap', t0)
                     && useExtension' == AnySpecular(mts[..i + 1])
  {
    var mtl := mts[i];
    var baseTex, normalTex;
    fine, baseTex, normalTex, texMap' := MaterialTextures(doc, buffer, texMap, mtl, png, t0);
    if !fine {
      return false, texMap', useExtension;
    }
    useExtension' := useExtension || UsesSpecular(mtl);
    var gm := MaterialFor(mtl, baseTex, normalTex, value32);
    if old(doc.Valid()) {
      TexRefWithin(BaseTexture(mtl), texMap', doc.textures, t0);
      TexRefWithin(NormalTexture(mtl), texMap', doc.textures, t0);
      MaterialsGrow(doc.materials, gm, |doc.textures|);
    }
    FilledStep(doc.materials, m0, mts, i, texMap, texMap', gm, value32);
    doc.materials := doc.materials + [gm];
    assert mts[..i + 1][..i] == mts[..i];
  }

  /**
   * `fillMaterials`: appends one material per MST material, in order.
   * Textures are shared by id: a texture whose id was met before reuses that
   * texture, a new id gets the next texture, so there are as many new
   * textures as ids. A texture that does not load stops the fill with
   * `false`. Otherwise the specular-glossiness extension is declared, once,
   * when a Lambert or Phong material was met.
   */
  method FillMaterials(doc: Document, mts: seq<MeshMaterial>, value32: F32 -> real, png: Texture -> Option<seq<Byte>>)
    returns (ok: bool, ghost texIds: map<int, int>)
    requires |doc.buffers| > 0
    modifies doc, doc.buffers[0]
    ensures doc.State() == old(doc.State()).(bufferViews := doc.bufferViews, images := doc.images, samplers := doc.samplers,
                                              textures := doc.textures, materials := doc.materials, extensionsUsed := doc.extensionsUsed)
    ensures old(doc.Valid()) ==> doc.Valid()
    ensures old(doc.buffers[0].data) <= doc.buffers[0].data
    ensures !ok ==> exists k :: 0 <= k < |mts| && LoadFails(mts[k], png)
    ensures ok ==> |doc.materials| == old(|doc.materials|) + |mts| && doc.materials[..old(|doc.materials|)] == old(doc.materials)
    ensures ok ==> forall k :: 0 <= k < |mts| ==> FilledWith(doc.materials, old(|doc.materials|), mts, k, texIds, value32)
    ensures ok ==> TexIndices(doc.textures, texIds, old(|doc.textures|))
    ensures ok ==>
              doc.extensionsUsed == old(doc.extensionsUsed)
              + (if AnySpecular(mts) && SpecularGlossinessName !in old(doc.extensionsUsed) then [SpecularGlossinessName] else [])
  {
    var buffer := doc.buffers[0];
    ghost var m0, t0 := |doc.materials|, |doc.textures|;
    var texMap: map<int, int> := map[];
    var useExtension := false;
    var i := 0;
    while i < |mts|
      invariant 0 <= i <= |mts|
      invariant doc.State() == old(doc.State()).(bufferViews := doc.bufferViews, images := doc.images, samplers := doc.samplers,
                                                  textures := doc.textures, materials := doc.materials)
      invariant old(doc.Valid()) ==> doc.Valid()
      invariant old(buffer.data) <= buffer.data
      invariant |doc.materials| == m0 + i && doc.materials[..m0] == old(doc.materials)
      invariant forall k :: 0 <= k < i ==> FilledWith(doc.materials, m0, mts, k, texMap, value32)
      invariant TexIndices(doc.textures, texMap, t0)
      invariant useExtension == AnySpecular(mts[..i])
    {
      var fine;
      fine, texMap, useExtension := FillOne(doc, buffer, mts, i, texMap, useExtension, value32, png, m0, t0);
      if !fine {
        return false, texMap;
      }
      i := i + 1;
    }
    assert mts[..i] == mts;
    if useExtension {
      var has := Contains(doc.extensionsUsed, SpecularGlossinessName);
      if !has {
        doc.extensionsUsed := doc.extensionsUsed + [SpecularGlossinessName];
      }
    }
    ok, texIds := true, texMap;
  }
}
