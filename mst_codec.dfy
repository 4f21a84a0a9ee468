/**
 * The marshallers and unmarshallers of mst/mesh.go as the step-by-step
 * procedures they are: a writer appends to an `io.Writer`, a reader consumes
 * an `io.Reader` and fills the fields of a fresh value, sizing each slice
 * from the count it has just read and filling it in a loop.
 *
 * Each procedure is proved against the byte format of `MstFormat`: a writer
 * appends exactly `EncodeX(x)`, and a reader returns `DecodeX(s).value` and
 * leaves `DecodeX(s).rest` unread, where `s` is what was unread before.
 */
module MstCodec {
  import opened Wrappers
  import opened LittleEndian
  import opened MstTypes
  import opened MstFormat

  /** An `io.Writer`: the bytes written to it so far. */
  class ByteWriter {
    var bytes: seq<Byte>

    constructor ()
      ensures bytes == []
    {
      bytes := [];
    }

    /** `Write(p)`: appends every byte of `p`. */
    method Write(p: seq<Byte>)
      modifies this
      ensures bytes == old(bytes) + p
    {
      bytes := bytes + p;
    }
  }

  /** An `io.Reader`: the input not consumed yet. */
  class ByteReader {
    var rest: seq<Byte>

    constructor (s: seq<Byte>)
      ensures rest == s
    {
      rest := s;
    }

    /** `io.ReadFull` of `n` bytes; on a short input everything left is consumed and nothing is returned. */
    method Full(n: nat) returns (b: Option<seq<Byte>>)
      modifies this
      ensures Parsed(b, rest) == ReadFull(old(rest), n)
    {
      if n <= |rest| {
        b, rest := Some(rest[..n]), rest[n..];
      } else {
        b, rest := None, [];
      }
    }

    /** `Read(buf)` into a zeroed buffer of `n` bytes: as many bytes as are left, up to `n`. */
    method Partial(n: nat) returns (b: seq<Byte>)
      modifies this
      ensures Parsed(b, rest) == ReadSome(old(rest), n)
    {
      if n <= |rest| {
        b, rest := rest[..n], rest[n..];
      } else {
        b, rest := rest + Zeros(n - |rest|), [];
      }
    }

    /** `binary.Read` into a `[n]byte` target holding `d`. */
    method Block(n: nat, d: seq<Byte>) returns (b: seq<Byte>)
      requires |d| == n
      modifies this
      ensures Parsed(b, rest) == ReadBytes(old(rest), n, d)
    {
      var p := Full(n);
      b := p.GetOr(d);
    }

    /** `binary.Read` into a `uint8` holding `d`. */
    method U8(d: Byte) returns (x: Byte)
      modifies this
      ensures Parsed(x, rest) == ReadU8(old(rest), d)
    {
      var p := Full(1);
      x := if p.Some? then p.value[0] else d;
    }

    /** `binary.Read` into a `bool` holding `d`. */
    method Bool(d: bool) returns (x: bool)
      modifies this
      ensures Parsed(x, rest) == ReadBool(old(rest), d)
    {
      var p := Full(1);
      x := if p.Some? then p.value[0] != 0 else d;
    }

    /** `binary.Read` into a `uint16` holding `d`. */
    method U16(d: U16) returns (x: U16)
      modifies this
      ensures Parsed(x, rest) == ReadU16(old(rest), d)
    {
      var p := Full(2);
      x := if p.Some? then FromLeU16(p.value) else d;
    }

    /** `binary.Read` into a `uint32` or `float32` holding `d`. */
    method U32(d: U32) returns (x: U32)
      modifies this
      ensures Parsed(x, rest) == ReadU32(old(rest), d)
    {
      var p := Full(4);
      x := if p.Some? then FromLeU32(p.value) else d;
    }

    /** `binary.Read` into a `uint64` or `float64` holding `d`. */
    method U64(d: U64) returns (x: U64)
      modifies this
      ensures Parsed(x, rest) == ReadU64(old(rest), d)
    {
      var p := Full(8);
      x := if p.Some? then FromLeU64(p.value) else d;
    }

    /** `binary.Read` into a fresh `[n]float32` or `[]uint32` of length `n`. */
    method U32s(n: nat) returns (xs: seq<U32>)
      modifies this
      ensures Parsed(xs, rest) == ReadU32s(old(rest), n)
    {
      var p := ReadU32s(rest, n);
      xs, rest := p.value, p.rest;
    }

    /** `binary.Read` into a fresh `[n]float64` or `[]uint64` of length `n`. */
    method U64s(n: nat) returns (xs: seq<U64>)
      modifies this
      ensures Parsed(xs, rest) == ReadU64s(old(rest), n)
    {
      var p := ReadU64s(rest, n);
      xs, rest := p.value, p.rest;
    }
  }

  /** Appends `p` to a writer that holds `o` followed by `e`. */
  method Emit(w: ByteWriter, ghost o: seq<Byte>, ghost e: seq<Byte>, p: seq<Byte>)
    requires w.bytes == o + e
    modifies w
    ensures w.bytes == o + (e + p)
  {
    w.Write(p);
    Regroup2(o, e, p);
  }

  /** One more item of a list is its prefix extended by that item. */
  lemma PrefixSnoc<T>(xs: seq<T>, i: nat)
    requires i < |xs|
    ensures xs[..i + 1] == xs[..i] + [xs[i]]
  {
  }

  /** Reading one more item after `i` items extends what was read by that item. */
  lemma ReadStep<T>(i: nat, s: seq<Byte>, dec: seq<Byte> -> Parsed<T>, items: seq<T>, mid: seq<Byte>, x: T,
                    rest: seq<Byte>)
    requires DecodeAll(i, s, dec) == Parsed(items, mid)
    requires dec(mid) == Parsed(x, rest)
    ensures DecodeAll(i + 1, s, dec) == Parsed(items + [x], rest)
  {
    DecodeAllSnoc(i, s, dec);
  }

  /** Filling slot `i` of a list extends the filled prefix by that item. */
  lemma UpdatePrefix<T>(xs: seq<T>, i: nat, x: T)
    requires i < |xs|
    ensures xs[i := x][..i + 1] == xs[..i] + [x]
  {
  }

  // ----- Materials -----

  /** `BaseMaterialMarshal`. */
  method BaseMaterialMarshal(w: ByteWriter, m: BaseMaterial)
    modifies w
    ensures w.bytes == old(w.bytes) + EncodeBaseMaterial(m)
  {
    ghost var o := w.bytes;
    w.Write(EncodeColor(m.color));
    Emit(w, o, EncodeColor(m.color), LeU32(m.transparency));
  }

  /** `BaseMaterialUnMarshal`. */
  method BaseMaterialUnMarshal(r: ByteReader) returns (m: BaseMaterial)
    modifies r
    ensures Parsed(m, r.rest) == DecodeBaseMaterial(old(r.rest))
  {
    var color := r.Block(3, Black);
    var transparency := r.U32(0);
    m := BaseMaterial(color, transparency);
  }

  /** `TextureMarshal`: the `int` id is refused by `encoding/binary` and writes nothing. */
  method TextureMarshal(w: ByteWriter, t: Texture)
    modifies w
    ensures w.bytes == old(w.bytes) + EncodeTexture(t)
  {
    ghost var o := w.bytes;
    ghost var e := LeU32(U32Of(|t.name|));
    w.Write(LeU32(U32Of(|t.name|)));
    Emit(w, o, e, t.name);
    e := e + t.name;
    Emit(w, o, e, EncodeU64s(t.size));
    e := e + EncodeU64s(t.size);
    Emit(w, o, e, LeU16(t.format));
    e := e + LeU16(t.format);
    Emit(w, o, e, LeU16(t.pixelType));
    e := e + LeU16(t.pixelType);
    Emit(w, o, e, LeU16(t.compressed));
    e := e + LeU16(t.compressed);
    Emit(w, o, e, LeU32(U32Of(|t.data|)));
    e := e + LeU32(U32Of(|t.data|));
    Emit(w, o, e, t.data);
    e := e + t.data;
    Emit(w, o, e, LeBool(t.repeated));
  }

  /** `TextureUnMarshal`: the id consumes nothing; the name is one partial read. */
  method TextureUnMarshal(r: ByteReader) returns (t: Texture)
    modifies r
    ensures Parsed(t, r.rest) == DecodeTexture(old(r.rest))
  {
    var nameSize := r.U32(0);
    var name := r.Partial(nameSize as nat);
    var size := r.U64s(2);
    var format := r.U16(0);
    var pixelType := r.U16(0);
    var compressed := r.U16(0);
    var dataSize := r.U32(0);
    var data := r.Block(dataSize as nat, Zeros(dataSize as nat));
    var repeated := r.Bool(false);
    t := Texture(0, name, size, format, pixelType, compressed, data, repeated);
  }

  /** Writes the uint16 presence flag, then the texture when there is one. */
  method OptTextureMarshal(w: ByteWriter, t: Option<Texture>)
    modifies w
    ensures w.bytes == old(w.bytes) + EncodeOptTexture(t)
  {
    ghost var o := w.bytes;
    if t.Some? {
      w.Write(LeU16(1));
      TextureMarshal(w, t.value);
      Regroup2(o, LeU16(1), EncodeTexture(t.value));
    } else {
      w.Write(LeU16(0));
    }
  }

  /** Reads the flag into `hasTex`, which holds `flag`, and the texture when the flag is 1. */
  method OptTextureUnMarshal(r: ByteReader, flag: U16) returns (t: Option<Texture>, hasTex: U16)
    modifies r
    ensures (Parsed(t, r.rest), hasTex) == DecodeOptTexture(old(r.rest), flag)
  {
    hasTex := r.U16(flag);
    if hasTex == 1 {
      var x := TextureUnMarshal(r);
      t := Some(x);
    } else {
      t := None;
    }
  }

  /** `TextureMaterialMarshal`. */
  method TextureMaterialMarshal(w: ByteWriter, m: TextureMaterial)
    modifies w
    ensures w.bytes == old(w.bytes) + EncodeTextureMaterial(m)
  {
    ghost var o := w.bytes;
    BaseMaterialMarshal(w, m.base);
    ghost var e := EncodeBaseMaterial(m.base);
    OptTextureMarshal(w, m.texture);
    Regroup2(o, e, EncodeOptTexture(m.texture));
    e := e + EncodeOptTexture(m.texture);
    OptTextureMarshal(w, m.normal);
    Regroup2(o, e, EncodeOptTexture(m.normal));
  }

  /** `TextureMaterialUnMarshal`: both flags go through the one variable `hasTex`. */
  method TextureMaterialUnMarshal(r: ByteReader) returns (m: TextureMaterial)
    modifies r
    ensures Parsed(m, r.rest) == DecodeTextureMaterial(old(r.rest))
  {
    var base := BaseMaterialUnMarshal(r);
    var hasTex: U16 := 0;
    var texture, normal;
    texture, hasTex := OptTextureUnMarshal(r, hasTex);
    normal, hasTex := OptTextureUnMarshal(r, hasTex);
    m := TextureMaterial(base, texture, normal);
  }

  /** `PbrMaterialMarshal`: before version 2 a padding byte 255 follows the emissive color. */
  method PbrMaterialMarshal(w: ByteWriter, m: PbrMaterial, v: U32)
    modifies w
    ensures w.bytes == old(w.bytes) + EncodePbrMaterial(m, v)
  {
    ghost var o := w.bytes;
    TextureMaterialMarshal(w, m.textured);
    ghost var e := EncodeTextureMaterial(m.textured);
    Emit(w, o, e, EncodeColor(m.emissive));
    e := e + EncodeColor(m.emissive);
    var pad: seq<Byte> := if v < V2 then [PbrPad] else [];
    Emit(w, o, e, pad);
    e := e + pad;
    PbrFieldsMarshal(w, m);
    Regroup2(o, e, EncodePbrFields(m));
  }

  /** The fields of `PbrMaterialMarshal` after the padding byte. */
  method PbrFieldsMarshal(w: ByteWriter, m: PbrMaterial)
    modifies w
    ensures w.bytes == old(w.bytes) + EncodePbrFields(m)
  {
    ghost var o := w.bytes;
    ghost var e := LeU32(m.metallic);
    w.Write(LeU32(m.metallic));
    Emit(w, o, e, LeU32(m.roughness));
    e := e + LeU32(m.roughness);
    Emit(w, o, e, LeU32(m.reflectance));
    e := e + LeU32(m.reflectance);
    Emit(w, o, e, LeU32(m.ambientOcclusion));
    e := e + LeU32(m.ambientOcclusion);
    Emit(w, o, e, LeU32(m.clearCoat));
    e := e + LeU32(m.clearCoat);
    Emit(w, o, e, LeU32(m.clearCoatRoughness));
    e := e + LeU32(m.clearCoatRoughness);
    Emit(w, o, e, EncodeColor(m.clearCoatNormal));
    e := e + EncodeColor(m.clearCoatNormal);
    Emit(w, o, e, LeU32(m.anisotropy));
    e := e + LeU32(m.anisotropy);
    Emit(w, o, e, EncodeVec3F(m.anisotropyDirection));
    e := e + EncodeVec3F(m.anisotropyDirection);
    Emit(w, o, e, LeU32(m.thickness));
    e := e + LeU32(m.thickness);
    Emit(w, o, e, LeU32(m.subSurfacePower));
    e := e + LeU32(m.subSurfacePower);
    Emit(w, o, e, EncodeColor(m.sheenColor));
    e := e + EncodeColor(m.sheenColor);
    Emit(w, o, e, EncodeColor(m.subSurfaceColor));
  }

  /** `PbrMaterialUnMarshal`: before version 2 one byte is read into a scratch variable and dropped. */
  method PbrMaterialUnMarshal(r: ByteReader, v: U32) returns (m: PbrMaterial)
    modifies r
    ensures Parsed(m, r.rest) == DecodePbrMaterial(old(r.rest), v)
  {
    var textured := TextureMaterialUnMarshal(r);
    var emissive := r.Block(3, Black);
    if v < V2 {
      var b := r.U8(0);
    }
    m := PbrFieldsUnMarshal(r, textured, emissive);
  }

  /** The fields of `PbrMaterialUnMarshal` after the padding byte. */
  method PbrFieldsUnMarshal(r: ByteReader, textured: TextureMaterial, emissive: Color) returns (m: PbrMaterial)
    modifies r
    ensures Parsed(m, r.rest) == DecodePbrFields(old(r.rest), textured, emissive)
  {
    var metallic := r.U32(0);
    var roughness := r.U32(0);
    var reflectance := r.U32(0);
    var ambientOcclusion := r.U32(0);
    var clearCoat := r.U32(0);
    var clearCoatRoughness := r.U32(0);
    var clearCoatNormal := r.Block(3, Black);
    var anisotropy := r.U32(0);
    var anisotropyDirection := r.U32s(3);
    var thickness := r.U32(0);
    var subSurfacePower := r.U32(0);
    var sheenColor := r.Block(3, Black);
    var subSurfaceColor := r.Block(3, Black);
    m := PbrMaterial(textured, emissive, metallic, roughness, reflectance, ambientOcclusion, clearCoat,
                     clearCoatRoughness, clearCoatNormal, anisotropy, anisotropyDirection, thickness,
                     subSurfacePower, sheenColor, subSurfaceColor);
  }

  /** `LambertMaterialMarshal`. */
  method LambertMaterialMarshal(w: ByteWriter, m: LambertMaterial)
    modifies w
    ensures w.bytes == old(w.bytes) + EncodeLambertMaterial(m)
  {
    ghost var o := w.bytes;
    TextureMaterialMarshal(w, m.textured);
    ghost var e := EncodeTextureMaterial(m.textured);
    Emit(w, o, e, EncodeColor(m.ambient));
    e := e + EncodeColor(m.ambient);
    Emit(w, o, e, EncodeColor(m.diffuse));
    e := e + EncodeColor(m.diffuse);
    Emit(w, o, e, EncodeColor(m.emissive));
  }

  /** `LambertMaterialUnMarshal`. */
  method LambertMaterialUnMarshal(r: ByteReader) returns (m: LambertMaterial)
    modifies r
    ensures Parsed(m, r.rest) == DecodeLambertMaterial(old(r.rest))
  {
    var textured := TextureMaterialUnMarshal(r);
    var ambient := r.Block(3, Black);
    var diffuse := r.Block(3, Black);
    var emissive := r.Block(3, Black);
    m := LambertMaterial(textured, ambient, diffuse, emissive);
  }

  /** `PhongMaterialMarshal`. */
  method PhongMaterialMarshal(w: ByteWriter, m: PhongMaterial)
    modifies w
    ensures w.bytes == old(w.bytes) + EncodePhongMaterial(m)
  {
    ghost var o := w.bytes;
    LambertMaterialMarshal(w, m.lambert);
    ghost var e := EncodeLambertMaterial(m.lambert);
    Emit(w, o, e, EncodeColor(m.specular));
    e := e + EncodeColor(m.specular);
    Emit(w, o, e, LeU64(m.shininess));
    e := e + LeU64(m.shininess);
    Emit(w, o, e, LeU64(m.specularity));
  }

  /** `PhongMaterialUnMarshal`. */
  method PhongMaterialUnMarshal(r: ByteReader) returns (m: PhongMaterial)
    modifies r
    ensures Parsed(m, r.rest) == DecodePhongMaterial(old(r.rest))
  {
    var lambert := LambertMaterialUnMarshal(r);
    var specular := r.Block(3, Black);
    var shininess := r.U64(0);
    var specularity := r.U64(0);
    m := PhongMaterial(lambert, specular, shininess, specularity);
  }

  /** `MaterialMarshal`: the tag and the body of one of the five variants; anything else writes nothing. */
  method MaterialMarshal(w: ByteWriter, m: MeshMaterial, v: U32)
    modifies w
    ensures w.bytes == old(w.bytes) + EncodeMaterial(m, v)
  {
    ghost var o := w.bytes;
    if m.NoVariant? {
      assert EncodeMaterial(m, v) == [];
      assert w.bytes == o + [];
    } else {
      var tag := MaterialTag(m);
      w.Write(LeU32(tag));
      MaterialBodyMarshal(w, m, v);
      Regroup2(o, LeU32(tag), MaterialBody(m, v));
      assert EncodeMaterial(m, v) == LeU32(tag) + MaterialBody(m, v);
    }
  }

  /** The body `MaterialMarshal` writes after the tag: the variant's own marshaller. */
  method MaterialBodyMarshal(w: ByteWriter, m: MeshMaterial, v: U32)
    requires !m.NoVariant?
    modifies w
    ensures w.bytes == old(w.bytes) + MaterialBody(m, v)
  {
    match m
    case Base(b) => BaseMaterialMarshal(w, b);
    case Textured(t) => TextureMaterialMarshal(w, t);
    case Pbr(p) => PbrMaterialMarshal(w, p, v);
    case Lambert(l) => LambertMaterialMarshal(w, l);
    case Phong(p) => PhongMaterialMarshal(w, p);
  }

  /** `MaterialUnMarshal`: reads the tag, then the body it names; any other tag gives nil and reads nothing more. */
  method MaterialUnMarshal(r: ByteReader, v: U32) returns (m: MeshMaterial)
    modifies r
    ensures Parsed(m, r.rest) == DecodeMaterial(old(r.rest), v)
  {
    var tag := r.U32(0);
    if tag == TagColor {
      var b := BaseMaterialUnMarshal(r);
      m := Base(b);
    } else if tag == TagTexture {
      var t := TextureMaterialUnMarshal(r);
      m := Textured(t);
    } else if tag == TagPbr {
      var p := PbrMaterialUnMarshal(r, v);
      m := Pbr(p);
    } else if tag == TagLambert {
      var l := LambertMaterialUnMarshal(r);
      m := Lambert(l);
    } else if tag == TagPhong {
      var p := PhongMaterialUnMarshal(r);
      m := Phong(p);
    } else {
      m := NoVariant;
    }
  }

  /** `MtlsMarshal`: the count, then each material in turn. */
  method MtlsMarshal(w: ByteWriter, ms: seq<MeshMaterial>, v: U32)
    modifies w
    ensures w.bytes == old(w.bytes) + EncodeMaterials(ms, v)
  {
    ghost var o := w.bytes;
    var count := LeU32(U32Of(|ms|));
    w.Write(count);
    var i := 0;
    while i < |ms|
      invariant 0 <= i <= |ms|
      invariant w.bytes == o + (count + EncodeAll(ms[..i], MaterialEncoder(v)))
    {
      EncodeAllSnoc(ms[..i], ms[i], MaterialEncoder(v));
      PrefixSnoc(ms, i);
      MaterialMarshal(w, ms[i], v);
      Regroup2(count, EncodeAll(ms[..i], MaterialEncoder(v)), EncodeMaterial(ms[i], v));
      Regroup2(o, count + EncodeAll(ms[..i], MaterialEncoder(v)), EncodeMaterial(ms[i], v));
      i := i + 1;
    }
    assert ms[..i] == ms;
  }

  /** `MtlsUnMarshal`: reads the count, sizes the list and reads that many materials. */
  method MtlsUnMarshal(r: ByteReader, v: U32) returns (ms: array<MeshMaterial>)
    modifies r
    ensures fresh(ms)
    ensures Parsed(ms[..], r.rest) == DecodeMaterials(old(r.rest), v)
  {
    var size := r.U32(0);
    ms := new MeshMaterial[size as nat](_ => NoVariant);
    ghost var s := r.rest;
    var i := 0;
    while i < ms.Length
      invariant 0 <= i <= ms.Length
      invariant DecodeAll(i, s, MaterialDecoder(v)) == Parsed(ms[..i], r.rest)
    {
      ghost var mid := r.rest;
      var m := MaterialUnMarshal(r, v);
      ReadStep(i, s, MaterialDecoder(v), ms[..i], mid, m, r.rest);
      ghost var before := ms[..];
      ms[i] := m;
      assert ms[..] == before[i := m];
      UpdatePrefix(before, i, m);
      i := i + 1;
    }
    assert ms[..i] == ms[..];
  }

  // ----- Geometry -----

  /** Writes a uint32 count, then each `[3]float32` in turn. */
  method Vec3FsMarshal(w: ByteWriter, xs: seq<Vec3F>)
    modifies w
    ensures w.bytes == old(w.bytes) + EncodeCounted(xs, EncodeVec3F)
  {
    ghost var o := w.bytes;
    var count := LeU32(U32Of(|xs|));
    w.Write(count);
    var i := 0;
    while i < |xs|
      invariant 0 <= i <= |xs|
      invariant w.bytes == o + (count + EncodeAll(xs[..i], EncodeVec3F))
    {
      EncodeAllSnoc(xs[..i], xs[i], EncodeVec3F);
      PrefixSnoc(xs, i);
      w.Write(EncodeU32s(xs[i]));
      Regroup2(count, EncodeAll(xs[..i], EncodeVec3F), EncodeVec3F(xs[i]));
      Regroup2(o, count + EncodeAll(xs[..i], EncodeVec3F), EncodeVec3F(xs[i]));
      i := i + 1;
    }
    assert xs[..i] == xs;
  }

  /** Reads `n` values of type `[3]float32` into a fresh slice, one at a time. */
  method Vec3FsUnMarshal(r: ByteReader, n: nat) returns (a: array<Vec3F>)
    modifies r
    ensures fresh(a)
    ensures Parsed(a[..], r.rest) == DecodeAll(n, old(r.rest), DecodeVec3F)
  {
    ghost var s := r.rest;
    a := new Vec3F[n](_ => [0, 0, 0]);
    var i := 0;
    while i < n
      invariant 0 <= i <= n == a.Length
      invariant DecodeAll(i, s, DecodeVec3F) == Parsed(a[..i], r.rest)
    {
      ghost var mid := r.rest;
      var x: Vec3F := r.U32s(3);
      ReadStep(i, s, DecodeVec3F, a[..i], mid, x, r.rest);
      ghost var before := a[..];
      a[i] := x;
      assert a[..] == before[i := x];
      UpdatePrefix(before, i, x);
      i := i + 1;
    }
    assert a[..i] == a[..];
  }

  /** Writes a uint32 count, then each `[3]byte` color in turn. */
  method ColorsMarshal(w: ByteWriter, xs: seq<Color>)
    modifies w
    ensures w.bytes == old(w.bytes) + EncodeCounted(xs, EncodeColor)
  {
    ghost var o := w.bytes;
    var count := LeU32(U32Of(|xs|));
    w.Write(count);
    var i := 0;
    while i < |xs|
      invariant 0 <= i <= |xs|
      invariant w.bytes == o + (count + EncodeAll(xs[..i], EncodeColor))
    {
      EncodeAllSnoc(xs[..i], xs[i], EncodeColor);
      PrefixSnoc(xs, i);
      w.Write(xs[i]);
      Regroup2(count, EncodeAll(xs[..i], EncodeColor), EncodeColor(xs[i]));
      Regroup2(o, count + EncodeAll(xs[..i], EncodeColor), EncodeColor(xs[i]));
      i := i + 1;
    }
    assert xs[..i] == xs;
  }

  /** Reads `n` colors into a fresh slice, one at a time. */
  method ColorsUnMarshal(r: ByteReader, n: nat) returns (a: array<Color>)
    modifies r
    ensures fresh(a)
    ensures Parsed(a[..], r.rest) == DecodeAll(n, old(r.rest), DecodeColor)
  {
    ghost var s := r.rest;
    a := new Color[n](_ => Black);
    var i := 0;
    while i < n
      invariant 0 <= i <= n == a.Length
      invariant DecodeAll(i, s, DecodeColor) == Parsed(a[..i], r.rest)
    {
      ghost var mid := r.rest;
      var x: Color := r.Block(3, Black);
      ReadStep(i, s, DecodeColor, a[..i], mid, x, r.rest);
      ghost var before := a[..];
      a[i] := x;
      assert a[..] == before[i := x];
      UpdatePrefix(before, i, x);
      i := i + 1;
    }
    assert a[..i] == a[..];
  }

  /** Writes a uint32 count, then each `[2]float32` in turn. */
  method Vec2FsMarshal(w: ByteWriter, xs: seq<Vec2F>)
    modifies w
    ensures w.bytes == old(w.bytes) + EncodeCounted(xs, EncodeVec2F)
  {
    ghost var o := w.bytes;
    var count := LeU32(U32Of(|xs|));
    w.Write(count);
    var i := 0;
    while i < |xs|
      invariant 0 <= i <= |xs|
      invariant w.bytes == o + (count + EncodeAll(xs[..i], EncodeVec2F))
    {
      EncodeAllSnoc(xs[..i], xs[i], EncodeVec2F);
      PrefixSnoc(xs, i);
      w.Write(EncodeU32s(xs[i]));
      Regroup2(count, EncodeAll(xs[..i], EncodeVec2F), EncodeVec2F(xs[i]));
      Regroup2(o, count + EncodeAll(xs[..i], EncodeVec2F), EncodeVec2F(xs[i]));
      i := i + 1;
    }
    assert xs[..i] == xs;
  }

  /** Reads `n` values of type `[2]float32` into a fresh slice, one at a time. */
  method Vec2FsUnMarshal(r: ByteReader, n: nat) returns (a: array<Vec2F>)
    modifies r
    ensures fresh(a)
    ensures Parsed(a[..], r.rest) == DecodeAll(n, old(r.rest), DecodeVec2F)
  {
    ghost var s := r.rest;
    a := new Vec2F[n](_ => [0, 0]);
    var i := 0;
    while i < n
      invariant 0 <= i <= n == a.Length
      invariant DecodeAll(i, s, DecodeVec2F) == Parsed(a[..i], r.rest)
    {
      ghost var mid := r.rest;
      var x: Vec2F := r.U32s(2);
      ReadStep(i, s, DecodeVec2F, a[..i], mid, x, r.rest);
      ghost var before := a[..];
      a[i] := x;
      assert a[..] == before[i := x];
      UpdatePrefix(before, i, x);
      i := i + 1;
    }
    assert a[..i] == a[..];
  }

  /** A `dmat.T`, written row by row. */
  method MatMarshal(w: ByteWriter, m: Mat4)
    modifies w
    ensures w.bytes == old(w.bytes) + EncodeMat(m)
  {
    ghost var o := w.bytes;
    ghost var e := EncodeU64s(m[0..4]);
    w.Write(EncodeU64s(m[0..4]));
    Emit(w, o, e, EncodeU64s(m[4..8]));
    e := e + EncodeU64s(m[4..8]);
    Emit(w, o, e, EncodeU64s(m[8..12]));
    e := e + EncodeU64s(m[8..12]);
    Emit(w, o, e, EncodeU64s(m[12..16]));
  }

  /** A `dmat.T`, read row by row. */
  method MatUnMarshal(r: ByteReader) returns (m: Mat4)
    modifies r
    ensures Parsed(m, r.rest) == DecodeMat(old(r.rest))
  {
    var r0 := r.U64s(4);
    var r1 := r.U64s(4);
    var r2 := r.U64s(4);
    var r3 := r.U64s(4);
    m := r0 + r1 + r2 + r3;
  }

  /** `MeshTriangleMarshal`: the `int` batch id writes nothing; then the count and each face's vertex indices. */
  method MeshTriangleMarshal(w: ByteWriter, g: MeshTriangle)
    modifies w
    ensures w.bytes == old(w.bytes) + EncodeTriangle(g)
  {
    ghost var o := w.bytes;
    var faces := g.faces;
    var count := LeU32(U32Of(|faces|));
    w.Write(count);
    var i := 0;
    while i < |faces|
      invariant 0 <= i <= |faces|
      invariant w.bytes == o + (count + EncodeAll(faces[..i], EncodeFace))
    {
      EncodeAllSnoc(faces[..i], faces[i], EncodeFace);
      PrefixSnoc(faces, i);
      w.Write(EncodeU32s(faces[i].vertex));
      Regroup2(count, EncodeAll(faces[..i], EncodeFace), EncodeFace(faces[i]));
      Regroup2(o, count + EncodeAll(faces[..i], EncodeFace), EncodeFace(faces[i]));
      i := i + 1;
    }
    assert faces[..i] == faces;
  }

  /** `MeshTriangleUnMarshal`: the batch id reads nothing; each face gets its vertex indices only. */
  method MeshTriangleUnMarshal(r: ByteReader) returns (g: MeshTriangle)
    modifies r
    ensures Parsed(g, r.rest) == DecodeTriangle(old(r.rest))
  {
    var size := r.U32(0);
    ghost var s := r.rest;
    var faces := new Face[size as nat](_ => Face([0, 0, 0], None, None));
    var i := 0;
    while i < size as nat
      invariant 0 <= i <= size as nat == faces.Length
      invariant DecodeAll(i, s, DecodeFace) == Parsed(faces[..i], r.rest)
    {
      ghost var mid := r.rest;
      var vertex := r.U32s(3);
      var f := Face(vertex, None, None);
      ReadStep(i, s, DecodeFace, faces[..i], mid, f, r.rest);
      ghost var before := faces[..];
      faces[i] := f;
      assert faces[..] == before[i := f];
      UpdatePrefix(before, i, f);
      i := i + 1;
    }
    assert faces[..i] == faces[..];
    g := MeshTriangle(0, faces[..]);
  }

  /**
   * `MeshOutlineMarshal`: the `int` batch id and the `[2]int` edges are
   * refused by `encoding/binary`, so only the uint32 edge count is written.
   */
  method MeshOutlineMarshal(w: ByteWriter, g: MeshOutline)
    modifies w
    ensures w.bytes == old(w.bytes) + EncodeOutline(g)
  {
    w.Write(LeU32(U32Of(|g.edges|)));
  }

  /**
   * `MeshOutlineUnMarshal`: the batch id and the edge count are Go `int`s,
   * so neither is read; the count stays 0 and no edge is made.
   */
  method MeshOutlineUnMarshal(r: ByteReader) returns (g: MeshOutline)
    modifies r
    ensures Parsed(g, r.rest) == DecodeOutline(old(r.rest))
  {
    var size: nat := 0;
    var edges: seq<(int, int)> := seq(size, _ => (0, 0));
    assert edges == [];
    g := MeshOutline(0, edges);
  }

  /** Writes a uint32 count, then each face group in turn. */
  method TrianglesMarshal(w: ByteWriter, gs: seq<MeshTriangle>)
    modifies w
    ensures w.bytes == old(w.bytes) + EncodeCounted(gs, EncodeTriangle)
  {
    ghost var o := w.bytes;
    var count := LeU32(U32Of(|gs|));
    w.Write(count);
    var i := 0;
    while i < |gs|
      invariant 0 <= i <= |gs|
      invariant w.bytes == o + (count + EncodeAll(gs[..i], EncodeTriangle))
    {
      EncodeAllSnoc(gs[..i], gs[i], EncodeTriangle);
      PrefixSnoc(gs, i);
      MeshTriangleMarshal(w, gs[i]);
      Regroup2(count, EncodeAll(gs[..i], EncodeTriangle), EncodeTriangle(gs[i]));
      Regroup2(o, count + EncodeAll(gs[..i], EncodeTriangle), EncodeTriangle(gs[i]));
      i := i + 1;
    }
    assert gs[..i] == gs;
  }

  /** Reads `n` face groups into a fresh slice. */
  method TrianglesUnMarshal(r: ByteReader, n: nat) returns (a: array<MeshTriangle>)
    modifies r
    ensures fresh(a)
    ensures Parsed(a[..], r.rest) == DecodeAll(n, old(r.rest), DecodeTriangle)
  {
    ghost var s := r.rest;
    a := new MeshTriangle[n](_ => MeshTriangle(0, []));
    var i := 0;
    while i < n
      invariant 0 <= i <= n == a.Length
      invariant DecodeAll(i, s, DecodeTriangle) == Parsed(a[..i], r.rest)
    {
      ghost var mid := r.rest;
      var x := MeshTriangleUnMarshal(r);
      ReadStep(i, s, DecodeTriangle, a[..i], mid, x, r.rest);
      ghost var before := a[..];
      a[i] := x;
      assert a[..] == before[i := x];
      UpdatePrefix(before, i, x);
      i := i + 1;
    }
    assert a[..i] == a[..];
  }

  /** Writes a uint32 count, then each edge group in turn. */
  method OutlinesMarshal(w: ByteWriter, gs: seq<MeshOutline>)
    modifies w
    ensures w.bytes == old(w.bytes) + EncodeCounted(gs, EncodeOutline)
  {
    ghost var o := w.bytes;
    var count := LeU32(U32Of(|gs|));
    w.Write(count);
    var i := 0;
    while i < |gs|
      invariant 0 <= i <= |gs|
      invariant w.bytes == o + (count + EncodeAll(gs[..i], EncodeOutline))
    {
      EncodeAllSnoc(gs[..i], gs[i], EncodeOutline);
      PrefixSnoc(gs, i);
      MeshOutlineMarshal(w, gs[i]);
      Regroup2(count, EncodeAll(gs[..i], EncodeOutline), EncodeOutline(gs[i]));
      Regroup2(o, count + EncodeAll(gs[..i], EncodeOutline), EncodeOutline(gs[i]));
      i := i + 1;
    }
    assert gs[..i] == gs;
  }

  /** Reads `n` edge groups into a fresh slice. */
  method OutlinesUnMarshal(r: ByteReader, n: nat) returns (a: array<MeshOutline>)
    modifies r
    ensures fresh(a)
    ensures Parsed(a[..], r.rest) == DecodeAll(n, old(r.rest), DecodeOutline)
  {
    ghost var s := r.rest;
    a := new MeshOutline[n](_ => MeshOutline(0, []));
    var i := 0;
    while i < n
      invariant 0 <= i <= n == a.Length
      invariant DecodeAll(i, s, DecodeOutline) == Parsed(a[..i], r.rest)
    {
      ghost var mid := r.rest;
      var x := MeshOutlineUnMarshal(r);
      ReadStep(i, s, DecodeOutline, a[..i], mid, x, r.rest);
      ghost var before := a[..];
      a[i] := x;
      assert a[..] == before[i := x];
      UpdatePrefix(before, i, x);
      i := i + 1;
    }
    assert a[..i] == a[..];
  }

  /** Writes the matrix flag byte, then the matrix when there is one. */
  method OptMatMarshal(w: ByteWriter, m: Option<Mat4>)
    modifies w
    ensures w.bytes == old(w.bytes) + EncodeOptMat(m)
  {
    ghost var o := w.bytes;
    if m.Some? {
      w.Write([1]);
      MatMarshal(w, m.value);
      Regroup2(o, [1], EncodeMat(m.value));
    } else {
      w.Write([0]);
    }
  }

  /** Reads the flag byte, then the matrix when the flag is 1. */
  method OptMatUnMarshal(r: ByteReader) returns (m: Option<Mat4>)
    modifies r
    ensures Parsed(m, r.rest) == DecodeOptMat(old(r.rest))
  {
    var isMat := r.U8(0);
    if isMat == 1 {
      var x := MatUnMarshal(r);
      m := Some(x);
    } else {
      m := None;
    }
  }

  /** `MeshNodeMarshal`. */
  method MeshNodeMarshal(w: ByteWriter, n: MeshNode)
    modifies w
    ensures w.bytes == old(w.bytes) + EncodeNode(n)
  {
    ghost var o := w.bytes;
    Vec3FsMarshal(w, n.vertices);
    ghost var e := EncodeCounted(n.vertices, EncodeVec3F);
    Vec3FsMarshal(w, n.normals);
    Regroup2(o, e, EncodeCounted(n.normals, EncodeVec3F));
    e := e + EncodeCounted(n.normals, EncodeVec3F);
    ColorsMarshal(w, n.colors);
    Regroup2(o, e, EncodeCounted(n.colors, EncodeColor));
    e := e + EncodeCounted(n.colors, EncodeColor);
    Vec2FsMarshal(w, n.texCoords);
    Regroup2(o, e, EncodeCounted(n.texCoords, EncodeVec2F));
    e := e + EncodeCounted(n.texCoords, EncodeVec2F);
    OptMatMarshal(w, n.mat);
    Regroup2(o, e, EncodeOptMat(n.mat));
    e := e + EncodeOptMat(n.mat);
    TrianglesMarshal(w, n.faceGroup);
    Regroup2(o, e, EncodeCounted(n.faceGroup, EncodeTriangle));
    e := e + EncodeCounted(n.faceGroup, EncodeTriangle);
    OutlinesMarshal(w, n.edgeGroup);
    Regroup2(o, e, EncodeCounted(n.edgeGroup, EncodeOutline));
  }

  /** `MeshNodeUnMarshal`: every count is read into the one variable `size`, which keeps the previous count on a short read. */
  method MeshNodeUnMarshal(r: ByteReader) returns (n: MeshNode)
    modifies r
    ensures Parsed(n, r.rest) == DecodeNode(old(r.rest))
  {
    var size: U32 := 0;
    size := r.U32(size);
    var vertices := Vec3FsUnMarshal(r, size as nat);
    size := r.U32(size);
    var normals := Vec3FsUnMarshal(r, size as nat);
    size := r.U32(size);
    var colors := ColorsUnMarshal(r, size as nat);
    size := r.U32(size);
    var texCoords := Vec2FsUnMarshal(r, size as nat);
    var mat := OptMatUnMarshal(r);
    size := r.U32(size);
    var faceGroup := TrianglesUnMarshal(r, size as nat);
    size := r.U32(size);
    var edgeGroup := OutlinesUnMarshal(r, size as nat);
    n := MeshNode(vertices[..], normals[..], colors[..], texCoords[..], mat, faceGroup[..], edgeGroup[..]);
  }

  /** `MeshNodesMarshal`: the count, then each node. */
  method MeshNodesMarshal(w: ByteWriter, ns: seq<MeshNode>)
    modifies w
    ensures w.bytes == old(w.bytes) + EncodeNodes(ns)
  {
    ghost var o := w.bytes;
    var count := LeU32(U32Of(|ns|));
    w.Write(count);
    var i := 0;
    while i < |ns|
      invariant 0 <= i <= |ns|
      invariant w.bytes == o + (count + EncodeAll(ns[..i], EncodeNode))
    {
      EncodeAllSnoc(ns[..i], ns[i], EncodeNode);
      PrefixSnoc(ns, i);
      MeshNodeMarshal(w, ns[i]);
      Regroup2(count, EncodeAll(ns[..i], EncodeNode), EncodeNode(ns[i]));
      Regroup2(o, count + EncodeAll(ns[..i], EncodeNode), EncodeNode(ns[i]));
      i := i + 1;
    }
    assert ns[..i] == ns;
  }

  /** `MeshNodesUnMarshal`: reads the count, sizes the list and reads that many nodes. */
  method MeshNodesUnMarshal(r: ByteReader) returns (ns: array<MeshNode>)
    modifies r
    ensures fresh(ns)
    ensures Parsed(ns[..], r.rest) == DecodeNodes(old(r.rest))
  {
    var size := r.U32(0);
    ghost var s := r.rest;
    ns := new MeshNode[size as nat](_ => MeshNode([], [], [], [], None, [], []));
    var i := 0;
    while i < ns.Length
      invariant 0 <= i <= ns.Length
      invariant DecodeAll(i, s, DecodeNode) == Parsed(ns[..i], r.rest)
    {
      ghost var mid := r.rest;
      var x := MeshNodeUnMarshal(r);
      ReadStep(i, s, DecodeNode, ns[..i], mid, x, r.rest);
      ghost var before := ns[..];
      ns[i] := x;
      assert ns[..] == before[i := x];
      UpdatePrefix(before, i, x);
      i := i + 1;
    }
    assert ns[..i] == ns[..];
  }

  // ----- Meshes -----

  /** `baseMeshMarshal`: materials, nodes and, in version 4, the code. */
  method BaseMeshMarshal(w: ByteWriter, b: BaseMesh, v: U32)
    modifies w
    ensures w.bytes == old(w.bytes) + EncodeBaseMesh(b, v)
  {
    ghost var o := w.bytes;
    MtlsMarshal(w, b.materials, v);
    MeshNodesMarshal(w, b.nodes);
    Regroup2(o, EncodeMaterials(b.materials, v), EncodeNodes(b.nodes));
    ghost var e := EncodeMaterials(b.materials, v) + EncodeNodes(b.nodes);
    if v == V4 {
      Emit(w, o, e, LeU32(b.code));
    } else {
      assert w.bytes == o + (e + []);
    }
  }

  /** `baseMeshUnMarshal`: materials, nodes and, in version 4, the code. */
  method BaseMeshUnMarshal(r: ByteReader, v: U32) returns (b: BaseMesh)
    modifies r
    ensures Parsed(b, r.rest) == DecodeBaseMesh(old(r.rest), v)
  {
    var materials := MtlsUnMarshal(r, v);
    var nodes := MeshNodesUnMarshal(r);
    var code: U32 := 0;
    if v == V4 {
      code := r.U32(code);
    }
    b := BaseMesh(materials[..], nodes[..], code);
  }

  /** Writes a uint32 count, then each transform matrix. */
  method MatsMarshal(w: ByteWriter, ms: seq<Mat4>)
    modifies w
    ensures w.bytes == old(w.bytes) + EncodeCounted(ms, EncodeMat)
  {
    ghost var o := w.bytes;
    var count := LeU32(U32Of(|ms|));
    w.Write(count);
    var i := 0;
    while i < |ms|
      invariant 0 <= i <= |ms|
      invariant w.bytes == o + (count + EncodeAll(ms[..i], EncodeMat))
    {
      EncodeAllSnoc(ms[..i], ms[i], EncodeMat);
      PrefixSnoc(ms, i);
      MatMarshal(w, ms[i]);
      Regroup2(count, EncodeAll(ms[..i], EncodeMat), EncodeMat(ms[i]));
      Regroup2(o, count + EncodeAll(ms[..i], EncodeMat), EncodeMat(ms[i]));
      i := i + 1;
    }
    assert ms[..i] == ms;
  }

  /** Reads `n` transform matrices into a fresh slice. */
  method MatsUnMarshal(r: ByteReader, n: nat) returns (a: array<Mat4>)
    modifies r
    ensures fresh(a)
    ensures Parsed(a[..], r.rest) == DecodeAll(n, old(r.rest), DecodeMat)
  {
    ghost var s := r.rest;
    a := new Mat4[n](_ => seq(16, _ => 0));
    var i := 0;
    while i < n
      invariant 0 <= i <= n == a.Length
      invariant DecodeAll(i, s, DecodeMat) == Parsed(a[..i], r.rest)
    {
      MatUnMarshalNext(r, a, i, s);
      i := i + 1;
    }
    assert a[..i] == a[..];
  }

  /** One turn of the transform loop: matrix i is read into slot i. */
  method MatUnMarshalNext(r: ByteReader, a: array<Mat4>, i: nat, ghost s: seq<Byte>)
    requires i < a.Length && DecodeAll(i, s, DecodeMat) == Parsed(a[..i], r.rest)
    modifies r, a
    ensures DecodeAll(i + 1, s, DecodeMat) == Parsed(a[..i + 1], r.rest)
    ensures a[..] == old(a[..])[i := a[i]]
  {
    ghost var mid := r.rest;
    var x := MatUnMarshal(r);
    ReadStep(i, s, DecodeMat, a[..i], mid, x, r.rest);
    ghost var before := a[..];
    a[i] := x;
    assert a[..] == before[i := x];
    UpdatePrefix(before, i, x);
  }

  /** Writes the feature count, then each feature id as a uint64. */
  method FeaturesMarshal(w: ByteWriter, fs: seq<U64>)
    modifies w
    ensures w.bytes == old(w.bytes) + EncodeFeatures(fs)
  {
    ghost var o := w.bytes;
    var count := LeU32(U32Of(|fs|));
    w.Write(count);
    var i := 0;
    while i < |fs|
      invariant 0 <= i <= |fs|
      invariant w.bytes == o + (count + EncodeAll(fs[..i], LeU64))
    {
      EncodeAllSnoc(fs[..i], fs[i], LeU64);
      PrefixSnoc(fs, i);
      w.Write(LeU64(fs[i]));
      Regroup2(count, EncodeAll(fs[..i], LeU64), LeU64(fs[i]));
      Regroup2(o, count + EncodeAll(fs[..i], LeU64), LeU64(fs[i]));
      i := i + 1;
    }
    assert fs[..i] == fs;
  }

  /**
   * Reads the feature count, then the ids: before version 3 as one block of
   * uint32 widened one by one into the uint64 slice, from version 3 as one
   * block of uint64.
   */
  method FeaturesUnMarshal(r: ByteReader, v: U32) returns (fs: array<U64>)
    modifies r
    ensures fresh(fs)
    ensures Parsed(fs[..], r.rest) == DecodeFeatures(old(r.rest), v)
  {
    var fsize := r.U32(0);
    fs := new U64[fsize as nat](_ => 0);
    if v < V3 {
      var narrow := r.U32s(fsize as nat);
      var i := 0;
      while i < |narrow|
        invariant 0 <= i <= |narrow| == fs.Length
        invariant forall j :: 0 <= j < i ==> fs[j] == Widen(narrow[j])
        modifies fs
      {
        fs[i] := Widen(narrow[i]);
        i := i + 1;
      }
      assert fs[..] == Map(narrow, Widen);
    } else {
      var wide := r.U64s(fsize as nat);
      forall j | 0 <= j < fs.Length {
        fs[j] := wide[j];
      }
      assert fs[..] == wide;
    }
  }

  /** `MeshInstanceNodeMarshal`. */
  method InstanceMarshal(w: ByteWriter, inst: InstanceMesh, v: U32)
    modifies w
    ensures w.bytes == old(w.bytes) + EncodeInstance(inst, v)
  {
    ghost var o := w.bytes;
    MatsMarshal(w, inst.transfors);
    ghost var e := EncodeCounted(inst.transfors, EncodeMat);
    FeaturesMarshal(w, inst.features);
    Regroup2(o, e, EncodeFeatures(inst.features));
    e := e + EncodeFeatures(inst.features);
    Emit(w, o, e, EncodeU64s(inst.bbox));
    e := e + EncodeU64s(inst.bbox);
    BaseMeshMarshal(w, inst.mesh, v);
    Regroup2(o, e, EncodeBaseMesh(inst.mesh, v));
    e := e + EncodeBaseMesh(inst.mesh, v);
    Emit(w, o, e, LeU64(inst.hash));
  }

  /** `MeshInstanceNodeMarshal`, stated with the encoder the instance list uses. */
  method InstanceMarshalEncoded(w: ByteWriter, inst: InstanceMesh, v: U32)
    modifies w
    ensures w.bytes == old(w.bytes) + InstanceEncoder(v)(inst)
  {
    InstanceMarshal(w, inst, v);
  }

  /** `MeshInstanceNodeUnMarshal`. */
  method InstanceUnMarshal(r: ByteReader, v: U32) returns (inst: InstanceMesh)
    modifies r
    ensures Parsed(inst, r.rest) == DecodeInstance(old(r.rest), v)
  {
    var size := r.U32(0);
    var transfors := MatsUnMarshal(r, size as nat);
    var features := FeaturesUnMarshal(r, v);
    var bbox := r.U64s(6);
    var mesh := BaseMeshUnMarshal(r, v);
    var hash := r.U64(0);
    inst := InstanceMesh(transfors[..], features[..], bbox, mesh, hash);
  }

  /** One turn of `MeshInstanceNodesMarshal`'s loop: instance i follows the first i, written after `o`. */
  method InstanceMarshalNext(w: ByteWriter, insts: seq<InstanceMesh>, i: nat, v: U32, ghost o: seq<Byte>)
    requires i < |insts| && w.bytes == o + EncodeAll(insts[..i], InstanceEncoder(v))
    modifies w
    ensures w.bytes == o + EncodeAll(insts[..i + 1], InstanceEncoder(v))
  {
    InstanceMarshalEncoded(w, insts[i], v);
    EncodeAllStep(o, insts, i, InstanceEncoder(v));
  }

  /** `MeshInstanceNodesMarshal`'s loop: each instance in turn. */
  method InstanceItemsMarshal(w: ByteWriter, insts: seq<InstanceMesh>, v: U32)
    modifies w
    ensures w.bytes == old(w.bytes) + EncodeAll(insts, InstanceEncoder(v))
  {
    ghost var o := w.bytes;
    for i := 0 to |insts|
      invariant w.bytes == o + EncodeAll(insts[..i], InstanceEncoder(v))
    {
      InstanceMarshalNext(w, insts, i, v, o);
    }
    assert insts[..|insts|] == insts;
  }

  /** `MeshInstanceNodesMarshal`: the count, then each instance. */
  method InstancesMarshal(w: ByteWriter, insts: seq<InstanceMesh>, v: U32)
    modifies w
    ensures w.bytes == old(w.bytes) + EncodeInstances(insts, v)
  {
    ghost var o := w.bytes;
    var count := LeU32(U32Of(|insts|));
    w.Write(count);
    InstanceItemsMarshal(w, insts, v);
    CountedWritten(o, count, insts, InstanceEncoder(v));
  }

  /** Once every item is written after the count, the bytes are the counted list's encoding. */
  lemma CountedWritten<T>(o: seq<Byte>, count: seq<Byte>, xs: seq<T>, enc: T -> seq<Byte>)
    requires count == LeU32(U32Of(|xs|))
    ensures o + count + EncodeAll(xs, enc) == o + EncodeCounted(xs, enc)
  {
  }

  /** Writing item `i` after the first `i` extends the list's encoding by that item. */
  lemma EncodeAllStep<T>(o: seq<Byte>, xs: seq<T>, i: nat, enc: T -> seq<Byte>)
    requires i < |xs|
    ensures o + EncodeAll(xs[..i + 1], enc) == o + EncodeAll(xs[..i], enc) + enc(xs[i])
  {
    EncodeAllSnoc(xs[..i], xs[i], enc);
    PrefixSnoc(xs, i);
  }

  /** `MeshInstanceNodesUnMarshal`: reads the count, sizes the list and reads that many instances. */
  method InstancesUnMarshal(r: ByteReader, v: U32) returns (insts: array<InstanceMesh>)
    modifies r
    ensures fresh(insts)
    ensures Parsed(insts[..], r.rest) == DecodeInstances(old(r.rest), v)
  {
    var size := r.U32(0);
    ghost var s := r.rest;
    insts := new InstanceMesh[size as nat](_ => InstanceMesh([], [], [0, 0, 0, 0, 0, 0], BaseMesh([], [], 0), 0));
    var i := 0;
    while i < insts.Length
      invariant 0 <= i <= insts.Length
      invariant DecodeAll(i, s, InstanceDecoder(v)) == Parsed(insts[..i], r.rest)
    {
      ghost var mid := r.rest;
      var x := InstanceUnMarshal(r, v);
      ReadStep(i, s, InstanceDecoder(v), insts[..i], mid, x, r.rest);
      ghost var before := insts[..];
      insts[i] := x;
      assert insts[..] == before[i := x];
      UpdatePrefix(before, i, x);
      i := i + 1;
    }
    assert insts[..i] == insts[..];
  }

  /** `MeshMarshal`: signature, version, base mesh, instances and, in version 4, the code once more. */
  method MeshMarshal(w: ByteWriter, m: Mesh)
    modifies w
    ensures w.bytes == old(w.bytes) + EncodeMesh(m)
  {
    ghost var o := w.bytes;
    var v := m.version;
    w.Write(Signature);
    ghost var e := Signature;
    Emit(w, o, e, LeU32(v));
    e := e + LeU32(v);
    BaseMeshMarshal(w, m.base, v);
    Regroup2(o, e, EncodeBaseMesh(m.base, v));
    e := e + EncodeBaseMesh(m.base, v);
    InstancesMarshal(w, m.instanceNode, v);
    Regroup2(o, e, EncodeInstances(m.instanceNode, v));
    e := e + EncodeInstances(m.instanceNode, v);
    if v == V4 {
      Emit(w, o, e, LeU32(m.base.code));
    } else {
      assert w.bytes == o + (e + []);
    }
  }

  /** `MeshUnMarshal`: the signature is read and ignored; both code words land in the one field. */
  method MeshUnMarshal(r: ByteReader) returns (m: Mesh)
    modifies r
    ensures Parsed(m, r.rest) == DecodeMesh(old(r.rest))
  {
    var sig := r.Partial(4);
    var version := r.U32(0);
    var base := BaseMeshUnMarshal(r, version);
    var instances := InstancesUnMarshal(r, version);
    var code := base.code;
    if version == V4 {
      code := r.U32(code);
    }
    m := Mesh(base.(code := code), version, instances[..]);
  }
}
