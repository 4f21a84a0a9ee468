/**
 * Facts about the MST byte layout that the round trip does not show on its
 * own: the header, where the version changes the bytes, what the reader does
 * with a signature, a short input, an unknown tag or a flag other than 1,
 * and how a nil material or a second code word affects what is read.
 */
module MstFacts {
  import opened Wrappers
  import opened LittleEndian
  import opened MstTypes
  import opened MstFormat
  import opened MstRoundTrip

  // ----- Header -----

  /** An encoded mesh starts with the ASCII bytes "fwtm", then the version as a little-endian uint32. */
  lemma HeaderLayout(m: Mesh)
    ensures |EncodeMesh(m)| >= 8
    ensures forall i :: 0 <= i < 4 ==> EncodeMesh(m)[i] as int == "fwtm"[i] as int
    ensures FromLeU32(EncodeMesh(m)[4..8]) == m.version
  {
    var v := m.version;
    var rest := EncodeBaseMesh(m.base, v) + (EncodeInstances(m.instanceNode, v) + (EncodeCode(m.base.code, v) + []));
    MeshBytes(m, []);
    assert EncodeMesh(m) + [] == EncodeMesh(m);
    HeaderBytes(v, rest);
  }

  lemma HeaderBytes(v: U32, rest: seq<Byte>)
    ensures |Signature + (LeU32(v) + rest)| >= 8
    ensures forall i :: 0 <= i < 4 ==> (Signature + (LeU32(v) + rest))[i] as int == "fwtm"[i] as int
    ensures FromLeU32((Signature + (LeU32(v) + rest))[4..8]) == v
  {
    assert (Signature + (LeU32(v) + rest))[4..8] == LeU32(v);
    LeU32RoundTrip(v, LeU32(v));
  }

  /** The reader takes the first four bytes without looking at them. */
  lemma SignatureIgnored(sig: seq<Byte>, s: seq<Byte>)
    requires |sig| == 4
    ensures DecodeMesh(sig + s) == DecodeMesh(Signature + s)
  {
    ReadSomeAfter(sig, s);
    ReadSomeAfter(Signature, s);
  }

  /** Reading never fails: an input of at most four bytes gives the empty mesh of version 0. */
  lemma ShortInputDecodesToZero(s: seq<Byte>)
    requires |s| <= 4
    ensures DecodeMesh(s) == Parsed(Mesh(BaseMesh([], [], 0), 0, []), [])
  {
    assert ReadSome(s, 4).rest == [];
    ReadsOnEmpty(0, 0, 0, 0, []);
    assert DecodeMaterials([], 0) == Parsed([], []);
    assert DecodeNodes([]) == Parsed([], []);
    assert DecodeInstances([], 0) == Parsed([], []);
  }

  // ----- Where the version changes the bytes -----

  /** From version 2 on a material's bytes do not depend on the version. */
  lemma MaterialSameFromV2(m: MeshMaterial, v: U32, w: U32)
    requires v >= V2 && w >= V2
    ensures EncodeMaterial(m, v) == EncodeMaterial(m, w)
  {
  }

  lemma {:induction false} MaterialListSameFromV2(ms: seq<MeshMaterial>, v: U32, w: U32)
    requires v >= V2 && w >= V2
    ensures EncodeAll(ms, MaterialEncoder(v)) == EncodeAll(ms, MaterialEncoder(w))
    decreases |ms|
  {
    if ms != [] {
      MaterialSameFromV2(ms[0], v, w);
      MaterialListSameFromV2(ms[1..], v, w);
    }
  }

  /** Appending nothing leaves a sequence as it was. */
  lemma AppendEmpty<T>(s: seq<T>)
    ensures s + [] == s
  {
  }

  /** Version 4 writes a base mesh as version 3 does, then its code word. */
  lemma CodeAppendedInV4(b: BaseMesh)
    ensures EncodeBaseMesh(b, V4) == EncodeBaseMesh(b, V3) + LeU32(b.code)
  {
    MaterialListSameFromV2(b.materials, V4, V3);
    AppendEmpty(EncodeMaterials(b.materials, V3) + EncodeNodes(b.nodes));
  }

  /** Before and after version 4 the code is not written at all. */
  lemma CodeIgnoredOutsideV4(b: BaseMesh, v: U32, c: U32)
    requires v != V4
    ensures EncodeBaseMesh(b.(code := c), v) == EncodeBaseMesh(b, v)
  {
  }

  /** In version 4 a mesh ends with its code word, and so does its base mesh part. */
  lemma CodeTwiceInV4(m: Mesh)
    requires m.version == V4
    ensures |EncodeBaseMesh(m.base, V4)| >= 4 && |EncodeMesh(m)| >= 4
    ensures EncodeBaseMesh(m.base, V4)[|EncodeBaseMesh(m.base, V4)| - 4..] == LeU32(m.base.code)
    ensures EncodeMesh(m)[|EncodeMesh(m)| - 4..] == LeU32(m.base.code)
  {
    CodeAppendedInV4(m.base);
    var head := Signature + LeU32(V4) + EncodeBaseMesh(m.base, V4) + EncodeInstances(m.instanceNode, V4);
    assert EncodeMesh(m) == head + LeU32(m.base.code);
  }

  /**
   * Both code words are read into the same field, so in version 4 the one
   * after the instances is the one the mesh keeps.
   */
  lemma TrailingCodeWins(m: Mesh, c: U32, t: seq<Byte>)
    requires MeshEncodable(m) && m.version == V4
    ensures DecodeMesh(Signature + LeU32(V4) + EncodeBaseMesh(m.base, V4) + EncodeInstances(m.instanceNode, V4)
                       + LeU32(c) + t)
         == Parsed(NormMesh(m).(base := NormMesh(m).base.(code := c)), t)
  {
    var insts := EncodeInstances(m.instanceNode, V4);
    var t3 := LeU32(c) + t;
    var t2 := insts + t3;
    var t1 := EncodeBaseMesh(m.base, V4) + t2;
    Regroup5(Signature, LeU32(V4), EncodeBaseMesh(m.base, V4), insts, LeU32(c), t);
    ReadSomeAfter(Signature, LeU32(V4) + t1);
    ReadU32After(V4, t1, 0);
    BaseMeshRoundTrip(m.base, V4, t2);
    InstancesRoundTrip(m.instanceNode, V4, t3);
    ReadU32After(c, t, m.base.code);
  }

  // ----- Material framing -----

  /** Every body begins with its parent's body: base, then texture, then Lambert for Phong. */
  lemma ParentBodyFirst(m: MeshMaterial, v: U32)
    requires !m.Base? && !m.NoVariant?
    ensures EncodeBaseMaterial(m.TexturePart().base) <= EncodeTextureMaterial(m.TexturePart())
    ensures EncodeTextureMaterial(m.TexturePart()) <= MaterialBody(m, v)
    ensures m.Phong? ==> EncodeLambertMaterial(m.phong.lambert) <= MaterialBody(m, v)
  {
    TexturedStartsWithBase(m.TexturePart());
    match m
    case Textured(_) =>
    case Pbr(p) => PbrStartsWithTextured(p, v);
    case Lambert(l) => LambertStartsWithTextured(l);
    case Phong(p) =>
      LambertStartsWithTextured(p.lambert);
      PhongStartsWithLambert(p);
      PrefixTrans(EncodeTextureMaterial(p.lambert.textured), EncodeLambertMaterial(p.lambert),
                  EncodePhongMaterial(p));
  }

  lemma TexturedStartsWithBase(x: TextureMaterial)
    ensures EncodeBaseMaterial(x.base) <= EncodeTextureMaterial(x)
  {
    var base := EncodeBaseMaterial(x.base);
    PrefixOfAppend(base, EncodeOptTexture(x.texture));
    PrefixExtends(base, base + EncodeOptTexture(x.texture), EncodeOptTexture(x.normal));
  }

  lemma PbrStartsWithTextured(p: PbrMaterial, v: U32)
    ensures EncodeTextureMaterial(p.textured) <= EncodePbrMaterial(p, v)
  {
    var t := EncodeTextureMaterial(p.textured);
    var pad: seq<Byte> := if v < V2 then [PbrPad] else [];
    PrefixOfAppend(t, EncodeColor(p.emissive));
    PrefixExtends(t, t + EncodeColor(p.emissive), pad);
    PrefixExtends(t, t + EncodeColor(p.emissive) + pad, EncodePbrFields(p));
  }

  lemma LambertStartsWithTextured(l: LambertMaterial)
    ensures EncodeTextureMaterial(l.textured) <= EncodeLambertMaterial(l)
  {
    var t := EncodeTextureMaterial(l.textured);
    PrefixOfAppend(t, EncodeColor(l.ambient));
    PrefixExtends(t, t + EncodeColor(l.ambient), EncodeColor(l.diffuse));
    PrefixExtends(t, t + EncodeColor(l.ambient) + EncodeColor(l.diffuse), EncodeColor(l.emissive));
  }

  lemma PhongStartsWithLambert(p: PhongMaterial)
    ensures EncodeLambertMaterial(p.lambert) <= EncodePhongMaterial(p)
  {
    var l := EncodeLambertMaterial(p.lambert);
    PrefixOfAppend(l, EncodeColor(p.specular));
    PrefixExtends(l, l + EncodeColor(p.specular), LeU64(p.shininess));
    PrefixExtends(l, l + EncodeColor(p.specular) + LeU64(p.shininess), LeU64(p.specularity));
  }

  lemma PrefixOfAppend(a: seq<Byte>, b: seq<Byte>)
    ensures a <= a + b
  {
    assert (a + b)[..|a|] == a;
  }

  lemma PrefixExtends(a: seq<Byte>, b: seq<Byte>, c: seq<Byte>)
    requires a <= b
    ensures a <= b + c
  {
    assert (b + c)[..|a|] == b[..|a|];
  }

  lemma PrefixTrans(a: seq<Byte>, b: seq<Byte>, c: seq<Byte>)
    requires a <= b && b <= c
    ensures a <= c
  {
    assert c[..|b|] == b;
    assert c[..|a|] == b[..|a|];
  }

  /** A tag above 4 names no variant: the material is nil and no body is read. */
  lemma UnknownTagReadsNoBody(tag: U32, v: U32, t: seq<Byte>)
    requires tag > TagPhong
    ensures DecodeMaterial(LeU32(tag) + t, v) == Parsed(NoVariant, t)
  {
    ReadU32After(tag, t, 0);
  }

  /**
   * A nil material still counts in the list but writes no bytes, so the
   * reader takes what follows the list for that material.
   */
  lemma NilMaterialSwallowsNext(v: U32, t: seq<Byte>)
    ensures EncodeMaterials([NoVariant], v) == LeU32(1)
    ensures DecodeMaterials(EncodeMaterials([NoVariant], v) + t, v)
         == Parsed([DecodeMaterial(t, v).value], DecodeMaterial(t, v).rest)
  {
    assert EncodeAll([NoVariant], MaterialEncoder(v)) == [] + EncodeAll([NoVariant][1..], MaterialEncoder(v));
    assert LeU32(1) + [] == LeU32(1);
    ReadU32After(1, t, 0);
    DecodeAllSnoc(0, t, MaterialDecoder(v));
    assert DecodeAll(0, t, MaterialDecoder(v)) == Parsed([], t);
    assert MaterialDecoder(v)(t) == DecodeMaterial(t, v);
    assert [] + [DecodeMaterial(t, v).value] == [DecodeMaterial(t, v).value];
  }

  // ----- Flags -----

  /** A texture flag other than 1 means no texture follows. */
  lemma OptTextureFlagNotOne(f: U16, t: seq<Byte>, d: U16)
    requires f != 1
    ensures DecodeOptTexture(LeU16(f) + t, d) == (Parsed(None, t), f)
  {
    ReadU16After(f, t, d);
  }

  /** A matrix flag other than 1 means no matrix follows. */
  lemma OptMatFlagNotOne(f: Byte, t: seq<Byte>)
    requires f != 1
    ensures DecodeOptMat([f] + t) == Parsed(None, t)
  {
    ReadU8After(f, t, 0);
  }

  // ----- Go ints -----

  /** The batch id, the texture id and the outline edges do not reach the bytes. */
  lemma GoIntsWriteNothing(g: MeshTriangle, k: int, x: Texture, j: int, o: MeshOutline, e: seq<(int, int)>)
    requires |e| == |o.edges|
    ensures EncodeTriangle(g.(batchid := k)) == EncodeTriangle(g)
    ensures EncodeTexture(x.(id := j)) == EncodeTexture(x)
    ensures EncodeOutline(MeshOutline(k, e)) == EncodeOutline(o)
  {
  }
}
