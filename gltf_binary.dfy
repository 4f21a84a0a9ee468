/**
 * The binary (GLB) output of mst/gltf.go: `calcPadding`, the byte-counting
 * writer `calcSizeWriter` and `GetGltfBinary`, which was meant to pad the
 * encoded document with spaces to a multiple of a unit. The glTF encoder is
 * a foreign library: its output (or its failure) is a parameter.
 */
module GltfBinary {
  import opened Wrappers
  import opened LittleEndian
  import IntMath

  /** Go's `a % b` for any non-zero divisor: truncated division, so the sign follows `a`. */
  function GoRem(a: int, b: int): (r: int)
    requires b != 0
    ensures b > 0 ==> r == IntMath.GoRem(a, b)
    ensures b < 0 ==> r == IntMath.GoRem(a, -b)
  {
    if b > 0 then IntMath.GoRem(a, b) else IntMath.GoRem(a, -b)
  }

  /** `calcPadding`: how many bytes take `offset` up to the next multiple of `unit`. */
  function CalcPadding(offset: int, unit: int): (p: int)
    requires unit != 0
    ensures offset >= 0 && unit > 0 ==> 0 <= p < unit
  {
    var padding := GoRem(offset, unit);
    if padding != 0 then unit - padding else padding
  }

  /**
   * For a positive unit and a non-negative offset the padding is below the
   * unit, makes the offset a multiple of it, and is zero exactly when the
   * offset is one already.
   */
  lemma PaddingAligns(offset: int, unit: int)
    requires offset >= 0 && unit > 0
    ensures var p := CalcPadding(offset, unit);
            0 <= p < unit && (offset + p) % unit == 0 && (p == 0 <==> offset % unit == 0)
  {
    var r := offset % unit;
    assert offset == unit * (offset / unit) + r;
    if r != 0 {
      assert offset + (unit - r) == unit * (offset / unit + 1);
      IntMath.MulModZero(unit, offset / unit + 1);
    }
  }

  /** The least such padding: no smaller count of bytes aligns the offset. */
  lemma PaddingIsLeast(offset: int, unit: int, q: int)
    requires offset >= 0 && unit > 0 && 0 <= q < CalcPadding(offset, unit)
    ensures (offset + q) % unit != 0
  {
    PaddingAligns(offset, unit);
    var r := offset % unit;
    assert offset == unit * (offset / unit) + r;
    assert offset + q == unit * (offset / unit) + (r + q);
    assert 0 < r + q < unit;
    if (offset + q) % unit == 0 {
      IntMath.ModZeroMul(offset + q, unit);
      var k := (offset + q) / unit;
      assert unit * k == unit * (offset / unit) + (r + q);
      assert unit * (k - offset / unit) == r + q;
      if k - offset / unit <= 0 {
        IntMath.MulLeMono(k - offset / unit, 0, unit);
      } else {
        IntMath.MulLeMono(1, k - offset / unit, unit);
      }
    }
  }

  /** The `bytes.Buffer` behind a size writer. */
  class ByteBuffer {
    var bytes: seq<Byte>

    constructor ()
      ensures bytes == []
    {
      bytes := [];
    }

    /** `bytes.Buffer.Write`, as the encoder calls it. */
    method Write(p: seq<Byte>)
      modifies this
      ensures bytes == old(bytes) + p
    {
      bytes := bytes + p;
    }
  }

  /** `calcSizeWriter`: forwards writes to its buffer and counts the bytes it forwarded. */
  class SizeWriter {
    const writer: ByteBuffer
    var size: int

    /** `newSizeWriter`: an empty buffer and a count of zero. */
    constructor ()
      ensures fresh(writer) && writer.bytes == [] && size == 0
    {
      writer := new ByteBuffer();
      size := 0;
    }

    /** `Write`: forwards `p` and adds its length to `Size`; it reports `len(p)` bytes and no error. */
    method Write(p: seq<Byte>) returns (n: int)
      modifies this, writer
      ensures writer.bytes == old(writer.bytes) + p && size == old(size) + |p| && n == |p|
    {
      var si := |p|;
      writer.Write(p);
      size := size + si;
      n := si;
    }

    /** `Bytes`: what the buffer holds. */
    function Bytes(): seq<Byte>
      reads this, writer
    {
      writer.bytes
    }

    /** `GetSize`: the length of what the buffer holds, however it was written. */
    function GetSize(): (s: nat)
      reads this, writer
      ensures s == |Bytes()|
    {
      |writer.bytes|
    }
  }

  /** `n` space characters, the padding byte. */
  function Spaces(n: nat): (s: seq<Byte>)
    ensures |s| == n && forall i :: 0 <= i < n ==> s[i] == 0x20
  {
    seq(n, _ => 0x20)
  }

  /**
   * `GetGltfBinary` as written. The encoder writes to the writer's buffer
   * directly, so `Size` is still zero when the padding is computed, the
   * padding is always zero, and the encoded bytes come back unpadded.
   * `glb` is what the encoder produces, `None` when it fails.
   */
  method GetGltfBinary(glb: Option<seq<Byte>>, paddingUnit: int) returns (r: Option<seq<Byte>>)
    requires glb.Some? ==> paddingUnit != 0
    ensures r == glb
  {
    var w := new SizeWriter();
    if glb.None? {
      return None;
    }
    w.writer.Write(glb.value);
    assert w.Bytes() == [] + glb.value == glb.value;
    var padding := CalcPadding(w.size, paddingUnit);
    if padding != 0 {
      // The space-filling branch cannot be taken: `Size` counted nothing.
      assert false;
    }
    r := Some(w.Bytes());
  }

  /** `make([]byte, padding)` filled with 0x20 by the loop of `GetGltfBinary`. */
  method SpacePad(padding: nat) returns (pad: array<Byte>)
    ensures fresh(pad) && pad[..] == Spaces(padding)
  {
    pad := new Byte[padding](_ => 0);
    var i := 0;
    while i < padding
      invariant 0 <= i <= padding
      invariant forall k :: 0 <= k < i ==> pad[k] == 0x20
      modifies pad
    {
      pad[i] := 0x20;
      i := i + 1;
    }
  }

  /**
   * `GetGltfBinary` as evidently intended: the padding is computed from the
   * number of bytes the buffer holds, so the result is the encoded bytes
   * followed by spaces up to the next multiple of the unit.
   */
  method GetGltfBinaryPadded(glb: Option<seq<Byte>>, paddingUnit: int) returns (r: Option<seq<Byte>>)
    requires paddingUnit > 0
    ensures glb.None? ==> r.None?
    ensures glb.Some? ==> r == Some(glb.value + Spaces(CalcPadding(|glb.value|, paddingUnit)))
  {
    var w := new SizeWriter();
    if glb.None? {
      return None;
    }
    w.writer.Write(glb.value);
    assert w.Bytes() == [] + glb.value == glb.value;
    var padding := CalcPadding(w.GetSize(), paddingUnit);
    if padding == 0 {
      assert glb.value + Spaces(0) == glb.value;
      return Some(w.Bytes());
    }
    var pad := SpacePad(padding);
    var _ := w.Write(pad[..]);
    r := Some(w.Bytes());
  }

  /** The intended result is the encoded bytes, then fewer than `unit` spaces, ending on a multiple of `unit`. */
  lemma PaddedIsAligned(glb: seq<Byte>, unit: int)
    requires unit > 0
    ensures var out := glb + Spaces(CalcPadding(|glb|, unit));
            |out| % unit == 0 && out[..|glb|] == glb && |out| - |glb| < unit
  {
    PaddingAligns(|glb|, unit);
  }

  /** A one-byte document and a unit of 4: the result as written is 1 byte long, not a multiple of 4. */
  lemma UnpaddedExample()
    ensures CalcPadding(0, 4) == 0 && CalcPadding(|[0x67 as Byte]|, 4) == 3
    ensures |[0x67 as Byte]| % 4 != 0
  {
  }
}
