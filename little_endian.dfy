/**
 * The primitive layer of the MST codec (mst/mesh.go, toLittleByteOrder,
 * writeLittleByte and readLittleByte), as Go's `encoding/binary` executes it
 * with `binary.LittleEndian`.
 *
 * Writing a fixed-size value appends its little-endian bytes. Reading a
 * fixed-size value is one `io.ReadFull` of its size: when fewer bytes remain,
 * everything left is consumed and the target keeps the value it had. Go's
 * platform `int` has no fixed size, so `encoding/binary` refuses it: such a
 * value is written as no bytes and read from no bytes. Floats are carried as
 * their IEEE 754 bit patterns, which `encoding/binary` copies unchanged.
 */
module LittleEndian {
  import opened Wrappers

  newtype Byte = x: int | 0 <= x < 0x100
  newtype U16 = x: int | 0 <= x < 0x1_0000
  newtype U32 = x: int | 0 <= x < 0x1_0000_0000
  newtype U64 = x: int | 0 <= x < 0x1_0000_0000_0000_0000
  /** A float32, as its bit pattern. */
  type F32 = U32
  /** A float64, as its bit pattern. */
  type F64 = U64

  const TwoTo32: nat := 0x1_0000_0000

  /** What a reader yields: the value read and the input left after it. */
  datatype Parsed<T> = Parsed(value: T, rest: seq<Byte>)

  /** Go's `uint32(n)` for a length: the low 32 bits. */
  function U32Of(n: nat): (r: U32)
    ensures n < TwoTo32 ==> r as nat == n
  {
    (n % TwoTo32) as U32
  }

  /** The `k` low bytes of `x`, least significant first. */
  function LeBytes(x: nat, k: nat): (b: seq<Byte>)
    ensures |b| == k
  {
    if k == 0 then [] else [(x % 0x100) as Byte] + LeBytes(x / 0x100, k - 1)
  }

  /** The number whose little-endian bytes are `b`. */
  function FromLe(b: seq<Byte>): (x: nat)
  {
    if b == [] then 0 else b[0] as nat + 0x100 * FromLe(b[1..])
  }

  lemma {:induction false} FromLeBound(b: seq<Byte>, k: nat)
    requires |b| == k
    ensures FromLe(b) < Pow256(k)
  {
    if k > 0 {
      FromLeBound(b[1..], k - 1);
      assert FromLe(b[1..]) <= Pow256(k - 1) - 1;
      assert 0x100 * FromLe(b[1..]) <= 0x100 * Pow256(k - 1) - 0x100;
    }
  }

  function Pow256(k: nat): (p: nat)
    ensures p >= 1
  {
    if k == 0 then 1 else 0x100 * Pow256(k - 1)
  }

  /** `k` little-endian bytes read back as the number when it is below 256^k, and every `k` bytes are some number's encoding. */
  lemma LeBytesRoundTrip(x: nat, k: nat, b: seq<Byte>)
    requires x < Pow256(k) && |b| == k
    ensures FromLe(LeBytes(x, k)) == x
    ensures LeBytes(FromLe(b), k) == b
  {
    FromLeOfLeBytes(x, k);
    LeBytesOfFromLe(b, k);
  }

  /** Reading back the `k` low bytes of a number below 256^k gives the number. */
  lemma {:induction false} FromLeOfLeBytes(x: nat, k: nat)
    requires x < Pow256(k)
    ensures FromLe(LeBytes(x, k)) == x
  {
    if k > 0 {
      var q := x / 0x100;
      assert q < Pow256(k - 1);
      FromLeOfLeBytes(q, k - 1);
      var e := LeBytes(x, k);
      assert e[1..] == LeBytes(q, k - 1);
      assert FromLe(e) == x % 0x100 + 0x100 * q;
    }
  }

  /** Encoding the number `k` bytes stand for gives the same bytes. */
  lemma {:induction false} LeBytesOfFromLe(b: seq<Byte>, k: nat)
    requires |b| == k
    ensures LeBytes(FromLe(b), k) == b
  {
    if k > 0 {
      LeBytesOfFromLe(b[1..], k - 1);
      var y, z := FromLe(b), FromLe(b[1..]);
      assert y == b[0] as nat + 0x100 * z;
      assert y % 0x100 == b[0] as nat && y / 0x100 == z;
      assert LeBytes(y, k) == [b[0]] + LeBytes(z, k - 1);
      assert b == [b[0]] + b[1..];
    }
  }

  /** `x` shifted right by `a` bytes. */
  function Shift(x: nat, a: nat): nat {
    if a == 0 then x else Shift(x / 0x100, a - 1)
  }

  /** The first `a + b` bytes are the first `a`, then the first `b` of what is left above them. */
  lemma {:induction false} LeBytesSplit(x: nat, a: nat, b: nat)
    ensures LeBytes(x, a + b) == LeBytes(x, a) + LeBytes(Shift(x, a), b)
    decreases a
  {
    if a > 0 {
      LeBytesSplit(x / 0x100, a - 1, b);
    }
  }

  /** Shifting out every byte of a number below 256^a leaves 0. */
  lemma {:induction false} ShiftSmall(x: nat, a: nat)
    requires x < Pow256(a)
    ensures Shift(x, a) == 0
    decreases a
  {
    if a > 0 {
      ShiftSmall(x / 0x100, a - 1);
    }
  }

  function LeU16(x: U16): (b: seq<Byte>)
    ensures |b| == 2
  {
    LeBytes(x as nat, 2)
  }

  function LeU32(x: U32): (b: seq<Byte>)
    ensures |b| == 4
  {
    LeBytes(x as nat, 4)
  }

  function LeU64(x: U64): (b: seq<Byte>)
    ensures |b| == 8
  {
    LeBytes(x as nat, 8)
  }

  function FromLeU16(b: seq<Byte>): U16
    requires |b| == 2
  {
    FromLeBound(b, 2);
    FromLe(b) as U16
  }

  function FromLeU32(b: seq<Byte>): U32
    requires |b| == 4
  {
    FromLeBound(b, 4);
    FromLe(b) as U32
  }

  function FromLeU64(b: seq<Byte>): U64
    requires |b| == 8
  {
    FromLeBound(b, 8);
    FromLe(b) as U64
  }

  /** Reading back the little-endian bytes of a uint16 gives it back, and every two bytes are some uint16's encoding. */
  lemma LeU16RoundTrip(x: U16, b: seq<Byte>)
    requires |b| == 2
    ensures FromLeU16(LeU16(x)) == x
    ensures LeU16(FromLeU16(b)) == b
  {
    LeBytesRoundTrip(x as nat, 2, b);
  }

  /** Reading back the little-endian bytes of a uint32 gives it back, and every four bytes are some uint32's encoding. */
  lemma LeU32RoundTrip(x: U32, b: seq<Byte>)
    requires |b| == 4
    ensures FromLeU32(LeU32(x)) == x
    ensures LeU32(FromLeU32(b)) == b
  {
    assert Pow256(4) == 0x1_0000_0000;
    LeBytesRoundTrip(x as nat, 4, b);
  }

  /** Reading back the little-endian bytes of a uint64 gives it back, and every eight bytes are some uint64's encoding. */
  lemma LeU64RoundTrip(x: U64, b: seq<Byte>)
    requires |b| == 8
    ensures FromLeU64(LeU64(x)) == x
    ensures LeU64(FromLeU64(b)) == b
  {
    assert Pow256(8) == 0x1_0000_0000_0000_0000;
    LeBytesRoundTrip(x as nat, 8, b);
  }

  /** The least significant byte comes first. */
  lemma LeU32Examples()
    ensures LeU32(1) == [1, 0, 0, 0]
    ensures LeU32(0x0403_0201) == [1, 2, 3, 4]
    ensures LeU16(0xFF00) == [0, 0xFF]
  {
  }

  function Zeros(n: nat): (z: seq<Byte>)
    ensures |z| == n && forall i :: 0 <= i < n ==> z[i] == 0
  {
    seq(n, _ => 0)
  }

  /**
   * `io.ReadFull` of `n` bytes: the next `n` bytes when that many remain;
   * otherwise nothing, and the rest of the input is gone.
   */
  function ReadFull(s: seq<Byte>, n: nat): (r: Parsed<Option<seq<Byte>>>)
    ensures r.value.Some? ==> |r.value.value| == n
  {
    if n <= |s| then Parsed(Some(s[..n]), s[n..]) else Parsed(None, [])
  }

  /**
   * `rd.Read(buf)` into a fresh zeroed buffer of `n` bytes: takes what is
   * available up to `n`; the buffer keeps zeros where nothing was read.
   */
  function ReadSome(s: seq<Byte>, n: nat): (r: Parsed<seq<Byte>>)
    ensures |r.value| == n
  {
    if n <= |s| then Parsed(s[..n], s[n..]) else Parsed(s + Zeros(n - |s|), [])
  }

  /** Reads a block of `n` bytes into a target holding `d`. */
  function ReadBytes(s: seq<Byte>, n: nat, d: seq<Byte>): (r: Parsed<seq<Byte>>)
    requires |d| == n
    ensures |r.value| == n
  {
    var p := ReadFull(s, n);
    Parsed(p.value.GetOr(d), p.rest)
  }

  /** Reads a uint8 into a target holding `d`. */
  function ReadU8(s: seq<Byte>, d: Byte): Parsed<Byte> {
    var p := ReadFull(s, 1);
    Parsed(if p.value.Some? then p.value.value[0] else d, p.rest)
  }

  /** Reads a bool into a target holding `d`: any non-zero byte is true. */
  function ReadBool(s: seq<Byte>, d: bool): Parsed<bool> {
    var p := ReadFull(s, 1);
    Parsed(if p.value.Some? then p.value.value[0] != 0 else d, p.rest)
  }

  /** Reads a uint16 into a target holding `d`. */
  function ReadU16(s: seq<Byte>, d: U16): Parsed<U16> {
    var p := ReadFull(s, 2);
    Parsed(if p.value.Some? then FromLeU16(p.value.value) else d, p.rest)
  }

  /** Reads a uint32 (or a float32's bits) into a target holding `d`. */
  function ReadU32(s: seq<Byte>, d: U32): Parsed<U32> {
    var p := ReadFull(s, 4);
    Parsed(if p.value.Some? then FromLeU32(p.value.value) else d, p.rest)
  }

  /** Reads a uint64 (or a float64's bits) into a target holding `d`. */
  function ReadU64(s: seq<Byte>, d: U64): Parsed<U64> {
    var p := ReadFull(s, 8);
    Parsed(if p.value.Some? then FromLeU64(p.value.value) else d, p.rest)
  }

  function LeBool(b: bool): seq<Byte> {
    if b then [1] else [0]
  }

  /** Each primitive read returns what the matching write produced and leaves exactly what followed it. */
  lemma ReadU8After(x: Byte, t: seq<Byte>, d: Byte)
    ensures ReadU8([x] + t, d) == Parsed(x, t)
  {
    assert ([x] + t)[..1] == [x];
  }

  lemma ReadBoolAfter(x: bool, t: seq<Byte>, d: bool)
    ensures ReadBool(LeBool(x) + t, d) == Parsed(x, t)
  {
    assert (LeBool(x) + t)[..1] == LeBool(x);
  }

  lemma ReadSomeAfter(block: seq<Byte>, t: seq<Byte>)
    ensures ReadSome(block + t, |block|) == Parsed(block, t)
  {
    assert (block + t)[..|block|] == block;
  }

  lemma ReadU16After(x: U16, t: seq<Byte>, d: U16)
    ensures ReadU16(LeU16(x) + t, d) == Parsed(x, t)
  {
    LeU16RoundTrip(x, LeU16(x));
    assert (LeU16(x) + t)[..2] == LeU16(x);
  }

  lemma ReadU32After(x: U32, t: seq<Byte>, d: U32)
    ensures ReadU32(LeU32(x) + t, d) == Parsed(x, t)
  {
    LeU32RoundTrip(x, LeU32(x));
    assert (LeU32(x) + t)[..4] == LeU32(x);
  }

  lemma ReadU64After(x: U64, t: seq<Byte>, d: U64)
    ensures ReadU64(LeU64(x) + t, d) == Parsed(x, t)
  {
    LeU64RoundTrip(x, LeU64(x));
    assert (LeU64(x) + t)[..8] == LeU64(x);
  }

  lemma ReadBytesAfter(block: seq<Byte>, t: seq<Byte>, d: seq<Byte>)
    requires |d| == |block|
    ensures ReadBytes(block + t, |block|, d) == Parsed(block, t)
  {
    assert (block + t)[..|block|] == block;
  }

  /** On an exhausted input every read leaves its target unchanged. */
  lemma ReadsOnEmpty(d16: U16, d32: U32, d64: U64, n: nat, d: seq<Byte>)
    requires |d| == n
    ensures ReadU16([], d16) == Parsed(d16, [])
    ensures ReadU32([], d32) == Parsed(d32, [])
    ensures ReadU64([], d64) == Parsed(d64, [])
    ensures n > 0 ==> ReadBytes([], n, d) == Parsed(d, [])
    ensures ReadSome([], n) == Parsed(Zeros(n), [])
  {
    assert [] + Zeros(n) == Zeros(n);
  }

  // ----- Sequences of fixed-size items -----

  /** Writes the items one after the other. */
  function EncodeAll<T>(xs: seq<T>, enc: T -> seq<Byte>): (b: seq<Byte>)
    decreases |xs|
  {
    if xs == [] then [] else enc(xs[0]) + EncodeAll(xs[1..], enc)
  }

  /** Writing one more item appends its bytes. */
  lemma {:induction false} EncodeAllSnoc<T>(xs: seq<T>, x: T, enc: T -> seq<Byte>)
    ensures EncodeAll(xs + [x], enc) == EncodeAll(xs, enc) + enc(x)
    decreases |xs|
  {
    if xs == [] {
      assert [x][1..] == [];
    } else {
      assert (xs + [x])[1..] == xs[1..] + [x];
      EncodeAllSnoc(xs[1..], x, enc);
    }
  }

  /** Items of fixed width `w` take `w` bytes each. */
  lemma {:induction false} EncodeAllLength<T>(xs: seq<T>, enc: T -> seq<Byte>, w: nat)
    requires forall x :: |enc(x)| == w
    ensures |EncodeAll(xs, enc)| == w * |xs|
    decreases |xs|
  {
    if xs != [] {
      EncodeAllLength(xs[1..], enc, w);
      assert w * |xs| == w + w * |xs[1..]|;
    }
  }

  /** Reads `n` items one after the other, each by `dec`. */
  function DecodeAll<T>(n: nat, s: seq<Byte>, dec: seq<Byte> -> Parsed<T>): (r: Parsed<seq<T>>)
    ensures |r.value| == n
  {
    if n == 0 then Parsed([], s)
    else
      var h := dec(s);
      var t := DecodeAll(n - 1, h.rest, dec);
      Parsed([h.value] + t.value, t.rest)
  }

  /** Reading one more item reads it from where the first `n` stopped. */
  lemma {:induction false} DecodeAllSnoc<T>(n: nat, s: seq<Byte>, dec: seq<Byte> -> Parsed<T>)
    ensures DecodeAll(n + 1, s, dec)
         == (var p := DecodeAll(n, s, dec);
             var h := dec(p.rest);
             Parsed(p.value + [h.value], h.rest))
  {
    if n == 0 {
      assert [dec(s).value] + [] == [] + [dec(s).value];
    } else {
      DecodeAllSnoc(n - 1, dec(s).rest, dec);
      var h := dec(s);
      var p := DecodeAll(n - 1, h.rest, dec);
      assert [h.value] + (p.value + [dec(p.rest).value]) == ([h.value] + p.value) + [dec(p.rest).value];
    }
  }

  /** The items the reader sees when every item reads back as `norm` of what was written. */
  function Map<T, U>(xs: seq<T>, f: T -> U): (ys: seq<U>)
    ensures |ys| == |xs| && forall i :: 0 <= i < |xs| ==> ys[i] == f(xs[i])
  {
    seq(|xs|, i requires 0 <= i < |xs| => f(xs[i]))
  }

  /** Each item reads back, up to `norm`, from its bytes followed by anything. */
  ghost predicate ItemsRoundTrip<T>(xs: seq<T>, enc: T -> seq<Byte>, dec: seq<Byte> -> Parsed<T>, norm: T -> T) {
    forall i, t :: 0 <= i < |xs| ==> dec(enc(xs[i]) + t) == Parsed(norm(xs[i]), t)
  }

  /** If every item round-trips, the whole sequence does, leaving exactly what followed. */
  lemma {:induction false} DecodeAllEncodeAll<T>(xs: seq<T>, enc: T -> seq<Byte>, dec: seq<Byte> -> Parsed<T>,
                                                norm: T -> T, t: seq<Byte>)
    requires ItemsRoundTrip(xs, enc, dec, norm)
    ensures DecodeAll(|xs|, EncodeAll(xs, enc) + t, dec) == Parsed(Map(xs, norm), t)
    decreases |xs|
  {
    if xs != [] {
      var tail := EncodeAll(xs[1..], enc) + t;
      assert EncodeAll(xs, enc) + t == enc(xs[0]) + tail;
      assert dec(enc(xs[0]) + tail) == Parsed(norm(xs[0]), tail);
      assert ItemsRoundTrip(xs[1..], enc, dec, norm) by {
        forall i, u | 0 <= i < |xs[1..]| ensures dec(enc(xs[1..][i]) + u) == Parsed(norm(xs[1..][i]), u) {
          assert xs[1..][i] == xs[i + 1];
        }
      }
      DecodeAllEncodeAll(xs[1..], enc, dec, norm, t);
      assert [norm(xs[0])] + Map(xs[1..], norm) == Map(xs, norm);
    }
  }

  // Regrouping a concatenation so that each part is followed by everything after it.

  lemma Regroup2<T>(a: seq<T>, b: seq<T>, t: seq<T>)
    ensures a + b + t == a + (b + t)
  {
  }

  lemma Regroup3(a: seq<Byte>, b: seq<Byte>, c: seq<Byte>, t: seq<Byte>)
    ensures a + b + c + t == a + (b + (c + t))
  {
  }

  lemma Regroup5(a: seq<Byte>, b: seq<Byte>, c: seq<Byte>, d: seq<Byte>, e: seq<Byte>, t: seq<Byte>)
    ensures a + b + c + d + e + t == a + (b + (c + (d + (e + t))))
  {
    assert a + b + c + d + e + t == a + b + c + d + (e + t);
    assert a + b + c + d + (e + t) == a + b + c + (d + (e + t));
    assert a + b + c + (d + (e + t)) == a + b + (c + (d + (e + t)));
  }

  lemma Regroup7(a: seq<Byte>, b: seq<Byte>, c: seq<Byte>, d: seq<Byte>, e: seq<Byte>, f: seq<Byte>, g: seq<Byte>,
                 t: seq<Byte>)
    ensures a + b + c + d + e + f + g + t == a + (b + (c + (d + (e + (f + (g + t))))))
  {
    assert a + b + c + d + e + f + g + t == a + b + c + d + e + f + (g + t);
    assert a + b + c + d + e + f + (g + t) == a + b + c + d + e + (f + (g + t));
    Regroup5(a, b, c, d, e, f + (g + t));
  }

  /** What a counted list reads: the uint32 count, and that many items. */
  datatype Counted<T> = Counted(count: U32, items: seq<T>)

  /** A uint32 count (the low 32 bits of the length), then the items one after the other. */
  function EncodeCounted<T>(xs: seq<T>, enc: T -> seq<Byte>): seq<Byte> {
    LeU32(U32Of(|xs|)) + EncodeAll(xs, enc)
  }

  /** Reads the count into a variable holding `d`, then that many items. */
  function DecodeCounted<T>(s: seq<Byte>, d: U32, dec: seq<Byte> -> Parsed<T>): (r: Parsed<Counted<T>>)
    ensures |r.value.items| == r.value.count as nat
  {
    var c := ReadU32(s, d);
    var items := DecodeAll(c.value as nat, c.rest, dec);
    Parsed(Counted(c.value, items.value), items.rest)
  }

  /** A counted list whose items each read back reads back whole and leaves what followed. */
  lemma CountedRoundTrip<T>(xs: seq<T>, enc: T -> seq<Byte>, dec: seq<Byte> -> Parsed<T>, norm: T -> T,
                            t: seq<Byte>, d: U32)
    requires |xs| < TwoTo32 && ItemsRoundTrip(xs, enc, dec, norm)
    ensures DecodeCounted(EncodeCounted(xs, enc) + t, d, dec) == Parsed(Counted(|xs| as U32, Map(xs, norm)), t)
  {
    CountAfter(xs, enc, t, d);
    DecodeAllEncodeAll(xs, enc, dec, norm, t);
  }

  /** The count of a counted list reads back, leaving its items and what followed. */
  lemma CountAfter<T>(xs: seq<T>, enc: T -> seq<Byte>, t: seq<Byte>, d: U32)
    requires |xs| < TwoTo32
    ensures ReadU32(EncodeCounted(xs, enc) + t, d) == Parsed(|xs| as U32, EncodeAll(xs, enc) + t)
  {
    Regroup2(LeU32(U32Of(|xs|)), EncodeAll(xs, enc), t);
    ReadU32After(U32Of(|xs|), EncodeAll(xs, enc) + t, d);
  }

  /**
   * Reads `n` items of `w` bytes each with one `io.ReadFull` of the whole
   * block, as `encoding/binary` does for a slice or an array: on a short
   * read every item stays `zero` and the input is exhausted.
   */
  function ReadBlock<T>(s: seq<Byte>, n: nat, w: nat, word: seq<Byte> -> Parsed<T>, zero: T): (r: Parsed<seq<T>>)
    ensures |r.value| == n
  {
    var p := ReadFull(s, w * n);
    if p.value.Some? then Parsed(DecodeAll(n, p.value.value, word).value, p.rest)
    else Parsed(seq(n, _ => zero), [])
  }

  /** A block written item by item reads back whole. */
  lemma ReadBlockAfter<T>(xs: seq<T>, w: nat, enc: T -> seq<Byte>, word: seq<Byte> -> Parsed<T>, zero: T, t: seq<Byte>)
    requires forall x :: |enc(x)| == w
    requires forall x, u :: word(enc(x) + u) == Parsed(x, u)
    ensures ReadBlock(EncodeAll(xs, enc) + t, |xs|, w, word, zero) == Parsed(xs, t)
  {
    var block := EncodeAll(xs, enc);
    EncodeAllLength(xs, enc, w);
    assert (block + t)[..w * |xs|] == block;
    assert (block + t)[w * |xs|..] == t;
    DecodeAllEncodeAll(xs, enc, word, x => x, []);
    assert block + [] == block;
    assert Map(xs, x => x) == xs;
  }

  function WordU32(s: seq<Byte>): Parsed<U32> {
    ReadU32(s, 0)
  }

  function WordU64(s: seq<Byte>): Parsed<U64> {
    ReadU64(s, 0)
  }

  lemma WordsRoundTrip()
    ensures forall x, u :: WordU32(LeU32(x) + u) == Parsed(x, u)
    ensures forall x, u :: WordU64(LeU64(x) + u) == Parsed(x, u)
  {
    forall x, u ensures WordU32(LeU32(x) + u) == Parsed(x, u) {
      ReadU32After(x, u, 0);
    }
    forall x, u ensures WordU64(LeU64(x) + u) == Parsed(x, u) {
      ReadU64After(x, u, 0);
    }
  }

  /** Reads `n` float32 (or uint32) values as one block. */
  function ReadU32s(s: seq<Byte>, n: nat): (r: Parsed<seq<U32>>)
    ensures |r.value| == n
  {
    ReadBlock(s, n, 4, WordU32, 0)
  }

  /** Reads `n` float64 (or uint64) values as one block. */
  function ReadU64s(s: seq<Byte>, n: nat): (r: Parsed<seq<U64>>)
    ensures |r.value| == n
  {
    ReadBlock(s, n, 8, WordU64, 0)
  }

  function EncodeU32s(xs: seq<U32>): seq<Byte> {
    EncodeAll(xs, LeU32)
  }

  function EncodeU64s(xs: seq<U64>): seq<Byte> {
    EncodeAll(xs, LeU64)
  }

  /** A run of uint32 values read back as one block gives the values and leaves what followed. */
  lemma ReadU32sAfter(xs: seq<U32>, t: seq<Byte>)
    ensures ReadU32s(EncodeU32s(xs) + t, |xs|) == Parsed(xs, t)
    ensures |EncodeU32s(xs)| == 4 * |xs|
  {
    WordsRoundTrip();
    ReadBlockAfter(xs, 4, LeU32, WordU32, 0, t);
    EncodeAllLength(xs, LeU32, 4);
  }

  /** A run of uint64 values read back as one block gives the values and leaves what followed. */
  lemma ReadU64sAfter(xs: seq<U64>, t: seq<Byte>)
    ensures ReadU64s(EncodeU64s(xs) + t, |xs|) == Parsed(xs, t)
    ensures |EncodeU64s(xs)| == 8 * |xs|
  {
    WordsRoundTrip();
    ReadBlockAfter(xs, 8, LeU64, WordU64, 0, t);
    EncodeAllLength(xs, LeU64, 8);
  }
}
