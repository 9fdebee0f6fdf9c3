/** Bit-level rules for the narrow floating formats: the bf16 <-> fp32
    repacking of `bf16_to_fp32` and the fallback `fp32_to_bf16`, the fp32
    to fp8 converter (zero constants only) and the vector-width guard of
    fp8 casts.  A float is represented by its bit pattern. */
module NarrowFormats {
  import opened Wrappers
  import Ir

  /** A `<2 x i16>` vector; element 0 is the low half when bit-cast to a
      32-bit value (little-endian lane order). */
  type Half2 = v: seq<bv16> | |v| == 2 witness [0, 0]

  function InsertElt(v: Half2, i: nat, x: bv16): (w: Half2)
    requires i < 2
    ensures w[i] == x && w[1 - i] == v[1 - i]
  {
    v[i := x]
  }

  /** `bit_cast<i32>` of a `<2 x i16>`. */
  function ToBits(v: Half2): bv32 {
    ((v[1] as bv32) << 16) | (v[0] as bv32)
  }

  /** `bit_cast<2 x i16>` of a 32-bit value. */
  function FromBits(w: bv32): Half2 {
    [(w & 0xffff) as bv16, (w >> 16) as bv16]
  }

  /** The two bit casts are inverse to each other. */
  lemma BitCastRoundTrip(v: Half2, w: bv32)
    ensures FromBits(ToBits(v)) == v
    ensures ToBits(FromBits(w)) == w
  {
    var a, b := v[0] as bv32, v[1] as bv32;
    assert (((b << 16) | a) & 0xffff) == a;
    assert (((b << 16) | a) >> 16) == b;
    assert FromBits(ToBits(v))[0] == v[0] && FromBits(ToBits(v))[1] == v[1];
  }

  /** `bf16_to_fp32`: the bf16 bits go to lane 1 of a fresh vector, and
      lane 0 is zero. `undef` is the vector's undefined initial content. */
  function Bf16ToFp32(h: bv16, undef: Half2): (f: bv32)
    ensures f == (h as bv32) << 16
  {
    var v := InsertElt(InsertElt(undef, 1, h), 0, 0);
    assert v == [0, h];
    ToBits(v)
  }

  /** The fallback of `fp32_to_bf16` (targets below sm 80): lane 1 of the
      `<2 x i16>` view, i.e. the upper half, truncating the mantissa. */
  function Fp32ToBf16Fallback(f: bv32): (h: bv16)
    ensures h as bv32 == f >> 16
  {
    FromBits(f)[1]
  }

  /** Widening a bf16 and narrowing it back gives the original bits. */
  lemma Bf16RoundTrip(h: bv16, undef: Half2)
    ensures Fp32ToBf16Fallback(Bf16ToFp32(h, undef)) == h
  {
    var f := Bf16ToFp32(h, undef);
    ShiftBack(h);
    WidenInjective(Fp32ToBf16Fallback(f), h);
  }

  lemma ShiftBack(h: bv16)
    ensures ((h as bv32) << 16) >> 16 == h as bv32
  {
  }

  lemma WidenInjective(a: bv16, b: bv16)
    requires a as bv32 == b as bv32
    ensures a == b
  {
  }

  /** Narrowing and widening again clears the 16 low mantissa bits (round
      toward zero). */
  lemma Bf16Truncates(f: bv32, undef: Half2)
    ensures Bf16ToFp32(Fp32ToBf16Fallback(f), undef) == f & 0xffff_0000
  {
    var h := Fp32ToBf16Fallback(f);
    assert h as bv32 == f >> 16;
    assert ((f >> 16) << 16) == f & 0xffff_0000;
  }

  /** `convertToFloat() == 0`: holds for +0.0 and -0.0 and nothing else. */
  predicate IsFp32Zero(bits: bv32) {
    bits & 0x7fff_ffff == 0
  }

  lemma ZeroPatterns(bits: bv32)
    ensures IsFp32Zero(bits) <==> bits == 0 || bits == 0x8000_0000
  {
  }

  /** The per-element converter of `fp32x4_to_fp8x4`: a floating constant
      equal to zero becomes the fp8 byte 0; anything else is rejected. */
  function Fp32ToFp8(v: Ir.Val): (r: Result<bv8>)
    ensures r.Ok? <==> v.ConstFp32? && IsFp32Zero(v.bits)
    ensures r.Ok? ==> r.value == 0
  {
    match v
    case ConstFp32(bits) => if bits & 0x7fff_ffff == 0 then Ok(0) else Err("unsupported cast")
    case _ => Err("unsupported cast")
  }

  /** `fp32x4_to_fp8x4`: the four conversions. */
  function Fp32x4ToFp8x4(a: Ir.Val, b: Ir.Val, c: Ir.Val, d: Ir.Val): (r: Result<seq<bv8>>)
    ensures r.Ok? <==> forall x :: x in [a, b, c, d] ==> x.ConstFp32? && IsFp32Zero(x.bits)
    ensures r.Ok? ==> r.value == [0, 0, 0, 0]
  {
    var ra, rb, rc, rd := Fp32ToFp8(a), Fp32ToFp8(b), Fp32ToFp8(c), Fp32ToFp8(d);
    if ra.Ok? && rb.Ok? && rc.Ok? && rd.Ok? then Ok([ra.value, rb.value, rc.value, rd.value])
    else
      assert !(ra.Ok? && rb.Ok? && rc.Ok? && rd.Ok?);
      Err("unsupported cast")
  }

  /** The guard of an fp8 cast: the run of contiguous elements along the
      output's leading order dimension must be a multiple of 4. */
  function Fp8Guard(contiguous: int): (r: Result<()>)
    requires contiguous >= 1
    ensures r.Ok? <==> exists k: nat :: contiguous == 4 * k
  {
    if contiguous % 4 != 0 then
      Err("unsupported fp32 -> fp8 conversion")
    else
      assert contiguous == 4 * (contiguous / 4);
      Ok(())
  }
}
