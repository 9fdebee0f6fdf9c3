/** The tile-level program the generator walks, and the values it emits.
    An `ir::value` is an integer handle; an emitted LLVM value is a symbolic
    term `Val` over the values it was built from. */
module Ir {

  /** Handle of an `ir::value`. */
  type Id = int

  /** One materialized index: a coordinate per dimension, for one fixed
      thread. A non-block value has the single empty index `[]`. */
  type Index = seq<int>

  datatype ScalarTy = I1 | I8 | I16 | I32 | I64 | Fp8 | Fp16 | Bf16 | Fp32 | Fp64

  function SizeInBits(t: ScalarTy): nat {
    match t
    case I1 => 1
    case I8 => 8
    case Fp8 => 8
    case I16 => 16
    case Fp16 => 16
    case Bf16 => 16
    case I32 => 32
    case Fp32 => 32
    case I64 => 64
    case Fp64 => 64
  }

  datatype BinaryOp =
    | Add | FAdd | Sub | FSub | Mul | FMul | UDiv | SDiv | FDiv
    | URem | SRem | FRem | Shl | LShr | AShr | And | Or | Xor

  datatype CastOp =
    | Trunc | ZExt | SExt | FPTrunc | FPExt | UIToFP | SIToFP | FPToUI | FPToSI
    | PtrToInt | IntToPtr | BitCast | AddrSpaceCast

  /** The integer predicates of the tile IR, including the two range markers. */
  datatype ICmpPred =
    | FirstICmp | IEq | INe | IUgt | IUge | IUlt | IUle | ISgt | ISge | ISlt | ISle | LastICmp

  /** The floating-point predicates of the tile IR, including the two range markers. */
  datatype FCmpPred =
    | FirstFCmp | FFalse | FOeq | FOgt | FOge | FOlt | FOle | FOne | FOrd | FUno
    | FUeq | FUgt | FUge | FUlt | FUle | FUne | FTrue | LastFCmp

  /** The icmp table of `visit_icmp_inst`: each tile predicate to LLVM's
      `CmpInst::Predicate` number (integer predicates are 32 to 41, and the
      markers `FIRST_ICMP_PREDICATE` / `LAST_ICMP_PREDICATE` are LLVM aliases
      of `ICMP_EQ` / `ICMP_SLE`). */
  function ICmpCode(p: ICmpPred): (code: int)
    ensures 32 <= code <= 41
  {
    match p
    case FirstICmp => 32
    case IEq => 32
    case INe => 33
    case IUgt => 34
    case IUge => 35
    case IUlt => 36
    case IUle => 37
    case ISgt => 38
    case ISge => 39
    case ISlt => 40
    case ISle => 41
    case LastICmp => 41
  }

  /** The fcmp table of `visit_fcmp_inst` (floating predicates are 0 to 15,
      the markers alias `FCMP_FALSE` / `FCMP_TRUE`). */
  function FCmpCode(p: FCmpPred): (code: int)
    ensures 0 <= code <= 15
  {
    match p
    case FirstFCmp => 0
    case FFalse => 0
    case FOeq => 1
    case FOgt => 2
    case FOge => 3
    case FOlt => 4
    case FOle => 5
    case FOne => 6
    case FOrd => 7
    case FUno => 8
    case FUeq => 9
    case FUgt => 10
    case FUge => 11
    case FUlt => 12
    case FUle => 13
    case FUne => 14
    case FTrue => 15
    case LastFCmp => 15
  }

  /** Only the range markers share a code with another predicate. */
  lemma ICmpCodeInjective(p: ICmpPred, q: ICmpPred)
    requires p != q && ICmpCode(p) == ICmpCode(q)
    ensures (p == FirstICmp || q == FirstICmp) || (p == LastICmp || q == LastICmp)
    ensures ICmpCode(p) == 32 || ICmpCode(p) == 41
  {
  }

  lemma FCmpCodeInjective(p: FCmpPred, q: FCmpPred)
    requires p != q && FCmpCode(p) == FCmpCode(q)
    ensures (p == FirstFCmp || q == FirstFCmp) || (p == LastFCmp || q == LastFCmp)
    ensures FCmpCode(p) == 0 || FCmpCode(p) == 15
  {
  }

  /** Every integer code is taken by a tile predicate, and likewise for floating codes. */
  lemma CmpCodesOnto(code: int)
    ensures 32 <= code <= 41 ==> exists p :: ICmpCode(p) == code
    ensures 0 <= code <= 15 ==> exists p :: FCmpCode(p) == code
  {
    if 32 <= code <= 41 {
      var ps := [IEq, INe, IUgt, IUge, IUlt, IUle, ISgt, ISge, ISlt, ISle];
      assert ICmpCode(ps[code - 32]) == code;
    }
    if 0 <= code <= 15 {
      var ps := [FFalse, FOeq, FOgt, FOge, FOlt, FOle, FOne, FOrd, FUno, FUeq, FUgt, FUge, FUlt, FUle, FUne, FTrue];
      assert FCmpCode(ps[code]) == code;
    }
  }

  /** An LLVM value emitted by the generator, as a term over what it was
      built from. `Null` is what the value table yields for an index that
      was never written (the null pointer `operator[]` default-constructs).
      `PhiNode(x, idx)` is the LLVM phi created for element `idx` of the
      tile phi `x`. */
  datatype Val =
    | Null
    | Opaque(id: int)
    | ConstInt(value: int, width: nat)
    | ConstFp32(bits: bv32)
    | Bin(bop: BinaryOp, lhs: Val, rhs: Val)
    | ICmp(icode: int, lhs: Val, rhs: Val)
    | FCmp(fcode: int, lhs: Val, rhs: Val)
    | Cast(cop: CastOp, arg: Val, to: ScalarTy)
    | Bf16ToFp32(arg: Val)
    | Fp32ToBf16(arg: Val, hardware: bool)
    | Fp8x4ToFp16x4(in0: Val, in1: Val, in2: Val, in3: Val, lane: nat)
    | Gep(base: Val, offset: Val)
    | PhiNode(node: Id, at: Index)

  /** The type of a tile value: scalar, or a block of the given shape. */
  datatype Type = Scalar(elt: ScalarTy) | Block(elt: ScalarTy, shape: seq<int>)
  {
    predicate IsBlock() { this.Block? }
    function ScalarType(): ScalarTy { elt }
  }

  /** How a shared-memory layout is buffered across loop iterations. */
  datatype Buffering =
    | Single
    | DoubleBuffer(phi: Id, latch: Id, first: Id)
    | NBuffer(phi: Id, firsts: seq<Id>, firstsIdx: map<Id, int>, latch: Id, perStage: int, stages: int)

  /** The layout the layout analysis assigned to a value. For a distributed
      layout, `order` is the layout's dimension order, `axisPos[d]` the
      position within the layout of the axis that dimension `d` of the value
      maps to, and `nts[d]` the per-thread run length (scanline layouts). */
  datatype Layout =
    | Distributed(order: seq<int>, axisPos: seq<int>, nts: seq<int>, scanline: bool)
    | Shared(buffer: int, sharedOrder: seq<int>, buffering: Buffering)

  /** The tile instructions whose rules the model covers; any other
      instruction is `Other`, kept only for its operands. A `Constant`
      carries the LLVM constant every element of it becomes. */
  datatype Inst =
    | Constant(constant: Val)
    | Argument
    | Phi(incoming: seq<Id>)
    | BinaryInst(bop: BinaryOp, lhs: Id, rhs: Id)
    | ICmpInst(ipred: ICmpPred, lhs: Id, rhs: Id)
    | FCmpInst(fpred: FCmpPred, lhs: Id, rhs: Id)
    | CastInst(cop: CastOp, arg: Id)
    | SplatInst(arg: Id)
    | BroadcastInst(arg: Id)
    | ReshapeInst(arg: Id)
    | CatInst(lhs: Id, rhs: Id)
    | Other(ops: seq<Id>)
  {
    /** The operands, in `ops()` order. */
    function Operands(): seq<Id> {
      match this
      case Constant(_) => []
      case Argument => []
      case Phi(incoming) => incoming
      case BinaryInst(_, l, r) => [l, r]
      case ICmpInst(_, l, r) => [l, r]
      case FCmpInst(_, l, r) => [l, r]
      case CastInst(_, a) => [a]
      case SplatInst(a) => [a]
      case BroadcastInst(a) => [a]
      case ReshapeInst(a) => [a]
      case CatInst(l, r) => [l, r]
      case Other(ops) => ops
    }
  }

  /** One value of the tile program with the analysis results attached:
      its type, its defining instruction, its layout (absent for scalars),
      and the axis id of each of its dimensions. */
  datatype Value = Value(ty: Type, inst: Inst, layout: Layout, axes: seq<int>)

  type Program = map<Id, Value>
}
