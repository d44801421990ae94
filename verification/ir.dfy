/** The slice of the Alloy intermediate representation the lowering reads:
    value types, operands, opcodes, the instruction signature test, and the
    runtime facts baked into emitted code (resolver thunks, tracer addresses,
    the chain of register-access callbacks). */
module Ir {
  import opened Bits

  datatype Type = I8 | I16 | I32 | I64 | F32 | F64 | V128

  predicate IsInt(t: Type) {
    t == I8 || t == I16 || t == I32 || t == I64
  }

  predicate IsFloat(t: Type) {
    t == F32 || t == F64
  }

  predicate IsVec(t: Type) {
    t == V128
  }

  function WidthOf(t: Type): Width
    requires IsInt(t)
  {
    match t
    case I8 => W8
    case I16 => W16
    case I32 => W32
    case I64 => W64
  }

  /** A value is either computed at run time or a constant known while
      lowering; a constant carries its bit pattern (128 bits for V128). An
      integer constant narrower than 64 bits carries its sign-extended
      64-bit pattern, as `Value::AsUint64` returns the signed field: an I8
      constant -1 is 0xFFFF_FFFF_FFFF_FFFF, so AsUint32 of it is 0xFFFF_FFFF.
      The type does not enforce this: it is a convention whoever builds an
      instruction keeps, and AsUint64/AsUint32 simply reduce whatever
      pattern they are given. */
  datatype Const = NotConst | Const(bits: nat)

  /** What a called symbol resolves to at lowering time. */
  datatype FnKind = Unresolved | UserFunction | ExternFunction(handler: nat, arg0: nat, arg1: nat)

  /** A function symbol: `handle` is the address of its FunctionInfo record,
      the argument the generic call path passes to the resolver. */
  datatype FunctionInfo = FunctionInfo(handle: nat, fn: FnKind)

  datatype Operand =
    | NoOperand
    | Value(ty: Type, k: Const)
    | Symbol(info: FunctionInfo)
    | LabelRef(name: string)

  predicate IsConstant(o: Operand) {
    o.Value? && o.k.Const?
  }

  predicate IsIntValue(o: Operand) {
    o.Value? && IsInt(o.ty)
  }

  datatype CmpKind = Eq | Ne | Slt | Sle | Sgt | Sge | Ult | Ule | Ugt | Uge

  datatype Opcode =
    | Return | ReturnTrue
    | Branch | BranchTrue | BranchFalse
    | Call | CallTrue | CallIndirect | CallIndirectTrue
    | ZeroExtend | SignExtend | Truncate
    | Load | Store
    | IsTrue | IsFalse | Compare(kind: CmpKind)
    | Mul | MulHi | AddCarry
    | ByteSwap | Cntlz

  /** Which register ADD_CARRY's src3 was given, as far as its 8-bit
      encoding goes: index 0-3 (rax..rbx), rbp, rsi or rdi (indices 5-7,
      whose plain 8-bit encoding names ch, dh and bh instead), or one of
      r8..r15. */
  datatype CarryReg = LowIndex | Rbp | Rsi | Rdi | Extended

  /** Choices made by the register allocator and the operand-binding helpers,
      which the lowering observes but does not make: whether dest shares its
      register with src1, whether an indirect call target already sits in
      rdx, which register src3 of ADD_CARRY is in, and whether the
      comparison helper asks for the inverted condition. */
  datatype Alloc = Alloc(destIsSrc1: bool, targetInRdx: bool, carry: CarryReg, invert: bool)

  datatype Instr = Instr(op: Opcode, dest: Operand, src1: Operand, src2: Operand, src3: Operand,
                         isUnsigned: bool, isTail: bool, alloc: Alloc)

  /** Operand signatures of `Instr::Match`. */
  datatype Sig = SigX | SigIgnore | SigReg(t: Type) | SigConst(t: Type)

  function SigOf(o: Operand): Sig {
    match o
    case Value(t, NotConst) => SigReg(t)
    case Value(t, Const(_)) => SigConst(t)
    case _ => SigX
  }

  predicate Accepts(want: Sig, o: Operand) {
    want == SigIgnore || want == SigOf(o)
  }

  predicate Match2(i: Instr, d: Sig, s1: Sig) {
    Accepts(d, i.dest) && Accepts(s1, i.src1)
  }

  predicate Match3(i: Instr, d: Sig, s1: Sig, s2: Sig) {
    Accepts(d, i.dest) && Accepts(s1, i.src1) && Accepts(s2, i.src2)
  }

  /** A registered pair of memory-mapped register access callbacks: its
      context pointer, its test of which guest addresses it claims, and the
      native read/write entry points. */
  datatype Descriptor = Descriptor(context: nat, claims: nat -> bool, read: nat, write: nat)

  /** The descriptor's `handles` test, asked while lowering. */
  predicate Handles(d: Descriptor, a: nat) {
    d.claims(a)
  }

  datatype TraceKind = TraceLoad(t: Type) | TraceStore(t: Type)

  /** Addresses of the runtime entry points emitted code calls. */
  datatype Env = Env(resolveSymbol: nat, resolveAddress: nat,
                     tracer: TraceKind -> nat, chain: seq<Descriptor>)

  /** Where an instruction sits: whether another instruction follows it in
      its block, and whether another block follows its block. */
  datatype Position = Position(hasNext: bool, blockHasNext: bool)

  /** The 64-bit pattern of a constant operand (sign-extended for integer
      types narrower than 64 bits). */
  function AsUint64(o: Operand): nat
    requires IsConstant(o)
  {
    o.k.bits % 0x1_0000_0000_0000_0000
  }

  function AsUint32(o: Operand): nat
    requires IsConstant(o)
  {
    o.k.bits % 0x1_0000_0000
  }
}
