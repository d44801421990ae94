/** Instruction selection: for each modelled IR opcode, the x86-64 code the
    lowering table emits, chosen by the same signature tests in the same
    order. Operand registers follow the binding convention of the Machine
    module: dest lives in Dest, src1 in Src1 (or in Dest itself when the
    allocator gave both the same register), src2 in Src2, src3 in Src3, an
    address operand in AddrOff. */
module Lowering {
  import opened Bits
  import opened Flags
  import opened Machine
  import opened Ir

  /** Outcome of lowering one instruction: the emitted code, or one of the
      ways lowering fails (an unimplemented shape, an operand type the
      sequence rejects as invalid, or an operand combination the x86
      encoding has no form for, which an assembler refuses or mis-encodes;
      the model emits no code for it). */
  datatype Lowered = Emitted(ops: seq<Op>) | Unimplemented | InvalidType | Unencodable

  /** Code emitted by two steps in order; the first failure wins. */
  function Then(a: Lowered, b: Lowered): (r: Lowered)
    ensures r.Emitted? <==> a.Emitted? && b.Emitted?
    ensures r.Emitted? ==> r.ops == a.ops + b.ops
  {
    match a
    case Emitted(x) => (match b case Emitted(y) => Emitted(x + y) case _ => b)
    case _ => a
  }

  // ------------------------------------------------------------------
  // Calls
  // ------------------------------------------------------------------

  /** Reload the context pointer from the stack and the guest memory base
      from the context, as every call site does afterwards. */
  const Reload: seq<Op> := [MovLoad(W64, Rcx, Addr(Rsp, NoIndex, 0)), MovLoad(W64, Rdx, Addr(Rcx, NoIndex, 8))]

  /** Call a native helper at a fixed address. */
  function CallNative(target: nat): seq<Op> {
    [MovImm(W64, Rax, target), CallReg(Rax)] + Reload
  }

  /** Transfer to the function whose address is in rax: a tail call pops the
      frame and jumps, any other call calls and reloads. */
  function CallRax(tail: bool): seq<Op> {
    if tail then [AddImm(W64, Rsp, 0x40), JmpReg(Rax)]
    else [CallReg(Rax)] + Reload
  }

  /** A direct call: an extern function is called through its handler with
      its two bound arguments; anything else is first resolved to machine
      code by the runtime's symbol resolver. */
  function IssueCall(env: Env, info: FunctionInfo, tail: bool): seq<Op> {
    var setup :=
      match info.fn
      case ExternFunction(handler, arg0, arg1) =>
        [MovImm(W64, Rdx, arg0), MovImm(W64, R8, arg1), MovImm(W64, Rax, handler)]
      case _ =>
        [MovImm(W64, Rdx, info.handle), MovImm(W64, Rax, env.resolveSymbol), CallReg(Rax)] + Reload;
    setup + CallRax(tail)
  }

  /** An indirect call: the guest target address goes to rdx (no move when
      it is already there) and the runtime resolves it to machine code. */
  function IssueCallIndirect(env: Env, target: Gpr, tail: bool): seq<Op> {
    var setup := if target != Rdx then [Mov(W64, Rdx, target)] else [];
    setup + [MovImm(W64, Rax, env.resolveAddress), CallReg(Rax)] + Reload + CallRax(tail)
  }

  // ------------------------------------------------------------------
  // Conditions and control flow
  // ------------------------------------------------------------------

  /** The boolean test of a value: ZF is set exactly when it is zero. Only
      integer values in a register are interpreted; any other operand is left
      to the helper. */
  function CheckBoolean(o: Operand, r: Gpr): seq<Op> {
    if o.Value? && IsInt(o.ty) then [Test(WidthOf(o.ty), r)] else [Helper("CheckBoolean")]
  }

  /** `body`, skipped when the tested value is zero (jz .x ... .x:). */
  function WhenTrue(test: seq<Op>, body: seq<Op>): seq<Op> {
    test + [Jcc(E, Skip)] + body + [LocalLabel]
  }

  /** RETURN jumps to the epilogue unless it is the very last instruction of
      the function, where the epilogue follows directly. */
  function SelectReturn(pos: Position): Lowered {
    if pos.hasNext || pos.blockHasNext then Emitted([Jmp(Epilog)]) else Emitted([])
  }

  function SelectReturnTrue(i: Instr): Lowered {
    Emitted(CheckBoolean(i.src1, Src1) + [Jcc(NE, Epilog)])
  }

  function SelectBranch(i: Instr): Lowered {
    match i.src1
    case LabelRef(name) => Emitted([Jmp(Block(name))])
    case _ => InvalidType
  }

  /** BRANCH_TRUE jumps when the value is nonzero, BRANCH_FALSE when zero. */
  function SelectBranchIf(i: Instr, whenTrue: bool): Lowered {
    match i.src2
    case LabelRef(name) => Emitted(CheckBoolean(i.src1, Src1) + [Jcc(if whenTrue then NE else E, Block(name))])
    case _ => InvalidType
  }

  function SelectCall(env: Env, i: Instr): Lowered {
    match i.src1
    case Symbol(info) => Emitted(IssueCall(env, info, i.isTail))
    case _ => InvalidType
  }

  function SelectCallTrue(env: Env, i: Instr): Lowered {
    match i.src2
    case Symbol(info) => Emitted(WhenTrue(CheckBoolean(i.src1, Src1), IssueCall(env, info, i.isTail)))
    case _ => InvalidType
  }

  function SelectCallIndirect(env: Env, i: Instr): Lowered {
    Emitted(IssueCallIndirect(env, if i.alloc.targetInRdx then Rdx else Src1, i.isTail))
  }

  function SelectCallIndirectTrue(env: Env, i: Instr): Lowered {
    Emitted(WhenTrue(CheckBoolean(i.src1, Src1),
                     IssueCallIndirect(env, if i.alloc.targetInRdx then Rdx else Src2, i.isTail)))
  }

  // ------------------------------------------------------------------
  // Width conversions
  // ------------------------------------------------------------------

  /** The register holding src1: Dest itself when the two share one. */
  function S1(i: Instr): Gpr {
    if i.alloc.destIsSrc1 then Dest else Src1
  }

  function SelectZeroExtend(i: Instr): Lowered {
    if Match2(i, SigReg(I16), SigReg(I8)) then Emitted([Movzx(W16, W8, Dest, S1(i))])
    else if Match2(i, SigReg(I32), SigReg(I8)) then Emitted([Movzx(W32, W8, Dest, S1(i))])
    else if Match2(i, SigReg(I32), SigReg(I16)) then Emitted([Movzx(W32, W16, Dest, S1(i))])
    else if Match2(i, SigReg(I64), SigReg(I8)) then Emitted([Movzx(W64, W8, Dest, S1(i))])
    else if Match2(i, SigReg(I64), SigReg(I16)) then Emitted([Movzx(W64, W16, Dest, S1(i))])
    else if Match2(i, SigReg(I64), SigReg(I32)) then Emitted([Mov(W32, Dest, S1(i))])
    else Unimplemented
  }

  function SelectSignExtend(i: Instr): Lowered {
    if Match2(i, SigReg(I16), SigReg(I8)) then Emitted([Movsx(W16, W8, Dest, S1(i))])
    else if Match2(i, SigReg(I32), SigReg(I8)) then Emitted([Movsx(W32, W8, Dest, S1(i))])
    else if Match2(i, SigReg(I32), SigReg(I16)) then Emitted([Movsx(W32, W16, Dest, S1(i))])
    else if Match2(i, SigReg(I64), SigReg(I8)) then Emitted([Movsx(W64, W8, Dest, S1(i))])
    else if Match2(i, SigReg(I64), SigReg(I16)) then Emitted([Movsx(W64, W16, Dest, S1(i))])
    else if Match2(i, SigReg(I64), SigReg(I32)) then Emitted([Movsx(W64, W32, Dest, S1(i))])
    else Unimplemented
  }

  function SelectTruncate(i: Instr): Lowered {
    if Match2(i, SigReg(I8), SigReg(I16)) then Emitted([Mov(W8, Dest, S1(i))])
    else if Match2(i, SigReg(I8), SigReg(I32)) then Emitted([Mov(W8, Dest, S1(i))])
    else if Match2(i, SigReg(I8), SigReg(I64)) then Emitted([Mov(W8, Dest, S1(i))])
    else if Match2(i, SigReg(I16), SigReg(I32)) then Emitted([Mov(W16, Dest, S1(i))])
    else if Match2(i, SigReg(I16), SigReg(I64)) then Emitted([Mov(W16, Dest, S1(i))])
    else if Match2(i, SigReg(I32), SigReg(I64)) then Emitted([Mov(W32, Dest, S1(i))])
    else Unimplemented
  }

  // ------------------------------------------------------------------
  // Guest memory
  // ------------------------------------------------------------------

  /** Result of scanning the callback chain for an address. */
  datatype Found = NotFound | Found(d: Descriptor, index: nat)

  /** The first descriptor in the chain that claims address a. */
  function FirstHandler(chain: seq<Descriptor>, a: nat): (r: Found)
    ensures r.Found? ==> r.index < |chain| && chain[r.index] == r.d && Handles(r.d, a)
    ensures r.Found? ==> forall j :: 0 <= j < r.index ==> !Handles(chain[j], a)
    ensures r.NotFound? <==> forall j :: 0 <= j < |chain| ==> !Handles(chain[j], a)
  {
    if |chain| == 0 then NotFound
    else if Handles(chain[0], a) then Found(chain[0], 0)
    else
      match FirstHandler(chain[1..], a)
      case NotFound => NotFound
      case Found(d, k) => Found(d, k + 1)
  }

  /** The address of a direct access: [membase + zero-extended low 32 bits
      of the guest address], with the guest address either a constant placed
      in eax or a register truncated in place. */
  function AddressSetup(i: Instr): seq<Op> {
    if IsConstant(i.src1) then [MovImm(W32, Rax, AsUint32(i.src1))]
    else [Mov(W32, AddrOff, AddrOff)]
  }

  function AddressOf(i: Instr, disp: nat): Addr {
    Addr(Rdx, Index(if IsConstant(i.src1) then Rax else AddrOff), disp)
  }

  /** A register-callback read: context and guest address as arguments, the
      result from rax into dest. The table writes `mov dest_src, rax` for
      every width; below 64 bits that pairs a narrower register with rax, a
      form x86 does not have, and the model reads it as a w-bit move from
      al, ax or eax. */
  function LoadCallback(d: Descriptor, a: nat, w: Width): seq<Op> {
    [MovImm(W64, Rcx, d.context), MovImm(W64, Rdx, a)] + CallNative(d.read) + [Mov(w, Dest, Rax)]
  }

  /** The direct load for dest's type, followed by the load tracer call
      (address in rdx, value in r8 or xmm0). */
  function DirectLoad(env: Env, i: Instr): Lowered {
    var addr := AddressOf(i, 0);
    var trace := [Lea(Rdx, addr)];
    if Match2(i, SigReg(I8), SigIgnore) then
      Emitted([MovLoad(W8, Dest, addr)] + trace + [Mov(W8, R8, Dest)] + CallNative(env.tracer(TraceLoad(I8))))
    else if Match2(i, SigReg(I16), SigIgnore) then
      Emitted([MovLoad(W16, Dest, addr)] + trace + [Mov(W16, R8, Dest)] + CallNative(env.tracer(TraceLoad(I16))))
    else if Match2(i, SigReg(I32), SigIgnore) then
      Emitted([MovLoad(W32, Dest, addr)] + trace + [Mov(W32, R8, Dest)] + CallNative(env.tracer(TraceLoad(I32))))
    else if Match2(i, SigReg(I64), SigIgnore) then
      Emitted([MovLoad(W64, Dest, addr)] + trace + [Mov(W64, R8, Dest)] + CallNative(env.tracer(TraceLoad(I64))))
    else if Match2(i, SigReg(F32), SigIgnore) then
      Emitted([LoadXmm(Scalar32, XDest, addr)] + trace + [MovXmm(Scalar32, Xmm0, XDest)] + CallNative(env.tracer(TraceLoad(F32))))
    else if Match2(i, SigReg(F64), SigIgnore) then
      Emitted([LoadXmm(Scalar64, XDest, addr)] + trace + [MovXmm(Scalar64, Xmm0, XDest)] + CallNative(env.tracer(TraceLoad(F64))))
    else if Match2(i, SigReg(V128), SigIgnore) then
      Emitted([LoadXmm(Packed128, XDest, addr), DebugTrap] + trace + [MovXmm(Packed128, Xmm0, XDest)] + CallNative(env.tracer(TraceLoad(V128))))
    else InvalidType
  }

  /** LOAD: a constant address claimed by a callback descriptor is read
      through the first such descriptor and nothing else is emitted;
      otherwise guest memory is read directly. */
  function SelectLoad(env: Env, i: Instr): Lowered {
    if IsConstant(i.src1) && FirstHandler(env.chain, AsUint64(i.src1)).Found? then
      var d := FirstHandler(env.chain, AsUint64(i.src1)).d;
      if i.dest.Value? && IsInt(i.dest.ty) then Emitted(LoadCallback(d, AsUint64(i.src1), WidthOf(i.dest.ty)))
      else InvalidType
    else
      Then(Emitted(AddressSetup(i)), DirectLoad(env, i))
  }

  /** The value a write callback receives in r8, before byte swapping: the
      constant's 64-bit pattern, or the register zero-extended from its
      type. For a 32-bit register the table asks for `movzx r8, src32`, a
      form x86 does not have (a 32-bit source is zero-extended by a plain
      32-bit `mov`); depending on the assembler it is refused or
      mis-encoded, and the model emits no code for it. */
  function WriteArgument(v: Operand): Lowered {
    if IsConstant(v) then Emitted([MovImm(W64, R8, AsUint64(v))])
    else if v.Value? && v.ty == I8 then Emitted([Movzx(W32, W8, R8, Src2)])
    else if v.Value? && v.ty == I16 then Emitted([Movzx(W32, W16, R8, Src2)])
    else if v.Value? && v.ty == I32 then Unencodable
    else if v.Value? && v.ty == I64 then Emitted([Mov(W64, R8, Src2)])
    else InvalidType
  }

  /** One write-callback call around the code arg that loads the value into
      r8: context, guest address and the byte-swapped value as arguments. */
  function WriteCall(d: Descriptor, a: nat, arg: Lowered): Lowered {
    Then(Then(Emitted([MovImm(W64, Rcx, d.context), MovImm(W64, Rdx, a)]), arg),
         Emitted([Bswap64(R8)] + CallNative(d.write)))
  }

  /** The write-callback call STORE emits for a value v. */
  function StoreCallback(d: Descriptor, a: nat, v: Operand): Lowered {
    WriteCall(d, a, WriteArgument(v))
  }

  /** The write callbacks a constant-address STORE emits: one call for every
      descriptor in the chain that claims the address, in chain order. */
  function StoreCallbacks(chain: seq<Descriptor>, a: nat, v: Operand): Lowered
    decreases |chain|
  {
    if |chain| == 0 then Emitted([])
    else if Handles(chain[0], a) then Then(StoreCallback(chain[0], a, v), StoreCallbacks(chain[1..], a, v))
    else StoreCallbacks(chain[1..], a, v)
  }

  /** The direct store for src2's type, followed by the store tracer call. */
  function DirectStore(env: Env, i: Instr): Lowered {
    var addr := AddressOf(i, 0);
    var trace := [Lea(Rdx, addr)];
    var c := if IsConstant(i.src2) then i.src2.k.bits else 0;
    if Match3(i, SigX, SigIgnore, SigReg(I8)) then
      Emitted([MovStore(W8, addr, Src2)] + trace + [Mov(W8, R8, Src2)] + CallNative(env.tracer(TraceStore(I8))))
    else if Match3(i, SigX, SigIgnore, SigConst(I8)) then
      Emitted([MovStoreImm(W8, addr, c)] + trace + [MovImm(W8, R8, c)] + CallNative(env.tracer(TraceStore(I8))))
    else if Match3(i, SigX, SigIgnore, SigReg(I16)) then
      Emitted([MovStore(W16, addr, Src2)] + trace + [Mov(W16, R8, Src2)] + CallNative(env.tracer(TraceStore(I16))))
    else if Match3(i, SigX, SigIgnore, SigConst(I16)) then
      Emitted([MovStoreImm(W16, addr, c)] + trace + [MovImm(W16, R8, c)] + CallNative(env.tracer(TraceStore(I16))))
    else if Match3(i, SigX, SigIgnore, SigReg(I32)) then
      Emitted([MovStore(W32, addr, Src2)] + trace + [Mov(W32, R8, Src2)] + CallNative(env.tracer(TraceStore(I32))))
    else if Match3(i, SigX, SigIgnore, SigConst(I32)) then
      Emitted([MovStoreImm(W32, addr, c)] + trace + [MovImm(W32, R8, c)] + CallNative(env.tracer(TraceStore(I32))))
    else if Match3(i, SigX, SigIgnore, SigReg(I64)) then
      Emitted([MovStore(W64, addr, Src2)] + trace + [Mov(W64, R8, Src2)] + CallNative(env.tracer(TraceStore(I64))))
    else if Match3(i, SigX, SigIgnore, SigConst(I64)) then
      Emitted([MovStoreImm(W64, addr, c)] + trace + [MovImm(W64, R8, c)] + CallNative(env.tracer(TraceStore(I64))))
    else if Match3(i, SigX, SigIgnore, SigReg(F32)) then
      Emitted([StoreXmm(Scalar32, addr, XSrc2)] + trace + [MovXmm(Scalar32, Xmm0, XSrc2)] + CallNative(env.tracer(TraceStore(F32))))
    else if Match3(i, SigX, SigIgnore, SigConst(F32)) then
      Emitted([MovStoreImm(W32, addr, c)] + trace + [LoadXmm(Scalar32, Xmm0, addr)] + CallNative(env.tracer(TraceStore(F32))))
    else if Match3(i, SigX, SigIgnore, SigReg(F64)) then
      Emitted([StoreXmm(Scalar64, addr, XSrc2)] + trace + [MovXmm(Scalar64, Xmm0, XSrc2)] + CallNative(env.tracer(TraceStore(F64))))
    else if Match3(i, SigX, SigIgnore, SigConst(F64)) then
      Emitted([MovStoreImm(W64, addr, c)] + trace + [LoadXmm(Scalar64, Xmm0, addr)] + CallNative(env.tracer(TraceStore(F64))))
    else if Match3(i, SigX, SigIgnore, SigReg(V128)) then
      Emitted([StoreXmm(Packed128, addr, XSrc2), DebugTrap] + trace + [MovXmm(Packed128, Xmm0, XSrc2)] + CallNative(env.tracer(TraceStore(V128))))
    else if Match3(i, SigX, SigIgnore, SigConst(V128)) then
      Emitted([MovStoreImm(W64, addr, c % 0x1_0000_0000_0000_0000),
               MovStoreImm(W64, AddressOf(i, 8), (c / 0x1_0000_0000_0000_0000) % 0x1_0000_0000_0000_0000)]
              + trace + [LoadXmm(Packed128, Xmm0, addr)] + CallNative(env.tracer(TraceStore(V128))))
    else InvalidType
  }

  /** STORE: for a constant address, every claiming descriptor's write
      callback is called; the direct store to guest memory follows in every
      case. */
  function SelectStore(env: Env, i: Instr): Lowered {
    var callbacks := if IsConstant(i.src1) then StoreCallbacks(env.chain, AsUint64(i.src1), i.src2) else Emitted([]);
    Then(Then(callbacks, Emitted(AddressSetup(i))), DirectStore(env, i))
  }

  // ------------------------------------------------------------------
  // Comparisons
  // ------------------------------------------------------------------

  function SelectIsTrue(i: Instr, whenTrue: bool): Lowered {
    Emitted(CheckBoolean(i.src1, Src1) + [Setcc(if whenTrue then NE else E, Dest)])
  }

  /** The setcc each COMPARE opcode emits when the comparison is not
      inverted. */
  function CondOf(k: CmpKind): Cond {
    match k
    case Eq => E
    case Ne => NE
    case Slt => L
    case Sle => LE
    case Sgt => G
    case Sge => GE
    case Ult => B
    case Ule => BE
    case Ugt => A
    case Uge => AE
  }

  /** The setcc each COMPARE opcode emits when the comparison helper asks
      for the inverted result. */
  function InvertedCondOf(k: CmpKind): Cond {
    match k
    case Eq => NE
    case Ne => E
    case Slt => GE
    case Sle => G
    case Sgt => LE
    case Sge => L
    case Ult => AE
    case Ule => A
    case Ugt => BE
    case Uge => B
  }

  function SelectCompare(i: Instr, k: CmpKind): Lowered {
    if i.src1.Value? && IsInt(i.src1.ty) then
      var c := if i.alloc.invert then InvertedCondOf(k) else CondOf(k);
      Emitted([Cmp(WidthOf(i.src1.ty), Src1, R(Src2)), Setcc(c, Dest)])
    else Emitted([Helper("CompareXX")])
  }

  // ------------------------------------------------------------------
  // Arithmetic
  // ------------------------------------------------------------------

  /** The multiplier operand: src2's register, or for a constant src2 the
      32-bit immediate placed in the rdx view of dest's width. */
  function MulSetup(i: Instr, w: Width): (seq<Op>, Gpr) {
    if IsConstant(i.src2) then ([Mov(w, Rax, Dest), MovImm(w, Rdx, AsUint32(i.src2))], Rdx)
    else ([Mov(w, Rax, Dest)], Src2)
  }

  /** MUL: dest = low half of dest * src2 (mul when unsigned, else imul). */
  function SelectMul(i: Instr): Lowered {
    if i.dest.Value? && IsInt(i.dest.ty) then
      var w := WidthOf(i.dest.ty);
      var (setup, m) := MulSetup(i, w);
      Emitted(setup + [MulRax(w, !i.isUnsigned, m), Mov(w, Dest, Rax)])
    else if i.dest.Value? && (IsFloat(i.dest.ty) || IsVec(i.dest.ty)) then
      if i.isUnsigned then Unimplemented else Emitted([Helper("XmmBinaryOp")])
    else InvalidType
  }

  /** MUL_HI: dest = the rdx view of dest's width after the multiply. */
  function SelectMulHi(i: Instr): Lowered {
    if i.dest.Value? && IsInt(i.dest.ty) then
      var w := WidthOf(i.dest.ty);
      var (setup, m) := MulSetup(i, w);
      Emitted(setup + [MulRax(w, !i.isUnsigned, m), Mov(w, Dest, Rdx)])
    else Unimplemented
  }

  /** ADD_CARRY: dest = src1 + src2 + carry, with the carry loaded into CF
      through ah and sahf. */
  function SelectAddCarry(i: Instr): Lowered {
    AddCarryWith(i, CarryLoad(i.alloc.carry))
  }

  /** The register carry's load into ah as the table writes it. The operand
      is `Reg8(src3.getIdx())`, whose index 5-7 names ch, dh and bh, so for
      src3 in rbp, rsi or rdi the byte read is bits 8-15 of rcx, rdx or
      rbx. */
  function CarryLoad(c: CarryReg): seq<Op> {
    match c
    case LowIndex => [MovAh(Src3)]
    case Rbp => [MovAlHigh(Rcx), MovAhAl]
    case Rsi => [MovAlHigh(Rdx), MovAhAl]
    case Rdi => [MovAlHigh(Rbx), MovAhAl]
    case Extended => [Mov(W8, Rax, Src3), MovAhAl]
  }

  /** ADD_CARRY around a given load of a register carry into ah: a constant
      carry goes through eax, then sahf and adc. */
  function AddCarryWith(i: Instr, load: seq<Op>): Lowered {
    if i.dest.Value? && IsInt(i.dest.ty) then
      var w := WidthOf(i.dest.ty);
      var addend := if IsConstant(i.src2) then Imm(AsUint32(i.src2)) else R(Src2);
      var carry :=
        if IsConstant(i.src3) then [MovImm(W32, Rax, AsUint32(i.src3)), MovAhAl]
        else load;
      Emitted(carry + [Sahf, Adc(w, Dest, addend)])
    else Unimplemented
  }

  // ------------------------------------------------------------------
  // Bit manipulation
  // ------------------------------------------------------------------

  /** The xmm register holding src1. */
  function X1(i: Instr): Xmm {
    if i.alloc.destIsSrc1 then XDest else XSrc1
  }

  function SelectByteSwap(i: Instr): Lowered {
    if Match2(i, SigReg(I16), SigReg(I16)) then
      Emitted([Mov(W16, Rax, S1(i)), XchgAhAl, Mov(W16, Dest, Rax)])
    else if Match2(i, SigReg(I32), SigReg(I32)) then
      Emitted(if !i.alloc.destIsSrc1 then [Mov(W32, Dest, Src1), Bswap32(Dest)] else [Bswap32(Dest)])
    else if Match2(i, SigReg(I64), SigReg(I64)) then
      Emitted(if !i.alloc.destIsSrc1 then [Mov(W64, Dest, Src1), Bswap64(Dest)] else [Bswap64(Dest)])
    else if Match2(i, SigReg(V128), SigReg(V128)) then
      Emitted([DebugTrap, if !i.alloc.destIsSrc1 then Shufps(XDest, XSrc1, 0x1B) else Shufps(XDest, XDest, 0x1B)])
    else InvalidType
  }

  /** CNTLZ: bsr finds the top set bit k (ZF when the source is zero), a
      cmovz substitutes a constant for the zero case, and an xor with
      width - 1 turns k into width - 1 - k in the low byte of dest. */
  function SelectCntlz(i: Instr): Lowered {
    if Match2(i, SigIgnore, SigReg(I8)) then
      Emitted([Bsr(W16, W16, Dest, S1(i)), MovImm(W32, Rax, 16), Cmovz(W32, Dest, Rax),
               SubImm(W8, Dest, 8), XorImm(W8, Dest, 0x7)])
    else if Match2(i, SigIgnore, SigReg(I16)) then
      Emitted([Bsr(W16, W16, Dest, S1(i)), MovImm(W32, Rax, 16), Cmovz(W32, Dest, Rax), XorImm(W8, Dest, 0xF)])
    else if Match2(i, SigIgnore, SigReg(I32)) then
      Emitted([Bsr(W32, W32, Dest, S1(i)), MovImm(W32, Rax, 32), Cmovz(W32, Dest, Rax), XorImm(W8, Dest, 0x1F)])
    else if Match2(i, SigIgnore, SigReg(I64)) then
      Emitted([Bsr(W8, W64, Dest, S1(i)), MovImm(W32, Rax, 64), Cmovz(W32, Dest, Rax), XorImm(W8, Dest, 0x3F)])
    else Unimplemented
  }

  // ------------------------------------------------------------------
  // Dispatch
  // ------------------------------------------------------------------

  function Select(env: Env, i: Instr, pos: Position): Lowered {
    match i.op
    case Return => SelectReturn(pos)
    case ReturnTrue => SelectReturnTrue(i)
    case Branch => SelectBranch(i)
    case BranchTrue => SelectBranchIf(i, true)
    case BranchFalse => SelectBranchIf(i, false)
    case Call => SelectCall(env, i)
    case CallTrue => SelectCallTrue(env, i)
    case CallIndirect => SelectCallIndirect(env, i)
    case CallIndirectTrue => SelectCallIndirectTrue(env, i)
    case ZeroExtend => SelectZeroExtend(i)
    case SignExtend => SelectSignExtend(i)
    case Truncate => SelectTruncate(i)
    case Load => SelectLoad(env, i)
    case Store => SelectStore(env, i)
    case IsTrue => SelectIsTrue(i, true)
    case IsFalse => SelectIsTrue(i, false)
    case Compare(k) => SelectCompare(i, k)
    case Mul => SelectMul(i)
    case MulHi => SelectMulHi(i)
    case AddCarry => SelectAddCarry(i)
    case ByteSwap => SelectByteSwap(i)
    case Cntlz => SelectCntlz(i)
  }

  /** Lower the instructions of one block in order; the first failure
      stops the block. */
  function LowerBlock(env: Env, instrs: seq<Instr>, blockHasNext: bool): Lowered
    decreases |instrs|
  {
    if |instrs| == 0 then Emitted([])
    else Then(Select(env, instrs[0], Position(|instrs| > 1, blockHasNext)),
              LowerBlock(env, instrs[1..], blockHasNext))
  }

  /** Lower a function body, block by block; the epilogue follows the last
      block's code. */
  function LowerFunction(env: Env, blocks: seq<seq<Instr>>): Lowered
    decreases |blocks|
  {
    if |blocks| == 0 then Emitted([])
    else Then(LowerBlock(env, blocks[0], |blocks| > 1), LowerFunction(env, blocks[1..]))
  }
}
