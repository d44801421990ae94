/** An abstract x86-64 machine for the instruction forms the lowering emits:
    registers with sub-register write rules, status flags, byte memory, the
    four-lane XMM view used by shufps, and calls whose callee is a parameter.
    Emitted code is a sequence of `Op`; `Exec` runs it. */
module Machine {
  import opened Bits
  import opened Flags

  /** General-purpose registers. Rax, Rcx, Rdx, R8 and Rsp are fixed host
      registers (rcx holds the guest context, rdx the guest memory base).
      Dest, Src1, Src2, Src3 and AddrOff stand for the physical registers the
      register allocator binds to an instruction's operands; the model takes
      them to be distinct from the fixed ones. Rbx is rbx as a register no
      operand is bound to; only the `bh` read of ADD_CARRY's carry setup
      looks at it. */
  datatype Gpr = Rax | Rcx | Rdx | Rbx | R8 | Rsp | Dest | Src1 | Src2 | Src3 | AddrOff

  /** XMM registers: xmm0 and the allocator-bound vector operands. */
  datatype Xmm = Xmm0 | XDest | XSrc1 | XSrc2

  /** The four 32-bit lanes of an XMM register, in physical order 0..3. */
  datatype Lanes = Lanes(l0: nat, l1: nat, l2: nat, l3: nat)

  /** A 64-bit register value. */
  type U64 = x: nat | x < 0x1_0000_0000_0000_0000

  datatype Regs = Regs(rax: U64, rcx: U64, rdx: U64, rbx: U64, r8: U64, rsp: U64,
                       dest: U64, src1: U64, src2: U64, src3: U64, addrOff: U64)

  datatype Xmms = Xmms(x0: Lanes, xdest: Lanes, xsrc1: Lanes, xsrc2: Lanes)

  datatype Index = NoIndex | Index(r: Gpr)

  /** Memory operand [base + index + disp]. */
  datatype Addr = Addr(base: Gpr, index: Index, disp: nat)

  /** Second operand of cmp/adc: a register or an immediate. */
  datatype Src = R(r: Gpr) | Imm(n: nat)

  /** Access size of an XMM load or store: movss, movsd, or a full
      movups/movaps. */
  datatype XmmKind = Scalar32 | Scalar64 | Packed128

  /** Jump targets: the function epilogue, a block label, or the local label
      ".x" a conditional sequence skips to. */
  datatype Label = Epilog | Block(name: string) | Skip

  datatype Op =
    | MovImm(w: Width, dst: Gpr, imm: nat)
    | Mov(w: Width, dst: Gpr, src: Gpr)
    | Movzx(wd: Width, ws: Width, dst: Gpr, src: Gpr)
    | Movsx(wd: Width, ws: Width, dst: Gpr, src: Gpr)
    | MovAh(src: Gpr)
    | MovAhAl
    | MovAlHigh(src: Gpr)  // mov al, ch/dh/bh: bits 8-15 of rcx/rdx/rbx
    | XchgAhAl
    | Bswap32(r: Gpr)
    | Bswap64(r: Gpr)
    | Bsr(wd: Width, ws: Width, dst: Gpr, src: Gpr)
    | Cmovz(w: Width, dst: Gpr, src: Gpr)
    | AddImm(w: Width, dst: Gpr, imm: nat)
    | SubImm(w: Width, dst: Gpr, imm: nat)
    | XorImm(w: Width, dst: Gpr, imm: nat)
    | MulRax(w: Width, signed: bool, src: Gpr)
    | Adc(w: Width, dst: Gpr, operand: Src)
    | Sahf
    | Cmp(w: Width, lhs: Gpr, rhs: Src)
    | Test(w: Width, r: Gpr)
    | Setcc(c: Cond, dst: Gpr)
    | MovLoad(w: Width, dst: Gpr, a: Addr)
    | MovStore(w: Width, a: Addr, src: Gpr)
    | MovStoreImm(w: Width, a: Addr, imm: nat)
    | Lea(dst: Gpr, a: Addr)
    | LoadXmm(k: XmmKind, xd: Xmm, a: Addr)
    | StoreXmm(k: XmmKind, a: Addr, xs: Xmm)
    | MovXmm(k: XmmKind, xd: Xmm, xs: Xmm)
    | Shufps(xd: Xmm, xs: Xmm, imm: nat)
    | CallReg(target: Gpr)
    | LocalLabel
    | Jmp(l: Label)
    | Jcc(c: Cond, l: Label)
    | JmpReg(target: Gpr)
    | DebugTrap
    | Helper(name: string)

  /** What a call sees: the target address, the argument registers and xmm0
      (where the float and vector tracers take their value). */
  datatype CallSite = CallSite(target: nat, rcx: nat, rdx: nat, r8: nat, x0: Lanes)

  /** What a callee leaves in the volatile registers it may overwrite. */
  datatype Clobber = Clobber(rax: U64, rcx: U64, rdx: U64, r8: U64)

  /** Observable effects: calls made and memory written. */
  datatype Event = Called(site: CallSite) | Wrote(addr: nat, size: nat, value: nat)

  datatype State = State(regs: Regs, xmm: Xmms, flags: FlagState,
                         mem: map<nat, nat>, events: seq<Event>)

  /** How a run of emitted code ended. */
  datatype Exit = FellThrough | Jumped(l: Label) | JumpedTo(addr: nat) | Trapped | Unknown

  datatype Run = Run(s: State, exit: Exit)

  const Q: nat := 0x1_0000_0000_0000_0000

  // ------------------------------------------------------------------
  // Registers
  // ------------------------------------------------------------------

  function Get(g: Regs, r: Gpr): U64 {
    match r
    case Rax => g.rax
    case Rcx => g.rcx
    case Rdx => g.rdx
    case Rbx => g.rbx
    case R8 => g.r8
    case Rsp => g.rsp
    case Dest => g.dest
    case Src1 => g.src1
    case Src2 => g.src2
    case Src3 => g.src3
    case AddrOff => g.addrOff
  }

  function Put(g: Regs, r: Gpr, v: U64): Regs {
    match r
    case Rax => g.(rax := v)
    case Rcx => g.(rcx := v)
    case Rdx => g.(rdx := v)
    case Rbx => g.(rbx := v)
    case R8 => g.(r8 := v)
    case Rsp => g.(rsp := v)
    case Dest => g.(dest := v)
    case Src1 => g.(src1 := v)
    case Src2 => g.(src2 := v)
    case Src3 => g.(src3 := v)
    case AddrOff => g.(addrOff := v)
  }

  /** The w-bit view of a register (al, ax, eax, rax and their kin). */
  function Read(s: State, r: Gpr, w: Width): nat {
    Get(s.regs, r) % Modulus(w)
  }

  /** A w-bit view is already reduced modulo 2^w. */
  lemma ReadFits(s: State, r: Gpr, w: Width)
    ensures Read(s, r, w) < Modulus(w)
    ensures Read(s, r, w) % Modulus(w) == Read(s, r, w)
  {
  }

  /** The register content after writing v into its w-bit view: 8- and 16-bit
      writes keep the other bits, a 32-bit write zeroes bits 32..63. */
  function Merge(prev: U64, w: Width, v: nat): U64 {
    match w
    case W64 => v % Q
    case W32 => v % 0x1_0000_0000
    case W16 => (prev / 0x1_0000) * 0x1_0000 + v % 0x1_0000
    case W8 => (prev / 0x100) * 0x100 + v % 0x100
  }

  lemma PutGet(g: Regs, r: Gpr, v: U64, q: Gpr)
    ensures Get(Put(g, r, v), q) == if q == r then v else Get(g, q)
  {
  }

  /** Reading back the view just written gives the value written. */
  lemma MergeLow(prev: U64, w: Width, v: nat)
    ensures Merge(prev, w, v) % Modulus(w) == v % Modulus(w)
  {
  }

  /** A full-width write of a value that fits replaces the register. */
  lemma MergeQword(prev: U64, v: U64)
    ensures Merge(prev, W64, v) == v
  {
  }

  lemma MergeKeepsUpper(prev: U64, w: Width, v: nat)
    requires w == W8 || w == W16
    ensures Merge(prev, w, v) / Modulus(w) == prev / Modulus(w)
  {
  }

  function SetReg(s: State, r: Gpr, w: Width, v: nat): State {
    s.(regs := Put(s.regs, r, Merge(Get(s.regs, r), w, v)))
  }

  /** A w-bit write reads back as the value written. */
  lemma SetRegReadBack(s: State, d: Gpr, w: Width, v: nat)
    ensures Read(SetReg(s, d, w, v), d, w) == v % Modulus(w)
  {
    MergeLow(Get(s.regs, d), w, v);
    PutGet(s.regs, d, Merge(Get(s.regs, d), w, v), d);
  }

  /** t differs from s at most in register d. */
  predicate OnlyRegChanged(s: State, t: State, d: Gpr) {
    && t.mem == s.mem && t.events == s.events && t.flags == s.flags && t.xmm == s.xmm
    && forall r :: r != d ==> Get(t.regs, r) == Get(s.regs, r)
  }

  /** A w-bit write reads back as the value written and touches no other
      register, flag, xmm register or memory. */
  lemma SetRegEffect(s: State, d: Gpr, w: Width, v: nat)
    ensures Read(SetReg(s, d, w, v), d, w) == v % Modulus(w)
    ensures OnlyRegChanged(s, SetReg(s, d, w, v), d)
  {
    MergeLow(Get(s.regs, d), w, v);
    PutGet(s.regs, d, Merge(Get(s.regs, d), w, v), d);
    forall r | r != d
      ensures Get(SetReg(s, d, w, v).regs, r) == Get(s.regs, r)
    {
      PutGet(s.regs, d, Merge(Get(s.regs, d), w, v), r);
    }
  }

  /** ah: bits 8..15 of rax. */
  function Ah(s: State): nat {
    (s.regs.rax / 0x100) % 0x100
  }

  /** rax with bits 8..15 replaced by b. */
  function WithAh(rax: U64, b: nat): U64 {
    WithAhFits(rax, b);
    (rax / 0x1_0000) * 0x1_0000 + (b % 0x100) * 0x100 + rax % 0x100
  }

  /** Replacing ah keeps rax within 64 bits: the bits above 15 are at most
      2^64 - 2^16, and the low 16 bits are below 2^16. */
  lemma WithAhFits(rax: U64, b: nat)
    ensures (rax / 0x1_0000) * 0x1_0000 + (b % 0x100) * 0x100 + rax % 0x100 < 0x1_0000_0000_0000_0000
  {
    var hi := rax / 0x1_0000;
    assert rax == hi * 0x1_0000 + rax % 0x1_0000;
    assert hi <= 0xFFFF_FFFF_FFFF;
    assert (b % 0x100) * 0x100 + rax % 0x100 < 0x1_0000;
  }

  function SrcValue(s: State, o: Src, w: Width): nat {
    match o
    case R(r) => Read(s, r, w)
    case Imm(n) => ImmValue(w, n)
  }

  /** An instruction immediate at width w: 64-bit forms take a 32-bit
      immediate and sign-extend it. */
  function ImmValue(w: Width, n: nat): (v: nat)
    ensures v < Modulus(w)
  {
    if w == W64 then SignExtended(W32, W64, n) else n % Modulus(w)
  }

  // ------------------------------------------------------------------
  // Memory
  // ------------------------------------------------------------------

  /** The byte at address a; unwritten memory reads as zero. */
  function Peek(mem: map<nat, nat>, a: nat): (b: nat)
    ensures b < 0x100
  {
    if a in mem then mem[a] % 0x100 else 0
  }

  /** The little-endian n-byte value at address a. */
  function ReadLE(mem: map<nat, nat>, a: nat, n: nat): (v: nat)
    ensures v < ByteModulus(n)
    decreases n
  {
    if n == 0 then 0 else Peek(mem, a) + 0x100 * ReadLE(mem, a + 1, n - 1)
  }

  /** The little-endian qword at address a, byte by byte; QwordIsReadLE
      relates it to ReadLE. */
  function ReadQword(mem: map<nat, nat>, a: nat): (v: U64)
  {
    Peek(mem, a) + 0x100 * (Peek(mem, a + 1) + 0x100 * (Peek(mem, a + 2) + 0x100 * (Peek(mem, a + 3)
      + 0x100 * (Peek(mem, a + 4) + 0x100 * (Peek(mem, a + 5) + 0x100 * (Peek(mem, a + 6)
      + 0x100 * Peek(mem, a + 7)))))))
  }

  lemma QwordIsReadLE(mem: map<nat, nat>, a: nat)
    ensures ReadQword(mem, a) == ReadLE(mem, a, 8) == ReadLE(mem, a, Bytes(W64))
  {
  }

  /** Store the n low bytes of v at a, least significant first. */
  function WriteLE(mem: map<nat, nat>, a: nat, n: nat, v: nat): map<nat, nat>
    decreases n
  {
    if n == 0 then mem else WriteLE(mem[a := v % 0x100], a + 1, n - 1, v / 0x100)
  }

  function Bytes(w: Width): nat {
    match w
    case W8 => 1
    case W16 => 2
    case W32 => 4
    case W64 => 8
  }

  lemma BytesOfWidth(w: Width)
    ensures ByteModulus(Bytes(w)) == Modulus(w)
  {
    ByteModulusOfWidth(w);
  }

  /** Effective address of [base + index + disp], wrapping at 64 bits. */
  function Ea(s: State, a: Addr): nat {
    var i := match a.index case NoIndex => 0 case Index(r) => Get(s.regs, r);
    (Get(s.regs, a.base) + i + a.disp) % Q
  }

  function LanesValue(x: Lanes): nat {
    x.l0 % 0x1_0000_0000 + 0x1_0000_0000 * (x.l1 % 0x1_0000_0000)
      + 0x1_0000_0000_0000_0000 * (x.l2 % 0x1_0000_0000)
      + 0x1_0000_0000_0000_0000_0000_0000 * (x.l3 % 0x1_0000_0000)
  }

  function XmmBytes(k: XmmKind): nat {
    match k
    case Scalar32 => 4
    case Scalar64 => 8
    case Packed128 => 16
  }

  function GetX(x: Xmms, r: Xmm): Lanes {
    match r
    case Xmm0 => x.x0
    case XDest => x.xdest
    case XSrc1 => x.xsrc1
    case XSrc2 => x.xsrc2
  }

  function PutX(x: Xmms, r: Xmm, v: Lanes): (y: Xmms)
    ensures GetX(y, r) == v
    ensures forall q :: q != r ==> GetX(y, q) == GetX(x, q)
  {
    match r
    case Xmm0 => x.(x0 := v)
    case XDest => x.(xdest := v)
    case XSrc1 => x.(xsrc1 := v)
    case XSrc2 => x.(xsrc2 := v)
  }

  /** movss/movsd from memory zero the lanes above the scalar; movups loads
      all four. */
  function LoadLanes(mem: map<nat, nat>, a: nat, k: XmmKind): Lanes {
    match k
    case Scalar32 => Lanes(ReadLE(mem, a, 4), 0, 0, 0)
    case Scalar64 => Lanes(ReadLE(mem, a, 4), ReadLE(mem, a + 4, 4), 0, 0)
    case Packed128 => Lanes(ReadLE(mem, a, 4), ReadLE(mem, a + 4, 4), ReadLE(mem, a + 8, 4), ReadLE(mem, a + 12, 4))
  }

  /** Register-to-register movss/movsd replace only the low lane(s). */
  function MoveLanes(d: Lanes, s: Lanes, k: XmmKind): Lanes {
    match k
    case Scalar32 => d.(l0 := s.l0)
    case Scalar64 => d.(l0 := s.l0, l1 := s.l1)
    case Packed128 => s
  }

  function Lane(x: Lanes, i: nat): nat {
    if i % 4 == 0 then x.l0 else if i % 4 == 1 then x.l1 else if i % 4 == 2 then x.l2 else x.l3
  }

  /** shufps d, s, imm: the low two result lanes are picked from d, the high
      two from s, each by a two-bit field of imm. */
  function Shuffle(d: Lanes, s: Lanes, imm: nat): Lanes {
    Lanes(Lane(d, imm % 4), Lane(d, (imm / 4) % 4), Lane(s, (imm / 16) % 4), Lane(s, (imm / 64) % 4))
  }

  // ------------------------------------------------------------------
  // Execution
  // ------------------------------------------------------------------

  /** Control-flow instructions end or redirect a run; every other op is a
      straight-line step. */
  predicate IsControl(op: Op) {
    op.Jmp? || op.Jcc? || op.JmpReg? || op.DebugTrap? || op.Helper?
  }

  predicate Straight(ops: seq<Op>) {
    forall i :: 0 <= i < |ops| ==> !IsControl(ops[i])
  }

  /** The double-width product one-operand mul (unsigned) or imul (signed)
      forms from two w-bit operands. */
  function Product(w: Width, signed: bool, a: nat, b: nat): int {
    if signed then Signed(w, a) * Signed(w, b) else a * b
  }

  /** mul/imul r: the low half of rax's view times r's view goes to the
      rax view, the high half to the rdx view (to ah for bytes). */
  function MulStep(s: State, w: Width, signed: bool, src: Gpr): State {
    var a, b := Read(s, Rax, w), Read(s, src, w);
    var p := Product(w, signed, a, b);
    var lo, hi := Encode(w, p), Encode(w, p / Modulus(w));
    match w
    case W8 => SetReg(s, Rax, W16, lo + 0x100 * hi)
    case _ => SetReg(SetReg(s, Rax, w, lo), Rdx, w, hi)
  }

  function AdcStep(s: State, w: Width, dst: Gpr, o: Src): State {
    var a, b := Read(s, dst, w), SrcValue(s, o, w);
    var sum := a + b + (if s.flags.cf then 1 else 0);
    var r := sum % Modulus(w);
    SetReg(s, dst, w, sum).(flags := FlagState(
      cf := sum >= Modulus(w),
      zf := r == 0,
      sf := SignBit(w, r),
      of := SignBit(w, a) == SignBit(w, b) && SignBit(w, r) != SignBit(w, a)))
  }

  function CallStep(s: State, r: Gpr, callee: CallSite -> Clobber): State {
    var site := CallSite(Read(s, r, W64), s.regs.rcx, s.regs.rdx, s.regs.r8, s.xmm.x0);
    var c := callee(site);
    s.(regs := s.regs.(rax := c.rax, rcx := c.rcx, rdx := c.rdx, r8 := c.r8),
       events := s.events + [Called(site)])
  }

  /** One straight-line instruction. Flags written by add, sub, xor, mul and
      lea-free arithmetic are left as they were: no emitted sequence reads
      them afterwards. */
  function Step(s: State, op: Op, callee: CallSite -> Clobber): State {
    match op
    case MovImm(w, d, n) => SetReg(s, d, w, n)
    case Mov(w, d, r) => SetReg(s, d, w, Read(s, r, w))
    case Movzx(wd, ws, d, r) => SetReg(s, d, wd, Read(s, r, ws))
    case Movsx(wd, ws, d, r) => SetReg(s, d, wd, SignExtended(ws, wd, Read(s, r, ws)))
    case MovAh(r) => s.(regs := s.regs.(rax := WithAh(s.regs.rax, Read(s, r, W8))))
    case MovAhAl => s.(regs := s.regs.(rax := WithAh(s.regs.rax, Read(s, Rax, W8))))
    case MovAlHigh(r) => SetReg(s, Rax, W8, (Get(s.regs, r) / 0x100) % 0x100)
    case XchgAhAl =>
      var al, ah := Read(s, Rax, W8), Ah(s);
      s.(regs := s.regs.(rax := WithAh(Merge(s.regs.rax, W8, ah), al)))
    case Bswap32(r) => SetReg(s, r, W32, SwapBytes(4, Read(s, r, W32)))
    case Bswap64(r) => SetReg(s, r, W64, SwapBytes(8, Read(s, r, W64)))
    case Bsr(wd, ws, d, r) =>
      var v := Read(s, r, ws);
      if v == 0 then s.(flags := s.flags.(zf := true))
      else SetReg(s, d, wd, HighBit(v)).(flags := s.flags.(zf := false))
    case Cmovz(w, d, r) => SetReg(s, d, w, if s.flags.zf then Read(s, r, w) else Read(s, d, w))
    case AddImm(w, d, n) => SetReg(s, d, w, Read(s, d, w) + n)
    case SubImm(w, d, n) => SetReg(s, d, w, Read(s, d, w) + Modulus(w) - n % Modulus(w))
    case XorImm(w, d, n) => SetReg(s, d, w, Xor(Read(s, d, w), n % Modulus(w)))
    case MulRax(w, signed, r) => MulStep(s, w, signed, r)
    case Adc(w, d, o) => AdcStep(s, w, d, o)
    case Sahf => s.(flags := SahfFlags(Ah(s), s.flags))
    case Cmp(w, a, b) => s.(flags := CmpFlags(w, Read(s, a, w), SrcValue(s, b, w)))
    case Test(w, r) => s.(flags := TestFlags(w, Read(s, r, w)))
    case Setcc(c, d) => SetReg(s, d, W8, if Holds(c, s.flags) then 1 else 0)
    case MovLoad(w, d, a) => SetReg(s, d, w, ReadLE(s.mem, Ea(s, a), Bytes(w)))
    case MovStore(w, a, r) =>
      var v := Read(s, r, w);
      s.(mem := WriteLE(s.mem, Ea(s, a), Bytes(w), v), events := s.events + [Wrote(Ea(s, a), Bytes(w), v)])
    case MovStoreImm(w, a, n) =>
      var v := n % Modulus(w);
      s.(mem := WriteLE(s.mem, Ea(s, a), Bytes(w), v), events := s.events + [Wrote(Ea(s, a), Bytes(w), v)])
    case Lea(d, a) => SetReg(s, d, W64, Ea(s, a))
    case LoadXmm(k, x, a) => s.(xmm := PutX(s.xmm, x, LoadLanes(s.mem, Ea(s, a), k)))
    case StoreXmm(k, a, x) =>
      var v := LanesValue(GetX(s.xmm, x)) % ByteModulus(XmmBytes(k));
      s.(mem := WriteLE(s.mem, Ea(s, a), XmmBytes(k), v), events := s.events + [Wrote(Ea(s, a), XmmBytes(k), v)])
    case MovXmm(k, x, y) => s.(xmm := PutX(s.xmm, x, MoveLanes(GetX(s.xmm, x), GetX(s.xmm, y), k)))
    case Shufps(x, y, n) => s.(xmm := PutX(s.xmm, x, Shuffle(GetX(s.xmm, x), GetX(s.xmm, y), n)))
    case CallReg(r) => CallStep(s, r, callee)
    case LocalLabel => s
    case _ => s
  }

  /** The ops after the first local label (empty when there is none): where a
      taken jump to ".x" resumes. */
  function AfterLabel(ops: seq<Op>): (r: seq<Op>)
    ensures |r| <= |ops|
  {
    if |ops| == 0 then []
    else if ops[0].LocalLabel? then ops[1..]
    else AfterLabel(ops[1..])
  }

  /** Run emitted code from state s until it falls off the end, leaves the
      sequence by a jump, or reaches code the model does not interpret. */
  function Exec(s: State, ops: seq<Op>, callee: CallSite -> Clobber): Run
    decreases |ops|
  {
    if |ops| == 0 then Run(s, FellThrough)
    else
      match ops[0]
      case Jmp(l) => Run(s, Jumped(l))
      case Jcc(c, l) =>
        if !Holds(c, s.flags) then Exec(s, ops[1..], callee)
        else if l == Skip then Exec(s, AfterLabel(ops[1..]), callee)
        else Run(s, Jumped(l))
      case JmpReg(r) => Run(s, JumpedTo(Read(s, r, W64)))
      case DebugTrap => Run(s, Trapped)
      case Helper(_) => Run(s, Unknown)
      case _ => Exec(Step(s, ops[0], callee), ops[1..], callee)
  }

  /** The state after a straight-line sequence. */
  function Steps(s: State, ops: seq<Op>, callee: CallSite -> Clobber): State
    decreases |ops|
  {
    if |ops| == 0 then s else Steps(Step(s, ops[0], callee), ops[1..], callee)
  }

  lemma StepsCons(s: State, op: Op, rest: seq<Op>, callee: CallSite -> Clobber)
    ensures Steps(s, [op] + rest, callee) == Steps(Step(s, op, callee), rest, callee)
  {
    assert ([op] + rest)[0] == op;
    assert ([op] + rest)[1..] == rest;
  }

  lemma Steps1(s: State, a: Op, callee: CallSite -> Clobber)
    ensures Steps(s, [a], callee) == Step(s, a, callee)
  {
    assert [a][1..] == [];
  }

  lemma Steps2(s: State, a: Op, b: Op, callee: CallSite -> Clobber)
    ensures Steps(s, [a, b], callee) == Step(Step(s, a, callee), b, callee)
  {
    assert [a, b] == [a] + [b];
    StepsCons(s, a, [b], callee);
    Steps1(Step(s, a, callee), b, callee);
  }

  lemma Steps3(s: State, a: Op, b: Op, c: Op, callee: CallSite -> Clobber)
    ensures Steps(s, [a, b, c], callee) == Step(Step(Step(s, a, callee), b, callee), c, callee)
  {
    assert [a, b, c] == [a] + [b, c];
    StepsCons(s, a, [b, c], callee);
    Steps2(Step(s, a, callee), b, c, callee);
  }

  /** [r + disp] with no index register. */
  lemma EaBase(s: State, r: Gpr, disp: nat)
    ensures Ea(s, Addr(r, NoIndex, disp)) == (Get(s.regs, r) + disp) % Q
  {
  }

  /** [base + index + disp]. */
  lemma EaIndexed(s: State, r: Gpr, x: Gpr, disp: nat)
    ensures Ea(s, Addr(r, Index(x), disp)) == (Get(s.regs, r) + Get(s.regs, x) + disp) % Q
  {
  }

  /** A qword load puts the eight bytes at the effective address into the
      destination register and changes nothing else. */
  lemma LoadQword(s: State, d: Gpr, a: Addr, callee: CallSite -> Clobber)
    ensures Step(s, MovLoad(W64, d, a), callee) == s.(regs := Put(s.regs, d, ReadQword(s.mem, Ea(s, a))))
  {
    var v: U64 := ReadQword(s.mem, Ea(s, a));
    MovLoadStep(s, W64, d, a, callee);
    QwordIsReadLE(s.mem, Ea(s, a));
    MergeQword(Get(s.regs, d), v);
  }

  /** A 64-bit immediate load. */
  lemma MovImmQword(s: State, d: Gpr, n: nat, callee: CallSite -> Clobber)
    ensures Step(s, MovImm(W64, d, n), callee) == s.(regs := Put(s.regs, d, n % Q))
  {
  }

  /** Single-instruction closed forms of the moves at any width. */
  lemma MovStep(s: State, w: Width, d: Gpr, r: Gpr, callee: CallSite -> Clobber)
    ensures Step(s, Mov(w, d, r), callee) == SetReg(s, d, w, Read(s, r, w))
  {
  }

  lemma SahfStep(s: State, callee: CallSite -> Clobber)
    ensures Step(s, Sahf, callee) == s.(flags := SahfFlags(Ah(s), s.flags))
  {
  }

  lemma AdcStepIs(s: State, w: Width, d: Gpr, o: Src, callee: CallSite -> Clobber)
    ensures Step(s, Adc(w, d, o), callee) == AdcStep(s, w, d, o)
  {
  }

  lemma MovImmStep(s: State, w: Width, d: Gpr, n: nat, callee: CallSite -> Clobber)
    ensures Step(s, MovImm(w, d, n), callee) == SetReg(s, d, w, n)
  {
  }

  lemma MovLoadStep(s: State, w: Width, d: Gpr, a: Addr, callee: CallSite -> Clobber)
    ensures Step(s, MovLoad(w, d, a), callee) == SetReg(s, d, w, ReadLE(s.mem, Ea(s, a), Bytes(w)))
  {
  }

  lemma LeaStep(s: State, d: Gpr, a: Addr, callee: CallSite -> Clobber)
    ensures Step(s, Lea(d, a), callee) == SetReg(s, d, W64, Ea(s, a))
  {
  }

  /** A store writes the value little-endian at the effective address and
      records the write. */
  lemma MovStoreStep(s: State, w: Width, a: Addr, r: Gpr, callee: CallSite -> Clobber)
    ensures var v := Read(s, r, w);
      Step(s, MovStore(w, a, r), callee)
        == s.(mem := WriteLE(s.mem, Ea(s, a), Bytes(w), v), events := s.events + [Wrote(Ea(s, a), Bytes(w), v)])
  {
  }

  lemma MovStoreImmStep(s: State, w: Width, a: Addr, n: nat, callee: CallSite -> Clobber)
    ensures var v := n % Modulus(w);
      Step(s, MovStoreImm(w, a, n), callee)
        == s.(mem := WriteLE(s.mem, Ea(s, a), Bytes(w), v), events := s.events + [Wrote(Ea(s, a), Bytes(w), v)])
  {
  }

  /** A 64-bit register copy. */
  lemma MovQword(s: State, d: Gpr, r: Gpr, callee: CallSite -> Clobber)
    ensures Step(s, Mov(W64, d, r), callee) == s.(regs := Put(s.regs, d, Get(s.regs, r)))
  {
    MovStep(s, W64, d, r, callee);
    assert Merge(Get(s.regs, d), W64, Read(s, r, W64)) == Get(s.regs, r);
  }

  /** A 64-bit immediate add. */
  lemma AddImmQword(s: State, d: Gpr, n: nat, callee: CallSite -> Clobber)
    ensures Step(s, AddImm(W64, d, n), callee) == s.(regs := Put(s.regs, d, (Get(s.regs, d) + n) % Q))
  {
    assert Read(s, d, W64) == Get(s.regs, d);
  }

  /** `add rsp, 0x40` alone pops the 0x40-byte frame and changes nothing
      else. */
  lemma PopFrame(s: State, callee: CallSite -> Clobber)
    ensures Steps(s, [AddImm(W64, Rsp, 0x40)], callee) == s.(regs := s.regs.(rsp := (s.regs.rsp + 0x40) % Q))
  {
    var v := (s.regs.rsp + 0x40) % Q;
    Steps1(s, AddImm(W64, Rsp, 0x40), callee);
    AddImmQword(s, Rsp, 0x40, callee);
    assert Get(s.regs, Rsp) == s.regs.rsp;
    assert Put(s.regs, Rsp, v) == s.regs.(rsp := v);
  }

  /** A call through rax in closed form. */
  lemma CallRaxStep(s: State, callee: CallSite -> Clobber)
    ensures var site := CallSite(s.regs.rax, s.regs.rcx, s.regs.rdx, s.regs.r8, s.xmm.x0);
      var c := callee(site);
      Step(s, CallReg(Rax), callee)
        == s.(regs := s.regs.(rax := c.rax, rcx := c.rcx, rdx := c.rdx, r8 := c.r8), events := s.events + [Called(site)])
  {
  }

  /** `jmp r` leaves the sequence for the address held in r. */
  lemma ExecJmpReg(s: State, r: Gpr, callee: CallSite -> Clobber)
    ensures Exec(s, [JmpReg(r)], callee) == Run(s, JumpedTo(Get(s.regs, r)))
  {
    assert Read(s, r, W64) == Get(s.regs, r);
  }

  lemma {:induction false} ExecStraight(s: State, a: seq<Op>, b: seq<Op>, callee: CallSite -> Clobber)
    requires Straight(a)
    ensures Exec(s, a + b, callee) == Exec(Steps(s, a, callee), b, callee)
    decreases |a|
  {
    if |a| > 0 {
      assert (a + b)[0] == a[0];
      assert (a + b)[1..] == a[1..] + b;
      ExecStraight(Step(s, a[0], callee), a[1..], b, callee);
    } else {
      assert a + b == b;
    }
  }

  lemma ExecStraightAll(s: State, a: seq<Op>, callee: CallSite -> Clobber)
    requires Straight(a)
    ensures Exec(s, a, callee) == Run(Steps(s, a, callee), FellThrough)
  {
    ExecStraight(s, a, [], callee);
    assert a + [] == a;
  }

  lemma {:induction false} StepsAppend(s: State, a: seq<Op>, b: seq<Op>, callee: CallSite -> Clobber)
    ensures Steps(s, a + b, callee) == Steps(Steps(s, a, callee), b, callee)
    decreases |a|
  {
    if |a| > 0 {
      assert (a + b)[0] == a[0];
      assert (a + b)[1..] == a[1..] + b;
      StepsAppend(Step(s, a[0], callee), a[1..], b, callee);
    } else {
      assert a + b == b;
    }
  }

  lemma StraightAppend(a: seq<Op>, b: seq<Op>)
    requires Straight(a) && Straight(b)
    ensures Straight(a + b)
  {
    assert forall i :: 0 <= i < |a + b| ==> (a + b)[i] == if i < |a| then a[i] else b[i - |a|];
  }
}
