/** STORE. For a constant address, every descriptor in the callback chain
    that claims the address gets a call to its write callback with the
    byte-swapped value; after that the value is written to
    [membase + low 32 bits of the address] and the store tracer is called,
    whether or not a callback claimed the address. */
module Store {
  import opened Bits
  import opened Flags
  import opened Machine
  import opened Ir
  import opened Lowering
  import opened Calls
  import opened Memory
  import ByteSwap

  // ------------------------------------------------------------------
  // Write callbacks
  // ------------------------------------------------------------------

  /** A value a write callback can be handed: any constant, or an integer
      register. */
  predicate Writable(v: Operand) {
    IsConstant(v) || IsIntValue(v)
  }

  /** A writable value whose argument load the table emits in a form x86
      has: any but a 32-bit register. */
  predicate Encodable(v: Operand) {
    IsConstant(v) || (IsIntValue(v) && v.ty != I32)
  }

  /** What r8 holds before the byte swap: the constant's 64-bit pattern, or
      the register zero-extended from its type. */
  function ArgValue(s: State, v: Operand): (r: nat)
    requires Writable(v)
    ensures r < Q
  {
    if IsConstant(v) then AsUint64(v) else Read(s, Src2, WidthOf(v.ty))
  }

  /** What the write callback of d receives for a store of v to guest
      address a: its context in rcx, the address in rdx, and the value with
      its eight bytes reversed in r8. */
  function WriteSite(s: State, d: Descriptor, a: nat, v: Operand): CallSite
    requires Writable(v)
  {
    CallSite(d.write % Q, d.context % Q, a % Q, SwapBytes(8, ArgValue(s, v)), s.xmm.x0)
  }

  /** The calls the write callbacks of ds receive, in order. */
  function WriteEvents(s: State, ds: seq<Descriptor>, a: nat, v: Operand): (r: seq<Event>)
    requires Writable(v)
    ensures |r| == |ds|
  {
    if |ds| == 0 then [] else [Called(WriteSite(s, ds[0], a, v))] + WriteEvents(s, ds[1..], a, v)
  }

  /** As emitted, the write argument is code for an encodable value, an
      unencodable form for a 32-bit register, and an invalid type for
      anything else. */
  lemma WriteArgumentCoverage(v: Operand)
    ensures WriteArgument(v).Emitted? <==> Encodable(v)
    ensures WriteArgument(v).Unencodable? <==> IsIntValue(v) && v.ty == I32 && !IsConstant(v)
    ensures !Writable(v) ==> WriteArgument(v).InvalidType?
  {
  }

  /** The write argument with a 32-bit register loaded by `mov r8d, src32`,
      which zero-extends into r8; every other value as emitted. */
  function WriteArgumentFixed(v: Operand): Lowered {
    if IsIntValue(v) && v.ty == I32 && !IsConstant(v) then Emitted([Mov(W32, R8, Src2)]) else WriteArgument(v)
  }

  /** The write-callback call with the corrected argument load. */
  function StoreCallbackFixed(d: Descriptor, a: nat, v: Operand): Lowered {
    WriteCall(d, a, WriteArgumentFixed(v))
  }

  /** Where the emitted argument load is encodable the corrected one is the
      same code. */
  lemma StoreCallbackFixedAgrees(d: Descriptor, a: nat, v: Operand)
    requires Encodable(v)
    ensures StoreCallbackFixed(d, a, v) == StoreCallback(d, a, v)
  {
  }

  /** The corrected write argument is emitted for every writable value and
      leaves ArgValue, the value zero-extended from its type, in r8 without
      touching anything else. */
  lemma WriteArgumentFixedLoads(s: State, v: Operand, callee: CallSite -> Clobber)
    ensures WriteArgumentFixed(v).Emitted? <==> Writable(v)
    ensures Writable(v) ==> Straight(WriteArgumentFixed(v).ops)
    ensures Writable(v) ==>
      var t := Steps(s, WriteArgumentFixed(v).ops, callee);
      t.regs.r8 == ArgValue(s, v) && OnlyRegChanged(s, t, R8)
  {
    WriteArgumentCoverage(v);
    if Writable(v) {
      var op := WriteArgumentFixed(v).ops[0];
      var w, x := ArgWidth(v), ArgValue(s, v);
      ArgLoadStep(s, v, callee);
      assert WriteArgumentFixed(v).ops == [op];
      Steps1(s, op, callee);
      SetRegEffect(s, R8, w, x);
      var t := SetReg(s, R8, w, x);
      assert t.regs.r8 == Merge(s.regs.r8, w, x) == x % Modulus(w);
      DivModUnique(x, Modulus(w), 0, x);
      assert Steps(s, WriteArgumentFixed(v).ops, callee) == t;
    }
  }

  /** The register width the corrected write argument is loaded at: 64 bits
      for a constant and for a 64-bit value, 32 bits otherwise. */
  function ArgWidth(v: Operand): Width {
    if IsConstant(v) || (v.Value? && v.ty == I64) then W64 else W32
  }

  /** The corrected write argument's one instruction writes ArgValue into
      r8's ArgWidth view. */
  lemma ArgLoadStep(s: State, v: Operand, callee: CallSite -> Clobber)
    requires Writable(v)
    ensures WriteArgumentFixed(v).Emitted? && |WriteArgumentFixed(v).ops| == 1
    ensures Step(s, WriteArgumentFixed(v).ops[0], callee) == SetReg(s, R8, ArgWidth(v), ArgValue(s, v))
    ensures ArgValue(s, v) < Modulus(ArgWidth(v))
  {
    var op := WriteArgumentFixed(v).ops[0];
    var x := ArgValue(s, v);
    if IsConstant(v) {
      MovImmStep(s, W64, R8, AsUint64(v), callee);
    } else if v.ty == I8 || v.ty == I16 {
      assert Step(s, op, callee) == SetReg(s, R8, W32, x);
    } else if v.ty == I32 {
      MovStep(s, W32, R8, Src2, callee);
    } else {
      MovStep(s, W64, R8, Src2, callee);
    }
  }

  /** `bswap r8` */
  lemma SwapR8(s: State, callee: CallSite -> Clobber)
    ensures var t := Step(s, Bswap64(R8), callee);
      t.regs.r8 == SwapBytes(8, s.regs.r8) && OnlyRegChanged(s, t, R8)
  {
    var r := Read(s, R8, W64);
    assert r == s.regs.r8;
    var x := SwapBytes(8, r);
    assert Step(s, Bswap64(R8), callee) == SetReg(s, R8, W64, x);
    ByteSwap.SwapFits(W64, r, x);
    SetRegEffect(s, R8, W64, x);
  }

  /** The argument setup and `bswap r8`: r8 holds the swapped value and
      nothing but r8 changes. */
  lemma ArgThenSwap(s: State, v: Operand, callee: CallSite -> Clobber)
    requires Writable(v)
    ensures var t := Step(Steps(s, WriteArgumentFixed(v).ops, callee), Bswap64(R8), callee);
      && t.regs.r8 == SwapBytes(8, ArgValue(s, v))
      && t.regs.rcx == s.regs.rcx && t.regs.rdx == s.regs.rdx
      && OperandsKept(s, t) && t.mem == s.mem && t.events == s.events && t.xmm == s.xmm
  {
    WriteArgumentFixedLoads(s, v, callee);
    var u := Steps(s, WriteArgumentFixed(v).ops, callee);
    SwapR8(u, callee);
    var t := Step(u, Bswap64(R8), callee);
    assert Get(u.regs, Rcx) == Get(s.regs, Rcx) && Get(u.regs, Rdx) == Get(s.regs, Rdx) && Get(u.regs, Rsp) == Get(s.regs, Rsp);
    assert Get(u.regs, Dest) == Get(s.regs, Dest) && Get(u.regs, Src1) == Get(s.regs, Src1) && Get(u.regs, Src2) == Get(s.regs, Src2);
    assert Get(u.regs, Src3) == Get(s.regs, Src3) && Get(u.regs, AddrOff) == Get(s.regs, AddrOff);
    assert Get(t.regs, Rcx) == Get(u.regs, Rcx) && Get(t.regs, Rdx) == Get(u.regs, Rdx) && Get(t.regs, Rsp) == Get(u.regs, Rsp);
    assert Get(t.regs, Dest) == Get(u.regs, Dest) && Get(t.regs, Src1) == Get(u.regs, Src1) && Get(t.regs, Src2) == Get(u.regs, Src2);
    assert Get(t.regs, Src3) == Get(u.regs, Src3) && Get(t.regs, AddrOff) == Get(u.regs, AddrOff);
  }

  /** One write-callback call as its parts: the context and address
      arguments, the value argument and its swap, and the call. */
  lemma StoreCallbackSplit(s: State, d: Descriptor, a: nat, v: Operand, callee: CallSite -> Clobber)
    requires Writable(v)
    ensures StoreCallbackFixed(d, a, v).Emitted? && Straight(StoreCallbackFixed(d, a, v).ops)
    ensures var s1 := s.(regs := s.regs.(rcx := d.context % Q, rdx := a % Q));
      Steps(s, StoreCallbackFixed(d, a, v).ops, callee)
        == Steps(Step(Steps(s1, WriteArgumentFixed(v).ops, callee), Bswap64(R8), callee), CallNative(d.write), callee)
  {
    WriteArgumentFixedLoads(s, v, callee);
    var x := [MovImm(W64, Rcx, d.context), MovImm(W64, Rdx, a)];
    var arg := WriteArgumentFixed(v).ops;
    var y := [Bswap64(R8)] + CallNative(d.write);
    var ops := StoreCallbackFixed(d, a, v).ops;
    assert ops == x + (arg + y);
    CallPathsStraight(d.write);
    assert Straight([Bswap64(R8)]);
    StraightAppend([Bswap64(R8)], CallNative(d.write));
    StraightAppend(arg, y);
    StraightAppend(x, arg + y);
    StepsAppend(s, x, arg + y, callee);
    ArgumentSetup(s, d.context, a, callee);
    var s1 := s.(regs := s.regs.(rcx := d.context % Q, rdx := a % Q));
    StepsAppend(s1, arg, y, callee);
    var u := Steps(s1, arg, callee);
    StepsCons(u, Bswap64(R8), CallNative(d.write), callee);
  }

  /** One write-callback call with the corrected argument load, for every
      writable value: the callback sees its context, the address and the
      swapped value, and afterwards the context and memory base are
      reloaded. Memory and the operand registers are not touched. */
  lemma StoreCallbackRuns(s: State, d: Descriptor, a: nat, v: Operand, callee: CallSite -> Clobber)
    requires Writable(v)
    ensures StoreCallbackFixed(d, a, v).Emitted? && Straight(StoreCallbackFixed(d, a, v).ops)
    ensures var r := Steps(s, StoreCallbackFixed(d, a, v).ops, callee);
      && r.events == s.events + [Called(WriteSite(s, d, a, v))]
      && r.mem == s.mem && r.xmm == s.xmm && OperandsKept(s, r) && Restored(r)
  {
    StoreCallbackSplit(s, d, a, v, callee);
    var s1 := s.(regs := s.regs.(rcx := d.context % Q, rdx := a % Q));
    ArgThenSwap(s1, v, callee);
    assert ArgValue(s1, v) == ArgValue(s, v);
    var t := Step(Steps(s1, WriteArgumentFixed(v).ops, callee), Bswap64(R8), callee);
    CallNativeEffect(t, d.write, callee);
    assert SiteOf(t, d.write) == WriteSite(s, d, a, v);
  }

  /** The write sites depend only on src2 and xmm0. */
  lemma {:induction false} WriteEventsKept(s: State, t: State, ds: seq<Descriptor>, a: nat, v: Operand)
    requires Writable(v) && t.regs.src2 == s.regs.src2 && t.xmm.x0 == s.xmm.x0
    ensures WriteEvents(t, ds, a, v) == WriteEvents(s, ds, a, v)
    decreases |ds|
  {
    if |ds| > 0 {
      assert Get(t.regs, Src2) == Get(s.regs, Src2);
      assert ArgValue(t, v) == ArgValue(s, v);
      WriteEventsKept(s, t, ds[1..], a, v);
    }
  }

  /** The callbacks are emitted unless a claiming descriptor would need a
      value whose argument load is not emitted: a 32-bit register, whose
      form has no x86 encoding, or a non-integer register. */
  lemma {:induction false} StoreCallbacksCoverage(chain: seq<Descriptor>, a: nat, v: Operand)
    ensures StoreCallbacks(chain, a, v).Emitted? <==> Encodable(v) || |Handlers(chain, a)| == 0
    ensures Writable(v) && !StoreCallbacks(chain, a, v).Emitted? ==> StoreCallbacks(chain, a, v).Unencodable?
    decreases |chain|
  {
    if |chain| > 0 {
      StoreCallbacksCoverage(chain[1..], a, v);
      if Handles(chain[0], a) {
        WriteArgumentCoverage(v);
      }
    }
  }

  /** The callbacks of a constant-address STORE call the write callback of
      every claiming descriptor, in chain order, each with the same value;
      memory and the operand registers are not touched, and once a call has
      been made the context and memory base are reloaded. */
  lemma {:induction false} StoreCallbacksRun(s: State, chain: seq<Descriptor>, a: nat, v: Operand, callee: CallSite -> Clobber)
    requires Encodable(v)
    ensures StoreCallbacks(chain, a, v).Emitted? && Straight(StoreCallbacks(chain, a, v).ops)
    ensures var r := Steps(s, StoreCallbacks(chain, a, v).ops, callee);
      && r.events == s.events + WriteEvents(s, Handlers(chain, a), a, v)
      && r.mem == s.mem && r.xmm == s.xmm && OperandsKept(s, r)
      && (Restored(s) || |Handlers(chain, a)| > 0 ==> Restored(r))
    decreases |chain|
  {
    StoreCallbacksCoverage(chain, a, v);
    if |chain| == 0 {
      assert StoreCallbacks(chain, a, v).ops == [];
    } else if Handles(chain[0], a) {
      var d := chain[0];
      var cb := StoreCallback(d, a, v).ops;
      var rest := StoreCallbacks(chain[1..], a, v).ops;
      StoreCallbackFixedAgrees(d, a, v);
      StoreCallbackRuns(s, d, a, v, callee);
      var r1 := Steps(s, cb, callee);
      StoreCallbacksRun(r1, chain[1..], a, v, callee);
      StraightAppend(cb, rest);
      StepsAppend(s, cb, rest, callee);
      assert Handlers(chain, a) == [d] + Handlers(chain[1..], a);
      CallThenRest(s, r1, Steps(r1, rest, callee), d, Handlers(chain[1..], a), a, v);
      assert r1.regs.rsp == s.regs.rsp;
    } else {
      StoreCallbacksRun(s, chain[1..], a, v, callee);
    }
  }

  /** One write call followed by the calls for the rest of the claiming
      descriptors makes the calls for all of them. */
  lemma CallThenRest(s: State, r1: State, r: State, d: Descriptor, h: seq<Descriptor>, a: nat, v: Operand)
    requires Writable(v)
    requires r1.events == s.events + [Called(WriteSite(s, d, a, v))]
    requires r1.regs.src2 == s.regs.src2 && r1.xmm.x0 == s.xmm.x0
    requires r.events == r1.events + WriteEvents(r1, h, a, v)
    ensures r.events == s.events + WriteEvents(s, [d] + h, a, v)
  {
    var e := Called(WriteSite(s, d, a, v));
    var w := WriteEvents(s, h, a, v);
    WriteEventsKept(s, r1, h, a, v);
    assert ([d] + h)[1..] == h;
    assert WriteEvents(s, [d] + h, a, v) == [e] + w;
    assert r.events == (s.events + [e]) + w;
    assert (s.events + [e]) + w == s.events + ([e] + w);
  }

  // ------------------------------------------------------------------
  // The direct store
  // ------------------------------------------------------------------

  /** A STORE of an integer register or constant (the instruction has no
      destination). */
  predicate IntStore(i: Instr) {
    SigOf(i.dest) == SigX && IsIntValue(i.src2)
  }

  /** The value the direct store writes: the constant's low bits, or the
      register's view at the value's width. */
  function StoredValue(s: State, i: Instr): (r: nat)
    requires IntStore(i)
    ensures r < Modulus(WidthOf(i.src2.ty))
  {
    var w := WidthOf(i.src2.ty);
    if IsConstant(i.src2) then i.src2.k.bits % Modulus(w) else Read(s, Src2, w)
  }

  /** A call of the store tracer for address ea and the w-bit value v. */
  predicate TracedStore(e: Event, target: nat, ea: nat, w: Width, v: nat) {
    e.Called? && e.site.target == target % Q && e.site.rdx == ea && e.site.r8 % Modulus(w) == v
  }

  /** u after writing the n-byte value v at ea. */
  function Written(u: State, ea: nat, n: nat, v: nat): State {
    u.(mem := WriteLE(u.mem, ea, n, v), events := u.events + [Wrote(ea, n, v)])
  }

  /** The state after the write and the tracer arguments: the address in
      rdx and the w-bit value in r8. */
  function AfterStoreBody(u: State, ea: nat, w: Width, v: nat): State {
    SetReg(SetReg(Written(u, ea, Bytes(w), v), Rdx, W64, ea), R8, w, v)
  }

  /** The write is recorded once, the tracer arguments are in place, and
      the context and operand registers are untouched. */
  lemma AfterStoreBodyFacts(u: State, ea: nat, w: Width, v: nat)
    requires ea < Q && v < Modulus(w)
    ensures var t := AfterStoreBody(u, ea, w, v);
      && t.mem == WriteLE(u.mem, ea, Bytes(w), v) && t.events == u.events + [Wrote(ea, Bytes(w), v)]
      && t.regs.rdx == ea && t.regs.r8 % Modulus(w) == v
      && t.xmm == u.xmm && t.regs.rcx == u.regs.rcx && OperandsKept(u, t)
  {
    var m := Written(u, ea, Bytes(w), v);
    var m1 := SetReg(m, Rdx, W64, ea);
    assert m1.regs == u.regs.(rdx := ea) by {
      MergeQword(u.regs.rdx, ea);
    }
    var t := SetReg(m1, R8, w, v);
    assert t.regs == u.regs.(rdx := ea, r8 := Merge(u.regs.r8, w, v));
    MergeLow(u.regs.r8, w, v);
    assert v % Modulus(w) == v;
  }

  /** `mov [addr], src2; lea rdx, [addr]; mov r8, src2` */
  lemma RegStoreBody(u: State, w: Width, addr: Addr, callee: CallSite -> Clobber)
    ensures Steps(u, [MovStore(w, addr, Src2), Lea(Rdx, addr), Mov(w, R8, Src2)], callee)
         == AfterStoreBody(u, Ea(u, addr), w, Read(u, Src2, w))
  {
    var v := Read(u, Src2, w);
    var ea := Ea(u, addr);
    Steps3(u, MovStore(w, addr, Src2), Lea(Rdx, addr), Mov(w, R8, Src2), callee);
    var m := Written(u, ea, Bytes(w), v);
    MovStoreStep(u, w, addr, Src2, callee);
    assert Ea(m, addr) == ea;
    LeaStep(m, Rdx, addr, callee);
    var m1 := SetReg(m, Rdx, W64, ea);
    assert m1.regs == m.regs.(rdx := Merge(m.regs.rdx, W64, ea));
    assert Read(m1, Src2, w) == v;
    MovStep(m1, w, R8, Src2, callee);
  }

  /** `mov [addr], c; lea rdx, [addr]; mov r8, c` */
  lemma ImmStoreBody(u: State, w: Width, addr: Addr, c: nat, callee: CallSite -> Clobber)
    ensures Steps(u, [MovStoreImm(w, addr, c), Lea(Rdx, addr), MovImm(w, R8, c)], callee)
         == AfterStoreBody(u, Ea(u, addr), w, c % Modulus(w))
  {
    var v := c % Modulus(w);
    var ea := Ea(u, addr);
    Steps3(u, MovStoreImm(w, addr, c), Lea(Rdx, addr), MovImm(w, R8, c), callee);
    var m := Written(u, ea, Bytes(w), v);
    MovStoreImmStep(u, w, addr, c, callee);
    assert Ea(m, addr) == ea;
    LeaStep(m, Rdx, addr, callee);
    var m1 := SetReg(m, Rdx, W64, ea);
    MovImmStep(m1, w, R8, c, callee);
    MergeReduced(Get(m1.regs, R8), w, c);
  }

  /** Only the low w bits of a value reach a w-bit register view. */
  lemma MergeReduced(prev: U64, w: Width, c: nat)
    ensures Merge(prev, w, c) == Merge(prev, w, c % Modulus(w))
  {
    match w
    case W8 => assert c % 0x100 % 0x100 == c % 0x100;
    case W16 => assert c % 0x1_0000 % 0x1_0000 == c % 0x1_0000;
    case W32 => assert c % 0x1_0000_0000 % 0x1_0000_0000 == c % 0x1_0000_0000;
    case W64 => assert c % Q % Q == c % Q by { DivModUnique(c % Q, Q, 0, c % Q); }
  }

  /** The write and the tracer arguments the direct store emits for an
      integer value. */
  function StoreBody(i: Instr): seq<Op>
    requires IntStore(i)
  {
    var w := WidthOf(i.src2.ty);
    var addr := AddressOf(i, 0);
    if IsConstant(i.src2) then [MovStoreImm(w, addr, i.src2.k.bits), Lea(Rdx, addr), MovImm(w, R8, i.src2.k.bits)]
    else [MovStore(w, addr, Src2), Lea(Rdx, addr), Mov(w, R8, Src2)]
  }

  lemma DirectStoreOps(env: Env, i: Instr)
    requires IntStore(i)
    ensures DirectStore(env, i) == Emitted(StoreBody(i) + CallNative(env.tracer(TraceStore(i.src2.ty))))
  {
    var addr := AddressOf(i, 0);
    var tail := CallNative(env.tracer(TraceStore(i.src2.ty)));
    var b := StoreBody(i);
    assert [b[0]] + [b[1]] + [b[2]] + tail == b + tail;
    assert SigOf(i.src2) == if IsConstant(i.src2) then SigConst(i.src2.ty) else SigReg(i.src2.ty);
    match i.src2.ty
    case I8 =>
    case I16 =>
    case I32 =>
    case I64 =>
  }

  /** The body writes StoredValue at the effective address. */
  lemma StoreBodyRuns(u: State, i: Instr, callee: CallSite -> Clobber)
    requires IntStore(i)
    ensures Steps(u, StoreBody(i), callee)
         == AfterStoreBody(u, Ea(u, AddressOf(i, 0)), WidthOf(i.src2.ty), StoredValue(u, i))
  {
    var w := WidthOf(i.src2.ty);
    if IsConstant(i.src2) {
      ImmStoreBody(u, w, AddressOf(i, 0), i.src2.k.bits, callee);
    } else {
      RegStoreBody(u, w, AddressOf(i, 0), callee);
    }
  }

  lemma DirectStoreStraight(env: Env, i: Instr)
    requires IntStore(i)
    ensures Then(Emitted(AddressSetup(i)), DirectStore(env, i)).Emitted?
    ensures Straight(AddressSetup(i) + DirectStore(env, i).ops)
  {
    var tracer := env.tracer(TraceStore(i.src2.ty));
    DirectStoreOps(env, i);
    CallPathsStraight(tracer);
    StraightAppend(StoreBody(i), CallNative(tracer));
    StraightAppend(AddressSetup(i), StoreBody(i) + CallNative(tracer));
  }

  /** The direct store as its three parts: address setup, write and
      tracer arguments, and the tracer call. */
  lemma DirectStoreSplit(env: Env, i: Instr, s: State, callee: CallSite -> Clobber)
    requires IntStore(i)
    ensures Then(Emitted(AddressSetup(i)), DirectStore(env, i)).Emitted?
    ensures Straight(AddressSetup(i) + DirectStore(env, i).ops)
    ensures Steps(s, AddressSetup(i) + DirectStore(env, i).ops, callee)
         == Steps(Steps(Steps(s, AddressSetup(i), callee), StoreBody(i), callee), CallNative(env.tracer(TraceStore(i.src2.ty))), callee)
  {
    var tracer := env.tracer(TraceStore(i.src2.ty));
    var body := StoreBody(i);
    DirectStoreOps(env, i);
    assert AddressSetup(i) + DirectStore(env, i).ops == AddressSetup(i) + (body + CallNative(tracer));
    CallPathsStraight(tracer);
    StraightAppend(body, CallNative(tracer));
    StraightAppend(AddressSetup(i), body + CallNative(tracer));
    StepsAppend(s, AddressSetup(i), body + CallNative(tracer), callee);
    StepsAppend(Steps(s, AddressSetup(i), callee), body, CallNative(tracer), callee);
  }

  /** The direct store of an integer writes StoredValue little-endian at
      [membase + low 32 bits of the address], records that one write, then
      calls the store tracer with the address and the value; the context
      and memory base are reloaded after the call. */
  lemma DirectStoreRuns(env: Env, i: Instr, s: State, callee: CallSite -> Clobber)
    requires IntStore(i)
    ensures Then(Emitted(AddressSetup(i)), DirectStore(env, i)).Emitted?
    ensures Straight(AddressSetup(i) + DirectStore(env, i).ops)
    ensures var r := Steps(s, AddressSetup(i) + DirectStore(env, i).ops, callee);
      var w := WidthOf(i.src2.ty); var ea := DirectEa(s, i); var v := StoredValue(s, i);
      && r.mem == WriteLE(s.mem, ea, Bytes(w), v)
      && |r.events| == |s.events| + 2 && r.events[..|s.events| + 1] == s.events + [Wrote(ea, Bytes(w), v)]
      && TracedStore(r.events[|s.events| + 1], env.tracer(TraceStore(i.src2.ty)), ea, w, v)
      && Restored(r) && r.regs.rsp == s.regs.rsp && r.regs.src2 == s.regs.src2
      && Get(r.regs, AddrOff) % 0x1_0000_0000 == Get(s.regs, AddrOff) % 0x1_0000_0000
  {
    var tracer := env.tracer(TraceStore(i.src2.ty));
    DirectStoreSplit(env, i, s, callee);
    AddressSetupEffect(i, s, callee);
    var u := Steps(s, AddressSetup(i), callee);
    SetupKeeps(i, s, u);
    StoreTailRuns(u, i, tracer, callee);
    var r := Steps(Steps(u, StoreBody(i), callee), CallNative(tracer), callee);
    AddrOffCarried(s, u, r);
  }

  /** The address setup touches neither the stack pointer nor the stored
      value. */
  lemma SetupKeeps(i: Instr, s: State, u: State)
    requires IntStore(i) && OnlyRegChanged(s, u, if IsConstant(i.src1) then Rax else AddrOff)
    ensures u.regs.rsp == s.regs.rsp && u.regs.src2 == s.regs.src2 && StoredValue(u, i) == StoredValue(s, i)
  {
    assert Get(u.regs, Rsp) == Get(s.regs, Rsp) && Get(u.regs, Src2) == Get(s.regs, Src2);
  }

  lemma AddrOffCarried(s: State, u: State, r: State)
    requires Get(u.regs, AddrOff) % 0x1_0000_0000 == Get(s.regs, AddrOff) % 0x1_0000_0000
    requires r.regs.addrOff == u.regs.addrOff
    ensures Get(r.regs, AddrOff) % 0x1_0000_0000 == Get(s.regs, AddrOff) % 0x1_0000_0000
  {
  }

  /** The store body and the tracer call, from the state after the address
      setup. */
  lemma StoreTailRuns(u: State, i: Instr, tracer: nat, callee: CallSite -> Clobber)
    requires IntStore(i)
    ensures var r := Steps(Steps(u, StoreBody(i), callee), CallNative(tracer), callee);
      var w := WidthOf(i.src2.ty); var ea := Ea(u, AddressOf(i, 0)); var v := StoredValue(u, i);
      && r.mem == WriteLE(u.mem, ea, Bytes(w), v)
      && |r.events| == |u.events| + 2 && r.events[..|u.events| + 1] == u.events + [Wrote(ea, Bytes(w), v)]
      && TracedStore(r.events[|u.events| + 1], tracer, ea, w, v)
      && Restored(r) && OperandsKept(u, r)
  {
    var w := WidthOf(i.src2.ty);
    var ea := Ea(u, AddressOf(i, 0));
    var v := StoredValue(u, i);
    StoreBodyRuns(u, i, callee);
    AfterStoreBodyFacts(u, ea, w, v);
    var b := AfterStoreBody(u, ea, w, v);
    CallNativeEffect(b, tracer, callee);
    StoreTraceTail(u, b, Steps(b, CallNative(tracer), callee), Wrote(ea, Bytes(w), v), Called(SiteOf(b, tracer)));
  }

  /** Two events appended one after the other. */
  lemma StoreTraceTail(u: State, b: State, r: State, e1: Event, e2: Event)
    requires b.events == u.events + [e1] && r.events == b.events + [e2]
    ensures |r.events| == |u.events| + 2 && r.events[..|u.events| + 1] == u.events + [e1] && r.events[|u.events| + 1] == e2
  {
  }

  // ------------------------------------------------------------------
  // STORE as emitted
  // ------------------------------------------------------------------

  /** The write-callback calls a STORE makes before the direct store: one
      per claiming descriptor for a constant address, none otherwise. */
  function CallbackEvents(s: State, env: Env, i: Instr): seq<Event>
    requires IntStore(i)
  {
    if IsConstant(i.src1) then WriteEvents(s, Handlers(env.chain, AsUint64(i.src1)), AsUint64(i.src1), i.src2) else []
  }

  /** The callbacks of a STORE, emitted before the address setup. */
  function CallbackOps(env: Env, i: Instr): Lowered {
    if IsConstant(i.src1) then StoreCallbacks(env.chain, AsUint64(i.src1), i.src2) else Emitted([])
  }

  /** The callbacks a STORE needs can be emitted: the address is not a
      claimed constant, or the value's argument load is encodable. */
  predicate CallbacksEncodable(env: Env, i: Instr) {
    !IsConstant(i.src1) || |Handlers(env.chain, AsUint64(i.src1))| == 0 || Encodable(i.src2)
  }

  /** Running the callbacks makes CallbackEvents' calls and leaves memory,
      the operands and (given it on entry) the context and memory base as
      they were. */
  lemma CallbacksPart(env: Env, i: Instr, s: State, callee: CallSite -> Clobber)
    requires IntStore(i) && CallbacksEncodable(env, i)
    ensures CallbackOps(env, i).Emitted? && Straight(CallbackOps(env, i).ops)
    ensures var m := Steps(s, CallbackOps(env, i).ops, callee);
      && m.events == s.events + CallbackEvents(s, env, i)
      && m.mem == s.mem && OperandsKept(s, m) && (Restored(s) ==> Restored(m))
  {
    if IsConstant(i.src1) {
      var a := AsUint64(i.src1);
      if |Handlers(env.chain, a)| == 0 {
        NoClaimNoCallbacks(env.chain, a, i.src2);
        assert CallbackEvents(s, env, i) == [];
        assert s.events + [] == s.events;
      } else {
        StoreCallbacksRun(s, env.chain, a, i.src2, callee);
      }
    } else {
      assert CallbackOps(env, i).ops == [];
      assert s.events + [] == s.events;
    }
  }

  /** The callbacks are emitted exactly when they are encodable, and are
      then straight-line code; otherwise they have no x86 encoding. */
  lemma CallbacksEmitted(env: Env, i: Instr)
    requires IntStore(i)
    ensures CallbackOps(env, i).Emitted? <==> CallbacksEncodable(env, i)
    ensures CallbackOps(env, i).Emitted? ==> Straight(CallbackOps(env, i).ops)
    ensures !CallbackOps(env, i).Emitted? ==> CallbackOps(env, i).Unencodable?
  {
    if IsConstant(i.src1) {
      var a := AsUint64(i.src1);
      StoreCallbacksCoverage(env.chain, a, i.src2);
      if |Handlers(env.chain, a)| == 0 {
        NoClaimNoCallbacks(env.chain, a, i.src2);
      } else if Encodable(i.src2) {
        StoreCallbacksStraight(env.chain, a, i.src2);
      }
    }
  }

  /** The callbacks contain no control transfer. */
  lemma {:induction false} StoreCallbacksStraight(chain: seq<Descriptor>, a: nat, v: Operand)
    requires Encodable(v)
    ensures StoreCallbacks(chain, a, v).Emitted? ==> Straight(StoreCallbacks(chain, a, v).ops)
    decreases |chain|
  {
    if |chain| > 0 {
      StoreCallbacksStraight(chain[1..], a, v);
      if Handles(chain[0], a) {
        var cb := StoreCallback(chain[0], a, v);
        var rest := StoreCallbacks(chain[1..], a, v);
        if cb.Emitted? && rest.Emitted? {
          CallbackStraight(chain[0], a, v);
          StraightAppend(cb.ops, rest.ops);
        }
      }
    }
  }

  lemma CallbackStraight(d: Descriptor, a: nat, v: Operand)
    requires Encodable(v)
    ensures StoreCallback(d, a, v).Emitted? && Straight(StoreCallback(d, a, v).ops)
  {
    WriteArgumentCoverage(v);
    var x := [MovImm(W64, Rcx, d.context), MovImm(W64, Rdx, a)];
    var arg := WriteArgument(v).ops;
    var y := [Bswap64(R8)] + CallNative(d.write);
    assert Straight(arg) by {
      assert |arg| == 1 && !IsControl(arg[0]);
    }
    CallPathsStraight(d.write);
    assert Straight([Bswap64(R8)]);
    StraightAppend([Bswap64(R8)], CallNative(d.write));
    StraightAppend(x, arg);
    StraightAppend(x + arg, y);
  }

  /** STORE is the callbacks followed by the direct store. */
  lemma SelectStoreOps(env: Env, i: Instr)
    requires IntStore(i) && CallbacksEncodable(env, i)
    ensures SelectStore(env, i).Emitted?
    ensures SelectStore(env, i).ops == CallbackOps(env, i).ops + (AddressSetup(i) + DirectStore(env, i).ops)
  {
    CallbacksEmitted(env, i);
    DirectStoreStraight(env, i);
    var cb := CallbackOps(env, i).ops;
    assert (cb + AddressSetup(i)) + DirectStore(env, i).ops == cb + (AddressSetup(i) + DirectStore(env, i).ops);
  }

  lemma SelectStoreStraight(env: Env, i: Instr)
    requires IntStore(i) && CallbacksEncodable(env, i)
    ensures SelectStore(env, i).Emitted? && Straight(SelectStore(env, i).ops)
  {
    SelectStoreOps(env, i);
    CallbacksEmitted(env, i);
    DirectStoreStraight(env, i);
    StraightAppend(CallbackOps(env, i).ops, AddressSetup(i) + DirectStore(env, i).ops);
  }

  lemma SelectStoreSplit(env: Env, i: Instr, s: State, callee: CallSite -> Clobber)
    requires IntStore(i) && CallbacksEncodable(env, i)
    ensures SelectStore(env, i).Emitted? && Straight(SelectStore(env, i).ops)
    ensures Steps(s, SelectStore(env, i).ops, callee)
         == Steps(Steps(s, CallbackOps(env, i).ops, callee), AddressSetup(i) + DirectStore(env, i).ops, callee)
  {
    SelectStoreStraight(env, i);
    SelectStoreOps(env, i);
    StepsAppend(s, CallbackOps(env, i).ops, AddressSetup(i) + DirectStore(env, i).ops, callee);
  }

  /** The direct store's address and value do not change across the
      callbacks when the context and memory base were in place on entry. */
  lemma CallbacksKeepTarget(s: State, m: State, i: Instr)
    requires IntStore(i) && Restored(s) && Restored(m)
    requires m.mem == s.mem && OperandsKept(s, m)
    ensures DirectEa(m, i) == DirectEa(s, i) && StoredValue(m, i) == StoredValue(s, i)
    ensures Get(m.regs, AddrOff) == Get(s.regs, AddrOff)
  {
    SavedSlotsKept(s, m);
    assert Get(m.regs, AddrOff) == Get(s.regs, AddrOff) && Get(m.regs, Src2) == Get(s.regs, Src2);
  }

  /** The events of the callbacks followed by the direct store's two. */
  lemma EventsThenStore(s: State, m: State, r: State, cbs: seq<Event>, e: Event,
                         tracer: nat, ea: nat, w: Width, v: nat)
    requires m.events == s.events + cbs
    requires |r.events| == |m.events| + 2 && r.events[..|m.events| + 1] == m.events + [e]
    requires TracedStore(r.events[|m.events| + 1], tracer, ea, w, v)
    ensures |r.events| == |s.events| + |cbs| + 2
    ensures r.events[..|s.events| + |cbs| + 1] == s.events + cbs + [e]
    ensures TracedStore(r.events[|s.events| + |cbs| + 1], tracer, ea, w, v)
  {
  }

  /** STORE of an integer value is emitted exactly when its callbacks are
      encodable; a 32-bit register stored to a claimed constant address
      has no x86 encoding. */
  lemma SelectStoreCoverage(env: Env, i: Instr)
    requires IntStore(i)
    ensures SelectStore(env, i).Emitted? <==> CallbacksEncodable(env, i)
    ensures !SelectStore(env, i).Emitted? ==> SelectStore(env, i) == Unencodable
  {
    CallbacksEmitted(env, i);
    DirectStoreStraight(env, i);
  }

  /** The state STORE's straight-line code leaves: the callback calls'
      events, the direct write and the tracer call. */
  lemma SelectStoreSteps(env: Env, i: Instr, s: State, callee: CallSite -> Clobber)
    requires IntStore(i) && CallbacksEncodable(env, i) && Restored(s)
    ensures SelectStore(env, i).Emitted? && Straight(SelectStore(env, i).ops)
    ensures var r := Steps(s, SelectStore(env, i).ops, callee);
      var w := WidthOf(i.src2.ty); var ea := DirectEa(s, i); var v := StoredValue(s, i);
      var cbs := CallbackEvents(s, env, i);
      && r.mem == WriteLE(s.mem, ea, Bytes(w), v)
      && |r.events| == |s.events| + |cbs| + 2
      && r.events[..|s.events| + |cbs| + 1] == s.events + cbs + [Wrote(ea, Bytes(w), v)]
      && TracedStore(r.events[|s.events| + |cbs| + 1], env.tracer(TraceStore(i.src2.ty)), ea, w, v)
      && Restored(r) && r.regs.rsp == s.regs.rsp
      && Get(r.regs, AddrOff) % 0x1_0000_0000 == Get(s.regs, AddrOff) % 0x1_0000_0000
  {
    var w := WidthOf(i.src2.ty);
    SelectStoreSplit(env, i, s, callee);
    var m := Steps(s, CallbackOps(env, i).ops, callee);
    var r := Steps(m, AddressSetup(i) + DirectStore(env, i).ops, callee);
    CallbacksPart(env, i, s, callee);
    CallbacksKeepTarget(s, m, i);
    var ea, v := DirectEa(s, i), StoredValue(s, i);
    DirectStoreRuns(env, i, m, callee);
    EventsThenStore(s, m, r, CallbackEvents(s, env, i), Wrote(ea, Bytes(w), v),
                    env.tracer(TraceStore(i.src2.ty)), ea, w, v);
  }

  /** What STORE does with an integer value, entered with the context and
      memory base in rcx and rdx: every claiming descriptor's write
      callback is called (constant address only), then the value is
      written at [membase + low 32 bits of the address] and the store
      tracer is called. */
  lemma SelectStoreRuns(env: Env, i: Instr, s: State, callee: CallSite -> Clobber)
    requires IntStore(i) && CallbacksEncodable(env, i) && Restored(s)
    ensures SelectStore(env, i).Emitted?
    ensures var r := Exec(s, SelectStore(env, i).ops, callee);
      var w := WidthOf(i.src2.ty); var ea := DirectEa(s, i); var v := StoredValue(s, i);
      var cbs := CallbackEvents(s, env, i);
      && r.exit == FellThrough
      && r.s.mem == WriteLE(s.mem, ea, Bytes(w), v)
      && |r.s.events| == |s.events| + |cbs| + 2
      && r.s.events[..|s.events| + |cbs| + 1] == s.events + cbs + [Wrote(ea, Bytes(w), v)]
      && TracedStore(r.s.events[|s.events| + |cbs| + 1], env.tracer(TraceStore(i.src2.ty)), ea, w, v)
      && Restored(r.s) && r.s.regs.rsp == s.regs.rsp
      && Get(r.s.regs, AddrOff) % 0x1_0000_0000 == Get(s.regs, AddrOff) % 0x1_0000_0000
  {
    SelectStoreSteps(env, i, s, callee);
    ExecStraightAll(s, SelectStore(env, i).ops, callee);
  }

  // ------------------------------------------------------------------
  // Store then load
  // ------------------------------------------------------------------

  /** The written bytes [ea, ea + n) miss the saved context slot at [rsp]
      and the saved memory base at [context + 8]. */
  predicate ClearOfSavedSlots(s: State, ea: nat, n: nat) {
    var base := (SavedContext(s) + 8) % Q;
    (ea + n <= s.regs.rsp || s.regs.rsp + 8 <= ea) && (ea + n <= base || base + 8 <= ea)
  }

  /** A write that misses the saved slots leaves them alone. */
  lemma SlotsSurviveWrite(s: State, t: State, ea: nat, n: nat, v: nat)
    requires t.mem == WriteLE(s.mem, ea, n, v) && t.regs.rsp == s.regs.rsp
    requires ClearOfSavedSlots(s, ea, n)
    ensures SavedContext(t) == SavedContext(s) && SavedMembase(t) == SavedMembase(s)
  {
    var base := (SavedContext(s) + 8) % Q;
    assert ReadQword(t.mem, s.regs.rsp) == ReadQword(s.mem, s.regs.rsp) by {
      ReadPastWrite(s.mem, ea, n, v, s.regs.rsp, 8);
      QwordIsReadLE(s.mem, s.regs.rsp);
      QwordIsReadLE(t.mem, s.regs.rsp);
    }
    assert ReadQword(t.mem, base) == ReadQword(s.mem, base) by {
      ReadPastWrite(s.mem, ea, n, v, base, 8);
      QwordIsReadLE(s.mem, base);
      QwordIsReadLE(t.mem, base);
    }
    SavedSlotsOfQwords(s, t);
  }

  /** The same guest address gives the same host address once rdx and the
      low 32 bits of the address register agree. */
  lemma SameAddress(s: State, t: State, st: Instr, ld: Instr)
    requires ld.src1 == st.src1 && t.regs.rdx == s.regs.rdx
    requires Get(t.regs, AddrOff) % 0x1_0000_0000 == Get(s.regs, AddrOff) % 0x1_0000_0000
    ensures DirectEa(t, ld) == DirectEa(s, st)
  {
  }

  /** A STORE followed by a LOAD of the same type from the same address
      operand, with no descriptor claiming the address, reads back the
      stored value, provided the store does not overwrite the slots the
      context and memory base are reloaded from. */
  lemma StoreThenLoad(env: Env, st: Instr, ld: Instr, s: State, callee: CallSite -> Clobber)
    requires IntStore(st) && IntDest(ld) && ld.dest.ty == st.src2.ty && ld.src1 == st.src1
    requires !ByCallback(env, st) && Restored(s)
    requires ClearOfSavedSlots(s, DirectEa(s, st), Bytes(WidthOf(st.src2.ty)))
    ensures SelectStore(env, st).Emitted?
    ensures var r1 := Exec(s, SelectStore(env, st).ops, callee).s;
      SelectLoad(env, ld).Emitted?
      && Read(Exec(r1, SelectLoad(env, ld).ops, callee).s, Dest, WidthOf(ld.dest.ty)) == StoredValue(s, st)
  {
    var w := WidthOf(st.src2.ty);
    var ea := DirectEa(s, st);
    var v := StoredValue(s, st);
    assert CallbacksEncodable(env, st) by {
      if IsConstant(st.src1) {
        FirstIsHead(env.chain, AsUint64(st.src1));
      }
    }
    SelectStoreRuns(env, st, s, callee);
    var r1 := Exec(s, SelectStore(env, st).ops, callee).s;
    assert CallbackEvents(s, env, st) == [] by {
      if IsConstant(st.src1) {
        FirstIsHead(env.chain, AsUint64(st.src1));
      }
    }
    SlotsSurviveWrite(s, r1, ea, Bytes(w), v);
    SameAddress(s, r1, st, ld);
    LoadDirect(env, ld, r1, callee);
    ReadAfterWrite(s.mem, ea, Bytes(w), v);
    assert v % ByteModulus(Bytes(w)) == v by {
      BytesOfWidth(w);
      DivModUnique(v, Modulus(w), 0, v);
    }
  }

  // ------------------------------------------------------------------
  // One callback per claimed address
  // ------------------------------------------------------------------

  /** STORE as LOAD treats a claimed constant address: only the first
      claiming descriptor's write callback is called, with the corrected
      argument load, and guest memory is not written; any other store is
      the direct store. */
  function SelectStoreFixed(env: Env, i: Instr): Lowered {
    if IsConstant(i.src1) && FirstHandler(env.chain, AsUint64(i.src1)).Found? then
      StoreCallbackFixed(FirstHandler(env.chain, AsUint64(i.src1)).d, AsUint64(i.src1), i.src2)
    else
      Then(Emitted(AddressSetup(i)), DirectStore(env, i))
  }

  /** The corrected STORE to a claimed address makes exactly the one call
      LOAD would make, to the first claiming descriptor, and touches
      neither guest memory nor any tracer. */
  lemma StoreFixedByCallback(env: Env, i: Instr, s: State, callee: CallSite -> Clobber)
    requires ByCallback(env, i) && Writable(i.src2)
    ensures SelectStoreFixed(env, i).Emitted?
    ensures var r := Exec(s, SelectStoreFixed(env, i).ops, callee);
      var a := AsUint64(i.src1);
      && r.exit == FellThrough
      && r.s.events == s.events + [Called(WriteSite(s, FirstHandler(env.chain, a).d, a, i.src2))]
      && r.s.mem == s.mem && Restored(r.s)
  {
    var a := AsUint64(i.src1);
    var d := FirstHandler(env.chain, a).d;
    StoreCallbackRuns(s, d, a, i.src2, callee);
    ExecStraightAll(s, StoreCallbackFixed(d, a, i.src2).ops, callee);
  }

  /** Where no descriptor claims the address the corrected STORE is the
      STORE as emitted. */
  lemma StoreFixedAgrees(env: Env, i: Instr)
    requires !ByCallback(env, i)
    ensures SelectStoreFixed(env, i) == SelectStore(env, i)
  {
    assert CallbackOps(env, i) == Emitted([]) by {
      if IsConstant(i.src1) {
        FirstIsHead(env.chain, AsUint64(i.src1));
        NoClaimNoCallbacks(env.chain, AsUint64(i.src1), i.src2);
      }
    }
    assert [] + AddressSetup(i) == AddressSetup(i);
  }

  /** With no claiming descriptor no callback is emitted. */
  lemma {:induction false} NoClaimNoCallbacks(chain: seq<Descriptor>, a: nat, v: Operand)
    requires |Handlers(chain, a)| == 0
    ensures StoreCallbacks(chain, a, v) == Emitted([])
    decreases |chain|
  {
    if |chain| > 0 {
      NoClaimNoCallbacks(chain[1..], a, v);
    }
  }

  /** Two descriptors whose ranges both hold 0x180. */
  const Overlapping: seq<Descriptor> :=
    [Descriptor(1, a => 0x100 <= a < 0x200, 10, 11), Descriptor(2, a => 0x180 <= a < 0x280, 20, 21)]

  /** `store.i32 0x180, k` */
  function StoreAt180(k: nat): Instr {
    Instr(Store, NoOperand, Value(I32, Const(0x180)), Value(I32, Const(k)), NoOperand,
          false, false, Alloc(false, false, LowIndex, false))
  }

  /** As emitted, a store to an address two descriptors claim calls both
      write callbacks and then also writes the value to guest memory. */
  lemma StoreAsWrittenCounterexample(env: Env, k: nat, i: Instr, s: State, callee: CallSite -> Clobber)
    requires env.chain == Overlapping && i == StoreAt180(k) && k < 0x1_0000_0000 && Restored(s)
    ensures SelectStore(env, i).Emitted?
    ensures var r := Exec(s, SelectStore(env, i).ops, callee).s;
      |r.events| == |s.events| + 4 && r.events[..|s.events| + 3]
        == s.events + [Called(WriteSite(s, Overlapping[0], 0x180, i.src2)),
                       Called(WriteSite(s, Overlapping[1], 0x180, i.src2)),
                       Wrote(DirectEa(s, i), 4, k)]
  {
    var d0, d1 := Overlapping[0], Overlapping[1];
    var e0, e1 := Called(WriteSite(s, d0, 0x180, i.src2)), Called(WriteSite(s, d1, 0x180, i.src2));
    var wrote := Wrote(DirectEa(s, i), 4, k);
    assert IntStore(i) && IsConstant(i.src1) && AsUint64(i.src1) == 0x180;
    assert CallbackEvents(s, env, i) == [e0, e1] by {
      assert env.chain == [d0, d1];
      HandlersPair(d0, d1, 0x180);
      WriteEventsPair(s, d0, d1, 0x180, i.src2);
    }
    StoredConstant(s, i, k);
    SelectStoreRuns(env, i, s, callee);
    assert s.events + [e0, e1] + [wrote] == s.events + [e0, e1, wrote];
  }

  /** `store.i32 0x180, r` for a value in a register */
  function StoreRegAt180(): Instr {
    Instr(Store, NoOperand, Value(I32, Const(0x180)), Value(I32, NotConst), NoOperand,
          false, false, Alloc(false, false, LowIndex, false))
  }

  /** As emitted, a 32-bit register stored to a claimed address asks for
      `movzx r8, src32`, which has no x86 encoding: the model lowers the
      STORE to nothing. */
  lemma Store32AsWrittenCounterexample(env: Env, i: Instr)
    requires env.chain == Overlapping && i == StoreRegAt180()
    ensures SelectStore(env, i) == Unencodable
  {
    assert IntStore(i) && AsUint64(i.src1) == 0x180;
    HandlersPair(Overlapping[0], Overlapping[1], 0x180);
    SelectStoreCoverage(env, i);
  }

  /** The corrected STORE of the same register calls the first claiming
      descriptor's write callback with the register's 32 bits zero-extended
      and byte-swapped in r8. */
  lemma Store32FixedExample(env: Env, i: Instr, s: State, callee: CallSite -> Clobber)
    requires env.chain == Overlapping && i == StoreRegAt180()
    ensures SelectStoreFixed(env, i).Emitted?
    ensures var f := Exec(s, SelectStoreFixed(env, i).ops, callee).s;
      f.events == s.events + [Called(CallSite(11, 1, 0x180, SwapBytes(8, Read(s, Src2, W32)), s.xmm.x0))]
      && f.mem == s.mem
  {
    assert AsUint64(i.src1) == 0x180;
    assert FirstHandler(Overlapping, 0x180).d == Overlapping[0];
    StoreFixedByCallback(env, i, s, callee);
    assert ArgValue(s, i.src2) == Read(s, Src2, W32);
  }

  /** A 32-bit constant that fits is stored as is. */
  lemma StoredConstant(s: State, i: Instr, k: nat)
    requires IntStore(i) && i.src2 == Value(I32, Const(k)) && k < 0x1_0000_0000
    ensures WidthOf(i.src2.ty) == W32 && Bytes(W32) == 4 && StoredValue(s, i) == k
  {
  }

  /** Two descriptors that both claim a: both are handlers, in order. */
  lemma HandlersPair(d0: Descriptor, d1: Descriptor, a: nat)
    requires Handles(d0, a) && Handles(d1, a)
    ensures Handlers([d0, d1], a) == [d0, d1]
  {
    assert [d0, d1][1..] == [d1];
    assert [d1][1..] == [];
  }

  /** The write callbacks of two handlers, one event each, in order. */
  lemma WriteEventsPair(s: State, d0: Descriptor, d1: Descriptor, a: nat, v: Operand)
    requires Writable(v)
    ensures WriteEvents(s, [d0, d1], a, v) == [Called(WriteSite(s, d0, a, v)), Called(WriteSite(s, d1, a, v))]
  {
    assert [d0, d1][1..] == [d1];
    assert [d1][1..] == [];
  }

  /** The corrected store to the same address calls only the first
      claiming descriptor's write callback and leaves memory alone. */
  lemma StoreFixedExample(env: Env, k: nat, i: Instr, s: State, callee: CallSite -> Clobber)
    requires env.chain == Overlapping && i == StoreAt180(k)
    ensures SelectStoreFixed(env, i).Emitted?
    ensures var f := Exec(s, SelectStoreFixed(env, i).ops, callee).s;
      f.events == s.events + [Called(WriteSite(s, Overlapping[0], 0x180, i.src2))] && f.mem == s.mem
  {
    assert AsUint64(i.src1) == 0x180;
    assert FirstHandler(Overlapping, 0x180).d == Overlapping[0];
    StoreFixedByCallback(env, i, s, callee);
  }
}
