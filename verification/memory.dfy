/** Guest memory access: the scan of the register-access callback chain, the
    32-bit truncation of guest addresses, and LOAD. A load from a constant
    address claimed by a descriptor calls that descriptor's read callback;
    every other load reads [membase + low 32 bits of the address] and calls
    the load tracer. */
module Memory {
  import opened Bits
  import opened Flags
  import opened Machine
  import opened Ir
  import opened Lowering
  import opened Calls

  // ------------------------------------------------------------------
  // The callback chain
  // ------------------------------------------------------------------

  /** The descriptors that claim address a, in chain order. */
  function Handlers(chain: seq<Descriptor>, a: nat): (r: seq<Descriptor>)
    ensures |r| <= |chain|
    ensures forall d :: d in r <==> d in chain && Handles(d, a)
  {
    if |chain| == 0 then []
    else
      var rest := Handlers(chain[1..], a);
      assert forall d :: d in chain <==> d == chain[0] || d in chain[1..];
      if Handles(chain[0], a) then [chain[0]] + rest else rest
  }

  /** The first claiming descriptor is the head of the claiming list, and
      there is one exactly when the list is not empty. */
  lemma {:induction false} FirstIsHead(chain: seq<Descriptor>, a: nat)
    ensures FirstHandler(chain, a).Found? <==> |Handlers(chain, a)| > 0
    ensures FirstHandler(chain, a).Found? ==> FirstHandler(chain, a).d == Handlers(chain, a)[0]
  {
    if |chain| > 0 && !Handles(chain[0], a) {
      FirstIsHead(chain[1..], a);
    }
  }

  /** The result FirstHandler describes is unique: any answer that names a
      claiming descriptor with no claiming one before it, or reports that
      none claims the address when none does, is FirstHandler's. */
  lemma FirstHandlerUnique(chain: seq<Descriptor>, a: nat, r: Found)
    requires r.Found? ==> r.index < |chain| && chain[r.index] == r.d && Handles(r.d, a)
    requires r.Found? ==> forall j :: 0 <= j < r.index ==> !Handles(chain[j], a)
    requires r.NotFound? ==> forall j :: 0 <= j < |chain| ==> !Handles(chain[j], a)
    ensures r == FirstHandler(chain, a)
  {
  }

  /** The scan the emitter performs: walk the chain and stop at the first
      descriptor whose range holds the address. */
  method FindHandler(chain: seq<Descriptor>, a: nat) returns (r: Found)
    ensures r.Found? ==> r.index < |chain| && chain[r.index] == r.d && Handles(r.d, a)
    ensures r.Found? ==> forall j :: 0 <= j < r.index ==> !Handles(chain[j], a)
    ensures r.NotFound? ==> forall j :: 0 <= j < |chain| ==> !Handles(chain[j], a)
    ensures r == FirstHandler(chain, a)
  {
    var k := 0;
    while k < |chain|
      invariant 0 <= k <= |chain|
      invariant forall j :: 0 <= j < k ==> !Handles(chain[j], a)
    {
      if Handles(chain[k], a) {
        r := Found(chain[k], k);
        FirstHandlerUnique(chain, a, r);
        return;
      }
      k := k + 1;
    }
    r := NotFound;
    FirstHandlerUnique(chain, a, r);
  }

  // ------------------------------------------------------------------
  // Little-endian memory
  // ------------------------------------------------------------------

  /** Writing n bytes at a leaves every byte outside [a, a + n) alone. */
  lemma {:induction false} WriteOutside(mem: map<nat, nat>, a: nat, n: nat, v: nat, b: nat)
    requires b < a || a + n <= b
    ensures Peek(WriteLE(mem, a, n, v), b) == Peek(mem, b)
    decreases n
  {
    if n > 0 {
      WriteOutside(mem[a := v % 0x100], a + 1, n - 1, v / 0x100, b);
    }
  }

  /** Reading back the n bytes just written gives the value modulo 256^n. */
  lemma {:induction false} ReadAfterWrite(mem: map<nat, nat>, a: nat, n: nat, v: nat)
    ensures ReadLE(WriteLE(mem, a, n, v), a, n) == v % ByteModulus(n)
    decreases n
  {
    if n > 0 {
      var m1 := mem[a := v % 0x100];
      var w := WriteLE(m1, a + 1, n - 1, v / 0x100);
      WriteOutside(m1, a + 1, n - 1, v / 0x100, a);
      assert Peek(w, a) == v % 0x100;
      ReadAfterWrite(m1, a + 1, n - 1, v / 0x100);
      ModOfShifted(v, ByteModulus(n - 1));
    }
  }

  /** Bytes that agree give the same little-endian value. */
  lemma {:induction false} ReadSameBytes(m1: map<nat, nat>, m2: map<nat, nat>, a: nat, n: nat)
    requires forall b :: a <= b < a + n ==> Peek(m1, b) == Peek(m2, b)
    ensures ReadLE(m1, a, n) == ReadLE(m2, a, n)
    decreases n
  {
    if n > 0 {
      ReadSameBytes(m1, m2, a + 1, n - 1);
    }
  }

  /** A read of [b, b + k) after a write to a disjoint range [a, a + n) sees
      the old bytes. */
  lemma ReadPastWrite(mem: map<nat, nat>, a: nat, n: nat, v: nat, b: nat, k: nat)
    requires b + k <= a || a + n <= b
    ensures ReadLE(WriteLE(mem, a, n, v), b, k) == ReadLE(mem, b, k)
  {
    forall x | b <= x < b + k
      ensures Peek(WriteLE(mem, a, n, v), x) == Peek(mem, x)
    {
      WriteOutside(mem, a, n, v, x);
    }
    ReadSameBytes(WriteLE(mem, a, n, v), mem, b, k);
  }

  // ------------------------------------------------------------------
  // Direct addressing
  // ------------------------------------------------------------------

  /** The host address of a direct access: the memory base in rdx plus the
      guest address truncated to 32 bits, wrapping at 64 bits. */
  function DirectEa(s: State, i: Instr): nat {
    var guest := if IsConstant(i.src1) then AsUint32(i.src1) else Get(s.regs, AddrOff) % 0x1_0000_0000;
    (s.regs.rdx + guest) % Q
  }

  /** After the address setup, [rdx + index] is the direct address: a
      constant goes to eax (zero-extended), a register is truncated in
      place. Only that one register changes. */
  lemma AddressSetupEffect(i: Instr, s: State, callee: CallSite -> Clobber)
    ensures var u := Steps(s, AddressSetup(i), callee);
      && Ea(u, AddressOf(i, 0)) == DirectEa(s, i)
      && OnlyRegChanged(s, u, if IsConstant(i.src1) then Rax else AddrOff)
      && Get(u.regs, AddrOff) % 0x1_0000_0000 == Get(s.regs, AddrOff) % 0x1_0000_0000
  {
    var r := if IsConstant(i.src1) then Rax else AddrOff;
    var g := if IsConstant(i.src1) then AsUint32(i.src1) else Read(s, AddrOff, W32);
    if IsConstant(i.src1) {
      Steps1(s, MovImm(W32, Rax, AsUint32(i.src1)), callee);
      assert Step(s, MovImm(W32, Rax, AsUint32(i.src1)), callee) == SetReg(s, Rax, W32, g);
    } else {
      Steps1(s, Mov(W32, AddrOff, AddrOff), callee);
      assert Step(s, Mov(W32, AddrOff, AddrOff), callee) == SetReg(s, AddrOff, W32, g);
    }
    var u := SetReg(s, r, W32, g);
    SetRegEffect(s, r, W32, g);
    assert Get(u.regs, r) == g;
    EaIndexed(u, Rdx, r, 0);
  }

  // ------------------------------------------------------------------
  // LOAD
  // ------------------------------------------------------------------

  /** A non-constant integer destination. */
  predicate IntDest(i: Instr) {
    i.dest.Value? && i.dest.k.NotConst? && IsInt(i.dest.ty)
  }

  /** The constant address is claimed by a descriptor: the load goes
      through a callback. */
  predicate ByCallback(env: Env, i: Instr) {
    IsConstant(i.src1) && FirstHandler(env.chain, AsUint64(i.src1)).Found?
  }

  /** What the read callback of the first claiming descriptor receives:
      its context in rcx and the full 64-bit guest address in rdx. */
  function ReadSite(s: State, env: Env, i: Instr): CallSite
    requires ByCallback(env, i)
  {
    var d := FirstHandler(env.chain, AsUint64(i.src1)).d;
    CallSite(d.read % Q, d.context % Q, AsUint64(i.src1), s.regs.r8, s.xmm.x0)
  }

  /** `mov rcx, ctx; mov rdx, a` */
  lemma ArgumentSetup(s: State, ctx: nat, a: nat, callee: CallSite -> Clobber)
    ensures Steps(s, [MovImm(W64, Rcx, ctx), MovImm(W64, Rdx, a)], callee)
         == s.(regs := s.regs.(rcx := ctx % Q, rdx := a % Q))
  {
    Steps2(s, MovImm(W64, Rcx, ctx), MovImm(W64, Rdx, a), callee);
    MovImmQword(s, Rcx, ctx, callee);
    MovImmQword(s.(regs := s.regs.(rcx := ctx % Q)), Rdx, a, callee);
  }

  /** The callback load as its three parts: argument setup, the call, and
      the copy of rax into dest. */
  lemma CallbackLoadSplit(env: Env, i: Instr, s: State, callee: CallSite -> Clobber)
    requires ByCallback(env, i) && IntDest(i)
    ensures SelectLoad(env, i).Emitted? && Straight(SelectLoad(env, i).ops)
    ensures var d := FirstHandler(env.chain, AsUint64(i.src1)).d;
      var s1 := s.(regs := s.regs.(rcx := d.context % Q, rdx := AsUint64(i.src1)));
      Steps(s, SelectLoad(env, i).ops, callee)
        == Step(Steps(s1, CallNative(d.read), callee), Mov(WidthOf(i.dest.ty), Dest, Rax), callee)
  {
    var w := WidthOf(i.dest.ty);
    var a := AsUint64(i.src1);
    var d := FirstHandler(env.chain, a).d;
    var x := [MovImm(W64, Rcx, d.context), MovImm(W64, Rdx, a)];
    var y := [Mov(w, Dest, Rax)];
    var ops := SelectLoad(env, i).ops;
    assert ops == x + (CallNative(d.read) + y);
    CallPathsStraight(d.read);
    StraightAppend(CallNative(d.read), y);
    StraightAppend(x, CallNative(d.read) + y);
    StepsAppend(s, x, CallNative(d.read) + y, callee);
    ArgumentSetup(s, d.context, a, callee);
    assert a % Q == a by { DivModUnique(a, Q, 0, a); }
    var s1 := s.(regs := s.regs.(rcx := d.context % Q, rdx := a));
    StepsAppend(s1, CallNative(d.read), y, callee);
    var t := Steps(s1, CallNative(d.read), callee);
    Steps1(t, Mov(w, Dest, Rax), callee);
    assert Steps(s, ops, callee) == Step(t, Mov(w, Dest, Rax), callee);
  }

  /** A load from a claimed constant address makes exactly one call, to the
      first claiming descriptor's read callback with its context and the
      address, and leaves the callback's result (at dest's width) in dest.
      Guest memory is not touched. */
  lemma LoadByCallback(env: Env, i: Instr, s: State, callee: CallSite -> Clobber)
    requires ByCallback(env, i) && IntDest(i)
    ensures SelectLoad(env, i).Emitted?
    ensures var w := WidthOf(i.dest.ty);
      var r := Exec(s, SelectLoad(env, i).ops, callee);
      && r.exit == FellThrough
      && r.s.events == s.events + [Called(ReadSite(s, env, i))]
      && Read(r.s, Dest, w) == callee(ReadSite(s, env, i)).rax % Modulus(w)
      && r.s.mem == s.mem && Restored(r.s)
  {
    var w := WidthOf(i.dest.ty);
    var d := FirstHandler(env.chain, AsUint64(i.src1)).d;
    CallbackLoadSplit(env, i, s, callee);
    ExecStraightAll(s, SelectLoad(env, i).ops, callee);
    var s1 := s.(regs := s.regs.(rcx := d.context % Q, rdx := AsUint64(i.src1)));
    CallThenCopy(s1, d.read, w, callee);
    assert SiteOf(s1, d.read) == ReadSite(s, env, i);
  }

  /** `call target` followed by `mov dest, rax`: one call, whose result
      lands in dest. */
  lemma CallThenCopy(s1: State, target: nat, w: Width, callee: CallSite -> Clobber)
    ensures var r := Step(Steps(s1, CallNative(target), callee), Mov(w, Dest, Rax), callee);
      && r.events == s1.events + [Called(SiteOf(s1, target))]
      && Read(r, Dest, w) == callee(SiteOf(s1, target)).rax % Modulus(w)
      && r.mem == s1.mem && Restored(r)
  {
    CallNativeEffect(s1, target, callee);
    var t := Steps(s1, CallNative(target), callee);
    MovStep(t, w, Dest, Rax, callee);
    ReadFits(t, Rax, w);
    DestWriteKeeps(t, w, Read(t, Rax, w));
    assert Read(t, Rax, w) == callee(SiteOf(s1, target)).rax % Modulus(w) by {
      assert Get(t.regs, Rax) == t.regs.rax;
    }
  }

  /** Writing dest leaves the context, the memory base, memory and events
      as they were. */
  lemma DestWriteKeeps(t: State, w: Width, v: nat)
    ensures var u := SetReg(t, Dest, w, v);
      && Read(u, Dest, w) == v % Modulus(w)
      && u.mem == t.mem && u.events == t.events && u.xmm == t.xmm
      && u.regs.rsp == t.regs.rsp && u.regs.rcx == t.regs.rcx && u.regs.rdx == t.regs.rdx
      && (Restored(t) ==> Restored(u))
  {
    SetRegEffect(t, Dest, w, v);
    var u := SetReg(t, Dest, w, v);
    assert Get(u.regs, Rsp) == Get(t.regs, Rsp) && Get(u.regs, Rcx) == Get(t.regs, Rcx) && Get(u.regs, Rdx) == Get(t.regs, Rdx);
  }

  /** The direct load and tracer call for an integer destination. */
  lemma DirectLoadOps(env: Env, i: Instr)
    requires IntDest(i)
    ensures var w := WidthOf(i.dest.ty); var addr := AddressOf(i, 0);
      DirectLoad(env, i) == Emitted([MovLoad(w, Dest, addr), Lea(Rdx, addr), Mov(w, R8, Dest)]
                                    + CallNative(env.tracer(TraceLoad(i.dest.ty))))
  {
  }

  /** A value read from n = Bytes(w) bytes fits the w-bit view. */
  lemma LoadedFits(w: Width, v: nat)
    requires v < ByteModulus(Bytes(w))
    ensures v % Modulus(w) == v
  {
    BytesOfWidth(w);
  }

  /** [rdx + index] does not depend on the other registers. */
  lemma EaKept(u: State, t: State, addr: Addr)
    requires addr.base == Rdx && addr.index.Index?
    requires Get(t.regs, Rdx) == Get(u.regs, Rdx) && Get(t.regs, addr.index.r) == Get(u.regs, addr.index.r)
    ensures Ea(t, addr) == Ea(u, addr)
  {
  }

  /** `mov dest, [addr]` */
  lemma LoadIntoDest(u: State, w: Width, addr: Addr, callee: CallSite -> Clobber)
    requires addr.base == Rdx && addr.index.Index? && addr.index.r != Dest
    ensures var t := Step(u, MovLoad(w, Dest, addr), callee);
      && Read(t, Dest, w) == ReadLE(u.mem, Ea(u, addr), Bytes(w))
      && Ea(t, addr) == Ea(u, addr)
      && OnlyRegChanged(u, t, Dest)
  {
    var v := ReadLE(u.mem, Ea(u, addr), Bytes(w));
    MovLoadStep(u, w, Dest, addr, callee);
    SetRegEffect(u, Dest, w, v);
    LoadedFits(w, v);
    var t := SetReg(u, Dest, w, v);
    assert Get(t.regs, Rdx) == Get(u.regs, Rdx) && Get(t.regs, addr.index.r) == Get(u.regs, addr.index.r);
    EaKept(u, t, addr);
  }

  /** `lea rdx, [addr]; mov r8, dest` */
  lemma LeaThenCopy(u: State, w: Width, addr: Addr, callee: CallSite -> Clobber)
    ensures var t := Step(Step(u, Lea(Rdx, addr), callee), Mov(w, R8, Dest), callee);
      && Read(t, Dest, w) == Read(u, Dest, w) && Read(t, R8, w) == Read(u, Dest, w)
      && t.regs.rdx == Ea(u, addr)
      && t.mem == u.mem && t.events == u.events && t.xmm == u.xmm
      && t.regs.rsp == u.regs.rsp && t.regs.rcx == u.regs.rcx
  {
    var e := Ea(u, addr);
    LeaStep(u, Rdx, addr, callee);
    var u1 := SetReg(u, Rdx, W64, e);
    SetRegEffect(u, Rdx, W64, e);
    assert Get(u1.regs, Dest) == Get(u.regs, Dest);
    MovStep(u1, w, R8, Dest, callee);
    var x := Read(u1, Dest, w);
    var t := SetReg(u1, R8, w, x);
    SetRegEffect(u1, R8, w, x);
    ReadFits(u1, Dest, w);
    assert Get(t.regs, Dest) == Get(u1.regs, Dest) && Get(t.regs, Rdx) == Get(u1.regs, Rdx);
    assert Get(t.regs, Rcx) == Get(u.regs, Rcx) && Get(t.regs, Rsp) == Get(u.regs, Rsp);
  }

  /** `mov dest, [addr]; lea rdx, [addr]; mov r8, dest` with the address
      registers other than dest. */
  lemma LoadAndTraceArgs(u: State, w: Width, addr: Addr, callee: CallSite -> Clobber)
    requires addr.base == Rdx && addr.index.Index? && addr.index.r != Dest
    ensures var t := Steps(u, [MovLoad(w, Dest, addr), Lea(Rdx, addr), Mov(w, R8, Dest)], callee);
      var v := ReadLE(u.mem, Ea(u, addr), Bytes(w));
      && Read(t, Dest, w) == v && Read(t, R8, w) == v && t.regs.rdx == Ea(u, addr)
      && t.mem == u.mem && t.events == u.events && t.xmm == u.xmm
      && t.regs.rsp == u.regs.rsp && t.regs.rcx == u.regs.rcx
  {
    Steps3(u, MovLoad(w, Dest, addr), Lea(Rdx, addr), Mov(w, R8, Dest), callee);
    LoadIntoDest(u, w, addr, callee);
    var u1 := Step(u, MovLoad(w, Dest, addr), callee);
    assert u1.regs.rsp == u.regs.rsp && u1.regs.rcx == u.regs.rcx by {
      assert Get(u1.regs, Rsp) == Get(u.regs, Rsp) && Get(u1.regs, Rcx) == Get(u.regs, Rcx);
    }
    LeaThenCopy(u1, w, addr, callee);
  }

  /** The direct load as its three parts: address setup, load and tracer
      arguments, and the tracer call. */
  lemma DirectLoadSplit(env: Env, i: Instr, s: State, callee: CallSite -> Clobber)
    requires !ByCallback(env, i) && IntDest(i)
    ensures SelectLoad(env, i).Emitted? && Straight(SelectLoad(env, i).ops)
    ensures var w := WidthOf(i.dest.ty); var addr := AddressOf(i, 0);
      var body := [MovLoad(w, Dest, addr), Lea(Rdx, addr), Mov(w, R8, Dest)];
      Steps(s, SelectLoad(env, i).ops, callee)
        == Steps(Steps(Steps(s, AddressSetup(i), callee), body, callee), CallNative(env.tracer(TraceLoad(i.dest.ty))), callee)
  {
    var w := WidthOf(i.dest.ty);
    var addr := AddressOf(i, 0);
    var tracer := env.tracer(TraceLoad(i.dest.ty));
    var body := [MovLoad(w, Dest, addr), Lea(Rdx, addr), Mov(w, R8, Dest)];
    DirectLoadOps(env, i);
    var ops := SelectLoad(env, i).ops;
    assert ops == AddressSetup(i) + (body + CallNative(tracer));
    CallPathsStraight(tracer);
    StraightAppend(body, CallNative(tracer));
    StraightAppend(AddressSetup(i), body + CallNative(tracer));
    StepsAppend(s, AddressSetup(i), body + CallNative(tracer), callee);
    StepsAppend(Steps(s, AddressSetup(i), callee), body, CallNative(tracer), callee);
  }

  /** e is the one event appended after the events of s. */
  predicate OneMore(s: State, t: State, e: Event) {
    |t.events| == |s.events| + 1 && t.events[..|s.events|] == s.events && t.events[|s.events|] == e
  }

  lemma OneMoreOf(s: State, t: State, e: Event)
    requires t.events == s.events + [e]
    ensures OneMore(s, t, e)
  {
  }

  /** The direct load up to the tracer call: dest and r8 hold the loaded
      value, rdx the direct address; memory, events and rsp are as before. */
  lemma LoadDirectMid(i: Instr, s: State, callee: CallSite -> Clobber)
    requires IntDest(i)
    ensures var w := WidthOf(i.dest.ty); var addr := AddressOf(i, 0);
      var b := Steps(Steps(s, AddressSetup(i), callee), [MovLoad(w, Dest, addr), Lea(Rdx, addr), Mov(w, R8, Dest)], callee);
      var v := ReadLE(s.mem, DirectEa(s, i), Bytes(w));
      && Read(b, Dest, w) == v && Read(b, R8, w) == v && b.regs.rdx == DirectEa(s, i)
      && b.mem == s.mem && b.events == s.events && b.regs.rsp == s.regs.rsp
  {
    var w := WidthOf(i.dest.ty);
    var addr := AddressOf(i, 0);
    AddressSetupEffect(i, s, callee);
    var u := Steps(s, AddressSetup(i), callee);
    assert u.regs.rsp == s.regs.rsp by {
      assert Get(u.regs, Rsp) == Get(s.regs, Rsp);
    }
    LoadAndTraceArgs(u, w, addr, callee);
  }

  /** The straight-line run of a direct load: its final state. */
  lemma LoadDirectSteps(env: Env, i: Instr, s: State, callee: CallSite -> Clobber)
    requires !ByCallback(env, i) && IntDest(i)
    requires SelectLoad(env, i).Emitted?
    ensures var t := Steps(s, SelectLoad(env, i).ops, callee);
      && Read(t, Dest, WidthOf(i.dest.ty)) == ReadLE(s.mem, DirectEa(s, i), Bytes(WidthOf(i.dest.ty)))
      && t.mem == s.mem && Restored(t)
    ensures var t := Steps(s, SelectLoad(env, i).ops, callee);
      && |t.events| == |s.events| + 1 && t.events[..|s.events|] == s.events
      && t.events[|s.events|].Called?
      && t.events[|s.events|].site.target == env.tracer(TraceLoad(i.dest.ty)) % Q
      && t.events[|s.events|].site.rdx == DirectEa(s, i)
      && t.events[|s.events|].site.r8 % Modulus(WidthOf(i.dest.ty)) == ReadLE(s.mem, DirectEa(s, i), Bytes(WidthOf(i.dest.ty)))
  {
    var w := WidthOf(i.dest.ty);
    var addr := AddressOf(i, 0);
    var tracer := env.tracer(TraceLoad(i.dest.ty));
    var body := [MovLoad(w, Dest, addr), Lea(Rdx, addr), Mov(w, R8, Dest)];
    DirectLoadSplit(env, i, s, callee);
    LoadDirectMid(i, s, callee);
    var b := Steps(Steps(s, AddressSetup(i), callee), body, callee);
    CallNativeEffect(b, tracer, callee);
    var t := Steps(b, CallNative(tracer), callee);
    OneMoreOf(b, t, Called(SiteOf(b, tracer)));
    assert Get(b.regs, R8) == b.regs.r8;
  }

  /** Any other load of an integer destination reads the little-endian
      value at [membase + low 32 bits of the address] into dest, then calls
      the load tracer with the address in rdx and the value in r8. Guest
      memory is not touched. */
  lemma LoadDirect(env: Env, i: Instr, s: State, callee: CallSite -> Clobber)
    requires !ByCallback(env, i) && IntDest(i)
    ensures SelectLoad(env, i).Emitted?
    ensures var r := Exec(s, SelectLoad(env, i).ops, callee);
      && r.exit == FellThrough
      && Read(r.s, Dest, WidthOf(i.dest.ty)) == ReadLE(s.mem, DirectEa(s, i), Bytes(WidthOf(i.dest.ty)))
      && r.s.mem == s.mem && Restored(r.s)
    ensures var r := Exec(s, SelectLoad(env, i).ops, callee);
      && |r.s.events| == |s.events| + 1 && r.s.events[..|s.events|] == s.events
      && r.s.events[|s.events|].Called?
      && r.s.events[|s.events|].site.target == env.tracer(TraceLoad(i.dest.ty)) % Q
      && r.s.events[|s.events|].site.rdx == DirectEa(s, i)
      && r.s.events[|s.events|].site.r8 % Modulus(WidthOf(i.dest.ty)) == ReadLE(s.mem, DirectEa(s, i), Bytes(WidthOf(i.dest.ty)))
  {
    DirectLoadSplit(env, i, s, callee);
    ExecStraightAll(s, SelectLoad(env, i).ops, callee);
    LoadDirectSteps(env, i, s, callee);
  }
}
