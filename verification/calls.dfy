/** Calls out of generated code. The convention: the stack slot at [rsp]
    holds the guest context pointer and the qword at context+8 holds the
    guest memory base; generated code keeps the context in rcx and the base
    in rdx, so every call that may clobber them is followed by a reload. */
module Calls {
  import opened Bits
  import opened Flags
  import opened Machine
  import opened Ir
  import opened Lowering

  /** The context pointer saved at [rsp]. */
  function SavedContext(s: State): U64 {
    ReadQword(s.mem, s.regs.rsp)
  }

  /** The guest memory base saved at [context + 8]. */
  function SavedMembase(s: State): U64 {
    ReadQword(s.mem, (SavedContext(s) + 8) % Q)
  }

  /** rcx and rdx hold the saved context and memory base. */
  predicate Restored(s: State) {
    s.regs.rcx == SavedContext(s) && s.regs.rdx == SavedMembase(s)
  }

  /** The allocator-bound operand registers and the stack pointer are as in
      s. */
  predicate OperandsKept(s: State, t: State) {
    t.regs.rsp == s.regs.rsp && t.regs.dest == s.regs.dest && t.regs.src1 == s.regs.src1
      && t.regs.src2 == s.regs.src2 && t.regs.src3 == s.regs.src3 && t.regs.addrOff == s.regs.addrOff
  }

  /** What a call to `target` sees in state s. */
  function SiteOf(s: State, target: nat): CallSite {
    CallSite(target % Q, s.regs.rcx, s.regs.rdx, s.regs.r8, s.xmm.x0)
  }

  /** What `call rax` sees in state s. */
  function CallOf(s: State): CallSite {
    CallSite(s.regs.rax, s.regs.rcx, s.regs.rdx, s.regs.r8, s.xmm.x0)
  }

  /** The state after `call rax` and the reload: the callee's rax and r8,
      the saved context and memory base, and the call recorded. */
  function AfterCall(s: State, callee: CallSite -> Clobber): State {
    var site := CallOf(s);
    var c := callee(site);
    s.(regs := s.regs.(rax := c.rax, rcx := SavedContext(s), rdx := SavedMembase(s), r8 := c.r8),
       events := s.events + [Called(site)])
  }

  /** The saved slots depend only on memory and rsp. */
  lemma SavedSlotsKept(s: State, t: State)
    requires t.regs.rsp == s.regs.rsp && t.mem == s.mem
    ensures SavedContext(t) == SavedContext(s) && SavedMembase(t) == SavedMembase(s)
  {
  }

  /** The saved slots depend only on the two qwords they are read from. */
  lemma SavedSlotsOfQwords(s: State, t: State)
    requires t.regs.rsp == s.regs.rsp && ReadQword(t.mem, s.regs.rsp) == ReadQword(s.mem, s.regs.rsp)
    requires ReadQword(t.mem, (SavedContext(s) + 8) % Q) == ReadQword(s.mem, (SavedContext(s) + 8) % Q)
    ensures SavedContext(t) == SavedContext(s) && SavedMembase(t) == SavedMembase(s)
  {
  }

  /** `mov rcx, [rsp]` fetches the saved context. */
  lemma ReloadContext(s: State, callee: CallSite -> Clobber)
    ensures Step(s, MovLoad(W64, Rcx, Addr(Rsp, NoIndex, 0)), callee) == s.(regs := s.regs.(rcx := SavedContext(s)))
  {
    assert Ea(s, Addr(Rsp, NoIndex, 0)) == s.regs.rsp;
    LoadQword(s, Rcx, Addr(Rsp, NoIndex, 0), callee);
  }

  /** `mov rdx, [rcx+8]` fetches the memory base once rcx holds the context. */
  lemma ReloadMembase(s: State, callee: CallSite -> Clobber)
    ensures var s1 := s.(regs := s.regs.(rcx := SavedContext(s)));
      Step(s1, MovLoad(W64, Rdx, Addr(Rcx, NoIndex, 8)), callee) == s1.(regs := s1.regs.(rdx := SavedMembase(s)))
  {
    var c := SavedContext(s);
    var s1 := s.(regs := s.regs.(rcx := c));
    var ea: nat := (c + 8) % Q;
    assert SavedMembase(s) == ReadQword(s.mem, ea);
    assert Ea(s1, Addr(Rcx, NoIndex, 8)) == ea;
    LoadQword(s1, Rdx, Addr(Rcx, NoIndex, 8), callee);
  }

  /** The reload as a closed form: only rcx and rdx change. */
  lemma ReloadClosedForm(s: State, callee: CallSite -> Clobber)
    ensures Steps(s, Reload, callee) == s.(regs := s.regs.(rcx := SavedContext(s), rdx := SavedMembase(s)))
  {
    var a, b := MovLoad(W64, Rcx, Addr(Rsp, NoIndex, 0)), MovLoad(W64, Rdx, Addr(Rcx, NoIndex, 8));
    assert Reload == [a, b];
    Steps2(s, a, b, callee);
    ReloadContext(s, callee);
    ReloadMembase(s, callee);
  }

  /** The two reload loads leave rcx and rdx holding the saved context and
      memory base, whatever they held before, and change nothing else. */
  lemma ReloadRestores(s: State, callee: CallSite -> Clobber)
    ensures var t := Steps(s, Reload, callee);
      && Restored(t) && t.mem == s.mem && t.events == s.events && t.xmm == s.xmm
      && t.regs.rax == s.regs.rax && t.regs.r8 == s.regs.r8 && OperandsKept(s, t)
  {
    ReloadClosedForm(s, callee);
    SavedSlotsKept(s, s.(regs := s.regs.(rcx := SavedContext(s), rdx := SavedMembase(s))));
  }

  /** `call rax` followed by the reload is AfterCall. */
  lemma CallThenReloadClosedForm(s: State, callee: CallSite -> Clobber)
    ensures Steps(s, [CallReg(Rax)] + Reload, callee) == AfterCall(s, callee)
  {
    StepsCons(s, CallReg(Rax), Reload, callee);
    CallRaxStep(s, callee);
    var t := Step(s, CallReg(Rax), callee);
    ReloadClosedForm(t, callee);
    SavedSlotsKept(s, t);
  }

  /** After a call and the reload the callee's view of the call is
      recorded, rcx and rdx hold the saved context and memory base again,
      and memory, the xmm registers, the operand registers and the saved
      slots themselves are as before. */
  lemma AfterCallRestores(s: State, callee: CallSite -> Clobber)
    ensures var t := AfterCall(s, callee);
      var c := callee(CallOf(s));
      && t.events == s.events + [Called(CallOf(s))]
      && Restored(t) && SavedContext(t) == SavedContext(s) && SavedMembase(t) == SavedMembase(s)
      && t.mem == s.mem && t.xmm == s.xmm && OperandsKept(s, t)
      && t.regs.rax == c.rax && t.regs.r8 == c.r8
  {
    SavedSlotsKept(s, AfterCall(s, callee));
  }

  /** `call rax` followed by the reload, as the call paths use it. */
  lemma CallThenReload(s: State, callee: CallSite -> Clobber)
    ensures var t := Steps(s, [CallReg(Rax)] + Reload, callee);
      && t.events == s.events + [Called(CallOf(s))]
      && Restored(t) && t.mem == s.mem && t.xmm == s.xmm && OperandsKept(s, t)
      && t.regs.rax == callee(CallOf(s)).rax && t.regs.r8 == callee(CallOf(s)).r8
  {
    CallThenReloadClosedForm(s, callee);
    AfterCallRestores(s, callee);
  }

  /** CallNative in closed form. */
  lemma CallNativeClosedForm(s: State, target: nat, callee: CallSite -> Clobber)
    ensures Steps(s, CallNative(target), callee) == AfterCall(s.(regs := s.regs.(rax := target % Q)), callee)
  {
    var a := MovImm(W64, Rax, target);
    assert CallNative(target) == [a] + ([CallReg(Rax)] + Reload);
    StepsCons(s, a, [CallReg(Rax)] + Reload, callee);
    MovImmQword(s, Rax, target, callee);
    CallThenReloadClosedForm(s.(regs := s.regs.(rax := target % Q)), callee);
  }

  /** CallNative calls its target with the current argument registers and
      leaves rcx and rdx restored; memory, xmm registers and the operand
      registers are untouched. */
  lemma CallNativeEffect(s: State, target: nat, callee: CallSite -> Clobber)
    ensures var t := Steps(s, CallNative(target), callee);
      && t.events == s.events + [Called(SiteOf(s, target))]
      && Restored(t) && t.mem == s.mem && t.xmm == s.xmm && OperandsKept(s, t)
      && t.regs.rax == callee(SiteOf(s, target)).rax && t.regs.r8 == callee(SiteOf(s, target)).r8
  {
    CallNativeClosedForm(s, target, callee);
    var s1 := s.(regs := s.regs.(rax := target % Q));
    AfterCallRestores(s1, callee);
    assert CallOf(s1) == SiteOf(s, target);
  }

  /** The reload and the call paths contain no control transfer before
      their end. */
  lemma CallPathsStraight(target: nat)
    ensures Straight(Reload)
    ensures Straight([CallReg(Rax)] + Reload)
    ensures Straight(CallNative(target))
  {
  }

  /** Whenever a call sequence calls through rax, the reload immediately
      follows. */
  predicate ReloadAfterEveryCall(ops: seq<Op>) {
    forall k :: 0 <= k < |ops| && ops[k] == CallReg(Rax) ==> k + 2 < |ops| && ops[k + 1] == Reload[0] && ops[k + 2] == Reload[1]
  }

  lemma ReloadAfterEveryCallAppend(a: seq<Op>, b: seq<Op>)
    requires ReloadAfterEveryCall(a) && ReloadAfterEveryCall(b)
    ensures ReloadAfterEveryCall(a + b)
  {
    forall k | 0 <= k < |a + b| && (a + b)[k] == CallReg(Rax)
      ensures k + 2 < |a + b| && (a + b)[k + 1] == Reload[0] && (a + b)[k + 2] == Reload[1]
    {
      if k < |a| {
        assert a[k] == CallReg(Rax);
      } else {
        assert b[k - |a|] == CallReg(Rax);
      }
    }
  }

  /** The setup part of a direct call, before the final transfer. */
  function CallSetup(env: Env, info: FunctionInfo): seq<Op> {
    match info.fn
    case ExternFunction(handler, arg0, arg1) =>
      [MovImm(W64, Rdx, arg0), MovImm(W64, R8, arg1), MovImm(W64, Rax, handler)]
    case _ =>
      [MovImm(W64, Rdx, info.handle), MovImm(W64, Rax, env.resolveSymbol)] + ([CallReg(Rax)] + Reload)
  }

  lemma IssueCallSplit(env: Env, info: FunctionInfo, tail: bool)
    ensures IssueCall(env, info, tail) == CallSetup(env, info) + CallRax(tail)
  {
  }

  /** The syntactic shape of a direct call: every `call rax` is followed by
      the reload, a tail call ends with `add rsp, 0x40; jmp rax` and nothing
      after it, and the extern path never calls the resolver. */
  lemma IssueCallShape(env: Env, info: FunctionInfo, tail: bool)
    ensures ReloadAfterEveryCall(IssueCall(env, info, tail))
    ensures tail ==> (
      var ops := IssueCall(env, info, tail);
      |ops| >= 2 && ops[|ops| - 2] == AddImm(W64, Rsp, 0x40) && ops[|ops| - 1] == JmpReg(Rax))
    ensures info.fn.ExternFunction? ==> (
      var ops := IssueCall(env, info, tail);
      && |ops| >= 3
      && ops[..3] == [MovImm(W64, Rdx, info.fn.arg0), MovImm(W64, R8, info.fn.arg1), MovImm(W64, Rax, info.fn.handler)]
      && (tail <==> CallReg(Rax) !in ops))
  {
    IssueCallSplit(env, info, tail);
    var setup := CallSetup(env, info);
    CallSetupReloads(env, info);
    CallRaxReloads(tail);
    ReloadAfterEveryCallAppend(setup, CallRax(tail));
    if info.fn.ExternFunction? {
      var ops := IssueCall(env, info, tail);
      if !tail {
        assert ops[3] == CallReg(Rax);
      }
    }
  }

  lemma IssueCallIndirectShape(env: Env, target: Gpr, tail: bool)
    ensures ReloadAfterEveryCall(IssueCallIndirect(env, target, tail))
    ensures tail ==> (
      var ops := IssueCallIndirect(env, target, tail);
      |ops| >= 2 && ops[|ops| - 2] == AddImm(W64, Rsp, 0x40) && ops[|ops| - 1] == JmpReg(Rax))
    ensures (IssueCallIndirect(env, target, tail)[0] == Mov(W64, Rdx, target)) <==> target != Rdx
  {
    var setup := if target != Rdx then [Mov(W64, Rdx, target)] else [];
    var core := setup + [MovImm(W64, Rax, env.resolveAddress)] + ([CallReg(Rax)] + Reload);
    assert IssueCallIndirect(env, target, tail) == core + CallRax(tail);
    IndirectCoreReloads(env, target);
    CallRaxReloads(tail);
    ReloadAfterEveryCallAppend(core, CallRax(tail));
  }

  lemma CallSetupReloads(env: Env, info: FunctionInfo)
    ensures ReloadAfterEveryCall(CallSetup(env, info))
  {
  }

  lemma CallRaxReloads(tail: bool)
    ensures ReloadAfterEveryCall(CallRax(tail))
  {
  }

  lemma IndirectCoreReloads(env: Env, target: Gpr)
    ensures var setup := if target != Rdx then [Mov(W64, Rdx, target)] else [];
      ReloadAfterEveryCall(setup + [MovImm(W64, Rax, env.resolveAddress)] + ([CallReg(Rax)] + Reload))
  {
  }

  /** The extern setup loads the handler's bound arguments and address. */
  lemma ExternSetupClosedForm(s: State, env: Env, info: FunctionInfo, callee: CallSite -> Clobber)
    requires info.fn.ExternFunction?
    ensures Steps(s, CallSetup(env, info), callee)
      == s.(regs := s.regs.(rdx := info.fn.arg0 % Q, r8 := info.fn.arg1 % Q, rax := info.fn.handler % Q))
  {
    var a, b, c := MovImm(W64, Rdx, info.fn.arg0), MovImm(W64, R8, info.fn.arg1), MovImm(W64, Rax, info.fn.handler);
    assert CallSetup(env, info) == [a, b, c];
    Steps3(s, a, b, c, callee);
    MovImmQword(s, Rdx, info.fn.arg0, callee);
    var s1 := s.(regs := s.regs.(rdx := info.fn.arg0 % Q));
    MovImmQword(s1, R8, info.fn.arg1, callee);
    var s2 := s1.(regs := s1.regs.(r8 := info.fn.arg1 % Q));
    MovImmQword(s2, Rax, info.fn.handler, callee);
  }

  /** The generic setup's two immediate loads. */
  lemma ResolveArgs(s: State, env: Env, info: FunctionInfo, callee: CallSite -> Clobber)
    ensures Steps(s, [MovImm(W64, Rdx, info.handle), MovImm(W64, Rax, env.resolveSymbol)], callee)
      == s.(regs := s.regs.(rdx := info.handle % Q, rax := env.resolveSymbol % Q))
  {
    var a, b := MovImm(W64, Rdx, info.handle), MovImm(W64, Rax, env.resolveSymbol);
    Steps2(s, a, b, callee);
    MovImmQword(s, Rdx, info.handle, callee);
    MovImmQword(s.(regs := s.regs.(rdx := info.handle % Q)), Rax, env.resolveSymbol, callee);
  }

  /** The generic setup calls the symbol resolver with the FunctionInfo in
      rdx. */
  lemma ResolveClosedForm(s: State, env: Env, info: FunctionInfo, callee: CallSite -> Clobber)
    requires !info.fn.ExternFunction?
    ensures Steps(s, CallSetup(env, info), callee)
      == AfterCall(s.(regs := s.regs.(rdx := info.handle % Q, rax := env.resolveSymbol % Q)), callee)
  {
    var args := [MovImm(W64, Rdx, info.handle), MovImm(W64, Rax, env.resolveSymbol)];
    var call := [CallReg(Rax)] + Reload;
    assert CallSetup(env, info) == args + call;
    StepsAppend(s, args, call, callee);
    ResolveArgs(s, env, info, callee);
    CallThenReloadClosedForm(s.(regs := s.regs.(rdx := info.handle % Q, rax := env.resolveSymbol % Q)), callee);
  }

  lemma CallSetupStraight(env: Env, info: FunctionInfo, tail: bool)
    ensures Straight(CallSetup(env, info))
    ensures !tail ==> Straight(IssueCall(env, info, tail))
  {
    IssueCallSplit(env, info, tail);
    CallPathsStraight(0);
    if !info.fn.ExternFunction? {
      var a, b := MovImm(W64, Rdx, info.handle), MovImm(W64, Rax, env.resolveSymbol);
      assert Straight([a, b]);
      StraightAppend([a, b], [CallReg(Rax)] + Reload);
    }
    if !tail {
      StraightAppend(CallSetup(env, info), CallRax(tail));
    }
  }

  /** A non-tail extern call in closed form. */
  lemma ExternCallClosedForm(s: State, env: Env, info: FunctionInfo, callee: CallSite -> Clobber)
    requires info.fn.ExternFunction?
    ensures Steps(s, IssueCall(env, info, false), callee)
      == AfterCall(s.(regs := s.regs.(rdx := info.fn.arg0 % Q, r8 := info.fn.arg1 % Q, rax := info.fn.handler % Q)), callee)
  {
    IssueCallSplit(env, info, false);
    StepsAppend(s, CallSetup(env, info), CallRax(false), callee);
    ExternSetupClosedForm(s, env, info, callee);
    CallThenReloadClosedForm(s.(regs := s.regs.(rdx := info.fn.arg0 % Q, r8 := info.fn.arg1 % Q, rax := info.fn.handler % Q)), callee);
  }

  /** A non-tail call through an extern function's handler: one call, with
      the handler's two bound arguments in rdx and r8 and the context still
      in rcx; afterwards rcx and rdx are restored. */
  lemma ExternCallRuns(s: State, env: Env, info: FunctionInfo, callee: CallSite -> Clobber)
    requires info.fn.ExternFunction?
    ensures var r := Exec(s, IssueCall(env, info, false), callee);
      && r.exit == FellThrough && Restored(r.s) && r.s.mem == s.mem && OperandsKept(s, r.s)
      && r.s.events == s.events + [Called(CallSite(info.fn.handler % Q, s.regs.rcx, info.fn.arg0 % Q, info.fn.arg1 % Q, s.xmm.x0))]
  {
    CallSetupStraight(env, info, false);
    ExecStraightAll(s, IssueCall(env, info, false), callee);
    ExternCallClosedForm(s, env, info, callee);
    AfterCallRestores(s.(regs := s.regs.(rdx := info.fn.arg0 % Q, r8 := info.fn.arg1 % Q, rax := info.fn.handler % Q)), callee);
  }

  /** Two calls through rax, each followed by the reload. */
  lemma TwoCallsRestore(s: State, callee: CallSite -> Clobber)
    ensures var t := AfterCall(AfterCall(s, callee), callee);
      var c := callee(CallOf(s));
      && Restored(t) && t.mem == s.mem && OperandsKept(s, t)
      && t.events == s.events + [Called(CallOf(s)), Called(CallSite(c.rax, SavedContext(s), SavedMembase(s), c.r8, s.xmm.x0))]
  {
    AfterCallRestores(s, callee);
    AfterCallRestores(AfterCall(s, callee), callee);
  }

  /** A non-tail generic call in closed form. */
  lemma GenericCallClosedForm(s: State, env: Env, info: FunctionInfo, callee: CallSite -> Clobber)
    requires !info.fn.ExternFunction?
    ensures Steps(s, IssueCall(env, info, false), callee)
      == AfterCall(AfterCall(s.(regs := s.regs.(rdx := info.handle % Q, rax := env.resolveSymbol % Q)), callee), callee)
  {
    IssueCallSplit(env, info, false);
    StepsAppend(s, CallSetup(env, info), CallRax(false), callee);
    ResolveClosedForm(s, env, info, callee);
    CallThenReloadClosedForm(AfterCall(s.(regs := s.regs.(rdx := info.handle % Q, rax := env.resolveSymbol % Q)), callee), callee);
  }

  /** A non-tail generic call: the resolver is called with the symbol's
      FunctionInfo in rdx, then the resolved code is called with the
      restored context and memory base; afterwards both are restored
      again. */
  lemma GenericCallRuns(s: State, env: Env, info: FunctionInfo, callee: CallSite -> Clobber)
    requires !info.fn.ExternFunction?
    ensures var r := Exec(s, IssueCall(env, info, false), callee);
      var first := CallSite(env.resolveSymbol % Q, s.regs.rcx, info.handle % Q, s.regs.r8, s.xmm.x0);
      var c := callee(first);
      && r.exit == FellThrough && Restored(r.s) && r.s.mem == s.mem && OperandsKept(s, r.s)
      && r.s.events == s.events + [Called(first), Called(CallSite(c.rax, SavedContext(s), SavedMembase(s), c.r8, s.xmm.x0))]
  {
    CallSetupStraight(env, info, false);
    ExecStraightAll(s, IssueCall(env, info, false), callee);
    GenericCallClosedForm(s, env, info, callee);
    var s2 := s.(regs := s.regs.(rdx := info.handle % Q, rax := env.resolveSymbol % Q));
    TwoCallsRestore(s2, callee);
    SavedSlotsKept(s, s2);
  }

  /** A tail transfer runs its setup and the pop, then leaves by the jump. */
  lemma TailSplit(s: State, setup: seq<Op>, callee: CallSite -> Clobber)
    requires Straight(setup)
    ensures Exec(s, setup + CallRax(true), callee)
      == Exec(Steps(Steps(s, setup, callee), [AddImm(W64, Rsp, 0x40)], callee), [JmpReg(Rax)], callee)
  {
    var add := AddImm(W64, Rsp, 0x40);
    assert setup + CallRax(true) == (setup + [add]) + [JmpReg(Rax)];
    assert Straight([add]);
    StraightAppend(setup, [add]);
    ExecStraight(s, setup + [add], [JmpReg(Rax)], callee);
    StepsAppend(s, setup, [add], callee);
  }

  /** Exec of a straight setup followed by `add rsp, 0x40; jmp rax`. */
  lemma TailJump(s: State, setup: seq<Op>, callee: CallSite -> Clobber)
    requires Straight(setup)
    ensures var t := Steps(s, setup, callee);
      Exec(s, setup + CallRax(true), callee)
        == Run(t.(regs := t.regs.(rsp := (t.regs.rsp + 0x40) % Q)), JumpedTo(t.regs.rax))
  {
    TailSplit(s, setup, callee);
    var t := Steps(s, setup, callee);
    PopFrame(t, callee);
    ExecJmpReg(t.(regs := t.regs.(rsp := (t.regs.rsp + 0x40) % Q)), Rax, callee);
  }

  /** A tail call through an extern handler pops the frame by 0x40 bytes and
      jumps to the handler; nothing is called before the jump. */
  lemma ExternTailCallRuns(s: State, env: Env, info: FunctionInfo, callee: CallSite -> Clobber)
    requires info.fn.ExternFunction?
    ensures var r := Exec(s, IssueCall(env, info, true), callee);
      && r.exit == JumpedTo(info.fn.handler % Q) && r.s.events == s.events
      && r.s.regs.rsp == (s.regs.rsp + 0x40) % Q
  {
    IssueCallSplit(env, info, true);
    CallSetupStraight(env, info, true);
    TailJump(s, CallSetup(env, info), callee);
    ExternSetupClosedForm(s, env, info, callee);
  }

  /** A generic tail call calls the resolver, pops the frame and jumps to
      the code the resolver returned. */
  lemma GenericTailCallRuns(s: State, env: Env, info: FunctionInfo, callee: CallSite -> Clobber)
    requires !info.fn.ExternFunction?
    ensures var r := Exec(s, IssueCall(env, info, true), callee);
      var first := CallSite(env.resolveSymbol % Q, s.regs.rcx, info.handle % Q, s.regs.r8, s.xmm.x0);
      && r.exit == JumpedTo(callee(first).rax) && r.s.events == s.events + [Called(first)]
      && r.s.regs.rsp == (s.regs.rsp + 0x40) % Q
  {
    IssueCallSplit(env, info, true);
    CallSetupStraight(env, info, true);
    TailJump(s, CallSetup(env, info), callee);
    ResolveClosedForm(s, env, info, callee);
    var s2 := s.(regs := s.regs.(rdx := info.handle % Q, rax := env.resolveSymbol % Q));
    var first := CallSite(env.resolveSymbol % Q, s.regs.rcx, info.handle % Q, s.regs.r8, s.xmm.x0);
    assert CallOf(s2) == first;
    AfterCallRestores(s2, callee);
    var t := AfterCall(s2, callee);
    assert t.regs.rax == callee(first).rax && t.events == s.events + [Called(first)];
  }

  /** The indirect setup: the guest target to rdx, the resolver to rax. */
  lemma IndirectSetupClosedForm(s: State, env: Env, target: Gpr, callee: CallSite -> Clobber)
    ensures var setup := (if target != Rdx then [Mov(W64, Rdx, target)] else []) + [MovImm(W64, Rax, env.resolveAddress)];
      && Straight(setup)
      && Steps(s, setup, callee) == s.(regs := s.regs.(rdx := Get(s.regs, target), rax := env.resolveAddress % Q))
  {
    var b := MovImm(W64, Rax, env.resolveAddress);
    if target != Rdx {
      var a := Mov(W64, Rdx, target);
      assert [a] + [b] == [a, b];
      Steps2(s, a, b, callee);
      MovQword(s, Rdx, target, callee);
      MovImmQword(s.(regs := s.regs.(rdx := Get(s.regs, target))), Rax, env.resolveAddress, callee);
    } else {
      assert [] + [b] == [b];
      Steps1(s, b, callee);
      MovImmQword(s, Rax, env.resolveAddress, callee);
    }
  }

  /** A non-tail indirect call in closed form. */
  lemma IndirectCallClosedForm(s: State, env: Env, target: Gpr, callee: CallSite -> Clobber)
    ensures Straight(IssueCallIndirect(env, target, false))
    ensures Steps(s, IssueCallIndirect(env, target, false), callee)
      == AfterCall(AfterCall(s.(regs := s.regs.(rdx := Get(s.regs, target), rax := env.resolveAddress % Q)), callee), callee)
  {
    var setup := (if target != Rdx then [Mov(W64, Rdx, target)] else []) + [MovImm(W64, Rax, env.resolveAddress)];
    var call := [CallReg(Rax)] + Reload;
    assert IssueCallIndirect(env, target, false) == setup + call + call;
    IndirectSetupClosedForm(s, env, target, callee);
    CallPathsStraight(0);
    StraightAppend(setup, call);
    StraightAppend(setup + call, call);
    StepsAppend(s, setup, call, callee);
    StepsAppend(s, setup + call, call, callee);
    var s2 := s.(regs := s.regs.(rdx := Get(s.regs, target), rax := env.resolveAddress % Q));
    CallThenReloadClosedForm(s2, callee);
    CallThenReloadClosedForm(AfterCall(s2, callee), callee);
  }

  /** A non-tail indirect call: the guest target goes to the resolver in
      rdx (from wherever the allocator put it), and the resolved code is
      then called with the restored context and memory base. */
  lemma IndirectCallRuns(s: State, env: Env, target: Gpr, callee: CallSite -> Clobber)
    ensures var r := Exec(s, IssueCallIndirect(env, target, false), callee);
      var first := CallSite(env.resolveAddress % Q, s.regs.rcx, Get(s.regs, target), s.regs.r8, s.xmm.x0);
      var c := callee(first);
      && r.exit == FellThrough && Restored(r.s) && r.s.mem == s.mem && OperandsKept(s, r.s)
      && r.s.events == s.events + [Called(first), Called(CallSite(c.rax, SavedContext(s), SavedMembase(s), c.r8, s.xmm.x0))]
  {
    IndirectCallClosedForm(s, env, target, callee);
    ExecStraightAll(s, IssueCallIndirect(env, target, false), callee);
    var s2 := s.(regs := s.regs.(rdx := Get(s.regs, target), rax := env.resolveAddress % Q));
    TwoCallsRestore(s2, callee);
    SavedSlotsKept(s, s2);
  }

  /** The part of an indirect tail call before the pop: the resolver call
      with its reload, in closed form. */
  lemma IndirectTailSetup(s: State, env: Env, target: Gpr, callee: CallSite -> Clobber)
    ensures var setup := (if target != Rdx then [Mov(W64, Rdx, target)] else [])
                         + [MovImm(W64, Rax, env.resolveAddress)] + ([CallReg(Rax)] + Reload);
      && IssueCallIndirect(env, target, true) == setup + CallRax(true)
      && Straight(setup)
      && Steps(s, setup, callee) == AfterCall(s.(regs := s.regs.(rdx := Get(s.regs, target), rax := env.resolveAddress % Q)), callee)
  {
    var pre := (if target != Rdx then [Mov(W64, Rdx, target)] else []) + [MovImm(W64, Rax, env.resolveAddress)];
    var call := [CallReg(Rax)] + Reload;
    assert IssueCallIndirect(env, target, true) == pre + call + CallRax(true);
    IndirectSetupClosedForm(s, env, target, callee);
    CallPathsStraight(0);
    StraightAppend(pre, call);
    StepsAppend(s, pre, call, callee);
    CallThenReloadClosedForm(s.(regs := s.regs.(rdx := Get(s.regs, target), rax := env.resolveAddress % Q)), callee);
  }

  /** An indirect tail call in closed form: the state after the resolver
      call, with the frame popped, leaving for the resolved code. */
  lemma IndirectTailClosedForm(s: State, env: Env, target: Gpr, callee: CallSite -> Clobber)
    ensures var t := AfterCall(s.(regs := s.regs.(rdx := Get(s.regs, target), rax := env.resolveAddress % Q)), callee);
      Exec(s, IssueCallIndirect(env, target, true), callee)
        == Run(t.(regs := t.regs.(rsp := (t.regs.rsp + 0x40) % Q)), JumpedTo(t.regs.rax))
  {
    var setup := (if target != Rdx then [Mov(W64, Rdx, target)] else [])
                 + [MovImm(W64, Rax, env.resolveAddress)] + ([CallReg(Rax)] + Reload);
    IndirectTailSetup(s, env, target, callee);
    TailJump(s, setup, callee);
  }

  /** An indirect tail call resolves the guest target and jumps to the
      resolved code; the resolver is the only call made. */
  lemma IndirectTailCallRuns(s: State, env: Env, target: Gpr, callee: CallSite -> Clobber)
    ensures var first := CallSite(env.resolveAddress % Q, s.regs.rcx, Get(s.regs, target), s.regs.r8, s.xmm.x0);
      Exec(s, IssueCallIndirect(env, target, true), callee).exit == JumpedTo(callee(first).rax)
    ensures var first := CallSite(env.resolveAddress % Q, s.regs.rcx, Get(s.regs, target), s.regs.r8, s.xmm.x0);
      Exec(s, IssueCallIndirect(env, target, true), callee).s.events == s.events + [Called(first)]
  {
    IndirectTailClosedForm(s, env, target, callee);
    var s2 := s.(regs := s.regs.(rdx := Get(s.regs, target), rax := env.resolveAddress % Q));
    var first := CallSite(env.resolveAddress % Q, s.regs.rcx, Get(s.regs, target), s.regs.r8, s.xmm.x0);
    assert CallOf(s2) == first;
    TailFacts(s2, first, callee);
  }

  /** The fields of the state after a resolver call that a tail transfer
      reports. */
  lemma TailFacts(s2: State, first: CallSite, callee: CallSite -> Clobber)
    requires CallOf(s2) == first
    ensures var t := AfterCall(s2, callee);
      t.regs.rax == callee(first).rax && t.events == s2.events + [Called(first)]
  {
  }

  /** The indirect tail call pops the 0x40-byte frame. */
  lemma IndirectTailPops(s: State, env: Env, target: Gpr, callee: CallSite -> Clobber)
    ensures Exec(s, IssueCallIndirect(env, target, true), callee).s.regs.rsp == (s.regs.rsp + 0x40) % Q
  {
    IndirectTailClosedForm(s, env, target, callee);
    var s2 := s.(regs := s.regs.(rdx := Get(s.regs, target), rax := env.resolveAddress % Q));
    assert AfterCall(s2, callee).regs.rsp == s.regs.rsp;
  }
}
