/** Returns, branches and conditional calls: where control goes after the
    code the lowering table emits for them, and where in a function body
    RETURN may fall through into the epilogue. */
module Control {
  import opened Bits
  import opened Flags
  import opened Machine
  import opened Ir
  import opened Lowering
  import Calls

  // ------------------------------------------------------------------
  // RETURN and the position of an instruction
  // ------------------------------------------------------------------

  /** RETURN leaves for the epilogue by a jump when anything follows it, and
      falls through (into the epilogue, which follows the last block)
      otherwise. */
  lemma ReturnExits(pos: Position, s: State, callee: CallSite -> Clobber)
    ensures SelectReturn(pos).Emitted?
    ensures Exec(s, SelectReturn(pos).ops, callee)
      == Run(s, if pos.hasNext || pos.blockHasNext then Jumped(Epilog) else FellThrough)
  {
  }

  /** The position instruction j of block b is lowered at: whether another
      instruction follows in its block, and whether another block follows. */
  function PositionAt(blocks: seq<seq<Instr>>, b: nat, j: nat): Position
    requires b < |blocks| && j < |blocks[b]|
  {
    Position(j + 1 < |blocks[b]|, b + 1 < |blocks|)
  }

  /** A block lowers exactly when each of its instructions lowers at its
      own position. */
  lemma {:induction false} LowerBlockEmittedIff(env: Env, instrs: seq<Instr>, blockHasNext: bool)
    ensures LowerBlock(env, instrs, blockHasNext).Emitted?
      <==> forall j :: 0 <= j < |instrs| ==> Select(env, instrs[j], Position(j + 1 < |instrs|, blockHasNext)).Emitted?
    decreases |instrs|
  {
    if |instrs| > 0 {
      var rest := instrs[1..];
      LowerBlockEmittedIff(env, rest, blockHasNext);
      forall j | 1 <= j < |instrs|
        ensures Select(env, instrs[j], Position(j + 1 < |instrs|, blockHasNext))
             == Select(env, rest[j - 1], Position(j - 1 + 1 < |rest|, blockHasNext))
      {
        assert instrs[j] == rest[j - 1];
      }
      if LowerBlock(env, instrs, blockHasNext).Emitted? {
        forall j | 0 <= j < |instrs|
          ensures Select(env, instrs[j], Position(j + 1 < |instrs|, blockHasNext)).Emitted?
        {
          if j > 0 {
            assert Select(env, rest[j - 1], Position(j - 1 + 1 < |rest|, blockHasNext)).Emitted?;
          }
        }
      }
      if forall j :: 0 <= j < |instrs| ==> Select(env, instrs[j], Position(j + 1 < |instrs|, blockHasNext)).Emitted? {
        forall k | 0 <= k < |rest|
          ensures Select(env, rest[k], Position(k + 1 < |rest|, blockHasNext)).Emitted?
        {
          assert Select(env, instrs[k + 1], Position(k + 1 + 1 < |instrs|, blockHasNext)).Emitted?;
        }
      }
    }
  }

  /** A function body lowers exactly when every instruction of every block
      lowers at its position: the first failure anywhere is the outcome. */
  lemma {:induction false} LowerFunctionEmittedIff(env: Env, blocks: seq<seq<Instr>>)
    ensures LowerFunction(env, blocks).Emitted?
      <==> forall b, j :: 0 <= b < |blocks| && 0 <= j < |blocks[b]|
             ==> Select(env, blocks[b][j], PositionAt(blocks, b, j)).Emitted?
    decreases |blocks|
  {
    if |blocks| > 0 {
      var rest := blocks[1..];
      LowerFunctionEmittedIff(env, rest);
      LowerBlockEmittedIff(env, blocks[0], |blocks| > 1);
      forall b, j | 1 <= b < |blocks| && 0 <= j < |blocks[b]|
        ensures Select(env, blocks[b][j], PositionAt(blocks, b, j))
             == Select(env, rest[b - 1][j], PositionAt(rest, b - 1, j))
      {
        assert blocks[b] == rest[b - 1];
      }
      forall j | 0 <= j < |blocks[0]|
        ensures Select(env, blocks[0][j], PositionAt(blocks, 0, j))
             == Select(env, blocks[0][j], Position(j + 1 < |blocks[0]|, |blocks| > 1))
      {
      }
      if LowerFunction(env, blocks).Emitted? {
        forall b, j | 0 <= b < |blocks| && 0 <= j < |blocks[b]|
          ensures Select(env, blocks[b][j], PositionAt(blocks, b, j)).Emitted?
        {
          if b > 0 {
            assert Select(env, rest[b - 1][j], PositionAt(rest, b - 1, j)).Emitted?;
          }
        }
      }
      if forall b, j :: 0 <= b < |blocks| && 0 <= j < |blocks[b]|
           ==> Select(env, blocks[b][j], PositionAt(blocks, b, j)).Emitted? {
        forall c, j | 0 <= c < |rest| && 0 <= j < |rest[c]|
          ensures Select(env, rest[c][j], PositionAt(rest, c, j)).Emitted?
        {
          assert Select(env, blocks[c + 1][j], PositionAt(blocks, c + 1, j)).Emitted?;
        }
      }
    }
  }

  /** Only the last instruction of the last block is lowered without a
      successor, so a RETURN falls through exactly there and jumps to the
      epilogue everywhere else. */
  lemma ReturnFallsThroughOnlyAtEnd(blocks: seq<seq<Instr>>, b: nat, j: nat, s: State, callee: CallSite -> Clobber)
    requires b < |blocks| && j < |blocks[b]|
    ensures Exec(s, SelectReturn(PositionAt(blocks, b, j)).ops, callee).exit == FellThrough
      <==> b == |blocks| - 1 && j == |blocks[b]| - 1
    ensures Exec(s, SelectReturn(PositionAt(blocks, b, j)).ops, callee).exit == Jumped(Epilog)
      <==> !(b == |blocks| - 1 && j == |blocks[b]| - 1)
  {
    ReturnExits(PositionAt(blocks, b, j), s, callee);
  }

  // ------------------------------------------------------------------
  // Tests, conditional jumps and skips
  // ------------------------------------------------------------------

  /** `test r, r` on an integer value sets ZF exactly when the value is
      zero. */
  lemma CheckBooleanStep(t: Type, s: State, r: Gpr, callee: CallSite -> Clobber)
    requires IsInt(t)
    ensures CheckBoolean(Value(t, NotConst), r) == [Test(WidthOf(t), r)]
    ensures var u := Step(s, Test(WidthOf(t), r), callee);
      u == s.(flags := u.flags) && (u.flags.zf <==> Read(s, r, WidthOf(t)) == 0)
  {
  }

  /** RETURN_TRUE leaves for the epilogue exactly when its value is
      nonzero. */
  lemma ReturnTrueExits(i: Instr, t: Type, s: State, callee: CallSite -> Clobber)
    requires i.src1 == Value(t, NotConst) && IsInt(t)
    ensures SelectReturnTrue(i).Emitted?
    ensures var r := Exec(s, SelectReturnTrue(i).ops, callee);
      r.s.regs == s.regs && r.s.mem == s.mem && r.s.events == s.events
      && r.exit == (if Read(s, Src1, WidthOf(t)) != 0 then Jumped(Epilog) else FellThrough)
  {
    var w := WidthOf(t);
    CheckBooleanStep(t, s, Src1, callee);
    var u := Step(s, Test(w, Src1), callee);
    assert SelectReturnTrue(i).ops == [Test(w, Src1), Jcc(NE, Epilog)];
    assert [Test(w, Src1), Jcc(NE, Epilog)][1..] == [Jcc(NE, Epilog)];
    assert Exec(s, SelectReturnTrue(i).ops, callee) == Exec(u, [Jcc(NE, Epilog)], callee);
    ExecJccLast(u, NE, Epilog, callee);
  }

  /** A conditional jump that ends the code leaves when its condition
      holds and falls through otherwise. */
  lemma ExecJccLast(u: State, c: Cond, l: Label, callee: CallSite -> Clobber)
    requires l != Skip
    ensures Exec(u, [Jcc(c, l)], callee) == Run(u, if Holds(c, u.flags) then Jumped(l) else FellThrough)
  {
    assert [Jcc(c, l)][1..] == [];
  }

  /** BRANCH always jumps to its label, wherever it stands in the body and
      whatever the state; a label operand is its only accepted form. */
  lemma BranchExits(i: Instr, s: State, callee: CallSite -> Clobber)
    ensures SelectBranch(i).Emitted? <==> i.src1.LabelRef?
    ensures !SelectBranch(i).Emitted? ==> SelectBranch(i).InvalidType?
    ensures i.src1.LabelRef? ==>
      Exec(s, SelectBranch(i).ops, callee) == Run(s, Jumped(Block(i.src1.name)))
  {
    if i.src1.LabelRef? {
      assert SelectBranch(i).ops == [Jmp(Block(i.src1.name))];
    }
  }

  /** BRANCH_TRUE jumps to its label exactly when the value is nonzero,
      BRANCH_FALSE exactly when it is zero; otherwise both fall through. */
  lemma BranchIfExits(i: Instr, whenTrue: bool, t: Type, name: string, s: State, callee: CallSite -> Clobber)
    requires i.src1 == Value(t, NotConst) && IsInt(t) && i.src2 == LabelRef(name)
    ensures SelectBranchIf(i, whenTrue).Emitted?
    ensures var r := Exec(s, SelectBranchIf(i, whenTrue).ops, callee);
      r.s.regs == s.regs && r.s.events == s.events
      && r.exit == (if (Read(s, Src1, WidthOf(t)) != 0) == whenTrue then Jumped(Block(name)) else FellThrough)
  {
    var w := WidthOf(t);
    var c := if whenTrue then NE else E;
    CheckBooleanStep(t, s, Src1, callee);
    var u := Step(s, Test(w, Src1), callee);
    assert SelectBranchIf(i, whenTrue).ops == [Test(w, Src1), Jcc(c, Block(name))];
    assert [Test(w, Src1), Jcc(c, Block(name))][1..] == [Jcc(c, Block(name))];
    assert Exec(s, SelectBranchIf(i, whenTrue).ops, callee) == Exec(u, [Jcc(c, Block(name))], callee);
    ExecJccLast(u, c, Block(name), callee);
    assert Holds(c, u.flags) <==> (Read(s, Src1, w) != 0) == whenTrue;
  }

  /** The local label closing a skipped body is the first one after the
      jump when the body has none of its own. */
  lemma {:induction false} AfterBodyLabel(body: seq<Op>)
    requires forall k :: 0 <= k < |body| ==> !body[k].LocalLabel?
    ensures AfterLabel(body + [LocalLabel]) == []
    decreases |body|
  {
    if |body| == 0 {
      assert body + [LocalLabel] == [LocalLabel];
    } else {
      assert (body + [LocalLabel])[1..] == body[1..] + [LocalLabel];
      AfterBodyLabel(body[1..]);
    }
  }

  /** A step that is not control flow is executed and the run goes on. */
  lemma ExecFirst(s: State, op: Op, rest: seq<Op>, callee: CallSite -> Clobber)
    requires !IsControl(op)
    ensures Exec(s, [op] + rest, callee) == Exec(Step(s, op, callee), rest, callee)
  {
    assert ([op] + rest)[0] == op && ([op] + rest)[1..] == rest;
  }

  /** `jz .x` over a body without labels: taken, it resumes after the
      label that closes the body, which is the end. */
  lemma SkipOverBody(u: State, body: seq<Op>, callee: CallSite -> Clobber)
    requires forall k :: 0 <= k < |body| ==> !body[k].LocalLabel?
    ensures Exec(u, [Jcc(E, Skip)] + (body + [LocalLabel]), callee)
      == if u.flags.zf then Run(u, FellThrough) else Exec(u, body + [LocalLabel], callee)
  {
    var rest := body + [LocalLabel];
    assert ([Jcc(E, Skip)] + rest)[0] == Jcc(E, Skip) && ([Jcc(E, Skip)] + rest)[1..] == rest;
    AfterBodyLabel(body);
  }

  /** A straight body followed by the closing label runs to its end. */
  lemma StraightThenLabel(v: State, body: seq<Op>, callee: CallSite -> Clobber)
    requires Straight(body)
    ensures Exec(v, body + [LocalLabel], callee) == Run(Steps(v, body, callee), FellThrough)
  {
    ExecStraight(v, body, [LocalLabel], callee);
    var t := Steps(v, body, callee);
    ExecFirst(t, LocalLabel, [], callee);
    assert [LocalLabel] + [] == [LocalLabel];
  }

  /** `test r, r` in closed form. */
  lemma TestStepOn(s: State, w: Width, r: Gpr, callee: CallSite -> Clobber)
    ensures Step(s, Test(w, r), callee) == s.(flags := TestFlags(w, Read(s, r, w)))
  {
  }

  /** `test r, r` and the ops after it. */
  lemma ExecAfterTest(s: State, w: Width, r: Gpr, rest: seq<Op>, callee: CallSite -> Clobber)
    ensures Exec(s, [Test(w, r)] + rest, callee) == Exec(s.(flags := TestFlags(w, Read(s, r, w))), rest, callee)
  {
    TestStepOn(s, w, r, callee);
    ExecFirst(s, Test(w, r), rest, callee);
  }

  /** The emitted skip around a body, split after the test. */
  lemma WhenTrueSplit(w: Width, r: Gpr, body: seq<Op>)
    ensures WhenTrue([Test(w, r)], body) == [Test(w, r)] + ([Jcc(E, Skip)] + (body + [LocalLabel]))
  {
  }

  /** A straight body behind `test r, r; jz .x` runs exactly when the
      tested value is nonzero; on zero nothing but the flags changes. */
  lemma WhenTrueRuns(w: Width, r: Gpr, body: seq<Op>, s: State, callee: CallSite -> Clobber)
    requires Straight(body)
    requires forall k :: 0 <= k < |body| ==> !body[k].LocalLabel?
    ensures var u := s.(flags := TestFlags(w, Read(s, r, w)));
      Exec(s, WhenTrue([Test(w, r)], body), callee)
        == Run(if Read(s, r, w) == 0 then u else Steps(u, body, callee), FellThrough)
  {
    var u := s.(flags := TestFlags(w, Read(s, r, w)));
    var rest := [Jcc(E, Skip)] + (body + [LocalLabel]);
    WhenTrueSplit(w, r, body);
    ExecAfterTest(s, w, r, rest, callee);
    SkipOverBody(u, body, callee);
    ReadFits(s, r, w);
    assert u.flags.zf <==> Read(s, r, w) == 0;
    if Read(s, r, w) != 0 {
      StraightThenLabel(u, body, callee);
    }
  }

  /** CALL_TRUE on an integer value: when it is zero nothing is called and
      nothing but the flags changes; otherwise the call runs as CALL would
      (and so restores the context and membase registers afterwards). */
  lemma CallTrueRuns(env: Env, i: Instr, t: Type, s: State, callee: CallSite -> Clobber)
    requires i.src1 == Value(t, NotConst) && IsInt(t) && i.src2.Symbol? && !i.isTail
    ensures SelectCallTrue(env, i).Emitted?
    ensures var w := WidthOf(t);
      var u := s.(flags := TestFlags(w, Read(s, Src1, w)));
      Exec(s, SelectCallTrue(env, i).ops, callee)
        == Run(if Read(s, Src1, w) == 0 then u else Steps(u, IssueCall(env, i.src2.info, false), callee), FellThrough)
  {
    var body := IssueCall(env, i.src2.info, false);
    Calls.IssueCallSplit(env, i.src2.info, false);
    Calls.CallSetupStraight(env, i.src2.info, false);
    Calls.CallPathsStraight(0);
    StraightAppend(Calls.CallSetup(env, i.src2.info), CallRax(false));
    NoLabelInCalls(env, i.src2.info, false);
    CheckBooleanStep(t, s, Src1, callee);
    WhenTrueRuns(WidthOf(t), Src1, body, s, callee);
  }

  /** CALL_INDIRECT_TRUE on an integer value: on zero nothing is called;
      otherwise the indirect call runs as CALL_INDIRECT would, with the
      target from src2 (or rdx, where the allocator placed it). */
  lemma CallIndirectTrueRuns(env: Env, i: Instr, t: Type, s: State, callee: CallSite -> Clobber)
    requires i.src1 == Value(t, NotConst) && IsInt(t) && !i.isTail
    ensures SelectCallIndirectTrue(env, i).Emitted?
    ensures var w := WidthOf(t);
      var u := s.(flags := TestFlags(w, Read(s, Src1, w)));
      var target := if i.alloc.targetInRdx then Rdx else Src2;
      Exec(s, SelectCallIndirectTrue(env, i).ops, callee)
        == Run(if Read(s, Src1, w) == 0 then u else Steps(u, IssueCallIndirect(env, target, false), callee), FellThrough)
  {
    var target := if i.alloc.targetInRdx then Rdx else Src2;
    Calls.IndirectCallClosedForm(s, env, target, callee);
    NoLabelInIndirectCalls(env, target, false);
    CheckBooleanStep(t, s, Src1, callee);
    WhenTrueRuns(WidthOf(t), Src1, IssueCallIndirect(env, target, false), s, callee);
  }

  /** The indirect call paths hold no local label. */
  lemma NoLabelInIndirectCalls(env: Env, target: Gpr, tail: bool)
    ensures forall k :: 0 <= k < |IssueCallIndirect(env, target, tail)| ==> !IssueCallIndirect(env, target, tail)[k].LocalLabel?
  {
  }

  /** The direct call paths hold no local label. */
  lemma NoLabelInCalls(env: Env, info: FunctionInfo, tail: bool)
    ensures forall k :: 0 <= k < |IssueCall(env, info, tail)| ==> !IssueCall(env, info, tail)[k].LocalLabel?
  {
  }

  // ------------------------------------------------------------------
  // Conditional tail calls
  // ------------------------------------------------------------------

  /** A tail transfer leaves by `jmp rax` before it reaches the label that
      closes a skipped body, so that label changes nothing. */
  lemma TailThenLabel(v: State, setup: seq<Op>, callee: CallSite -> Clobber)
    requires Straight(setup)
    ensures Exec(v, setup + CallRax(true) + [LocalLabel], callee) == Exec(v, setup + CallRax(true), callee)
  {
    var add := AddImm(W64, Rsp, 0x40);
    assert setup + CallRax(true) + [LocalLabel] == (setup + [add]) + [JmpReg(Rax), LocalLabel];
    assert setup + CallRax(true) == (setup + [add]) + [JmpReg(Rax)];
    assert Straight([add]);
    StraightAppend(setup, [add]);
    ExecStraight(v, setup + [add], [JmpReg(Rax), LocalLabel], callee);
    ExecStraight(v, setup + [add], [JmpReg(Rax)], callee);
  }

  /** A tail transfer behind `test r, r; jz .x` is taken exactly when the
      tested value is nonzero; on zero the run falls through with only the
      flags changed. */
  lemma WhenTrueTail(w: Width, r: Gpr, setup: seq<Op>, s: State, callee: CallSite -> Clobber)
    requires Straight(setup)
    requires forall k :: 0 <= k < |setup + CallRax(true)| ==> !(setup + CallRax(true))[k].LocalLabel?
    ensures var u := s.(flags := TestFlags(w, Read(s, r, w)));
      Exec(s, WhenTrue([Test(w, r)], setup + CallRax(true)), callee)
        == if Read(s, r, w) == 0 then Run(u, FellThrough) else Exec(u, setup + CallRax(true), callee)
  {
    var body := setup + CallRax(true);
    var u := s.(flags := TestFlags(w, Read(s, r, w)));
    var rest := [Jcc(E, Skip)] + (body + [LocalLabel]);
    WhenTrueSplit(w, r, body);
    ExecAfterTest(s, w, r, rest, callee);
    SkipOverBody(u, body, callee);
    ReadFits(s, r, w);
    assert u.flags.zf <==> Read(s, r, w) == 0;
    if Read(s, r, w) != 0 {
      TailThenLabel(u, setup, callee);
    }
  }

  /** CALL_TRUE with the tail flag: on zero nothing is called and the run
      falls through; otherwise the tail call runs as a tail CALL would and
      leaves the function by its jump. */
  lemma CallTrueTailRuns(env: Env, i: Instr, t: Type, s: State, callee: CallSite -> Clobber)
    requires i.src1 == Value(t, NotConst) && IsInt(t) && i.src2.Symbol? && i.isTail
    ensures SelectCallTrue(env, i).Emitted?
    ensures var w := WidthOf(t);
      var u := s.(flags := TestFlags(w, Read(s, Src1, w)));
      Exec(s, SelectCallTrue(env, i).ops, callee)
        == if Read(s, Src1, w) == 0 then Run(u, FellThrough) else Exec(u, IssueCall(env, i.src2.info, true), callee)
  {
    var info := i.src2.info;
    Calls.IssueCallSplit(env, info, true);
    Calls.CallSetupStraight(env, info, true);
    NoLabelInCalls(env, info, true);
    CheckBooleanStep(t, s, Src1, callee);
    WhenTrueTail(WidthOf(t), Src1, Calls.CallSetup(env, info), s, callee);
  }

  /** CALL_INDIRECT_TRUE with the tail flag: on zero nothing is called;
      otherwise the indirect tail call runs and leaves by its jump. */
  lemma CallIndirectTrueTailRuns(env: Env, i: Instr, t: Type, s: State, callee: CallSite -> Clobber)
    requires i.src1 == Value(t, NotConst) && IsInt(t) && i.isTail
    ensures SelectCallIndirectTrue(env, i).Emitted?
    ensures var w := WidthOf(t);
      var u := s.(flags := TestFlags(w, Read(s, Src1, w)));
      var target := if i.alloc.targetInRdx then Rdx else Src2;
      Exec(s, SelectCallIndirectTrue(env, i).ops, callee)
        == if Read(s, Src1, w) == 0 then Run(u, FellThrough) else Exec(u, IssueCallIndirect(env, target, true), callee)
  {
    var target := if i.alloc.targetInRdx then Rdx else Src2;
    var setup := (if target != Rdx then [Mov(W64, Rdx, target)] else [])
                 + [MovImm(W64, Rax, env.resolveAddress)] + ([CallReg(Rax)] + Reload);
    Calls.IndirectTailSetup(s, env, target, callee);
    NoLabelInIndirectCalls(env, target, true);
    CheckBooleanStep(t, s, Src1, callee);
    WhenTrueTail(WidthOf(t), Src1, setup, s, callee);
  }
}
