/** COMPARE_xx and IS_TRUE/IS_FALSE: `cmp` (or `test`) followed by a setcc
    whose condition code the opcode selects, inverted on request of the
    comparison helper. */
module Compare {
  import opened Bits
  import opened Flags
  import opened Machine
  import opened Ir
  import opened Lowering

  /** What each comparison opcode means on w-bit operands, stated on the
      numbers themselves: equality of the bit patterns, two's-complement
      order for the signed kinds, unsigned order for the others. */
  predicate Relation(k: CmpKind, w: Width, a: nat, b: nat) {
    match k
    case Eq => Encode(w, a) == Encode(w, b)
    case Ne => Encode(w, a) != Encode(w, b)
    case Slt => Signed(w, a) < Signed(w, b)
    case Sle => Signed(w, a) <= Signed(w, b)
    case Sgt => Signed(w, a) > Signed(w, b)
    case Sge => Signed(w, a) >= Signed(w, b)
    case Ult => Encode(w, a) < Encode(w, b)
    case Ule => Encode(w, a) <= Encode(w, b)
    case Ugt => Encode(w, a) > Encode(w, b)
    case Uge => Encode(w, a) >= Encode(w, b)
  }

  predicate IsSignedKind(k: CmpKind) {
    k == Slt || k == Sle || k == Sgt || k == Sge
  }

  /** After `cmp a, b` the condition code chosen for k holds exactly when
      the relation k holds between a and b. */
  lemma CondOfMeansRelation(k: CmpKind, w: Width, a: nat, b: nat)
    ensures Holds(CondOf(k), CmpFlags(w, a, b)) <==> Relation(k, w, a, b)
  {
    CmpSigned(w, a, b);
    CmpUnsigned(w, a, b);
  }

  /** The inverted setcc of every opcode is the complementary condition
      code, so it holds exactly when the relation fails. */
  lemma InvertedIsNegation(k: CmpKind, w: Width, a: nat, b: nat)
    ensures InvertedCondOf(k) == Negate(CondOf(k))
    ensures Holds(InvertedCondOf(k), CmpFlags(w, a, b)) <==> !Relation(k, w, a, b)
  {
    CondOfMeansRelation(k, w, a, b);
  }

  /** Signed opcodes read SF/OF, unsigned ones CF, whether inverted or not;
      EQ and NE read ZF only. */
  lemma ConditionSignedness(k: CmpKind)
    ensures IsSignedCond(CondOf(k)) <==> IsSignedKind(k)
    ensures IsSignedCond(InvertedCondOf(k)) <==> IsSignedKind(k)
    ensures IsUnsignedCond(CondOf(k)) <==> (k == Ult || k == Ule || k == Ugt || k == Uge)
    ensures IsUnsignedCond(InvertedCondOf(k)) <==> IsUnsignedCond(CondOf(k))
  {
  }

  /** Single-instruction closed forms of cmp, test and setcc. */
  lemma CmpStep(s: State, w: Width, callee: CallSite -> Clobber)
    ensures Step(s, Cmp(w, Src1, R(Src2)), callee) == s.(flags := CmpFlags(w, Read(s, Src1, w), Read(s, Src2, w)))
  {
  }

  lemma TestStep(s: State, w: Width, callee: CallSite -> Clobber)
    ensures Step(s, Test(w, Src1), callee) == s.(flags := TestFlags(w, Read(s, Src1, w)))
  {
  }

  lemma SetccStep(s: State, c: Cond, callee: CallSite -> Clobber)
    ensures Step(s, Setcc(c, Dest), callee) == SetReg(s, Dest, W8, if Holds(c, s.flags) then 1 else 0)
  {
  }

  /** The state after `cmp w src1, src2; setcc c dest`. */
  lemma CmpSetccClosedForm(s: State, w: Width, c: Cond, callee: CallSite -> Clobber)
    ensures Steps(s, [Cmp(w, Src1, R(Src2)), Setcc(c, Dest)], callee)
         == SetReg(s.(flags := CmpFlags(w, Read(s, Src1, w), Read(s, Src2, w))), Dest, W8,
                   if Holds(c, CmpFlags(w, Read(s, Src1, w), Read(s, Src2, w))) then 1 else 0)
  {
    Steps2(s, Cmp(w, Src1, R(Src2)), Setcc(c, Dest), callee);
    CmpStep(s, w, callee);
    SetccStep(s.(flags := CmpFlags(w, Read(s, Src1, w), Read(s, Src2, w))), c, callee);
  }

  /** The state after `test w src1; setcc c dest`. */
  lemma TestSetccClosedForm(s: State, w: Width, c: Cond, callee: CallSite -> Clobber)
    ensures Steps(s, [Test(w, Src1), Setcc(c, Dest)], callee)
         == SetReg(s.(flags := TestFlags(w, Read(s, Src1, w))), Dest, W8,
                   if Holds(c, TestFlags(w, Read(s, Src1, w))) then 1 else 0)
  {
    Steps2(s, Test(w, Src1), Setcc(c, Dest), callee);
    TestStep(s, w, callee);
    SetccStep(s.(flags := TestFlags(w, Read(s, Src1, w))), c, callee);
  }

  /** An integer COMPARE leaves 1 in the low byte of dest when the relation
      holds (when it fails, if the helper asked for the inverted result) and
      0 otherwise; only dest and the flags change. */
  lemma CompareComputes(i: Instr, k: CmpKind, s: State, callee: CallSite -> Clobber)
    requires i.src1.Value? && IsInt(i.src1.ty)
    ensures SelectCompare(i, k).Emitted?
    ensures var w := WidthOf(i.src1.ty);
      var t := Steps(s, SelectCompare(i, k).ops, callee);
      && Read(t, Dest, W8) == (if Relation(k, w, Read(s, Src1, w), Read(s, Src2, w)) != i.alloc.invert then 1 else 0)
      && t.mem == s.mem && t.events == s.events
      && forall r :: r != Dest ==> Get(t.regs, r) == Get(s.regs, r)
  {
    var w := WidthOf(i.src1.ty);
    var c := if i.alloc.invert then InvertedCondOf(k) else CondOf(k);
    CompareOps(i, k);
    CmpSetccClosedForm(s, w, c, callee);
    var f := CmpFlags(w, Read(s, Src1, w), Read(s, Src2, w));
    var bit := if Holds(c, f) then 1 else 0;
    SetRegEffect(s.(flags := f), Dest, W8, bit);
    InvertedIsNegation(k, w, Read(s, Src1, w), Read(s, Src2, w));
  }

  /** An integer COMPARE emits cmp and the setcc of the chosen condition. */
  lemma CompareOps(i: Instr, k: CmpKind)
    requires i.src1.Value? && IsInt(i.src1.ty)
    ensures SelectCompare(i, k).Emitted?
    ensures SelectCompare(i, k).ops
      == [Cmp(WidthOf(i.src1.ty), Src1, R(Src2)), Setcc(if i.alloc.invert then InvertedCondOf(k) else CondOf(k), Dest)]
  {
  }

  /** IS_TRUE / IS_FALSE on an integer register: `test` then setnz / setz. */
  lemma IsTrueComputes(i: Instr, whenTrue: bool, s: State, callee: CallSite -> Clobber)
    requires i.src1.Value? && IsInt(i.src1.ty)
    ensures SelectIsTrue(i, whenTrue).Emitted?
    ensures var t := Steps(s, SelectIsTrue(i, whenTrue).ops, callee);
      && Read(t, Dest, W8) == (if (Read(s, Src1, WidthOf(i.src1.ty)) != 0) == whenTrue then 1 else 0)
      && t.mem == s.mem && t.events == s.events
      && forall r :: r != Dest ==> Get(t.regs, r) == Get(s.regs, r)
  {
    var w := WidthOf(i.src1.ty);
    var c := if whenTrue then NE else E;
    assert SelectIsTrue(i, whenTrue).ops == [Test(w, Src1), Setcc(c, Dest)];
    TestSetccClosedForm(s, w, c, callee);
    var f := TestFlags(w, Read(s, Src1, w));
    SetRegEffect(s.(flags := f), Dest, W8, if Holds(c, f) then 1 else 0);
  }
}
