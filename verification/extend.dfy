/** ZERO_EXTEND, SIGN_EXTEND and TRUNCATE: which type pairs are lowered,
    and what the single emitted move leaves in the destination. */
module Extend {
  import opened Bits
  import opened Flags
  import opened Machine
  import opened Ir
  import opened Lowering

  /** A non-constant integer operand. */
  predicate IntReg(o: Operand) {
    o.Value? && o.k.NotConst? && IsInt(o.ty)
  }

  /** dest and src1 are integer registers and dest is the wider one. */
  predicate Widening(i: Instr) {
    IntReg(i.dest) && IntReg(i.src1) && Narrower(WidthOf(i.src1.ty), WidthOf(i.dest.ty))
  }

  /** dest and src1 are integer registers and dest is the narrower one. */
  predicate Narrowing(i: Instr) {
    IntReg(i.dest) && IntReg(i.src1) && Narrower(WidthOf(i.dest.ty), WidthOf(i.src1.ty))
  }

  /** The source operand's value at its own width, before the sequence. */
  function SourceValue(s: State, i: Instr): nat
    requires IntReg(i.src1)
  {
    Read(s, S1(i), WidthOf(i.src1.ty))
  }

  /** The six widening pairs are lowered, every other signature is reported
      as unimplemented. */
  lemma ZeroExtendCoverage(i: Instr)
    ensures SelectZeroExtend(i).Emitted? <==> Widening(i)
    ensures !SelectZeroExtend(i).Emitted? ==> SelectZeroExtend(i).Unimplemented?
  {
  }

  lemma SignExtendCoverage(i: Instr)
    ensures SelectSignExtend(i).Emitted? <==> Widening(i)
    ensures !SelectSignExtend(i).Emitted? ==> SelectSignExtend(i).Unimplemented?
  {
  }

  lemma TruncateCoverage(i: Instr)
    ensures SelectTruncate(i).Emitted? <==> Narrowing(i)
    ensures !SelectTruncate(i).Emitted? ==> SelectTruncate(i).Unimplemented?
  {
  }

  /** The one instruction each conversion emits, as a function of the two
      widths. */
  lemma OneMove(s: State, op: Op, callee: CallSite -> Clobber)
    requires op.Mov? || op.Movzx? || op.Movsx?
    ensures Steps(s, [op], callee) == Step(s, op, callee)
    ensures op.Mov? ==> Step(s, op, callee) == SetReg(s, op.dst, op.w, Read(s, op.src, op.w))
    ensures op.Movzx? ==> Step(s, op, callee) == SetReg(s, op.dst, op.wd, Read(s, op.src, op.ws))
    ensures op.Movsx? ==> Step(s, op, callee) == SetReg(s, op.dst, op.wd, SignExtended(op.ws, op.wd, Read(s, op.src, op.ws)))
  {
    Steps1(s, op, callee);
  }

  /** A value that fits the narrower width is unchanged by the wider
      modulus. */
  lemma FitsWider(v: nat, a: Width, b: Width)
    requires v < Modulus(a) && Narrower(a, b)
    ensures v % Modulus(b) == v
  {
    var k := WidthRatio(a, b);
    MulMonotone(k, Modulus(a));
  }

  /** `mov r32, r32` zero-extends into the full register. */
  lemma Mov32Zeroes(s: State, r: Gpr)
    ensures Read(SetReg(s, Dest, W32, Read(s, r, W32)), Dest, W64) == Read(s, r, W32)
  {
  }

  /** ZERO_EXTEND leaves the source's unsigned value in the destination,
      read at the destination width, and changes no other register. */
  lemma ZeroExtendComputes(i: Instr, s: State, callee: CallSite -> Clobber)
    requires Widening(i)
    ensures SelectZeroExtend(i).Emitted?
    ensures var t := Steps(s, SelectZeroExtend(i).ops, callee);
      && Read(t, Dest, WidthOf(i.dest.ty)) == SourceValue(s, i)
      && OnlyRegChanged(s, t, Dest)
  {
    ZeroExtendCoverage(i);
    var op := SelectZeroExtend(i).ops[0];
    assert SelectZeroExtend(i).ops == [op];
    OneMove(s, op, callee);
    var dw, sw := WidthOf(i.dest.ty), WidthOf(i.src1.ty);
    var v := SourceValue(s, i);
    if op.Mov? {
      assert dw == W64 && sw == W32;
      SetRegEffect(s, Dest, W32, v);
      Mov32Zeroes(s, S1(i));
    } else {
      assert op == Movzx(dw, sw, Dest, S1(i));
      SetRegEffect(s, Dest, dw, v);
      FitsWider(v, sw, dw);
    }
  }

  /** SIGN_EXTEND leaves the source's two's-complement value, re-encoded at
      the destination width, and changes no other register. */
  lemma SignExtendComputes(i: Instr, s: State, callee: CallSite -> Clobber)
    requires Widening(i)
    ensures SelectSignExtend(i).Emitted?
    ensures var t := Steps(s, SelectSignExtend(i).ops, callee);
      && Read(t, Dest, WidthOf(i.dest.ty)) == SignExtended(WidthOf(i.src1.ty), WidthOf(i.dest.ty), SourceValue(s, i))
      && Signed(WidthOf(i.dest.ty), Read(t, Dest, WidthOf(i.dest.ty))) == Signed(WidthOf(i.src1.ty), SourceValue(s, i))
      && OnlyRegChanged(s, t, Dest)
  {
    SignExtendCoverage(i);
    var op := SelectSignExtend(i).ops[0];
    assert SelectSignExtend(i).ops == [op];
    var dw, sw := WidthOf(i.dest.ty), WidthOf(i.src1.ty);
    assert op == Movsx(dw, sw, Dest, S1(i));
    OneMove(s, op, callee);
    var x := SignExtended(sw, dw, SourceValue(s, i));
    SetRegEffect(s, Dest, dw, x);
    SignExtendKeepsValue(sw, dw, SourceValue(s, i));
  }

  /** TRUNCATE leaves the low destination-width bits of the source and
      changes no other register. */
  lemma TruncateComputes(i: Instr, s: State, callee: CallSite -> Clobber)
    requires Narrowing(i)
    ensures SelectTruncate(i).Emitted?
    ensures var t := Steps(s, SelectTruncate(i).ops, callee);
      && Read(t, Dest, WidthOf(i.dest.ty)) == SourceValue(s, i) % Modulus(WidthOf(i.dest.ty))
      && OnlyRegChanged(s, t, Dest)
  {
    TruncateCoverage(i);
    var op := SelectTruncate(i).ops[0];
    assert SelectTruncate(i).ops == [op];
    var dw, sw := WidthOf(i.dest.ty), WidthOf(i.src1.ty);
    assert op == Mov(dw, Dest, S1(i));
    OneMove(s, op, callee);
    var v := Read(s, S1(i), dw);
    SetRegEffect(s, Dest, dw, v);
    NarrowOfWide(Get(s.regs, S1(i)), dw, sw);
  }

  /** Reducing modulo the wider width first does not change the low bits. */
  lemma NarrowOfWide(x: nat, a: Width, b: Width)
    requires Narrower(a, b)
    ensures (x % Modulus(b)) % Modulus(a) == x % Modulus(a)
  {
    var k := WidthRatio(a, b);
    var m := Modulus(a);
    DivModUnique(x, k * m, x / (k * m), x % (k * m));
    assert x == (x / (k * m) * k) * m + x % (k * m);
    DivModUnique(x, m, (x / (k * m) * k) + (x % (k * m)) / m, (x % (k * m)) % m);
  }

  /** An instruction that narrows the value a widening left in dest back to
      the widening's source type, reading dest itself. */
  predicate UndoesWidening(i: Instr, j: Instr) {
    Widening(i) && Narrowing(j) && j.alloc.destIsSrc1
      && j.dest.ty == i.src1.ty && j.src1.ty == i.dest.ty
  }

  /** Zero-extending and then truncating back to the original type gives
      the original value. */
  lemma ZeroExtendThenTruncate(i: Instr, j: Instr, s: State, callee: CallSite -> Clobber)
    requires UndoesWidening(i, j)
    ensures SelectZeroExtend(i).Emitted? && SelectTruncate(j).Emitted?
    ensures var t := Steps(Steps(s, SelectZeroExtend(i).ops, callee), SelectTruncate(j).ops, callee);
      Read(t, Dest, WidthOf(i.src1.ty)) == SourceValue(s, i)
  {
    ZeroExtendComputes(i, s, callee);
    var u := Steps(s, SelectZeroExtend(i).ops, callee);
    TruncateComputes(j, u, callee);
    var v := SourceValue(s, i);
    TruncSmall(WidthOf(i.src1.ty), v);
    BackToSource(i, j, u, Steps(u, SelectTruncate(j).ops, callee), v, v);
  }

  /** A value below the modulus is its own truncation. */
  lemma TruncSmall(w: Width, v: nat)
    requires v < Modulus(w)
    ensures Encode(w, v) == v
  {
  }

  /** The value bookkeeping of the two round trips: dest holds a value of
      the source width after the widening, and narrowing keeps it. */
  lemma BackToSource(i: Instr, j: Instr, u: State, t: State, x: nat, v: nat)
    requires UndoesWidening(i, j)
    requires Read(u, Dest, WidthOf(i.dest.ty)) == x && Encode(WidthOf(i.src1.ty), x) == v
    requires Read(t, Dest, WidthOf(j.dest.ty)) == SourceValue(u, j) % Modulus(WidthOf(j.dest.ty))
    ensures Read(t, Dest, WidthOf(i.src1.ty)) == v
  {
  }

  /** Sign-extending and then truncating back gives the original value. */
  lemma SignExtendThenTruncateBack(i: Instr, j: Instr, s: State, callee: CallSite -> Clobber)
    requires UndoesWidening(i, j)
    ensures SelectSignExtend(i).Emitted? && SelectTruncate(j).Emitted?
    ensures var t := Steps(Steps(s, SelectSignExtend(i).ops, callee), SelectTruncate(j).ops, callee);
      Read(t, Dest, WidthOf(i.src1.ty)) == SourceValue(s, i)
  {
    SignExtendComputes(i, s, callee);
    var u := Steps(s, SelectSignExtend(i).ops, callee);
    TruncateComputes(j, u, callee);
    var sw, dw := WidthOf(i.src1.ty), WidthOf(i.dest.ty);
    var v := SourceValue(s, i);
    SignExtendThenTruncate(sw, dw, v);
    TruncSmall(sw, v);
    BackToSource(i, j, u, Steps(u, SelectTruncate(j).ops, callee), SignExtended(sw, dw, v), v);
  }
}
