/** CNTLZ: `bsr` into dest, a `cmovz` of a constant when the source is
    zero, then an xor with w - 1 turning the highest-bit index into a count
    of leading zeros (the 8-bit form subtracts 8 first). */
module Cntlz {
  import opened Bits
  import opened Flags
  import opened Machine
  import opened Ir
  import opened Lowering
  import Extend

  /** The source type's width, for the four integer types CNTLZ lowers. */
  predicate CountsInt(i: Instr) {
    i.src1.Value? && IsInt(i.src1.ty) && Match2(i, SigIgnore, SigReg(i.src1.ty))
  }

  /** Only a register source of an integer type is lowered; a constant or
      another type is reported as unimplemented. */
  lemma CntlzCoverage(i: Instr)
    ensures SelectCntlz(i).Emitted? <==> CountsInt(i)
    ensures !SelectCntlz(i).Emitted? ==> SelectCntlz(i).Unimplemented?
  {
  }

  // ------------------------------------------------------------------
  // Single-instruction closed forms
  // ------------------------------------------------------------------

  lemma BsrStep(s: State, wd: Width, ws: Width, r: Gpr, callee: CallSite -> Clobber)
    ensures Read(s, r, ws) == 0 ==>
      Step(s, Bsr(wd, ws, Dest, r), callee) == s.(flags := s.flags.(zf := true))
    ensures Read(s, r, ws) != 0 ==>
      Step(s, Bsr(wd, ws, Dest, r), callee) == SetReg(s, Dest, wd, HighBit(Read(s, r, ws))).(flags := s.flags.(zf := false))
  {
  }

  lemma CmovzStep(s: State, callee: CallSite -> Clobber)
    ensures Step(s, Cmovz(W32, Dest, Rax), callee)
         == SetReg(s, Dest, W32, if s.flags.zf then Read(s, Rax, W32) else Read(s, Dest, W32))
  {
  }

  lemma XorImmStep(s: State, m: nat, callee: CallSite -> Clobber)
    ensures Step(s, XorImm(W8, Dest, m), callee) == SetReg(s, Dest, W8, Xor(Read(s, Dest, W8), m % 0x100))
  {
  }

  lemma SubImmStep(s: State, n: nat, callee: CallSite -> Clobber)
    ensures Step(s, SubImm(W8, Dest, n), callee) == SetReg(s, Dest, W8, Read(s, Dest, W8) + 0x100 - n % 0x100)
  {
  }

  // ------------------------------------------------------------------
  // The bsr / mov / cmovz prefix
  // ------------------------------------------------------------------

  /** Writing a value below 256 into any view leaves it in the low byte. */
  lemma LowByteAfterWrite(s: State, w: Width, h: nat)
    requires h < 0x100
    ensures Read(SetReg(s, Dest, w, h), Dest, W8) == h
  {
    SetRegEffect(s, Dest, w, h);
    if w != W8 {
      Extend.NarrowOfWide(Get(SetReg(s, Dest, w, h).regs, Dest), W8, w);
    }
  }

  /** A 32-bit write of dest's own 32-bit view keeps its low byte. */
  lemma LowByteKept(s: State)
    ensures Read(SetReg(s, Dest, W32, Read(s, Dest, W32)), Dest, W8) == Read(s, Dest, W8)
  {
    var x := Read(s, Dest, W32);
    SetRegEffect(s, Dest, W32, x);
    Extend.NarrowOfWide(Get(SetReg(s, Dest, W32, x).regs, Dest), W8, W32);
    Extend.NarrowOfWide(Get(s.regs, Dest), W8, W32);
  }

  /** The index bsr reports for a nonzero w-bit value is below w. */
  lemma HighBitOfView(w: Width, v: nat)
    requires 0 < v < Modulus(w)
    ensures HighBit(v) < BitCount(w) <= 64
  {
    ModulusIsPow2(w);
    HighBitBelow(v, BitCount(w));
  }

  /** After `bsr d, src; mov eax, c; cmovz d, eax` the low byte of dest is
      c for a zero source and the index of the source's highest set bit
      otherwise. */
  lemma PickIndex(s: State, wd: Width, ws: Width, r: Gpr, c: nat, callee: CallSite -> Clobber)
    requires c < 0x100
    ensures var u := Steps(s, [Bsr(wd, ws, Dest, r), MovImm(W32, Rax, c), Cmovz(W32, Dest, Rax)], callee);
      Read(u, Dest, W8) == if Read(s, r, ws) == 0 then c else HighBit(Read(s, r, ws))
  {
    var v := Read(s, r, ws);
    Steps3(s, Bsr(wd, ws, Dest, r), MovImm(W32, Rax, c), Cmovz(W32, Dest, Rax), callee);
    BsrStep(s, wd, ws, r, callee);
    var s1 := Step(s, Bsr(wd, ws, Dest, r), callee);
    MovImmStep(s1, W32, Rax, c, callee);
    var s2 := SetReg(s1, Rax, W32, c);
    SetRegEffect(s1, Rax, W32, c);
    CmovzStep(s2, callee);
    if v == 0 {
      assert s2.flags.zf;
      LowByteAfterWrite(s2, W32, c);
    } else {
      ReadFits(s, r, ws);
      HighBitOfView(ws, v);
      var s0 := SetReg(s, Dest, wd, HighBit(v));
      LowByteAfterWrite(s, wd, HighBit(v));
      assert Read(s1, Dest, W8) == Read(s0, Dest, W8);
      assert !s2.flags.zf && Read(s2, Dest, W8) == Read(s1, Dest, W8);
      LowByteKept(s2);
    }
  }

  /** The xor that ends every form, on dest's low byte. */
  lemma XorTail(u: State, m: nat, callee: CallSite -> Clobber)
    requires m < 0x100
    ensures Read(Step(u, XorImm(W8, Dest, m), callee), Dest, W8) == Xor(Read(u, Dest, W8), m) % 0x100
  {
    var x := Read(u, Dest, W8);
    assert m % 0x100 == m;
    XorImmStep(u, m, callee);
    SetRegEffect(u, Dest, W8, Xor(x, m));
  }

  /** `sub d8, 8` on dest's low byte. */
  lemma SubTail(u: State, callee: CallSite -> Clobber)
    ensures Read(Step(u, SubImm(W8, Dest, 8), callee), Dest, W8) == (Read(u, Dest, W8) + 0xF8) % 0x100
  {
    SubImmStep(u, 8, callee);
    SetRegReadBack(u, Dest, W8, Read(u, Dest, W8) + 0xF8);
  }

  // ------------------------------------------------------------------
  // Value arithmetic of the xor masks
  // ------------------------------------------------------------------

  /** The number of bits of the count, log2 of the operand width. */
  function LogBits(w: Width): nat {
    match w
    case W8 => 3
    case W16 => 4
    case W32 => 5
    case W64 => 6
  }

  lemma LogBitsPow(w: Width)
    ensures Pow2(LogBits(w)) == BitCount(w)
  {
    assert Pow2(1) == 2;
    assert Pow2(3) == 8;
    assert Pow2(5) == 32;
    assert Pow2(6) == 64;
  }

  /** For an index k below w, k xor (w - 1) is w - 1 - k. */
  lemma MaskNonzero(w: Width, k: nat)
    requires k < BitCount(w)
    ensures Xor(k, BitCount(w) - 1) % 0x100 == BitCount(w) - 1 - k
  {
    LogBitsPow(w);
    XorAllOnes(k, LogBits(w));
  }

  /** w xor (w - 1) is 2w - 1. */
  lemma MaskOfW(w: Width)
    ensures Xor(BitCount(w), BitCount(w) - 1) % 0x100 == 2 * BitCount(w) - 1
  {
    var n := LogBits(w);
    LogBitsPow(w);
    XorLowMask(1, 0, Pow2(n) - 1, n);
    XorAllOnes(0, n);
  }

  /** (2w - 1) xor (w - 1) is w. */
  lemma MaskOfTwiceW(w: Width)
    ensures Xor(2 * BitCount(w) - 1, BitCount(w) - 1) % 0x100 == BitCount(w)
  {
    var n := LogBits(w);
    LogBitsPow(w);
    XorLowMask(1, Pow2(n) - 1, Pow2(n) - 1, n);
    XorAllOnes(Pow2(n) - 1, n);
  }

  /** ((k - 8) mod 256) xor 7 is 255 - k for an index k below 8. */
  lemma MaskByteAsWritten(k: nat)
    requires k < 8
    ensures Xor((k + 0xF8) % 0x100, 7) % 0x100 == 0xFF - k
  {
    assert (k + 0xF8) % 0x100 == 0xF8 + k;
    assert Xor(0xF8 + k, 7) == 0xFF - k by {
      assert Pow2(3) == 8;
      XorLowMask(31, k, 7, 3);
      XorAllOnes(k, 3);
    }
  }

  // ------------------------------------------------------------------
  // The table's forms
  // ------------------------------------------------------------------

  /** The constant and mask of the 16-, 32- and 64-bit forms. */
  lemma WideOps(i: Instr)
    requires CountsInt(i) && i.src1.ty != I8
    ensures var w := WidthOf(i.src1.ty);
      SelectCntlz(i) == Emitted([Bsr(if w == W64 then W8 else w, w, Dest, S1(i)), MovImm(W32, Rax, BitCount(w)),
                                 Cmovz(W32, Dest, Rax), XorImm(W8, Dest, BitCount(w) - 1)])
  {
  }

  /** Running a four-instruction count sequence: the prefix, then the xor. */
  lemma FourSteps(s: State, a: Op, b: Op, c: Op, d: Op, callee: CallSite -> Clobber)
    ensures Steps(s, [a, b, c, d], callee) == Step(Steps(s, [a, b, c], callee), d, callee)
  {
    assert [a, b, c, d] == [a, b, c] + [d];
    StepsAppend(s, [a, b, c], [d], callee);
    Steps1(Steps(s, [a, b, c], callee), d, callee);
  }

  lemma FiveSteps(s: State, a: Op, b: Op, c: Op, d: Op, e: Op, callee: CallSite -> Clobber)
    ensures Steps(s, [a, b, c, d, e], callee) == Step(Step(Steps(s, [a, b, c], callee), d, callee), e, callee)
  {
    assert [a, b, c, d, e] == [a, b, c] + [d, e];
    StepsAppend(s, [a, b, c], [d, e], callee);
    Steps2(Steps(s, [a, b, c], callee), d, e, callee);
  }

  /** The low byte a wide form leaves in dest: w - 1 - k for a source whose
      highest set bit is k, and (as written) 2w - 1 for zero. */
  lemma WideCount(i: Instr, s: State, callee: CallSite -> Clobber)
    requires CountsInt(i) && i.src1.ty != I8
    ensures SelectCntlz(i).Emitted?
    ensures var w := WidthOf(i.src1.ty); var v := Read(s, S1(i), w);
      Read(Steps(s, SelectCntlz(i).ops, callee), Dest, W8)
        == if v == 0 then 2 * BitCount(w) - 1 else BitCount(w) - 1 - HighBit(v)
  {
    var w := WidthOf(i.src1.ty);
    var v := Read(s, S1(i), w);
    var wd := if w == W64 then W8 else w;
    WideOps(i);
    var a, b, c, d := Bsr(wd, w, Dest, S1(i)), MovImm(W32, Rax, BitCount(w)), Cmovz(W32, Dest, Rax), XorImm(W8, Dest, BitCount(w) - 1);
    FourSteps(s, a, b, c, d, callee);
    PickIndex(s, wd, w, S1(i), BitCount(w), callee);
    var u := Steps(s, [a, b, c], callee);
    XorTail(u, BitCount(w) - 1, callee);
    if v == 0 {
      MaskOfW(w);
    } else {
      ReadFits(s, S1(i), w);
      HighBitOfView(w, v);
      MaskNonzero(w, HighBit(v));
    }
  }

  /** For a nonzero source the table's count is the number of leading zero
      bits of the source at its own width. */
  lemma CntlzNonzero(i: Instr, s: State, callee: CallSite -> Clobber)
    requires CountsInt(i) && i.src1.ty != I8
    requires Read(s, S1(i), WidthOf(i.src1.ty)) != 0
    ensures SelectCntlz(i).Emitted?
    ensures var w := WidthOf(i.src1.ty);
      Read(Steps(s, SelectCntlz(i).ops, callee), Dest, W8) == LeadingZeros(BitCount(w), Read(s, S1(i), w))
  {
    var w := WidthOf(i.src1.ty);
    var v := Read(s, S1(i), w);
    WideCount(i, s, callee);
    ReadFits(s, S1(i), w);
    ModulusIsPow2(w);
    LeadingZerosHighBit(BitCount(w), v);
  }

  /** As written, a zero source of 16, 32 or 64 bits yields 2w - 1 (31, 63,
      127) rather than w: eax holds w, and w xor (w - 1) sets every bit of
      both. */
  lemma CntlzOfZeroAsWritten(i: Instr, s: State, callee: CallSite -> Clobber)
    requires CountsInt(i) && i.src1.ty != I8
    requires Read(s, S1(i), WidthOf(i.src1.ty)) == 0
    ensures SelectCntlz(i).Emitted?
    ensures var w := WidthOf(i.src1.ty);
      && Read(Steps(s, SelectCntlz(i).ops, callee), Dest, W8) == 2 * BitCount(w) - 1
      && LeadingZeros(BitCount(w), 0) == BitCount(w)
  {
    WideCount(i, s, callee);
    LeadingZerosOfZero(BitCount(WidthOf(i.src1.ty)));
  }

  /** The 8-bit form reads the source's low 16 bits and subtracts 8 from
      the index before the xor. */
  lemma ByteOps(i: Instr)
    requires CountsInt(i) && i.src1.ty == I8
    ensures SelectCntlz(i) == Emitted([Bsr(W16, W16, Dest, S1(i)), MovImm(W32, Rax, 16), Cmovz(W32, Dest, Rax),
                                       SubImm(W8, Dest, 8), XorImm(W8, Dest, 0x7)])
  {
  }

  /** As written, an 8-bit source (upper byte of its register clear) with
      highest set bit k yields 255 - k instead of 7 - k, and zero yields 15
      instead of 8: the subtraction borrows into the bits the xor with 7
      leaves alone. */
  lemma Cntlz8AsWritten(i: Instr, s: State, callee: CallSite -> Clobber)
    requires CountsInt(i) && i.src1.ty == I8
    requires Read(s, S1(i), W16) < 0x100
    ensures SelectCntlz(i).Emitted?
    ensures var v := Read(s, S1(i), W16);
      Read(Steps(s, SelectCntlz(i).ops, callee), Dest, W8) == if v == 0 then 15 else 0xFF - HighBit(v)
  {
    var v := Read(s, S1(i), W16);
    ByteOps(i);
    var a, b, c := Bsr(W16, W16, Dest, S1(i)), MovImm(W32, Rax, 16), Cmovz(W32, Dest, Rax);
    FiveSteps(s, a, b, c, SubImm(W8, Dest, 8), XorImm(W8, Dest, 0x7), callee);
    PickIndex(s, W16, W16, S1(i), 16, callee);
    var u := Steps(s, [a, b, c], callee);
    SubTail(u, callee);
    var u2 := Step(u, SubImm(W8, Dest, 8), callee);
    XorTail(u2, 7, callee);
    if v == 0 {
      MaskByteSixteen();
    } else {
      assert Pow2(8) == 0x100;
      HighBitBelow(v, 8);
      MaskByteAsWritten(HighBit(v));
    }
  }

  lemma MaskByteSixteen()
    ensures Xor((16 + 0xF8) % 0x100, 7) % 0x100 == 15
  {
    var p := Pow2(3);
    assert p == 8;
    assert (16 + 0xF8) % 0x100 == 1 * p + 0;
    XorLowMask(1, 0, p - 1, 3);
    XorAllOnes(0, 3);
  }

  /** Source byte 1: the table yields 255, the leading-zero count is 7. */
  lemma Cntlz8Counterexample(i: Instr, s: State, callee: CallSite -> Clobber)
    requires CountsInt(i) && i.src1.ty == I8
    requires Read(s, S1(i), W16) == 1
    ensures SelectCntlz(i).Emitted?
    ensures Read(Steps(s, SelectCntlz(i).ops, callee), Dest, W8) == 0xFF
    ensures LeadingZeros(8, 1) == 7
  {
    Cntlz8AsWritten(i, s, callee);
    assert Pow2(0) == 1;
    LeadingZerosHighBit(8, 1);
  }

  // ------------------------------------------------------------------
  // Corrected table
  // ------------------------------------------------------------------

  /** CNTLZ with the zero case loading 2w - 1 (which the xor turns into w)
      and the 8-bit form zero-extending its source into eax and then
      counting as the wider forms do with w = 8. */
  function SelectCntlzFixed(i: Instr): Lowered {
    if !CountsInt(i) then Unimplemented
    else if i.src1.ty == I8 then
      Emitted([Movzx(W32, W8, Rax, S1(i)), Bsr(W32, W32, Dest, Rax), MovImm(W32, Rax, 15),
               Cmovz(W32, Dest, Rax), XorImm(W8, Dest, 0x7)])
    else
      var w := WidthOf(i.src1.ty);
      Emitted([Bsr(if w == W64 then W8 else w, w, Dest, S1(i)), MovImm(W32, Rax, 2 * BitCount(w) - 1),
               Cmovz(W32, Dest, Rax), XorImm(W8, Dest, BitCount(w) - 1)])
  }

  /** The corrected table lowers exactly what the original does. */
  lemma CntlzFixedCoverage(i: Instr)
    ensures SelectCntlzFixed(i).Emitted? <==> SelectCntlz(i).Emitted?
    ensures !SelectCntlzFixed(i).Emitted? ==> SelectCntlzFixed(i).Unimplemented?
  {
  }

  /** The low byte a count sequence with constant c and mask m leaves, in
      terms of the source value v that its bsr reads. */
  lemma CountValue(w: Width, v: nat, c: nat, x: nat)
    requires v < Modulus(w)
    requires x == Xor(if v == 0 then c else HighBit(v), BitCount(w) - 1) % 0x100
    requires c == 2 * BitCount(w) - 1
    ensures x == LeadingZeros(BitCount(w), v)
  {
    ModulusIsPow2(w);
    if v == 0 {
      MaskOfTwiceW(w);
      LeadingZerosOfZero(BitCount(w));
    } else {
      HighBitOfView(w, v);
      MaskNonzero(w, HighBit(v));
      LeadingZerosHighBit(BitCount(w), v);
    }
  }

  /** The wide corrected forms count leading zeros for every source. */
  lemma CntlzFixedWide(i: Instr, s: State, callee: CallSite -> Clobber)
    requires CountsInt(i) && i.src1.ty != I8
    ensures SelectCntlzFixed(i).Emitted?
    ensures var w := WidthOf(i.src1.ty);
      Read(Steps(s, SelectCntlzFixed(i).ops, callee), Dest, W8) == LeadingZeros(BitCount(w), Read(s, S1(i), w))
  {
    var w := WidthOf(i.src1.ty);
    var wd := if w == W64 then W8 else w;
    var c := 2 * BitCount(w) - 1;
    var a, b, cm, d := Bsr(wd, w, Dest, S1(i)), MovImm(W32, Rax, c), Cmovz(W32, Dest, Rax), XorImm(W8, Dest, BitCount(w) - 1);
    assert SelectCntlzFixed(i).ops == [a, b, cm, d];
    FourSteps(s, a, b, cm, d, callee);
    PickIndex(s, wd, w, S1(i), c, callee);
    var u := Steps(s, [a, b, cm], callee);
    XorTail(u, BitCount(w) - 1, callee);
    ReadFits(s, S1(i), w);
    CountValue(w, Read(s, S1(i), w), c, Read(Step(u, d, callee), Dest, W8));
  }

  /** `movzx eax, src8` leaves the source byte in eax. */
  lemma ZeroExtendIntoRax(s: State, r: Gpr, callee: CallSite -> Clobber)
    ensures Read(Step(s, Movzx(W32, W8, Rax, r), callee), Rax, W32) == Read(s, r, W8)
    ensures Step(s, Movzx(W32, W8, Rax, r), callee).flags == s.flags
    ensures Read(Step(s, Movzx(W32, W8, Rax, r), callee), Dest, W8) == Read(s, Dest, W8)
  {
    var v := Read(s, r, W8);
    assert Step(s, Movzx(W32, W8, Rax, r), callee) == SetReg(s, Rax, W32, v);
    SetRegEffect(s, Rax, W32, v);
    ReadFits(s, r, W8);
    Extend.FitsWider(v, W8, W32);
  }

  /** The corrected 8-bit form counts leading zeros for every source byte,
      whatever the upper bits of its register hold. */
  lemma CntlzFixedByte(i: Instr, s: State, callee: CallSite -> Clobber)
    requires CountsInt(i) && i.src1.ty == I8
    ensures SelectCntlzFixed(i).Emitted?
    ensures Read(Steps(s, SelectCntlzFixed(i).ops, callee), Dest, W8) == LeadingZeros(8, Read(s, S1(i), W8))
  {
    var z := Movzx(W32, W8, Rax, S1(i));
    var a, b, cm, d := Bsr(W32, W32, Dest, Rax), MovImm(W32, Rax, 15), Cmovz(W32, Dest, Rax), XorImm(W8, Dest, 0x7);
    assert SelectCntlzFixed(i).ops == [z] + [a, b, cm, d];
    StepsAppend(s, [z], [a, b, cm, d], callee);
    Steps1(s, z, callee);
    var s1 := Step(s, z, callee);
    ZeroExtendIntoRax(s, S1(i), callee);
    FourSteps(s1, a, b, cm, d, callee);
    PickIndex(s1, W32, W32, Rax, 15, callee);
    var u := Steps(s1, [a, b, cm], callee);
    XorTail(u, 7, callee);
    ReadFits(s, S1(i), W8);
    CountValue(W8, Read(s, S1(i), W8), 15, Read(Step(u, d, callee), Dest, W8));
  }

  /** The corrected table agrees with the original wherever the original
      already counted correctly: every nonzero wide source. */
  lemma CntlzFixedAgrees(i: Instr, s: State, callee: CallSite -> Clobber)
    requires CountsInt(i) && i.src1.ty != I8
    requires Read(s, S1(i), WidthOf(i.src1.ty)) != 0
    ensures SelectCntlz(i).Emitted? && SelectCntlzFixed(i).Emitted?
    ensures Read(Steps(s, SelectCntlzFixed(i).ops, callee), Dest, W8)
         == Read(Steps(s, SelectCntlz(i).ops, callee), Dest, W8)
  {
    CntlzNonzero(i, s, callee);
    CntlzFixedWide(i, s, callee);
  }
}
