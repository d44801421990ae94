/** BYTE_SWAP: `xchg ah, al` through ax for 16 bits, bswap for 32 and 64
    bits, and for vectors an int3 followed by `shufps` with the selector
    0x1B, which reverses the four dword lanes when both operands are the same
    register. */
module ByteSwap {
  import opened Bits
  import opened Flags
  import opened Machine
  import opened Ir
  import opened Lowering

  /** BYTE_SWAP on an integer register of 16, 32 or 64 bits. */
  predicate IntSwap(i: Instr) {
    i.dest.Value? && (i.dest.ty == I16 || i.dest.ty == I32 || i.dest.ty == I64)
      && Match2(i, SigReg(i.dest.ty), SigReg(i.dest.ty))
  }

  predicate VecSwap(i: Instr) {
    Match2(i, SigReg(V128), SigReg(V128))
  }

  /** Integer registers of 16 to 64 bits and vector registers are swapped;
      anything else, including bytes and a dest of another type, is an
      invalid type. */
  lemma ByteSwapCoverage(i: Instr)
    ensures SelectByteSwap(i).Emitted? <==> IntSwap(i) || VecSwap(i)
    ensures !SelectByteSwap(i).Emitted? ==> SelectByteSwap(i).InvalidType?
  {
  }

  // ------------------------------------------------------------------
  // Integer forms
  // ------------------------------------------------------------------

  /** The two bytes of a 16-bit value, exchanged. */
  lemma SwapTwoBytes(v: nat)
    ensures SwapBytes(2, v) == (v / 0x100) % 0x100 + 0x100 * (v % 0x100)
  {
    var lo, hi := v % 0x100, (v / 0x100) % 0x100;
    assert ToBytes(v / 0x100, 1) == [hi] + ToBytes(v / 0x100 / 0x100, 0);
    assert ToBytes(v, 2) == [lo, hi];
    var r := [hi, lo];
    assert Reverse(ToBytes(v, 2)) == r;
    assert r[1..] == [lo] && r[1..][1..] == [];
    assert FromBytes(r[1..]) == lo + 0x100 * FromBytes(r[1..][1..]);
  }

  /** ah is the high byte of ax, al its low byte. */
  lemma AxBytes(x: nat)
    ensures (x / 0x100) % 0x100 == (x % 0x1_0000) / 0x100
    ensures (x % 0x1_0000) % 0x100 == x % 0x100
  {
    var q, r := x / 0x1_0000, x % 0x1_0000;
    DivModUnique(x, 0x100, q * 0x100 + r / 0x100, r % 0x100);
    DivModUnique(q * 0x100 + r / 0x100, 0x100, q, r / 0x100);
  }

  /** `xchg ah, al` exchanges the two bytes of ax. */
  lemma XchgSwapsAx(v: State, callee: CallSite -> Clobber)
    ensures Read(Step(v, XchgAhAl, callee), Rax, W16) == 0x100 * Read(v, Rax, W8) + Ah(v)
  {
    var al, ah := Read(v, Rax, W8), Ah(v);
    var x := Merge(v.regs.rax, W8, ah);
    var y := WithAh(x, al);
    assert Step(v, XchgAhAl, callee).regs.rax == y;
    MergeLow(v.regs.rax, W8, ah);
    assert y == (x / 0x1_0000) * 0x1_0000 + (0x100 * al + ah) by {
      assert al % 0x100 == al && x % 0x100 == ah;
    }
    DivModUnique(y, 0x1_0000, x / 0x1_0000, 0x100 * al + ah);
  }

  /** After `mov ax, r` the two halves of ax are the bytes of r's low word. */
  lemma LoadAx(s: State, r: Gpr, callee: CallSite -> Clobber)
    ensures var u := Step(s, Mov(W16, Rax, r), callee);
      && Read(u, Rax, W8) == Read(s, r, W16) % 0x100
      && Ah(u) == Read(s, r, W16) / 0x100
  {
    var v := Read(s, r, W16);
    MovStep(s, W16, Rax, r, callee);
    var u := SetReg(s, Rax, W16, v);
    SetRegEffect(s, Rax, W16, v);
    var x := u.regs.rax;
    assert x % 0x1_0000 == v by { assert Read(u, Rax, W16) == x % 0x1_0000; }
    AxBytes(x);
    assert Read(u, Rax, W8) == x % 0x100;
  }

  /** `mov ax, s1; xchg ah, al; mov d, ax` */
  lemma Swap16Computes(s: State, r: Gpr, callee: CallSite -> Clobber)
    ensures Read(Steps(s, [Mov(W16, Rax, r), XchgAhAl, Mov(W16, Dest, Rax)], callee), Dest, W16)
         == SwapBytes(2, Read(s, r, W16))
  {
    var v := Read(s, r, W16);
    Steps3(s, Mov(W16, Rax, r), XchgAhAl, Mov(W16, Dest, Rax), callee);
    var s1 := Step(s, Mov(W16, Rax, r), callee);
    LoadAx(s, r, callee);
    XchgSwapsAx(s1, callee);
    var s2 := Step(s1, XchgAhAl, callee);
    MovStep(s2, W16, Dest, Rax, callee);
    SetRegEffect(s2, Dest, W16, Read(s2, Rax, W16));
    SwapTwoBytes(v);
    Swap16Value(v, Read(s2, Rax, W16));
  }

  /** The value bookkeeping of the 16-bit form. */
  lemma Swap16Value(v: nat, x: nat)
    requires v < 0x1_0000 && x == 0x100 * (v % 0x100) + v / 0x100
    ensures x % 0x1_0000 == (v / 0x100) % 0x100 + 0x100 * (v % 0x100)
  {
  }

  /** The bswap operand: Bswap32 or Bswap64 on dest. */
  function BswapOp(w: Width): Op
    requires w == W32 || w == W64
  {
    if w == W32 then Bswap32(Dest) else Bswap64(Dest)
  }

  /** Single-instruction closed forms of the two bswap widths. */
  lemma Bswap32Step(u: State, callee: CallSite -> Clobber)
    ensures Step(u, Bswap32(Dest), callee) == SetReg(u, Dest, W32, SwapBytes(4, Read(u, Dest, W32)))
  {
  }

  lemma Bswap64Step(u: State, callee: CallSite -> Clobber)
    ensures Step(u, Bswap64(Dest), callee) == SetReg(u, Dest, W64, SwapBytes(8, Read(u, Dest, W64)))
  {
  }

  /** A byte-reversed w-bit value still fits w bits. */
  lemma SwapFits(w: Width, v: nat, x: nat)
    requires x == SwapBytes(Bytes(w), v)
    ensures x % Modulus(w) == x
  {
    SwapBytesReverses(Bytes(w), v);
    BytesOfWidth(w);
  }

  /** bswap on dest reverses the bytes of its w-bit view. */
  lemma BswapStep(u: State, w: Width, callee: CallSite -> Clobber)
    requires w == W32 || w == W64
    ensures Read(Step(u, BswapOp(w), callee), Dest, w) == SwapBytes(Bytes(w), Read(u, Dest, w))
  {
    var x := SwapBytes(Bytes(w), Read(u, Dest, w));
    if w == W32 {
      Bswap32Step(u, callee);
    } else {
      Bswap64Step(u, callee);
    }
    SetRegEffect(u, Dest, w, x);
    SwapFits(w, Read(u, Dest, w), x);
  }

  /** `mov d, s1; bswap d` */
  lemma BswapCopyComputes(s: State, w: Width, callee: CallSite -> Clobber)
    requires w == W32 || w == W64
    ensures Read(Steps(s, [Mov(w, Dest, Src1), BswapOp(w)], callee), Dest, w) == SwapBytes(Bytes(w), Read(s, Src1, w))
  {
    var v := Read(s, Src1, w);
    var u := SetReg(s, Dest, w, v);
    MovStep(s, w, Dest, Src1, callee);
    SetRegEffect(s, Dest, w, v);
    ReadFits(s, Src1, w);
    BswapStep(u, w, callee);
    var t := Step(u, BswapOp(w), callee);
    Steps2(s, Mov(w, Dest, Src1), BswapOp(w), callee);
    assert Steps(s, [Mov(w, Dest, Src1), BswapOp(w)], callee) == t;
  }

  /** `bswap d` with dest allocated to src1's register. */
  lemma BswapInPlaceComputes(s: State, w: Width, callee: CallSite -> Clobber)
    requires w == W32 || w == W64
    ensures Read(Steps(s, [BswapOp(w)], callee), Dest, w) == SwapBytes(Bytes(w), Read(s, Dest, w))
  {
    Steps1(s, BswapOp(w), callee);
    BswapStep(s, w, callee);
  }

  /** The operations of the integer forms. */
  lemma IntSwapOps(i: Instr)
    requires IntSwap(i)
    ensures SelectByteSwap(i).Emitted?
    ensures i.dest.ty == I16 ==> SelectByteSwap(i).ops == [Mov(W16, Rax, S1(i)), XchgAhAl, Mov(W16, Dest, Rax)]
    ensures i.dest.ty != I16 && !i.alloc.destIsSrc1 ==>
      SelectByteSwap(i).ops == [Mov(WidthOf(i.dest.ty), Dest, Src1), BswapOp(WidthOf(i.dest.ty))]
    ensures i.dest.ty != I16 && i.alloc.destIsSrc1 ==>
      SelectByteSwap(i).ops == [BswapOp(WidthOf(i.dest.ty))]
  {
  }

  /** The integer BYTE_SWAP leaves src1 with its bytes in reverse order in
      dest. */
  lemma ByteSwapComputes(i: Instr, s: State, callee: CallSite -> Clobber)
    requires IntSwap(i)
    ensures SelectByteSwap(i).Emitted?
    ensures var w := WidthOf(i.dest.ty);
      var t := Steps(s, SelectByteSwap(i).ops, callee);
      && Read(t, Dest, w) == SwapBytes(Bytes(w), Read(s, S1(i), w))
      && ToBytes(Read(t, Dest, w), Bytes(w)) == Reverse(ToBytes(Read(s, S1(i), w), Bytes(w)))
  {
    var w := WidthOf(i.dest.ty);
    IntSwapOps(i);
    if i.dest.ty == I16 {
      Swap16Computes(s, S1(i), callee);
    } else if !i.alloc.destIsSrc1 {
      BswapCopyComputes(s, w, callee);
    } else {
      BswapInPlaceComputes(s, w, callee);
    }
    SwapBytesReverses(Bytes(w), Read(s, S1(i), w));
  }

  /** Swapping dest in place after a swap restores the original value. */
  lemma ByteSwapTwice(i: Instr, j: Instr, s: State, callee: CallSite -> Clobber)
    requires IntSwap(i) && j.dest == i.dest && j.src1 == i.dest && j.alloc.destIsSrc1
    ensures SelectByteSwap(i).Emitted? && SelectByteSwap(j).Emitted?
    ensures var w := WidthOf(i.dest.ty);
      var u := Steps(s, SelectByteSwap(i).ops, callee);
      Read(Steps(u, SelectByteSwap(j).ops, callee), Dest, w) == Read(s, S1(i), w)
  {
    var w := WidthOf(i.dest.ty);
    var u := Steps(s, SelectByteSwap(i).ops, callee);
    var x, y := Read(s, S1(i), w), Read(u, Dest, w);
    ByteSwapComputes(i, s, callee);
    assert y == SwapBytes(Bytes(w), x);
    assert IntSwap(j) && WidthOf(j.dest.ty) == w && S1(j) == Dest;
    ByteSwapComputes(j, u, callee);
    SwapTwiceValue(w, x, y);
  }

  lemma SwapTwiceValue(w: Width, v: nat, x: nat)
    requires v < Modulus(w) && x == SwapBytes(Bytes(w), v)
    ensures SwapBytes(Bytes(w), x) == v
  {
    SwapBytesInvolution(Bytes(w), v);
    BytesOfWidth(w);
  }

  /** 0x12345678 with its four bytes reversed. */
  lemma SwapExampleValue()
    ensures SwapBytes(4, 0x12345678) == 0x78563412
  {
    assert ToBytes(0x12345678, 4) == [0x78, 0x56, 0x34, 0x12] by {
      assert ToBytes(0x12, 1) == [0x12] + ToBytes(0, 0);
      assert ToBytes(0x1234, 2) == [0x34] + ToBytes(0x12, 1);
      assert ToBytes(0x123456, 3) == [0x56] + ToBytes(0x1234, 2);
    }
    var r := [0x12, 0x34, 0x56, 0x78];
    assert Reverse(ToBytes(0x12345678, 4)) == r;
    assert r[1..] == [0x34, 0x56, 0x78] && r[1..][1..] == [0x56, 0x78];
    assert r[1..][1..][1..] == [0x78] && r[1..][1..][1..][1..] == [];
  }

  /** The worked example: 0x12345678 becomes 0x78563412. */
  lemma ByteSwapExample(i: Instr, s: State, callee: CallSite -> Clobber)
    requires Match2(i, SigReg(I32), SigReg(I32)) && Read(s, S1(i), W32) == 0x12345678
    ensures SelectByteSwap(i).Emitted?
    ensures Read(Steps(s, SelectByteSwap(i).ops, callee), Dest, W32) == 0x78563412
  {
    ByteSwapComputes(i, s, callee);
    SwapExampleValue();
  }

  // ------------------------------------------------------------------
  // Vector form
  // ------------------------------------------------------------------

  /** The four lanes in reverse order. */
  function Reversed(x: Lanes): Lanes {
    Lanes(x.l3, x.l2, x.l1, x.l0)
  }

  /** shufps with 0x1B takes lanes 3 and 2 of the destination and lanes 1
      and 0 of the source. */
  lemma Shuffle1B(d: Lanes, s: Lanes)
    ensures Shuffle(d, s, 0x1B) == Lanes(d.l3, d.l2, s.l1, s.l0)
    ensures Shuffle(d, d, 0x1B) == Reversed(d)
  {
  }

  /** Reversal is its own inverse, so the in-place shuffle undoes itself. */
  lemma ShuffleInPlaceInvolution(x: Lanes)
    ensures Shuffle(Shuffle(x, x, 0x1B), Shuffle(x, x, 0x1B), 0x1B) == x
  {
    Shuffle1B(x, x);
    Shuffle1B(Reversed(x), Reversed(x));
  }

  /** The vector sequence begins with int3: running it stops at the
      breakpoint with nothing changed. */
  lemma VecSwapTraps(i: Instr, s: State, callee: CallSite -> Clobber)
    requires VecSwap(i)
    ensures SelectByteSwap(i).Emitted?
    ensures Exec(s, SelectByteSwap(i).ops, callee) == Run(s, Trapped)
  {
  }

  /** The vector code after the breakpoint. */
  function VecTail(i: Instr): seq<Op>
    requires VecSwap(i)
  {
    SelectByteSwap(i).ops[1..]
  }

  /** In place (dest is src1) the shuffle reverses the lanes. */
  lemma VecSwapInPlace(i: Instr, s: State, callee: CallSite -> Clobber)
    requires VecSwap(i) && i.alloc.destIsSrc1
    ensures Steps(s, VecTail(i), callee).xmm.xdest == Reversed(s.xmm.xdest)
  {
    assert VecTail(i) == [Shufps(XDest, XDest, 0x1B)];
    Steps1(s, Shufps(XDest, XDest, 0x1B), callee);
    Shuffle1B(s.xmm.xdest, s.xmm.xdest);
  }

  /** With distinct registers the table's shuffle keeps the high half of
      dest's old lanes and reverses only the low half of src1. */
  lemma VecSwapAsWritten(i: Instr, s: State, callee: CallSite -> Clobber)
    requires VecSwap(i) && !i.alloc.destIsSrc1
    ensures var d, x := s.xmm.xdest, s.xmm.xsrc1;
      Steps(s, VecTail(i), callee).xmm.xdest == Lanes(d.l3, d.l2, x.l1, x.l0)
  {
    assert VecTail(i) == [Shufps(XDest, XSrc1, 0x1B)];
    Steps1(s, Shufps(XDest, XSrc1, 0x1B), callee);
    Shuffle1B(s.xmm.xdest, s.xmm.xsrc1);
  }

  /** src1 = (1, 2, 3, 4) in a register other than dest = (0, 0, 0, 0) gives
      (0, 0, 2, 1), not the reversal (4, 3, 2, 1). */
  lemma VecSwapCounterexample(i: Instr, s: State, callee: CallSite -> Clobber)
    requires VecSwap(i) && !i.alloc.destIsSrc1
    requires s.xmm.xdest == Lanes(0, 0, 0, 0) && s.xmm.xsrc1 == Lanes(1, 2, 3, 4)
    ensures Steps(s, VecTail(i), callee).xmm.xdest == Lanes(0, 0, 2, 1)
    ensures Steps(s, VecTail(i), callee).xmm.xdest != Reversed(s.xmm.xsrc1)
  {
    VecSwapAsWritten(i, s, callee);
  }

  /** BYTE_SWAP with the vector case copying src1 into dest first and then
      shuffling dest in place. */
  function SelectByteSwapFixed(i: Instr): Lowered {
    if VecSwap(i) then
      Emitted([DebugTrap] + (if !i.alloc.destIsSrc1 then [MovXmm(Packed128, XDest, XSrc1)] else [])
              + [Shufps(XDest, XDest, 0x1B)])
    else SelectByteSwap(i)
  }

  /** Single-instruction closed forms of the in-place shuffle and the full
      register copy. */
  lemma ShufInPlaceStep(s: State, callee: CallSite -> Clobber)
    ensures Step(s, Shufps(XDest, XDest, 0x1B), callee).xmm.xdest == Reversed(s.xmm.xdest)
  {
    Shuffle1B(s.xmm.xdest, s.xmm.xdest);
  }

  lemma CopyXmmStep(s: State, callee: CallSite -> Clobber)
    ensures Step(s, MovXmm(Packed128, XDest, XSrc1), callee).xmm.xdest == s.xmm.xsrc1
  {
  }

  /** The operations of the corrected vector form after the breakpoint. */
  lemma FixedTailOps(i: Instr)
    requires VecSwap(i)
    ensures SelectByteSwapFixed(i).Emitted? && |SelectByteSwapFixed(i).ops| >= 2
    ensures !i.alloc.destIsSrc1 ==>
      SelectByteSwapFixed(i).ops[1..] == [MovXmm(Packed128, XDest, XSrc1), Shufps(XDest, XDest, 0x1B)]
    ensures i.alloc.destIsSrc1 ==> SelectByteSwapFixed(i).ops[1..] == [Shufps(XDest, XDest, 0x1B)]
  {
  }

  /** After the breakpoint, the corrected vector form leaves src1's lanes
      reversed in dest whichever registers the allocator chose. */
  lemma VecSwapFixedReverses(i: Instr, s: State, callee: CallSite -> Clobber)
    requires VecSwap(i)
    ensures SelectByteSwapFixed(i).Emitted? && |SelectByteSwapFixed(i).ops| >= 2
    ensures Steps(s, SelectByteSwapFixed(i).ops[1..], callee).xmm.xdest == Reversed(GetX(s.xmm, X1(i)))
  {
    FixedTailOps(i);
    if !i.alloc.destIsSrc1 {
      Steps2(s, MovXmm(Packed128, XDest, XSrc1), Shufps(XDest, XDest, 0x1B), callee);
      var u := Step(s, MovXmm(Packed128, XDest, XSrc1), callee);
      CopyXmmStep(s, callee);
      ShufInPlaceStep(u, callee);
    } else {
      Steps1(s, Shufps(XDest, XDest, 0x1B), callee);
      ShufInPlaceStep(s, callee);
    }
  }

  /** The corrected table agrees with the original on every other shape. */
  lemma ByteSwapFixedElsewhere(i: Instr)
    requires !VecSwap(i)
    ensures SelectByteSwapFixed(i) == SelectByteSwap(i)
  {
  }

  /** Swapping the result again in place gives back src1's lanes. */
  lemma VecSwapFixedTwice(i: Instr, j: Instr, s: State, callee: CallSite -> Clobber)
    requires VecSwap(i) && VecSwap(j) && j.alloc.destIsSrc1
    ensures SelectByteSwapFixed(i).Emitted? && SelectByteSwapFixed(j).Emitted?
    ensures |SelectByteSwapFixed(i).ops| >= 2 && |SelectByteSwapFixed(j).ops| >= 2
    ensures var u := Steps(s, SelectByteSwapFixed(i).ops[1..], callee);
      Steps(u, SelectByteSwapFixed(j).ops[1..], callee).xmm.xdest == GetX(s.xmm, X1(i))
  {
    VecSwapFixedReverses(i, s, callee);
    var u := Steps(s, SelectByteSwapFixed(i).ops[1..], callee);
    VecSwapFixedReverses(j, u, callee);
  }
}
