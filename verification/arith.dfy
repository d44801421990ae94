/** MUL, MUL_HI and ADD_CARRY on integer registers: the one-operand
    mul/imul through rax/rdx, and the carry fed into CF through ah and sahf.
    As everywhere in the model, dest holds src1 when the sequence starts. */
module Arith {
  import opened Bits
  import opened Flags
  import opened Machine
  import opened Ir
  import opened Lowering

  // ------------------------------------------------------------------
  // Arithmetic facts
  // ------------------------------------------------------------------

  lemma MulLe(a: int, b: int, c: int)
    requires a <= b && c >= 0
    ensures a * c <= b * c
  {
    assert b * c - a * c == (b - a) * c;
  }

  /** Adding a multiple of m does not change the remainder. */
  lemma ModShift(x: int, k: int, m: int)
    requires m > 0
    ensures (x + k * m) % m == x % m
  {
    assert x + k * m == (x / m + k) * m + x % m;
    DivModUnique(x + k * m, m, x / m + k, x % m);
  }

  /** Floor division keeps a value between lo * m and hi * m between lo
      and hi. */
  lemma FloorDivBounds(p: int, m: int, lo: int, hi: int)
    requires m > 0 && lo * m <= p < hi * m
    ensures lo <= p / m < hi
  {
    var q, r := p / m, p % m;
    assert p == q * m + r;
    if q < lo {
      MulLe(q + 1, lo, m);
      assert false;
    }
    if q >= hi {
      MulLe(hi, q, m);
      assert false;
    }
  }

  lemma ProductBounds(x: int, y: int, h: int)
    requires h > 0 && -h <= x <= h && -h <= y <= h
    ensures -(h * h) <= x * y <= h * h
  {
    var ax := if x < 0 then -x else x;
    var ay := if y < 0 then -y else y;
    MulLe(ax, h, ay);
    MulLe(ay, h, h);
    assert ax * ay >= 0 by { MulLe(0, ax, ay); }
    assert x * y == ax * ay || x * y == -(ax * ay);
  }

  /** The low half of the product is the same whether the factors are read
      as unsigned or as two's-complement numbers, so one `mov dest, rax`
      serves both mul and imul. */
  lemma LowHalfAgnostic(w: Width, signed: bool, a: nat, b: nat)
    requires a < Modulus(w) && b < Modulus(w)
    ensures Encode(w, Product(w, signed, a, b)) == (a * b) % Modulus(w)
  {
    if signed {
      var m := Modulus(w);
      var ea := SignedShift(w, a);
      var eb := SignedShift(w, b);
      ProductShift(a, b, ea, eb, m);
      ModShift(a * b, ea * eb * m - ea * b - eb * a, m);
    }
  }

  /** A w-bit pattern read as signed is the pattern minus 0 or 2^w. */
  lemma SignedShift(w: Width, a: nat) returns (e: int)
    requires a < Modulus(w)
    ensures Signed(w, a) == a - e * Modulus(w)
  {
    e := if a < SignWeight(w) then 0 else 1;
  }

  lemma ProductShift(a: int, b: int, ea: int, eb: int, m: int)
    ensures (a - ea * m) * (b - eb * m) == a * b + (ea * eb * m - ea * b - eb * a) * m
  {
  }

  /** The high half fits the width: as an unsigned number for mul, as a
      two's-complement number for imul. */
  lemma HighHalfFits(w: Width, signed: bool, a: nat, b: nat)
    requires a < Modulus(w) && b < Modulus(w)
    ensures var m := Modulus(w);
      var p := Product(w, signed, a, b);
      && (!signed ==> Encode(w, p / m) == (a * b) / m)
      && (signed ==> Signed(w, Encode(w, p / m)) == p / m)
  {
    if signed {
      HighHalfSigned(w, a, b);
    } else {
      HighHalfUnsigned(w, a, b);
    }
  }

  lemma HighHalfSigned(w: Width, a: nat, b: nat)
    requires a < Modulus(w) && b < Modulus(w)
    ensures var p := Product(w, true, a, b);
      Signed(w, Encode(w, p / Modulus(w))) == p / Modulus(w)
  {
    var m, h := Modulus(w), SignWeight(w);
    ModulusIsTwiceSignWeight(w);
    var p := Product(w, true, a, b);
    ProductBounds(Signed(w, a), Signed(w, b), h);
    assert h * m == 2 * (h * h);
    FloorDivBounds(p, m, -(h as int), h);
    SignedEncode(w, p / m);
  }

  lemma HighHalfUnsigned(w: Width, a: nat, b: nat)
    requires a < Modulus(w) && b < Modulus(w)
    ensures Encode(w, Product(w, false, a, b) / Modulus(w)) == (a * b) / Modulus(w)
  {
    var m := Modulus(w);
    var ab := a * b;
    assert Product(w, false, a, b) == ab;
    assert ab < m * m by {
      MulLe(a, m - 1, b);
      MulLe(b, m - 1, m - 1);
      MulLe(m - 1, m, m - 1);
      assert (m - 1) * m < m * m;
    }
    FloorDivBounds(ab, m, 0, m);
    var x := ab / m;
    DivModUnique(x, m, 0, x);
  }

  // ------------------------------------------------------------------
  // Register effects
  // ------------------------------------------------------------------

  /** The multiplier the sequence hands to mul/imul: src2's view of dest's
      width, or a constant's low 32 bits moved into the rdx view. */
  function Multiplier(s: State, i: Instr, w: Width): nat {
    if IsConstant(i.src2) then AsUint32(i.src2) % Modulus(w) else Read(s, Src2, w)
  }

  /** The value the IR means by src2 at width w: the register's view, or
      the constant's low w bits. */
  function Src2Value(s: State, i: Instr, w: Width): (r: nat)
    ensures r < Modulus(w)
  {
    if IsConstant(i.src2) then i.src2.k.bits % Modulus(w) else Read(s, Src2, w)
  }

  /** src2 survives the 32-bit constant path of mul/imul: it is a register,
      or a constant whose w-bit value fits in 32 bits (always so below 64
      bits). */
  predicate MultiplierFits(i: Instr, w: Width) {
    IsConstant(i.src2) ==> i.src2.k.bits % Modulus(w) < 0x1_0000_0000
  }

  /** Reducing to 32 bits first loses nothing of a w-bit value that fits
      in 32 bits. */
  lemma LowBitsOfLow32(c: nat, w: Width)
    requires c % Modulus(w) < 0x1_0000_0000
    ensures (c % 0x1_0000_0000) % Modulus(w) == c % Modulus(w)
  {
    var q := c / 0x1_0000_0000;
    var r := c % 0x1_0000_0000;
    match w
    case W8 =>
      DivModUnique(c, 0x100, q * 0x100_0000 + r / 0x100, r % 0x100);
    case W16 =>
      DivModUnique(c, 0x1_0000, q * 0x1_0000 + r / 0x1_0000, r % 0x1_0000);
    case W32 =>
    case W64 =>
      var m := 0x1_0000_0000_0000_0000;
      var lo := c % m;
      DivModUnique(c, 0x1_0000_0000, (c / m) * 0x1_0000_0000, lo);
      DivModUnique(lo, m, 0, lo);
  }

  /** Where it fits, the multiplier is the IR's src2. */
  lemma MultiplierIsSrc2(s: State, i: Instr, w: Width)
    requires MultiplierFits(i, w)
    ensures Multiplier(s, i, w) == Src2Value(s, i, w)
  {
    if IsConstant(i.src2) {
      LowBitsOfLow32(i.src2.k.bits, w);
    }
  }

  /** An I64 multiply by the constant 2^32 + 3 multiplies by 3. */
  lemma MultiplierTruncates(s: State, i: Instr)
    requires i.src2 == Value(I64, Const(0x1_0000_0003))
    ensures Multiplier(s, i, W64) == 3 && Src2Value(s, i, W64) == 0x1_0000_0003
  {
  }

  /** After the operand setup, rax holds the multiplicand and the chosen
      register the multiplier; dest is untouched. */
  lemma MulSetupEffect(i: Instr, w: Width, s: State, callee: CallSite -> Clobber)
    ensures var u := Steps(s, MulSetup(i, w).0, callee);
      && MulSetup(i, w).1 != Rax
      && Read(u, Rax, w) == Read(s, Dest, w)
      && Read(u, MulSetup(i, w).1, w) == Multiplier(s, i, w)
      && Get(u.regs, Dest) == Get(s.regs, Dest)
  {
    if IsConstant(i.src2) {
      ConstSetup(s, w, AsUint32(i.src2), callee);
    } else {
      RegSetup(s, w, callee);
    }
  }

  /** The constant form of the setup: rax takes dest, rdx the constant. */
  lemma ConstSetup(s: State, w: Width, c: nat, callee: CallSite -> Clobber)
    ensures var u := Steps(s, [Mov(w, Rax, Dest), MovImm(w, Rdx, c)], callee);
      && Read(u, Rax, w) == Read(s, Dest, w)
      && Read(u, Rdx, w) == c % Modulus(w)
      && Get(u.regs, Dest) == Get(s.regs, Dest)
  {
    var a := Read(s, Dest, w);
    SetRegEffect(s, Rax, w, a);
    var s1 := SetReg(s, Rax, w, a);
    Steps2(s, Mov(w, Rax, Dest), MovImm(w, Rdx, c), callee);
    SetRegEffect(s1, Rdx, w, c);
  }

  /** The register form of the setup: rax takes dest, src2 is kept. */
  lemma RegSetup(s: State, w: Width, callee: CallSite -> Clobber)
    ensures var u := Steps(s, [Mov(w, Rax, Dest)], callee);
      && Read(u, Rax, w) == Read(s, Dest, w)
      && Read(u, Src2, w) == Read(s, Src2, w)
      && Get(u.regs, Dest) == Get(s.regs, Dest)
  {
    SetRegEffect(s, Rax, w, Read(s, Dest, w));
    Steps1(s, Mov(w, Rax, Dest), callee);
  }

  /** Bytes of a 16-bit value written into ax. */
  lemma AxBytes(prev: nat, lo: nat, hi: nat)
    requires lo < 0x100 && hi < 0x100
    ensures var x := (prev / 0x1_0000) * 0x1_0000 + (lo + 0x100 * hi) % 0x1_0000;
      x % 0x100 == lo && (x / 0x100) % 0x100 == hi
  {
    var p := prev / 0x1_0000;
    var x := p * 0x1_0000 + (lo + 0x100 * hi) % 0x1_0000;
    assert (lo + 0x100 * hi) % 0x1_0000 == lo + 0x100 * hi;
    DivModUnique(x, 0x100, p * 0x100 + hi, lo);
    DivModUnique(p * 0x100 + hi, 0x100, p, hi);
  }

  /** mul/imul r in closed form on the views it writes. */
  lemma MulRaxEffect(u: State, w: Width, signed: bool, m: Gpr, callee: CallSite -> Clobber)
    requires m != Rax
    ensures var p := Product(w, signed, Read(u, Rax, w), Read(u, m, w));
      var v := Step(u, MulRax(w, signed, m), callee);
      && Read(v, Rax, w) == Encode(w, p)
      && (w != W8 ==> Read(v, Rdx, w) == Encode(w, p / Modulus(w)))
      && (w == W8 ==> Ah(v) == Encode(W8, p / 0x100) && Read(v, Rdx, W8) == Read(u, Rdx, W8))
      && Get(v.regs, Dest) == Get(u.regs, Dest)
  {
    assert Step(u, MulRax(w, signed, m), callee) == MulStep(u, w, signed, m);
    if w == W8 {
      MulStepByte(u, signed, m);
    } else {
      MulStepWide(u, w, signed, m);
    }
  }

  lemma MulStepWide(u: State, w: Width, signed: bool, m: Gpr)
    requires m != Rax && w != W8
    ensures var p := Product(w, signed, Read(u, Rax, w), Read(u, m, w));
      var v := MulStep(u, w, signed, m);
      && Read(v, Rax, w) == Encode(w, p)
      && Read(v, Rdx, w) == Encode(w, p / Modulus(w))
      && Get(v.regs, Dest) == Get(u.regs, Dest)
  {
    var p := Product(w, signed, Read(u, Rax, w), Read(u, m, w));
    var lo, hi := Encode(w, p), Encode(w, p / Modulus(w));
    assert MulStep(u, w, signed, m) == SetReg(SetReg(u, Rax, w, lo), Rdx, w, hi);
    TwoWrites(u, w, lo, hi);
  }

  /** Writing the rax view and then the rdx view. */
  lemma TwoWrites(u: State, w: Width, lo: nat, hi: nat)
    requires lo < Modulus(w) && hi < Modulus(w)
    ensures var v := SetReg(SetReg(u, Rax, w, lo), Rdx, w, hi);
      Read(v, Rax, w) == lo && Read(v, Rdx, w) == hi && Get(v.regs, Dest) == Get(u.regs, Dest)
  {
    SetRegEffect(u, Rax, w, lo);
    var u1 := SetReg(u, Rax, w, lo);
    SetRegEffect(u1, Rdx, w, hi);
  }

  lemma MulStepByte(u: State, signed: bool, m: Gpr)
    requires m != Rax
    ensures var p := Product(W8, signed, Read(u, Rax, W8), Read(u, m, W8));
      var v := MulStep(u, W8, signed, m);
      && Read(v, Rax, W8) == Encode(W8, p)
      && Ah(v) == Encode(W8, p / 0x100)
      && Read(v, Rdx, W8) == Read(u, Rdx, W8)
      && Get(v.regs, Dest) == Get(u.regs, Dest)
  {
    var p := Product(W8, signed, Read(u, Rax, W8), Read(u, m, W8));
    var lo, hi := Encode(W8, p), Encode(W8, p / 0x100);
    var v := SetReg(u, Rax, W16, lo + 0x100 * hi);
    assert MulStep(u, W8, signed, m) == v;
    var x := Merge(u.regs.rax, W16, lo + 0x100 * hi);
    assert v.regs == u.regs.(rax := x);
    AxBytes(u.regs.rax, lo, hi);
  }

  /** `mov dest, r` after the multiply. */
  lemma MoveResult(v: State, w: Width, r: Gpr, callee: CallSite -> Clobber)
    ensures Read(Steps(v, [Mov(w, Dest, r)], callee), Dest, w) == Read(v, r, w)
  {
    Steps1(v, Mov(w, Dest, r), callee);
    MovStep(v, w, Dest, r, callee);
    var x := Read(v, r, w);
    ReadFits(v, r, w);
    MergeLow(Get(v.regs, Dest), w, x);
    PutGet(v.regs, Dest, Merge(Get(v.regs, Dest), w, x), Dest);
  }

  /** The state after setup and multiply, and the values it was fed. */
  lemma MulPrefix(i: Instr, w: Width, s: State, rest: seq<Op>, callee: CallSite -> Clobber)
    ensures var sm := MulSetup(i, w);
      var u := Steps(s, sm.0, callee);
      && Steps(s, sm.0 + [MulRax(w, !i.isUnsigned, sm.1)] + rest, callee)
           == Steps(Step(u, MulRax(w, !i.isUnsigned, sm.1), callee), rest, callee)
      && sm.1 != Rax
      && Read(u, Rax, w) == Read(s, Dest, w)
      && Read(u, sm.1, w) == Multiplier(s, i, w)
  {
    var sm := MulSetup(i, w);
    var u := Steps(s, sm.0, callee);
    assert sm.0 + [MulRax(w, !i.isUnsigned, sm.1)] + rest == sm.0 + ([MulRax(w, !i.isUnsigned, sm.1)] + rest);
    StepsAppend(s, sm.0, [MulRax(w, !i.isUnsigned, sm.1)] + rest, callee);
    StepsCons(u, MulRax(w, !i.isUnsigned, sm.1), rest, callee);
    MulSetupEffect(i, w, s, callee);
  }

  // ------------------------------------------------------------------
  // MUL
  // ------------------------------------------------------------------

  /** MUL leaves the low w bits of src1 * src2 in dest, for mul and imul
      alike. */
  lemma MulComputes(i: Instr, s: State, callee: CallSite -> Clobber)
    requires i.dest.Value? && IsInt(i.dest.ty)
    ensures SelectMul(i).Emitted?
    ensures var w := WidthOf(i.dest.ty);
      Read(Steps(s, SelectMul(i).ops, callee), Dest, w)
        == (Read(s, Dest, w) * Multiplier(s, i, w)) % Modulus(w)
    ensures var w := WidthOf(i.dest.ty);
      MultiplierFits(i, w) ==>
        Read(Steps(s, SelectMul(i).ops, callee), Dest, w)
          == (Read(s, Dest, w) * Src2Value(s, i, w)) % Modulus(w)
  {
    var w := WidthOf(i.dest.ty);
    if MultiplierFits(i, w) { MultiplierIsSrc2(s, i, w); }
    var sm := MulSetup(i, w);
    assert SelectMul(i).ops == sm.0 + [MulRax(w, !i.isUnsigned, sm.1)] + [Mov(w, Dest, Rax)];
    MulPrefix(i, w, s, [Mov(w, Dest, Rax)], callee);
    var u := Steps(s, sm.0, callee);
    var v := Step(u, MulRax(w, !i.isUnsigned, sm.1), callee);
    MulRaxEffect(u, w, !i.isUnsigned, sm.1, callee);
    MoveResult(v, w, Rax, callee);
    LowHalfAgnostic(w, !i.isUnsigned, Read(s, Dest, w), Multiplier(s, i, w));
  }

  // ------------------------------------------------------------------
  // MUL_HI
  // ------------------------------------------------------------------

  /** MUL_HI with the 8-bit case taking the high byte from ah (moved to al
      by `xchg ah, al`), where the byte forms of mul/imul leave it. */
  function SelectMulHiFixed(i: Instr): Lowered {
    if i.dest.Value? && IsInt(i.dest.ty) then
      var w := WidthOf(i.dest.ty);
      var (setup, m) := MulSetup(i, w);
      if w == W8 then Emitted(setup + [MulRax(w, !i.isUnsigned, m)] + [XchgAhAl, Mov(W8, Dest, Rax)])
      else Emitted(setup + [MulRax(w, !i.isUnsigned, m)] + [Mov(w, Dest, Rdx)])
    else Unimplemented
  }

  /** The high half of a product as MUL_HI promises it: the unsigned
      quotient by 2^w for mul, the floor of the signed product by 2^w,
      re-encoded, for imul. */
  function HighHalf(w: Width, signed: bool, a: nat, b: nat): nat {
    Encode(w, Product(w, signed, a, b) / Modulus(w))
  }

  /** `xchg ah, al` brings the byte in ah down to al. */
  lemma XchgEffect(v: State, callee: CallSite -> Clobber)
    ensures Read(Step(v, XchgAhAl, callee), Rax, W8) == Ah(v)
    ensures Step(v, XchgAhAl, callee).regs.dest == v.regs.dest
  {
    var al, ah := Read(v, Rax, W8), Ah(v);
    var x := Merge(v.regs.rax, W8, ah);
    MergeLow(v.regs.rax, W8, ah);
    DivModUnique(WithAh(x, al), 0x100, (x / 0x1_0000) * 0x100 + al % 0x100, x % 0x100);
  }

  /** The corrected MUL_HI leaves the high half of the product in dest at
      every width. */
  lemma MulHiFixedComputes(i: Instr, s: State, callee: CallSite -> Clobber)
    requires i.dest.Value? && IsInt(i.dest.ty)
    ensures SelectMulHiFixed(i).Emitted?
    ensures var w := WidthOf(i.dest.ty);
      Read(Steps(s, SelectMulHiFixed(i).ops, callee), Dest, w)
        == HighHalf(w, !i.isUnsigned, Read(s, Dest, w), Multiplier(s, i, w))
    ensures var w := WidthOf(i.dest.ty);
      MultiplierFits(i, w) ==>
        Read(Steps(s, SelectMulHiFixed(i).ops, callee), Dest, w)
          == HighHalf(w, !i.isUnsigned, Read(s, Dest, w), Src2Value(s, i, w))
  {
    var w := WidthOf(i.dest.ty);
    if MultiplierFits(i, w) { MultiplierIsSrc2(s, i, w); }
    var sm := MulSetup(i, w);
    var u := Steps(s, sm.0, callee);
    var v := Step(u, MulRax(w, !i.isUnsigned, sm.1), callee);
    MulRaxEffect(u, w, !i.isUnsigned, sm.1, callee);
    if w == W8 {
      MulPrefix(i, w, s, [XchgAhAl, Mov(W8, Dest, Rax)], callee);
      Steps2(v, XchgAhAl, Mov(W8, Dest, Rax), callee);
      XchgEffect(v, callee);
      var x := Step(v, XchgAhAl, callee);
      Steps1(x, Mov(W8, Dest, Rax), callee);
      MoveResult(x, W8, Rax, callee);
    } else {
      MulPrefix(i, w, s, [Mov(w, Dest, Rdx)], callee);
      MoveResult(v, w, Rdx, callee);
    }
  }

  /** What the high half means: the unsigned high word for mul, and for
      imul a two's-complement number equal to the floor of the product by
      2^w. */
  lemma HighHalfMeaning(w: Width, signed: bool, a: nat, b: nat)
    requires a < Modulus(w) && b < Modulus(w)
    ensures !signed ==> HighHalf(w, signed, a, b) == (a * b) / Modulus(w)
    ensures signed ==> Signed(w, HighHalf(w, signed, a, b)) == (Signed(w, a) * Signed(w, b)) / Modulus(w)
  {
    HighHalfFits(w, signed, a, b);
  }

  /** MUL and the corrected MUL_HI on the same operands split the product:
      high * 2^w + low is the full unsigned product for mul, and the full
      signed product (high read as signed) for imul. */
  lemma ProductSplits(i: Instr, j: Instr, s: State, callee: CallSite -> Clobber)
    requires i.dest.Value? && IsInt(i.dest.ty)
    requires j.dest == i.dest && j.src2 == i.src2 && j.isUnsigned == i.isUnsigned
    ensures SelectMul(i).Emitted? && SelectMulHiFixed(j).Emitted?
    ensures var w := WidthOf(i.dest.ty);
      var m := Modulus(w);
      var a, b := Read(s, Dest, w), Multiplier(s, i, w);
      var lo := Read(Steps(s, SelectMul(i).ops, callee), Dest, w);
      var hi := Read(Steps(s, SelectMulHiFixed(j).ops, callee), Dest, w);
      && (i.isUnsigned ==> hi * m + lo == a * b)
      && (!i.isUnsigned ==> Signed(w, hi) * m + lo == Signed(w, a) * Signed(w, b))
  {
    var w := WidthOf(i.dest.ty);
    MulComputes(i, s, callee);
    MulHiFixedComputes(j, s, callee);
    assert Multiplier(s, j, w) == Multiplier(s, i, w);
    SplitValues(w, !i.isUnsigned, Read(s, Dest, w), Multiplier(s, i, w));
  }

  /** The value-level content of ProductSplits. */
  lemma SplitValues(w: Width, signed: bool, a: nat, b: nat)
    requires a < Modulus(w) && b < Modulus(w)
    ensures var m := Modulus(w);
      var hi := HighHalf(w, signed, a, b);
      && (!signed ==> hi * m + (a * b) % m == a * b)
      && (signed ==> Signed(w, hi) * m + (a * b) % m == Signed(w, a) * Signed(w, b))
  {
    var m := Modulus(w);
    HighHalfMeaning(w, signed, a, b);
    var p := Product(w, signed, a, b);
    LowHalfAgnostic(w, signed, a, b);
    assert p == (p / m) * m + p % m;
  }

  /** From 16 bits up the table's MUL_HI is the corrected one. */
  lemma MulHiWideAsWritten(i: Instr)
    requires i.dest.Value? && IsInt(i.dest.ty) && i.dest.ty != I8
    ensures SelectMulHi(i) == SelectMulHiFixed(i)
  {
    var w := WidthOf(i.dest.ty);
    var sm := MulSetup(i, w);
    assert sm.0 + [MulRax(w, !i.isUnsigned, sm.1), Mov(w, Dest, Rdx)]
        == sm.0 + [MulRax(w, !i.isUnsigned, sm.1)] + [Mov(w, Dest, Rdx)];
  }

  /** The table's 8-bit MUL_HI copies dl: whatever rdx held for a register
      multiplier, the constant itself for a constant one. The byte forms of
      mul/imul write ax and leave rdx alone. */
  lemma MulHi8ReadsDl(i: Instr, s: State, callee: CallSite -> Clobber)
    requires i.dest.Value? && i.dest.ty == I8
    ensures SelectMulHi(i).Emitted?
    ensures Read(Steps(s, SelectMulHi(i).ops, callee), Dest, W8)
         == if IsConstant(i.src2) then AsUint32(i.src2) % 0x100 else Read(s, Rdx, W8)
  {
    var sm := MulSetup(i, W8);
    var u := Steps(s, sm.0, callee);
    var v := Step(u, MulRax(W8, !i.isUnsigned, sm.1), callee);
    assert SelectMulHi(i).ops == sm.0 + [MulRax(W8, !i.isUnsigned, sm.1)] + [Mov(W8, Dest, Rdx)];
    MulPrefix(i, W8, s, [Mov(W8, Dest, Rdx)], callee);
    MulRaxEffect(u, W8, !i.isUnsigned, sm.1, callee);
    MoveResult(v, W8, Rdx, callee);
    if !IsConstant(i.src2) {
      Steps1(s, Mov(W8, Rax, Dest), callee);
      SetRegEffect(s, Rax, W8, Read(s, Dest, W8));
    }
  }

  /** `mul_hi.i8 dest, dest, src2`, unsigned, with dest bound to src1. */
  const MulHi8: Instr := Instr(MulHi, Value(I8, NotConst), Value(I8, NotConst), Value(I8, NotConst), NoOperand,
                               true, false, Alloc(true, false, LowIndex, false))

  /** 0x10 * 0x10 = 0x100 has high byte 1, but with dl clear the table's
      8-bit MUL_HI leaves 0 where the corrected sequence leaves 1. */
  lemma MulHi8Counterexample(i: Instr, s: State, callee: CallSite -> Clobber)
    requires i == MulHi8 && s.regs.dest == 0x10 && s.regs.src2 == 0x10 && s.regs.rdx == 0
    ensures SelectMulHi(i).Emitted? && SelectMulHiFixed(i).Emitted?
    ensures HighHalf(W8, false, Read(s, Dest, W8), Read(s, Src2, W8)) == 1
    ensures Read(Steps(s, SelectMulHi(i).ops, callee), Dest, W8) == 0
    ensures Read(Steps(s, SelectMulHiFixed(i).ops, callee), Dest, W8) == 1
  {
    assert i.dest.Value? && i.dest.ty == I8 && IsInt(i.dest.ty) && WidthOf(i.dest.ty) == W8;
    assert !IsConstant(i.src2) && !i.isUnsigned == false;
    assert Read(s, Dest, W8) == 0x10 && Read(s, Src2, W8) == 0x10 && Read(s, Rdx, W8) == 0;
    assert Multiplier(s, i, W8) == 0x10;
    HighHalfOf16Squared();
    MulHi8ReadsDl(i, s, callee);
    MulHiFixedComputes(i, s, callee);
  }

  lemma HighHalfOf16Squared()
    ensures HighHalf(W8, false, 0x10, 0x10) == 1
  {
    assert Product(W8, false, 0x10, 0x10) == 0x100;
  }

  // ------------------------------------------------------------------
  // ADD_CARRY
  // ------------------------------------------------------------------

  /** The byte the sequence places in ah: the low byte of src3 or of the
      constant. */
  function CarryByte(s: State, i: Instr): nat {
    if IsConstant(i.src3) then AsUint32(i.src3) % 0x100 else Read(s, Src3, W8)
  }

  /** The addend adc sees: src2's view, or the constant as a 32-bit
      immediate (sign-extended by the 64-bit form). */
  function Addend(s: State, i: Instr, w: Width): nat {
    if IsConstant(i.src2) then ImmValue(w, AsUint32(i.src2)) else Read(s, Src2, w)
  }

  /** A 64-bit pattern that is the sign extension of a 32-bit immediate. */
  predicate FitsImm32(c: nat) {
    c < 0x8000_0000 || 0x1_0000_0000_0000_0000 - 0x8000_0000 <= c
  }

  /** src2 survives adc's immediate form: it is a register, a constant
      below 64 bits, or a 64-bit constant whose pattern is a sign-extended
      32-bit value. */
  predicate AddendFits(i: Instr, w: Width) {
    IsConstant(i.src2) && w == W64 ==> FitsImm32(i.src2.k.bits % Modulus(W64))
  }

  /** Sign-extending the low 32 bits of a constant restores its 64-bit
      pattern when that pattern is a sign-extended 32-bit value. */
  lemma SignExtendedLow32(c: nat)
    requires FitsImm32(c % Modulus(W64))
    ensures SignExtended(W32, W64, c % 0x1_0000_0000) == c % Modulus(W64)
  {
    var m := 0x1_0000_0000_0000_0000;
    var lo := c % m;
    var u := c % 0x1_0000_0000;
    if lo < 0x8000_0000 {
      LowBitsOfLow32(c, W64);
      DivModUnique(u, m, 0, u);
    } else {
      NegativeLow32(c);
    }
  }

  lemma NegativeLow32(c: nat)
    requires 0x1_0000_0000_0000_0000 - 0x8000_0000 <= c % 0x1_0000_0000_0000_0000
    ensures SignExtended(W32, W64, c % 0x1_0000_0000) == c % 0x1_0000_0000_0000_0000
  {
    var m := 0x1_0000_0000_0000_0000;
    var lo := c % m;
    var u := lo - m + 0x1_0000_0000;
    DivModUnique(c, 0x1_0000_0000, (c / m) * 0x1_0000_0000 + 0xFFFF_FFFF, u);
    assert Signed(W32, c % 0x1_0000_0000) == lo - m;
    DivModUnique(lo - m, m, -1, lo);
  }

  /** Where it fits, the addend is the IR's src2. */
  lemma AddendIsSrc2(s: State, i: Instr, w: Width)
    requires AddendFits(i, w)
    ensures Addend(s, i, w) == Src2Value(s, i, w)
  {
    if IsConstant(i.src2) {
      if w == W64 {
        SignExtendedLow32(i.src2.k.bits);
      } else {
        LowBitsOfLow32(i.src2.k.bits, w);
      }
    }
  }

  /** An I64 add of the constant 2^31 adds 2^64 - 2^31, i.e. subtracts
      2^31. */
  lemma AddendSignExtends(s: State, i: Instr)
    requires i.src2 == Value(I64, Const(0x8000_0000))
    ensures Addend(s, i, W64) == 0xFFFF_FFFF_8000_0000 && Src2Value(s, i, W64) == 0x8000_0000
  {
  }

  /** Bits 8-15 of a register: what `mov al, ch` (or dh, bh) reads. */
  function HighByte(s: State, r: Gpr): nat {
    (Get(s.regs, r) / 0x100) % 0x100
  }

  /** src3's carry operand names src3's own low byte: src3 is a constant,
      or a register outside rbp, rsi and rdi. */
  predicate CarryNamesSrc3(i: Instr) {
    IsConstant(i.src3) || i.alloc.carry == LowIndex || i.alloc.carry == Extended
  }

  /** The byte the table's sequence places in ah: the carry byte, except
      that for src3 in rbp, rsi or rdi it is the second byte of rcx, rdx or
      rbx. */
  function LoadedCarry(s: State, i: Instr): nat {
    if CarryNamesSrc3(i) then CarryByte(s, i)
    else if i.alloc.carry == Rbp then HighByte(s, Rcx)
    else if i.alloc.carry == Rsi then HighByte(s, Rdx)
    else HighByte(s, Rbx)
  }

  /** The corrected carry load: `src3.cvt8()` names bpl, sil and dil, so
      every register above rbx goes through `mov al, src3b`. */
  function CarryLoadFixed(c: CarryReg): seq<Op> {
    if c == LowIndex then [MovAh(Src3)] else [Mov(W8, Rax, Src3), MovAhAl]
  }

  /** ADD_CARRY with the corrected carry load. */
  function SelectAddCarryFixed(i: Instr): Lowered {
    AddCarryWith(i, CarryLoadFixed(i.alloc.carry))
  }

  /** The carry setup: a constant through eax, or the given register load. */
  function CarrySetup(i: Instr, load: seq<Op>): seq<Op> {
    if IsConstant(i.src3) then [MovImm(W32, Rax, AsUint32(i.src3)), MovAhAl] else load
  }

  lemma WithAhHigh(x: U64, b: nat)
    ensures (WithAh(x, b) / 0x100) % 0x100 == b % 0x100
  {
    var p := x / 0x1_0000;
    DivModUnique(WithAh(x, b), 0x100, p * 0x100 + b % 0x100, x % 0x100);
    DivModUnique(p * 0x100 + b % 0x100, 0x100, p, b % 0x100);
  }

  lemma LowByteOfLow32(c: nat)
    ensures (c % 0x1_0000_0000) % 0x100 == c % 0x100
  {
    var q := c / 0x1_0000_0000;
    var r := c % 0x1_0000_0000;
    DivModUnique(c, 0x100, q * 0x100_0000 + r / 0x100, r % 0x100);
  }

  /** After the table's setup ah holds the loaded carry byte; dest and
      src2 are untouched. */
  lemma CarrySetupEffect(i: Instr, s: State, callee: CallSite -> Clobber)
    ensures var u := Steps(s, CarrySetup(i, CarryLoad(i.alloc.carry)), callee);
      && Ah(u) == LoadedCarry(s, i)
      && Get(u.regs, Dest) == Get(s.regs, Dest) && Get(u.regs, Src2) == Get(s.regs, Src2)
  {
    if IsConstant(i.src3) {
      var c := AsUint32(i.src3);
      Steps2(s, MovImm(W32, Rax, c), MovAhAl, callee);
      CarryFromConstant(s, c, callee);
    } else {
      match i.alloc.carry
      case LowIndex =>
        Steps1(s, MovAh(Src3), callee);
        CarryFromSrc3(s, callee);
      case Extended =>
        Steps2(s, Mov(W8, Rax, Src3), MovAhAl, callee);
        CarryThroughAl(s, callee);
      case Rbp =>
        Steps2(s, MovAlHigh(Rcx), MovAhAl, callee);
        CarryFromHighByte(s, Rcx, callee);
      case Rsi =>
        Steps2(s, MovAlHigh(Rdx), MovAhAl, callee);
        CarryFromHighByte(s, Rdx, callee);
      case Rdi =>
        Steps2(s, MovAlHigh(Rbx), MovAhAl, callee);
        CarryFromHighByte(s, Rbx, callee);
    }
  }

  /** After the corrected setup ah holds the carry byte; dest and src2 are
      untouched. */
  lemma CarrySetupFixedEffect(i: Instr, s: State, callee: CallSite -> Clobber)
    ensures var u := Steps(s, CarrySetup(i, CarryLoadFixed(i.alloc.carry)), callee);
      && Ah(u) == CarryByte(s, i)
      && Get(u.regs, Dest) == Get(s.regs, Dest) && Get(u.regs, Src2) == Get(s.regs, Src2)
  {
    if IsConstant(i.src3) {
      var c := AsUint32(i.src3);
      Steps2(s, MovImm(W32, Rax, c), MovAhAl, callee);
      CarryFromConstant(s, c, callee);
    } else if i.alloc.carry == LowIndex {
      Steps1(s, MovAh(Src3), callee);
      CarryFromSrc3(s, callee);
    } else {
      Steps2(s, Mov(W8, Rax, Src3), MovAhAl, callee);
      CarryThroughAl(s, callee);
    }
  }

  /** `mov ah, al` copies the byte in al. */
  lemma MovAhAlEffect(s: State, callee: CallSite -> Clobber)
    ensures Ah(Step(s, MovAhAl, callee)) == Read(s, Rax, W8)
    ensures Step(s, MovAhAl, callee).regs == s.regs.(rax := Step(s, MovAhAl, callee).regs.rax)
  {
    WithAhHigh(s.regs.rax, Read(s, Rax, W8));
  }

  /** `mov eax, c; mov ah, al` */
  lemma CarryFromConstant(s: State, c: nat, callee: CallSite -> Clobber)
    ensures var u := Step(Step(s, MovImm(W32, Rax, c), callee), MovAhAl, callee);
      Ah(u) == c % 0x100 && u.regs.dest == s.regs.dest && u.regs.src2 == s.regs.src2
  {
    var s1 := Step(s, MovImm(W32, Rax, c), callee);
    assert s1 == SetReg(s, Rax, W32, c);
    SetRegEffect(s, Rax, W32, c);
    LowByteOfLow32(s1.regs.rax);
    LowByteOfLow32(c);
    MovAhAlEffect(s1, callee);
  }

  /** `mov ah, src3b` */
  lemma CarryFromSrc3(s: State, callee: CallSite -> Clobber)
    ensures var u := Step(s, MovAh(Src3), callee);
      Ah(u) == Read(s, Src3, W8) && u.regs.dest == s.regs.dest && u.regs.src2 == s.regs.src2
  {
    WithAhHigh(s.regs.rax, Read(s, Src3, W8));
  }

  /** `mov al, src3b; mov ah, al` */
  lemma CarryThroughAl(s: State, callee: CallSite -> Clobber)
    ensures var u := Step(Step(s, Mov(W8, Rax, Src3), callee), MovAhAl, callee);
      Ah(u) == Read(s, Src3, W8) && u.regs.dest == s.regs.dest && u.regs.src2 == s.regs.src2
  {
    var b := Read(s, Src3, W8);
    var s1 := Step(s, Mov(W8, Rax, Src3), callee);
    assert s1 == SetReg(s, Rax, W8, b);
    SetRegEffect(s, Rax, W8, b);
    assert b % 0x100 == b;
    MovAhAlEffect(s1, callee);
  }

  /** `mov al, ch; mov ah, al` (or dh, bh): ah gets bits 8-15 of r. */
  lemma CarryFromHighByte(s: State, r: Gpr, callee: CallSite -> Clobber)
    ensures var u := Step(Step(s, MovAlHigh(r), callee), MovAhAl, callee);
      Ah(u) == HighByte(s, r) && u.regs.dest == s.regs.dest && u.regs.src2 == s.regs.src2
  {
    var b := HighByte(s, r);
    var s1 := Step(s, MovAlHigh(r), callee);
    assert s1 == SetReg(s, Rax, W8, b);
    SetRegEffect(s, Rax, W8, b);
    assert b % 0x100 == b;
    MovAhAlEffect(s1, callee);
  }

  /** `sahf; adc dest, addend` in closed form on dest and CF. */
  lemma SahfAdcEffect(u: State, w: Width, o: Src, callee: CallSite -> Clobber)
    requires o == R(Src2) || o.Imm?
    ensures var sum := Read(u, Dest, w) + SrcValue(u, o, w) + Ah(u) % 2;
      var t := Steps(u, [Sahf, Adc(w, Dest, o)], callee);
      && Read(t, Dest, w) == sum % Modulus(w)
      && (t.flags.cf <==> sum >= Modulus(w))
  {
    Steps2(u, Sahf, Adc(w, Dest, o), callee);
    SahfStep(u, callee);
    var u1 := u.(flags := SahfFlags(Ah(u), u.flags));
    AdcStepIs(u1, w, Dest, o, callee);
    var sum := Read(u1, Dest, w) + SrcValue(u1, o, w) + (if u1.flags.cf then 1 else 0);
    assert Read(u1, Dest, w) == Read(u, Dest, w) && SrcValue(u1, o, w) == SrcValue(u, o, w);
    SetRegEffect(u1, Dest, w, sum);
  }

  /** adc's second operand: src2's register or the constant. */
  function AddendSrc(i: Instr): Src {
    if IsConstant(i.src2) then Imm(AsUint32(i.src2)) else R(Src2)
  }

  /** sahf and adc after a carry setup that left the byte b in ah and dest
      and src2 as they were, on values. */
  lemma AddCarryRun(i: Instr, w: Width, s: State, u: State, b: nat, callee: CallSite -> Clobber)
    requires Ah(u) == b
    requires Get(u.regs, Dest) == Get(s.regs, Dest) && Get(u.regs, Src2) == Get(s.regs, Src2)
    ensures var t := Steps(u, [Sahf, Adc(w, Dest, AddendSrc(i))], callee);
      Read(t, Dest, w) == (Read(s, Dest, w) + Addend(s, i, w) + b % 2) % Modulus(w)
    ensures var t := Steps(u, [Sahf, Adc(w, Dest, AddendSrc(i))], callee);
      t.flags.cf <==> Read(s, Dest, w) + Addend(s, i, w) + b % 2 >= Modulus(w)
  {
    AddendKept(i, s, u, w);
    SahfAdcEffect(u, w, AddendSrc(i), callee);
  }

  /** The carry setup changes neither dest's view nor the addend. */
  lemma AddendKept(i: Instr, s: State, u: State, w: Width)
    requires Get(u.regs, Dest) == Get(s.regs, Dest) && Get(u.regs, Src2) == Get(s.regs, Src2)
    ensures Read(u, Dest, w) == Read(s, Dest, w)
    ensures AddendSrc(i) == R(Src2) || AddendSrc(i).Imm?
    ensures SrcValue(u, AddendSrc(i), w) == Addend(s, i, w)
  {
  }

  /** ADD_CARRY emits the carry setup, then sahf and adc. */
  lemma AddCarryOps(i: Instr, load: seq<Op>)
    requires i.dest.Value? && IsInt(i.dest.ty)
    ensures AddCarryWith(i, load).Emitted?
    ensures AddCarryWith(i, load).ops == CarrySetup(i, load) + [Sahf, Adc(WidthOf(i.dest.ty), Dest, AddendSrc(i))]
  {
  }

  /** The ADD_CARRY sequence on values, for a setup that leaves b in ah:
      dest's view and CF after it. */
  lemma AddCarrySum(i: Instr, load: seq<Op>, b: nat, s: State, callee: CallSite -> Clobber)
    requires i.dest.Value? && IsInt(i.dest.ty)
    requires var u := Steps(s, CarrySetup(i, load), callee);
      Ah(u) == b && Get(u.regs, Dest) == Get(s.regs, Dest) && Get(u.regs, Src2) == Get(s.regs, Src2)
    ensures AddCarryWith(i, load).Emitted?
    ensures var w := WidthOf(i.dest.ty);
      var t := Steps(s, AddCarryWith(i, load).ops, callee);
      Read(t, Dest, w) == (Read(s, Dest, w) + Addend(s, i, w) + b % 2) % Modulus(w)
    ensures var w := WidthOf(i.dest.ty);
      var t := Steps(s, AddCarryWith(i, load).ops, callee);
      t.flags.cf <==> Read(s, Dest, w) + Addend(s, i, w) + b % 2 >= Modulus(w)
  {
    var w := WidthOf(i.dest.ty);
    var u := Steps(s, CarrySetup(i, load), callee);
    AddCarryOps(i, load);
    StepsAppend(s, CarrySetup(i, load), [Sahf, Adc(w, Dest, AddendSrc(i))], callee);
    AddCarryRun(i, w, s, u, b, callee);
  }

  /** The exact sum from dest and CF, for a setup that leaves b in ah. */
  lemma AddCarryExact(i: Instr, load: seq<Op>, b: nat, s: State, callee: CallSite -> Clobber)
    requires i.dest.Value? && IsInt(i.dest.ty)
    requires var u := Steps(s, CarrySetup(i, load), callee);
      Ah(u) == b && Get(u.regs, Dest) == Get(s.regs, Dest) && Get(u.regs, Src2) == Get(s.regs, Src2)
    ensures AddCarryWith(i, load).Emitted?
    ensures var w := WidthOf(i.dest.ty);
      var t := Steps(s, AddCarryWith(i, load).ops, callee);
      var sum := Read(s, Dest, w) + Addend(s, i, w) + b % 2;
      Read(t, Dest, w) == sum % Modulus(w) && Read(t, Dest, w) + (if t.flags.cf then Modulus(w) else 0) == sum
  {
    var w := WidthOf(i.dest.ty);
    AddCarrySum(i, load, b, s, callee);
    var t := Steps(s, AddCarryWith(i, load).ops, callee);
    ReadFits(s, Dest, w);
    CarryOut(Read(s, Dest, w), Addend(s, i, w), b % 2, Modulus(w), Read(t, Dest, w), t.flags.cf);
  }

  /** ADD_CARRY as the table writes it adds src1, the addend and bit 0 of
      the byte it loads into ah: dest receives the sum modulo 2^w and CF the
      carry out of it, so together they give the exact sum. That byte is the
      carry when src3 is a constant or a register other than rbp, rsi and
      rdi; the sum is then the IR's whenever the addend fits. */
  lemma AddCarryComputes(i: Instr, s: State, callee: CallSite -> Clobber)
    requires i.dest.Value? && IsInt(i.dest.ty)
    ensures SelectAddCarry(i).Emitted?
    ensures var w := WidthOf(i.dest.ty);
      var t := Steps(s, SelectAddCarry(i).ops, callee);
      var sum := Read(s, Dest, w) + Addend(s, i, w) + LoadedCarry(s, i) % 2;
      Read(t, Dest, w) == sum % Modulus(w)
    ensures var w := WidthOf(i.dest.ty);
      var t := Steps(s, SelectAddCarry(i).ops, callee);
      var sum := Read(s, Dest, w) + Addend(s, i, w) + LoadedCarry(s, i) % 2;
      Read(t, Dest, w) + (if t.flags.cf then Modulus(w) else 0) == sum
    ensures CarryNamesSrc3(i) ==> LoadedCarry(s, i) == CarryByte(s, i)
    ensures var w := WidthOf(i.dest.ty);
      var t := Steps(s, SelectAddCarry(i).ops, callee);
      var sum := Read(s, Dest, w) + Src2Value(s, i, w) + CarryByte(s, i) % 2;
      AddendFits(i, w) && CarryNamesSrc3(i) ==> Read(t, Dest, w) + (if t.flags.cf then Modulus(w) else 0) == sum
  {
    var w := WidthOf(i.dest.ty);
    if AddendFits(i, w) { AddendIsSrc2(s, i, w); }
    CarrySetupEffect(i, s, callee);
    AddCarryExact(i, CarryLoad(i.alloc.carry), LoadedCarry(s, i), s, callee);
  }

  /** The corrected ADD_CARRY adds src1, the addend and bit 0 of the carry
      byte for every register assignment, and the IR's src2 whenever the
      addend fits. */
  lemma AddCarryFixedComputes(i: Instr, s: State, callee: CallSite -> Clobber)
    requires i.dest.Value? && IsInt(i.dest.ty)
    ensures SelectAddCarryFixed(i).Emitted?
    ensures var w := WidthOf(i.dest.ty);
      var t := Steps(s, SelectAddCarryFixed(i).ops, callee);
      var sum := Read(s, Dest, w) + Addend(s, i, w) + CarryByte(s, i) % 2;
      Read(t, Dest, w) == sum % Modulus(w) && Read(t, Dest, w) + (if t.flags.cf then Modulus(w) else 0) == sum
    ensures var w := WidthOf(i.dest.ty);
      var t := Steps(s, SelectAddCarryFixed(i).ops, callee);
      var sum := Read(s, Dest, w) + Src2Value(s, i, w) + CarryByte(s, i) % 2;
      AddendFits(i, w) ==> Read(t, Dest, w) + (if t.flags.cf then Modulus(w) else 0) == sum
  {
    var w := WidthOf(i.dest.ty);
    if AddendFits(i, w) { AddendIsSrc2(s, i, w); }
    CarrySetupFixedEffect(i, s, callee);
    AddCarryExact(i, CarryLoadFixed(i.alloc.carry), CarryByte(s, i), s, callee);
  }

  /** Where the carry operand names src3's low byte, the corrected
      ADD_CARRY is the table's. */
  lemma AddCarryFixedAgrees(i: Instr)
    requires CarryNamesSrc3(i)
    ensures SelectAddCarryFixed(i) == SelectAddCarry(i)
  {
  }

  /** A 32-bit ADD_CARRY of registers with src3 in rsi, where dest, src2
      and src3 hold 0 and rdx (the memory base) holds 0x100: the table's
      sequence reads dh, bit 0 of which is 1, and leaves 1 in dest where
      the IR sum is 0; the corrected sequence leaves 0. */
  lemma AddCarryRsiCounterexample(i: Instr, s: State, callee: CallSite -> Clobber)
    requires i.dest == Value(I32, NotConst) && !IsConstant(i.src2) && !IsConstant(i.src3) && i.alloc.carry == Rsi
    requires s.regs.dest == 0 && s.regs.src2 == 0 && s.regs.src3 == 0 && s.regs.rdx == 0x100
    ensures Read(Steps(s, SelectAddCarry(i).ops, callee), Dest, W32) == 1
    ensures Read(Steps(s, SelectAddCarryFixed(i).ops, callee), Dest, W32) == 0
  {
    AddCarryRsiValues(i, s);
    AddCarryOfOddByte(i, s, callee);
    AddCarryFixedOfZeros(i, s, callee);
  }

  /** A 32-bit ADD_CARRY of zeros whose loaded byte is odd leaves 1. */
  lemma AddCarryOfOddByte(i: Instr, s: State, callee: CallSite -> Clobber)
    requires i.dest.Value? && IsInt(i.dest.ty) && WidthOf(i.dest.ty) == W32
    requires Read(s, Dest, W32) == 0 && Addend(s, i, W32) == 0 && LoadedCarry(s, i) == 1
    ensures Read(Steps(s, SelectAddCarry(i).ops, callee), Dest, W32) == 1
  {
    AddCarryComputes(i, s, callee);
    assert 1 % Modulus(W32) == 1 by { DivModUnique(1, Modulus(W32), 0, 1); }
  }

  /** The corrected 32-bit ADD_CARRY of zeros and an even carry byte leaves 0. */
  lemma AddCarryFixedOfZeros(i: Instr, s: State, callee: CallSite -> Clobber)
    requires i.dest.Value? && IsInt(i.dest.ty) && WidthOf(i.dest.ty) == W32
    requires Read(s, Dest, W32) == 0 && Addend(s, i, W32) == 0 && CarryByte(s, i) == 0
    ensures Read(Steps(s, SelectAddCarryFixed(i).ops, callee), Dest, W32) == 0
  {
    AddCarryFixedComputes(i, s, callee);
  }

  /** The operands of the rsi example: every IR input is 0, the byte the
      table loads is 1. */
  lemma AddCarryRsiValues(i: Instr, s: State)
    requires i.dest == Value(I32, NotConst) && !IsConstant(i.src2) && !IsConstant(i.src3) && i.alloc.carry == Rsi
    requires s.regs.dest == 0 && s.regs.src2 == 0 && s.regs.src3 == 0 && s.regs.rdx == 0x100
    ensures IsInt(i.dest.ty) && WidthOf(i.dest.ty) == W32
    ensures Read(s, Dest, W32) == 0 && Addend(s, i, W32) == 0
    ensures LoadedCarry(s, i) == 1 && CarryByte(s, i) == 0
  {
    assert HighByte(s, Rdx) == 1;
  }

  /** A sum of two w-bit values and a carry bit is its remainder plus, when
      it carries out, one modulus. */
  lemma CarryOut(a: nat, b: nat, c: nat, m: nat, r: nat, cf: bool)
    requires a < m && b < m && c < 2
    requires r == (a + b + c) % m && (cf <==> a + b + c >= m)
    ensures r + (if cf then m else 0) == a + b + c
  {
    var sum := a + b + c;
    DivModUnique(sum, m, if sum >= m then 1 else 0, if sum >= m then sum - m else sum);
  }
}
