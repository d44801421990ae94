/** The x86 status flags that the emitted sequences read, the flags `cmp`
    leaves behind, and the condition codes of setcc/jcc. */
module Flags {
  import opened Bits

  /** Carry, zero, sign and overflow flags. Parity and auxiliary carry are
      never read by the modelled sequences. */
  datatype FlagState = FlagState(cf: bool, zf: bool, sf: bool, of: bool)

  /** Condition codes of setcc and jcc (Z/NZ are spelled E/NE, C is B). */
  datatype Cond = E | NE | L | GE | LE | G | B | AE | BE | A

  /** Whether condition c holds in flag state f, per the Intel manual's
      table of condition codes. */
  predicate Holds(c: Cond, f: FlagState) {
    match c
    case E => f.zf
    case NE => !f.zf
    case L => f.sf != f.of
    case GE => f.sf == f.of
    case LE => f.zf || f.sf != f.of
    case G => !f.zf && f.sf == f.of
    case B => f.cf
    case AE => !f.cf
    case BE => f.cf || f.zf
    case A => !f.cf && !f.zf
  }

  /** The condition code whose encoding differs from c in the lowest bit:
      the complementary condition. */
  function Negate(c: Cond): (n: Cond)
    ensures forall f :: Holds(n, f) == !Holds(c, f)
  {
    match c
    case E => NE
    case NE => E
    case L => GE
    case GE => L
    case LE => G
    case G => LE
    case B => AE
    case AE => B
    case BE => A
    case A => BE
  }

  lemma NegateInvolutive(c: Cond)
    ensures Negate(Negate(c)) == c
  {
  }

  /** Signed conditions compare via SF/OF, unsigned ones via CF. */
  predicate IsSignedCond(c: Cond) {
    c == L || c == GE || c == LE || c == G
  }

  predicate IsUnsignedCond(c: Cond) {
    c == B || c == AE || c == BE || c == A
  }

  function SignBit(w: Width, v: nat): bool {
    v % Modulus(w) >= SignWeight(w)
  }

  /** The flags `cmp a, b` leaves at width w: the flags of the wrapped
      difference a - b, with borrow (CF) and signed overflow (OF) as the
      Intel manual defines them for SUB. */
  function CmpFlags(w: Width, a: nat, b: nat): (f: FlagState)
    ensures f.zf == (a % Modulus(w) == b % Modulus(w))
  {
    var x, y := a % Modulus(w), b % Modulus(w);
    var r := (x - y) % Modulus(w);
    FlagState(
      cf := x < y,
      zf := r == 0,
      sf := SignBit(w, r),
      of := SignBit(w, x) != SignBit(w, y) && SignBit(w, r) != SignBit(w, x))
  }

  /** The flags `test r, r` leaves: ZF says whether the value is zero; CF and
      OF are cleared. */
  function TestFlags(w: Width, v: nat): (f: FlagState)
    ensures f.zf <==> v % Modulus(w) == 0
  {
    var x := v % Modulus(w);
    FlagState(cf := false, zf := x == 0, sf := SignBit(w, x), of := false)
  }

  /** After `cmp a, b`, CF is set exactly when a < b as unsigned numbers. */
  lemma CmpUnsigned(w: Width, a: nat, b: nat)
    ensures Holds(B, CmpFlags(w, a, b)) <==> Encode(w, a) < Encode(w, b)
    ensures Holds(BE, CmpFlags(w, a, b)) <==> Encode(w, a) <= Encode(w, b)
    ensures Holds(A, CmpFlags(w, a, b)) <==> Encode(w, a) > Encode(w, b)
    ensures Holds(AE, CmpFlags(w, a, b)) <==> Encode(w, a) >= Encode(w, b)
  {
  }

  /** After `cmp a, b`, SF != OF holds exactly when a < b as two's-complement
      numbers; this is the fact the signed setcc forms rely on. */
  lemma CmpSignedLess(w: Width, a: nat, b: nat)
    ensures Holds(L, CmpFlags(w, a, b)) <==> Signed(w, a) < Signed(w, b)
  {
    var m, h := Modulus(w), SignWeight(w);
    ModulusIsTwiceSignWeight(w);
    var x, y := a % m, b % m;
    var d := x - y;
    var r := d % m;
    if d >= 0 {
      DivModUnique(d, m, 0, d);
    } else {
      DivModUnique(d, m, -1, d + m);
    }
    DivModUnique(r, m, 0, r);
    DivModUnique(x, m, 0, x);
    DivModUnique(y, m, 0, y);
    assert SignBit(w, r) == (r >= h);
    assert SignBit(w, x) == (x >= h);
    assert SignBit(w, y) == (y >= h);
    assert Signed(w, a) == if x < h then x else x - m;
    assert Signed(w, b) == if y < h then y else y - m;
    SignedLessCore(m, h, x, y, r);
  }

  /** The sign/overflow argument of CmpSignedLess over plain integers:
      x, y are w-bit patterns, r their wrapped difference. */
  lemma SignedLessCore(m: int, h: int, x: int, y: int, r: int)
    requires h > 0 && m == 2 * h
    requires 0 <= x < m && 0 <= y < m
    requires (x - y >= 0 && r == x - y) || (x - y < 0 && r == x - y + m)
    ensures ((r >= h) != ((x >= h) != (y >= h) && (r >= h) != (x >= h)))
        <==> (if x < h then x else x - m) < (if y < h then y else y - m)
  {
    if x >= h && y < h {
    } else if x < h && y >= h {
    } else {
    }
  }

  lemma CmpSigned(w: Width, a: nat, b: nat)
    ensures Holds(L, CmpFlags(w, a, b)) <==> Signed(w, a) < Signed(w, b)
    ensures Holds(LE, CmpFlags(w, a, b)) <==> Signed(w, a) <= Signed(w, b)
    ensures Holds(G, CmpFlags(w, a, b)) <==> Signed(w, a) > Signed(w, b)
    ensures Holds(GE, CmpFlags(w, a, b)) <==> Signed(w, a) >= Signed(w, b)
  {
    CmpSignedLess(w, a, b);
    ModulusIsTwiceSignWeight(w);
    assert CmpFlags(w, a, b).zf <==> Signed(w, a) == Signed(w, b);
  }

  /** Flags after `sahf`: CF, ZF and SF come from bits 0, 6 and 7 of AH; OF is
      untouched. */
  function SahfFlags(ah: nat, f: FlagState): (g: FlagState)
    ensures g.cf <==> ah % 2 == 1
    ensures g.of == f.of
  {
    var b := ah % 0x100;
    FlagState(cf := b % 2 == 1, zf := (b / 0x40) % 2 == 1, sf := b >= 0x80, of := f.of)
  }
}
