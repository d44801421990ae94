/** Width-indexed bounded naturals: the value domain of x86 general-purpose
    registers, and the pure bit functions the emitted instructions compute
    (movzx/movsx, bswap, xchg ah,al, bsr, xor with a low mask). */
module Bits {

  /** Operand widths of the integer instruction forms. */
  datatype Width = W8 | W16 | W32 | W64

  function BitCount(w: Width): nat {
    match w
    case W8 => 8
    case W16 => 16
    case W32 => 32
    case W64 => 64
  }

  /** 2^BitCount(w), written as a constant per width. */
  function Modulus(w: Width): nat {
    match w
    case W8 => 0x100
    case W16 => 0x1_0000
    case W32 => 0x1_0000_0000
    case W64 => 0x1_0000_0000_0000_0000
  }

  /** 2^(BitCount(w) - 1): the weight of the sign bit. */
  function SignWeight(w: Width): nat {
    match w
    case W8 => 0x80
    case W16 => 0x8000
    case W32 => 0x8000_0000
    case W64 => 0x8000_0000_0000_0000
  }

  lemma ModulusIsTwiceSignWeight(w: Width)
    ensures Modulus(w) == 2 * SignWeight(w) && SignWeight(w) > 0
  {
  }

  function Pow2(n: nat): (r: nat)
    ensures r >= 1
  {
    if n == 0 then 1 else 2 * Pow2(n - 1)
  }

  lemma ModulusIsPow2(w: Width)
    ensures Modulus(w) == Pow2(BitCount(w))
    ensures SignWeight(w) == Pow2(BitCount(w) - 1)
  {
    match w
    case W8 => assert Pow2(8) == 0x100 && Pow2(7) == 0x80;
    case W16 => Pow16();
    case W32 => Pow16(); Pow32();
    case W64 => Pow16(); Pow32(); Pow64();
  }

  lemma Pow16()
    ensures Pow2(16) == 0x1_0000 && Pow2(15) == 0x8000
  {
    assert Pow2(8) == 0x100 && Pow2(7) == 0x80;
    PowAdd(8, 8);
    PowAdd(8, 7);
  }

  lemma Pow32()
    requires Pow2(16) == 0x1_0000 && Pow2(15) == 0x8000
    ensures Pow2(32) == 0x1_0000_0000 && Pow2(31) == 0x8000_0000
  {
    PowAdd(16, 16);
    PowAdd(16, 15);
  }

  lemma Pow64()
    requires Pow2(32) == 0x1_0000_0000 && Pow2(31) == 0x8000_0000
    ensures Pow2(64) == 0x1_0000_0000_0000_0000 && Pow2(63) == 0x8000_0000_0000_0000
  {
    PowAdd(32, 32);
    PowAdd(32, 31);
  }

  lemma {:induction false} PowAdd(a: nat, b: nat)
    ensures Pow2(a + b) == Pow2(a) * Pow2(b)
    decreases a
  {
    if a > 0 {
      PowAdd(a - 1, b);
    }
  }

  /** Two's-complement reading of the low w bits. */
  function Signed(w: Width, v: nat): (r: int)
    ensures -(SignWeight(w) as int) <= r < SignWeight(w) as int
  {
    var u := v % Modulus(w);
    if u < SignWeight(w) then u else u - Modulus(w)
  }

  /** Two's-complement encoding of an integer in w bits (wrap-around); of a
      natural number, the w-bit register content it leaves after truncation. */
  function Encode(w: Width, x: int): (r: nat)
    ensures r < Modulus(w)
  {
    x % Modulus(w)
  }

  lemma SignedEncode(w: Width, x: int)
    requires -(SignWeight(w) as int) <= x < SignWeight(w) as int
    ensures Signed(w, Encode(w, x)) == x
  {
    ModulusIsTwiceSignWeight(w);
    if x >= 0 {
      DivModUnique(x, Modulus(w), 0, x);
    } else {
      DivModUnique(x, Modulus(w), -1, x + Modulus(w));
    }
  }

  lemma EncodeSigned(w: Width, v: nat)
    requires v < Modulus(w)
    ensures Encode(w, Signed(w, v)) == v
  {
    var m := Modulus(w);
    DivModUnique(v, m, 0, v);
    if v >= SignWeight(w) {
      DivModUnique(v - m, m, -1, v);
    }
  }

  function Narrower(a: Width, b: Width): bool {
    BitCount(a) < BitCount(b)
  }

  /** What movsx computes: the low `from` bits, sign-extended to `to` bits. */
  function SignExtended(from: Width, to: Width, v: nat): (r: nat)
    ensures r < Modulus(to)
  {
    Encode(to, Signed(from, v))
  }

  /** movsx keeps the signed value: reading the wider result as signed gives
      the narrow operand's signed value. */
  lemma SignExtendKeepsValue(from: Width, to: Width, v: nat)
    requires Narrower(from, to)
    ensures Signed(to, SignExtended(from, to, v)) == Signed(from, v)
  {
    ModulusIsTwiceSignWeight(from);
    ModulusIsTwiceSignWeight(to);
    assert SignWeight(from) <= SignWeight(to);
    SignedEncode(to, Signed(from, v));
  }

  /** movsx also keeps the low bits: truncating back yields the operand. */
  lemma SignExtendThenTruncate(from: Width, to: Width, v: nat)
    requires Narrower(from, to)
    ensures Encode(from, SignExtended(from, to, v)) == Encode(from, v)
  {
    var u := v % Modulus(from);
    ModulusIsTwiceSignWeight(from);
    assert Signed(from, v) == if u < SignWeight(from) then u else u - Modulus(from);
    SignExtendLowBits(Modulus(from), Modulus(to), WidthRatio(from, to), SignWeight(from), u);
  }

  /** The arithmetic behind SignExtendThenTruncate, over plain integers: the
      m-bit pattern u read as signed, wrapped to n = k * m bits, still has u
      as its low part. */
  lemma SignExtendLowBits(m: int, n: int, k: int, h: int, u: int)
    requires h > 0 && m == 2 * h && k >= 2 && n == k * m && 0 <= u < m
    ensures ((if u < h then u else u - m) % n) % m == u
  {
    if u < h {
      DivModUnique(u, n, 0, u);
      DivModUnique(u, m, 0, u);
    } else {
      assert (k - 1) * m == n - m;
      DivModUnique(u - m, n, -1, (k - 1) * m + u);
      DivModUnique((k - 1) * m + u, m, k - 1, u);
    }
  }

  /** Modulus(to) / Modulus(from), an exact quotient for a wider `to`. */
  function WidthRatio(from: Width, to: Width): (k: nat)
    requires Narrower(from, to)
    ensures k >= 2 && Modulus(to) == k * Modulus(from)
  {
    match (from, to)
    case (W8, W16) => 0x100
    case (W8, W32) => 0x100_0000
    case (W8, W64) => 0x100_0000_0000_0000
    case (W16, W32) => 0x1_0000
    case (W16, W64) => 0x1_0000_0000_0000
    case (W32, W64) => 0x1_0000_0000
  }

  lemma ModAddMultiple(u: nat, k: nat, m: nat)
    requires m > 0 && u < m
    ensures (k * m + u) % m == u
  {
    DivModUnique(k * m + u, m, k, u);
  }

  /** Quotient and remainder are determined by any decomposition
      x == q * d + r with 0 <= r < d. */
  lemma DivModUnique(x: int, d: int, q: int, r: int)
    requires d > 0 && 0 <= r < d && x == q * d + r
    ensures x / d == q && x % d == r
  {
    var q0, r0 := x / d, x % d;
    assert x == q0 * d + r0;
    if q0 < q {
      assert (q - q0) * d == r0 - r;
      assert (q - q0) * d >= d by { MulMonotone(q - q0, d); }
      assert false;
    } else if q0 > q {
      assert (q0 - q) * d == r - r0;
      assert (q0 - q) * d >= d by { MulMonotone(q0 - q, d); }
      assert false;
    }
  }

  lemma MulMonotone(k: int, d: int)
    requires k >= 1 && d > 0
    ensures k * d >= d
  {
  }

  // ------------------------------------------------------------------
  // xor, as used by the CNTLZ sequences (xor r8, imm)
  // ------------------------------------------------------------------

  /** Bitwise exclusive or of two naturals. */
  function Xor(a: nat, b: nat): nat
    decreases a + b
  {
    if a == 0 && b == 0 then 0
    else (a % 2 + b % 2) % 2 + 2 * Xor(a / 2, b / 2)
  }

  /** Xor with an all-ones mask of n bits is subtraction from that mask. */
  lemma {:induction false} XorAllOnes(k: nat, n: nat)
    requires k < Pow2(n)
    ensures Xor(k, Pow2(n) - 1) == Pow2(n) - 1 - k
    decreases n
  {
    if n == 0 {
      assert k == 0;
    } else {
      var h := Pow2(n - 1);
      var m := Pow2(n) - 1;
      assert m == 2 * h - 1;
      DivModUnique(m, 2, h - 1, 1);
      DivModUnique(k, 2, k / 2, k % 2);
      assert k / 2 < h;
      XorAllOnes(k / 2, n - 1);
      assert Xor(k, m) == (k % 2 + 1) % 2 + 2 * Xor(k / 2, h - 1);
      AllOnesStep(k, h);
    }
  }

  /** The arithmetic of one bit of XorAllOnes: flipping the low bit of k and
      subtracting the rest from h - 1 subtracts k from 2h - 1. */
  lemma AllOnesStep(k: nat, h: nat)
    requires 1 <= h && k < 2 * h
    ensures (k % 2 + 1) % 2 + 2 * (h - 1 - k / 2) == 2 * h - 1 - k
  {
    DivModUnique(k, 2, k / 2, k % 2);
  }

  /** Xor with a mask below 2^n leaves the bits at and above n alone. */
  lemma XorLowMask(q: nat, r: nat, b: nat, n: nat)
    requires r < Pow2(n) && b < Pow2(n)
    ensures Xor(q * Pow2(n) + r, b) == q * Pow2(n) + Xor(r, b)
  {
    XorShifted(q, r, b, n);
    ShiftIsProduct(q, n);
  }

  /** q shifted left by n bits, doubling once per bit. */
  function Shifted(q: nat, n: nat): nat {
    if n == 0 then q else 2 * Shifted(q, n - 1)
  }

  lemma {:induction false} ShiftIsProduct(q: nat, n: nat)
    ensures Shifted(q, n) == q * Pow2(n)
  {
    if n > 0 {
      ShiftIsProduct(q, n - 1);
      assert q * Pow2(n) == 2 * (q * Pow2(n - 1)) by {
        assert Pow2(n) == 2 * Pow2(n - 1);
      }
    }
  }

  /** XorLowMask with the high part as a shift, so that each step is linear. */
  lemma {:induction false} XorShifted(q: nat, r: nat, b: nat, n: nat)
    requires r < Pow2(n) && b < Pow2(n)
    ensures Xor(Shifted(q, n) + r, b) == Shifted(q, n) + Xor(r, b)
  {
    if n == 0 {
      assert r == 0 && b == 0;
      XorZero(q);
    } else {
      var t := Shifted(q, n - 1);
      assert Shifted(q, n) == 2 * t;
      assert Pow2(n) == 2 * Pow2(n - 1);
      XorShifted(q, r / 2, b / 2, n - 1);
      if r == 0 && b == 0 {
        XorZero(2 * t);
      } else {
        XorShiftStep(t, r, b);
      }
    }
  }

  /** One bit of XorShifted: if the high part t passes through Xor at the
      next bit, 2t passes through here. */
  lemma XorShiftStep(t: nat, r: nat, b: nat)
    requires r != 0 || b != 0
    requires Xor(t + r / 2, b / 2) == t + Xor(r / 2, b / 2)
    ensures Xor(2 * t + r, b) == 2 * t + Xor(r, b)
  {
    var a := 2 * t + r;
    DivModUnique(a, 2, t + r / 2, r % 2);
    XorUnfold(a, b);
    XorUnfold(r, b);
  }

  /** One step of Xor: the low bits combine, the rest recurses. */
  lemma XorUnfold(a: nat, b: nat)
    requires a != 0 || b != 0
    ensures Xor(a, b) == (a % 2 + b % 2) % 2 + 2 * Xor(a / 2, b / 2)
  {
  }

  lemma {:induction false} XorZero(a: nat)
    ensures Xor(a, 0) == a
    decreases a
  {
    if a != 0 {
      XorZero(a / 2);
    }
  }

  // ------------------------------------------------------------------
  // bsr: index of the highest set bit
  // ------------------------------------------------------------------

  /** The bit index bsr reports for a nonzero source. */
  function HighBit(v: nat): (k: nat)
    requires v > 0
  {
    if v == 1 then 0 else 1 + HighBit(v / 2)
  }

  lemma {:induction false} HighBitBounds(v: nat)
    requires v > 0
    ensures Pow2(HighBit(v)) <= v < Pow2(HighBit(v) + 1)
  {
    if v > 1 {
      HighBitBounds(v / 2);
    }
  }

  lemma {:induction false} HighBitBelow(v: nat, n: nat)
    requires 0 < v < Pow2(n)
    ensures HighBit(v) < n
  {
    HighBitBounds(v);
    if HighBit(v) >= n {
      PowMonotone(n, HighBit(v));
    }
  }

  lemma {:induction false} PowMonotone(a: nat, b: nat)
    requires a <= b
    ensures Pow2(a) <= Pow2(b)
    decreases b
  {
    if a < b {
      PowMonotone(a, b - 1);
    }
  }

  /** Reference definition: the number of zero bits above the highest set bit
      of an n-bit value, counted from the top. */
  function LeadingZeros(n: nat, v: nat): nat
  {
    if n == 0 then 0
    else if v >= Pow2(n - 1) then 0
    else 1 + LeadingZeros(n - 1, v)
  }

  lemma {:induction false} LeadingZerosOfZero(n: nat)
    ensures LeadingZeros(n, 0) == n
  {
    if n > 0 {
      LeadingZerosOfZero(n - 1);
    }
  }

  /** For a nonzero n-bit value, the leading-zero count is n - 1 - the
      index bsr reports. */
  lemma {:induction false} LeadingZerosHighBit(n: nat, v: nat)
    requires 0 < v < Pow2(n)
    ensures LeadingZeros(n, v) == n - 1 - HighBit(v)
    decreases n
  {
    HighBitBounds(v);
    HighBitBelow(v, n);
    if v >= Pow2(n - 1) {
      if HighBit(v) < n - 1 {
        PowMonotone(HighBit(v) + 1, n - 1);
      }
    } else {
      LeadingZerosHighBit(n - 1, v);
    }
  }

  // ------------------------------------------------------------------
  // Byte order
  // ------------------------------------------------------------------

  /** The n least significant bytes of v, least significant first
      (the little-endian memory image). */
  function ToBytes(v: nat, n: nat): (s: seq<nat>)
    ensures |s| == n
    ensures forall i :: 0 <= i < n ==> s[i] < 0x100
  {
    if n == 0 then [] else [v % 0x100] + ToBytes(v / 0x100, n - 1)
  }

  /** Inverse of ToBytes: the number whose little-endian bytes are s. */
  function FromBytes(s: seq<nat>): nat {
    if |s| == 0 then 0 else s[0] + 0x100 * FromBytes(s[1..])
  }

  function Reverse<T>(s: seq<T>): (r: seq<T>)
    ensures |r| == |s|
    ensures forall i :: 0 <= i < |s| ==> r[i] == s[|s| - 1 - i]
  {
    if |s| == 0 then [] else Reverse(s[1..]) + [s[0]]
  }

  lemma ReverseReverse<T>(s: seq<T>)
    ensures Reverse(Reverse(s)) == s
  {
    assert forall i :: 0 <= i < |s| ==> Reverse(Reverse(s))[i] == s[i];
  }

  function ByteModulus(n: nat): (r: nat)
    ensures r >= 1
  {
    if n == 0 then 1 else 0x100 * ByteModulus(n - 1)
  }

  lemma ByteModulusOfWidth(w: Width)
    ensures ByteModulus(BitCount(w) / 8) == Modulus(w)
  {
    assert ByteModulus(2) == 0x1_0000;
    assert ByteModulus(4) == 0x1_0000_0000;
    assert ByteModulus(8) == 0x1_0000_0000_0000_0000;
  }

  /** The value whose n-byte image is the reverse of v's: what bswap does to
      a 4- or 8-byte register and xchg ah, al to a 2-byte one. */
  function SwapBytes(n: nat, v: nat): nat {
    FromBytes(Reverse(ToBytes(v, n)))
  }

  lemma {:induction false} FromBytesBound(s: seq<nat>)
    requires forall i :: 0 <= i < |s| ==> s[i] < 0x100
    ensures FromBytes(s) < ByteModulus(|s|)
  {
    if |s| > 0 {
      FromBytesBound(s[1..]);
    }
  }

  /** Reading back the n-byte image of v gives v modulo 256^n. */
  lemma {:induction false} FromToBytes(v: nat, n: nat)
    ensures FromBytes(ToBytes(v, n)) == v % ByteModulus(n)
  {
    if n > 0 {
      var q, r0 := v / 0x100, v % 0x100;
      var p := ByteModulus(n - 1);
      FromToBytes(q, n - 1);
      assert ToBytes(v, n)[1..] == ToBytes(q, n - 1);
      assert FromBytes(ToBytes(v, n)) == r0 + 0x100 * (q % p);
      ModOfShifted(v, p);
    }
  }

  /** (v mod 256p) split as its low byte and the rest: the arithmetic step of
      FromToBytes. */
  lemma ModOfShifted(v: nat, p: nat)
    requires p >= 1
    ensures v % (0x100 * p) == v % 0x100 + 0x100 * ((v / 0x100) % p)
  {
    var q, r0 := v / 0x100, v % 0x100;
    var q2, r1 := q / p, q % p;
    assert q == q2 * p + r1;
    assert 0x100 * q == (0x100 * p) * q2 + 0x100 * r1 by {
      assert 0x100 * (q2 * p) == (0x100 * p) * q2;
    }
    assert v == q2 * (0x100 * p) + (0x100 * r1 + r0);
    DivModUnique(v, 0x100 * p, q2, 0x100 * r1 + r0);
  }

  /** The n-byte image of the number built from n bytes is those bytes. */
  lemma {:induction false} ToFromBytes(s: seq<nat>)
    requires forall i :: 0 <= i < |s| ==> s[i] < 0x100
    ensures ToBytes(FromBytes(s), |s|) == s
  {
    if |s| > 0 {
      var x := FromBytes(s[1..]);
      DivModUnique(FromBytes(s), 0x100, x, s[0]);
      ToFromBytes(s[1..]);
    }
  }

  /** Byte i of SwapBytes(n, v) is byte n - 1 - i of v. */
  lemma SwapBytesReverses(n: nat, v: nat)
    ensures ToBytes(SwapBytes(n, v), n) == Reverse(ToBytes(v, n))
    ensures SwapBytes(n, v) < ByteModulus(n)
  {
    var r := Reverse(ToBytes(v, n));
    ToFromBytes(r);
    FromBytesBound(r);
  }

  /** Swapping twice restores the low n bytes. */
  lemma SwapBytesInvolution(n: nat, v: nat)
    ensures SwapBytes(n, SwapBytes(n, v)) == v % ByteModulus(n)
  {
    SwapBytesReverses(n, v);
    ReverseReverse(ToBytes(v, n));
    FromToBytes(v, n);
  }
}
