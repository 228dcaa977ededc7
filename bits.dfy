/**
 * The bit-field helpers of util.py over Python's unbounded integers.
 *
 * Python's `&`, `|` and `^` act on the infinite two's-complement expansion of
 * their operands; BitAnd, BitOr and BitXor below follow that definition one bit
 * at a time (Dafny's `/` and `%` by 2 are floor division and the non-negative
 * remainder, which is exactly Python's `>> 1` and `& 1`). Each helper keeps the
 * source's bitwise body and states its arithmetic meaning as its contract.
 */
module Bits {

  const TwoTo32: int := 0x1_0000_0000

  function Pow2(n: nat): (r: int)
    ensures r >= 1
  {
    if n == 0 then 1 else 2 * Pow2(n - 1)
  }

  function Abs(x: int): nat
  {
    if x < 0 then -x else x
  }

  // ---------------------------------------------------------------------------
  // Arithmetic facts about powers of two, division and remainder
  // ---------------------------------------------------------------------------

  lemma {:induction false} Pow2Add(a: nat, b: nat)
    ensures Pow2(a + b) == Pow2(a) * Pow2(b)
  {
    if a > 0 {
      Pow2Add(a - 1, b);
      assert Pow2(a + b) == 2 * Pow2(a - 1 + b);
    }
  }

  lemma Pow2Values()
    ensures Pow2(1) == 2 && Pow2(2) == 4 && Pow2(3) == 8 && Pow2(5) == 32
    ensures Pow2(7) == 128 && Pow2(8) == 256 && Pow2(11) == 2048 && Pow2(12) == 4096
    ensures Pow2(13) == 8192 && Pow2(15) == 0x8000 && Pow2(16) == 0x1_0000
    ensures Pow2(20) == 0x10_0000 && Pow2(21) == 0x20_0000 && Pow2(24) == 0x100_0000
    ensures Pow2(31) == 0x8000_0000 && Pow2(32) == TwoTo32
  {
    assert Pow2(8) == 256;
    assert Pow2(13) == 8192;
    Pow2Add(8, 8);
    Pow2Add(16, 4);
    Pow2Add(16, 5);
    Pow2Add(16, 8);
    Pow2Add(16, 15);
    Pow2Add(16, 16);
  }

  /** Quotient and remainder are determined by the division equation. */
  lemma MulAtLeast(k: int, d: int)
    requires k >= 1 && d > 0
    ensures k * d >= d
  {
    if k > 1 {
      MulAtLeast(k - 1, d);
      assert k * d == (k - 1) * d + d;
    }
  }

  /** A multiple of d strictly between -d and d is zero. */
  lemma MultipleInOpenInterval(k: int, d: int)
    requires d > 0 && -d < k * d < d
    ensures k == 0
  {
    if k >= 1 {
      MulAtLeast(k, d);
    } else if k <= -1 {
      MulAtLeast(-k, d);
    }
  }

  /** Quotient and remainder are determined by the division equation. */
  lemma DivModUnique(a: int, d: int, q: int, r: int)
    requires d > 0 && 0 <= r < d && a == q * d + r
    ensures a / d == q && a % d == r
  {
    var q0, r0 := a / d, a % d;
    assert a == q0 * d + r0;
    assert (q - q0) * d == q * d - q0 * d;
    MultipleInOpenInterval(q - q0, d);
  }

  /** Dividing by p and then by q is dividing by p * q; the remainder splits accordingly. */
  lemma DivModMul(a: int, p: int, q: int)
    requires p > 0 && q > 0
    ensures p * q > 0
    ensures a / p / q == a / (p * q)
    ensures a % (p * q) == a % p + ((a / p) % q) * p
  {
    var x, y := a / p, a % p;
    var u, w := x / q, x % q;
    MulDistributes(u * q, w, p);
    MulAssociates(u, q, p);
    MulMonotone(w, q - 1, p);
    MulDistributes(q - 1, 1, p);
    DivModUnique(a, p * q, u, w * p + y);
  }

  lemma MulDistributes(a: int, b: int, c: int)
    ensures (a + b) * c == a * c + b * c
  {
  }

  lemma MulAssociates(a: int, b: int, c: int)
    ensures (a * b) * c == a * (b * c) && b * c == c * b
  {
  }

  lemma MulMonotone(a: int, b: int, c: int)
    requires a <= b && c >= 0
    ensures a * c <= b * c
  {
    MulDistributes(b - a, a, c);
    if b > a && c > 0 {
      MulAtLeast(b - a, c);
    }
  }

  /** The low bit and the rest: a mod 2p is twice (a/2 mod p) plus the low bit. */
  lemma ModDouble(a: int, p: int)
    requires p > 0
    ensures a % (2 * p) == 2 * ((a / 2) % p) + a % 2
    ensures a / 2 / p == a / (2 * p)
  {
    DivModMul(a, 2, p);
  }

  lemma MulDivCancel(x: int, p: int)
    requires p > 0
    ensures (x * p) / p == x && (x * p) % p == 0
  {
    DivModUnique(x * p, p, x, 0);
  }

  // ---------------------------------------------------------------------------
  // Python's bitwise operators on unbounded integers
  // ---------------------------------------------------------------------------

  /** Halving moves every integer outside {0, -1} strictly closer to zero. */
  lemma HalveSmaller(a: int, b: int)
    ensures Abs(a / 2) <= Abs(a) && Abs(b / 2) <= Abs(b)
    ensures !((a == 0 || a == -1) && (b == 0 || b == -1)) ==> Abs(a / 2) + Abs(b / 2) < Abs(a) + Abs(b)
  {
  }

  /** Python's `a & b`. */
  function BitAnd(a: int, b: int): int
    decreases Abs(a) + Abs(b)
  {
    if (a == 0 || a == -1) && (b == 0 || b == -1) then
      (if a == -1 && b == -1 then -1 else 0)
    else
      2 * BitAnd(a / 2, b / 2) + (if a % 2 == 1 && b % 2 == 1 then 1 else 0)
  }

  /** Python's `a | b`. */
  function BitOr(a: int, b: int): int
    decreases Abs(a) + Abs(b)
  {
    if (a == 0 || a == -1) && (b == 0 || b == -1) then
      (if a == -1 || b == -1 then -1 else 0)
    else
      2 * BitOr(a / 2, b / 2) + (if a % 2 == 1 || b % 2 == 1 then 1 else 0)
  }

  /** Python's `a ^ b`. */
  function BitXor(a: int, b: int): int
    decreases Abs(a) + Abs(b)
  {
    if (a == 0 || a == -1) && (b == 0 || b == -1) then
      (if a == b then 0 else -1)
    else
      2 * BitXor(a / 2, b / 2) + (if a % 2 != b % 2 then 1 else 0)
  }

  lemma {:induction false} AndZero(a: int)
    ensures BitAnd(a, 0) == 0
    decreases Abs(a)
  {
    if !(a == 0 || a == -1) {
      HalveSmaller(a, 0);
      AndZero(a / 2);
    }
  }

  /** Anding with 2^w - 1 keeps the low w bits: the result is a mod 2^w, even for negative a. */
  lemma {:induction false} AndLowMask(a: int, w: nat)
    ensures BitAnd(a, Pow2(w) - 1) == a % Pow2(w)
    decreases w
  {
    if w == 0 {
      AndZero(a);
    } else {
      var m := Pow2(w) - 1;
      assert m / 2 == Pow2(w - 1) - 1 && m % 2 == 1;
      AndLowMask(a / 2, w - 1);
      ModDouble(a, Pow2(w - 1));
    }
  }

  /** Anding with bits k .. k+w-1 set isolates that field of a, in place. */
  lemma {:induction false} AndShiftedMask(a: int, w: nat, k: nat)
    ensures BitAnd(a, (Pow2(w) - 1) * Pow2(k)) == ((a / Pow2(k)) % Pow2(w)) * Pow2(k)
    decreases k
  {
    if k == 0 {
      AndLowMask(a, w);
    } else if w == 0 {
      AndZero(a);
    } else {
      var pw, pk := Pow2(w) - 1, Pow2(k - 1);
      var m, h := pw * Pow2(k), pw * pk;
      MulAssociates(pw, 2, pk);
      assert m == 2 * h;
      MulAtLeast(pw, pk);
      DivModUnique(m, 2, h, 0);
      assert BitAnd(a, m) == 2 * BitAnd(a / 2, h);
      AndShiftedMask(a / 2, w, k - 1);
      ModDouble(a, pk);
      var f := (a / Pow2(k)) % Pow2(w);
      assert BitAnd(a / 2, h) == f * pk;
      MulAssociates(f, pk, 2);
      MulAssociates(f, 2, pk);
    }
  }

  lemma {:induction false} OrZero(a: int)
    ensures BitOr(a, 0) == a
    decreases Abs(a)
  {
    if !(a == 0 || a == -1) {
      HalveSmaller(a, 0);
      OrZero(a / 2);
    }
  }

  lemma {:induction false} OrCommutes(a: int, b: int)
    ensures BitOr(a, b) == BitOr(b, a)
    decreases Abs(a) + Abs(b)
  {
    if !((a == 0 || a == -1) && (b == 0 || b == -1)) {
      HalveSmaller(a, b);
      OrCommutes(a / 2, b / 2);
    }
  }

  /** Or-ing a value whose low k bits are clear with one below p = 2^k is addition. */
  lemma {:induction false} OrDisjoint(hi: nat, lo: nat, k: nat, p: int)
    requires p == Pow2(k) && hi % p == 0 && lo < p
    ensures BitOr(hi, lo) == hi + lo
    decreases k
  {
    if k == 0 {
      OrZero(hi);
    } else if hi != 0 || lo != 0 {
      ModDouble(hi, Pow2(k - 1));
      assert hi % 2 == 0;
      assert (hi / 2) % Pow2(k - 1) == 0;
      OrDisjoint(hi / 2, lo / 2, k - 1, Pow2(k - 1));
    }
  }

  /** Xor with -1 (all bits set) is bitwise negation, -1 - a. */
  lemma {:induction false} XorAllOnes(a: int)
    ensures BitXor(a, -1) == -1 - a
    decreases Abs(a)
  {
    if !(a == 0 || a == -1) {
      HalveSmaller(a, -1);
      XorAllOnes(a / 2);
    }
  }

  // ---------------------------------------------------------------------------
  // util.generate_mask: the mask is built as a string of binary digits
  // ---------------------------------------------------------------------------

  /** Python's `c * n` for a one-character string c. */
  function Repeat(c: char, n: nat): (s: string)
    ensures |s| == n
  {
    if n == 0 then [] else Repeat(c, n - 1) + [c]
  }

  /** Python's `int(s, 2)` on a string of '0' and '1' characters. */
  function ParseBinary(s: string): nat
  {
    if s == [] then 0 else 2 * ParseBinary(s[..|s| - 1]) + (if s[|s| - 1] == '1' then 1 else 0)
  }

  lemma {:induction false} ParseOnes(n: nat)
    ensures ParseBinary(Repeat('1', n)) == Pow2(n) - 1
  {
    if n > 0 {
      var s := Repeat('1', n);
      assert s[..n - 1] == Repeat('1', n - 1);
      ParseOnes(n - 1);
    }
  }

  lemma {:induction false} ParseTrailingZeros(s: string, k: nat)
    ensures ParseBinary(s + Repeat('0', k)) == ParseBinary(s) * Pow2(k)
  {
    if k == 0 {
      assert s + Repeat('0', 0) == s;
    } else {
      var t := s + Repeat('0', k);
      assert t[..|t| - 1] == s + Repeat('0', k - 1);
      assert t[|t| - 1] == '0';
      assert ParseBinary(t) == 2 * ParseBinary(s + Repeat('0', k - 1));
      ParseTrailingZeros(s, k - 1);
      MulAssociates(ParseBinary(s), Pow2(k - 1), 2);
    }
  }

  /** Python's `x << k` for k >= 0: k doublings. */
  function Shl(x: int, k: nat): int
  {
    if k == 0 then x else 2 * Shl(x, k - 1)
  }

  /** Python's `x >> k` for k >= 0: k floor halvings. */
  function Shr(x: int, k: nat): int
  {
    if k == 0 then x else Shr(x, k - 1) / 2
  }

  lemma {:induction false} ShlMul(x: int, k: nat)
    ensures Shl(x, k) == x * Pow2(k)
  {
    if k > 0 {
      ShlMul(x, k - 1);
      MulAssociates(x, Pow2(k - 1), 2);
    }
  }

  lemma {:induction false} ShrDiv(x: int, k: nat)
    ensures Shr(x, k) == x / Pow2(k)
  {
    if k > 0 {
      ShrDiv(x, k - 1);
      DivModMul(x, Pow2(k - 1), 2);
    }
  }

  /** The digit string util.generate_mask builds: msb - lsb + 1 ones followed by lsb zeros. */
  function MaskDigits(msb: nat, lsb: nat): string
    requires lsb <= msb
  {
    Repeat('1', msb - lsb + 1) + Repeat('0', lsb)
  }

  /**
   * util.generate_mask: bits lsb .. msb set, that is 2^(msb+1) - 2^lsb.
   * GenerateMaskDigits shows this is the number the source's digit string
   * denotes, and GenerateMaskBits that exactly those bits are set.
   */
  function GenerateMask(msb: nat, lsb: nat): int
    requires lsb <= msb
  {
    Pow2(msb + 1) - Pow2(lsb)
  }

  lemma GenerateMaskValue(msb: nat, lsb: nat)
    requires lsb <= msb
    ensures GenerateMask(msb, lsb) == (Pow2(msb - lsb + 1) - 1) * Pow2(lsb)
  {
    Pow2Add(msb - lsb + 1, lsb);
  }

  /** int('1' * (msb - lsb + 1) + '0' * lsb, 2) is GenerateMask(msb, lsb). */
  lemma GenerateMaskDigits(msb: nat, lsb: nat)
    requires lsb <= msb
    ensures ParseBinary(MaskDigits(msb, lsb)) == GenerateMask(msb, lsb)
  {
    ParseOnes(msb - lsb + 1);
    ParseTrailingZeros(Repeat('1', msb - lsb + 1), lsb);
    GenerateMaskValue(msb, lsb);
  }

  /** Bit i of the mask is set exactly when lsb <= i <= msb. */
  lemma GenerateMaskBits(msb: nat, lsb: nat, i: nat)
    requires lsb <= msb
    ensures (GenerateMask(msb, lsb) / Pow2(i)) % 2 == (if lsb <= i <= msb then 1 else 0)
  {
    GenerateMaskValue(msb, lsb);
    ShiftedBit(Pow2(msb - lsb + 1) - 1, lsb, i);
    if i >= lsb {
      OnesBit(msb - lsb + 1, i - lsb);
    }
  }

  /** Dividing by 2^i is halving and then dividing by 2^(i-1). */
  lemma DivPow2Step(a: int, i: nat)
    requires i > 0
    ensures a / Pow2(i) == (a / 2) / Pow2(i - 1)
  {
    DivModMul(a, 2, Pow2(i - 1));
  }

  /** Bit j of 2^w - 1 is set exactly when j < w. */
  lemma {:induction false} OnesBit(w: nat, j: nat)
    ensures ((Pow2(w) - 1) / Pow2(j)) % 2 == (if j < w then 1 else 0)
  {
    if w == 0 {
      DivModUnique(0, Pow2(j), 0, 0);
    } else if j == 0 {
      assert Pow2(w) == 2 * Pow2(w - 1);
    } else {
      assert Pow2(w) == 2 * Pow2(w - 1);
      DivModUnique(Pow2(w) - 1, 2, Pow2(w - 1) - 1, 1);
      DivPow2Step(Pow2(w) - 1, j);
      OnesBit(w - 1, j - 1);
    }
  }

  /** Bit i of x * 2^k is clear below k and is bit i - k of x from there on. */
  lemma {:induction false} ShiftedBit(x: int, k: nat, i: nat)
    ensures ((x * Pow2(k)) / Pow2(i)) % 2 == (if i < k then 0 else (x / Pow2(i - k)) % 2)
  {
    if k == 0 {
    } else if i == 0 {
      MulAssociates(x, Pow2(k - 1), 2);
      MulDivCancel(x * Pow2(k - 1), 2);
    } else {
      MulAssociates(x, Pow2(k - 1), 2);
      MulDivCancel(x * Pow2(k - 1), 2);
      DivPow2Step(x * Pow2(k), i);
      ShiftedBit(x, k - 1, i - 1);
    }
  }

  // ---------------------------------------------------------------------------
  // util.extract_bitfield and util.sign_extend
  // ---------------------------------------------------------------------------

  /** util.extract_bitfield: v & generate_mask(msb, lsb), then >> lsb. */
  function ExtractBitfield(v: int, msb: nat, lsb: nat): int
    requires lsb <= msb
  {
    Shr(BitAnd(v, GenerateMask(msb, lsb)), lsb)
  }

  /** The field is bits lsb .. msb of v, right-justified: a number below 2^(msb - lsb + 1). */
  lemma ExtractBitfieldValue(v: int, msb: nat, lsb: nat)
    requires lsb <= msb
    ensures ExtractBitfield(v, msb, lsb) == (v / Pow2(lsb)) % Pow2(msb - lsb + 1)
    ensures 0 <= ExtractBitfield(v, msb, lsb) < Pow2(msb - lsb + 1)
  {
    GenerateMaskValue(msb, lsb);
    AndShiftedMask(v, msb - lsb + 1, lsb);
    ShrDiv(BitAnd(v, GenerateMask(msb, lsb)), lsb);
    MulDivCancel((v / Pow2(lsb)) % Pow2(msb - lsb + 1), Pow2(lsb));
  }

  /** util.sign_extend: when bit b of v is set, v's low b bits minus 2^b; otherwise v. */
  function SignExtend(v: int, b: nat): int
    requires b >= 1
  {
    if BitAnd(v, Shl(1, b)) != 0 then
      BitAnd(v, GenerateMask(b - 1, 0)) - Shl(1, b)
    else
      v
  }

  /** What sign_extend computes, by the value of bit b. */
  lemma SignExtendValue(v: int, b: nat)
    requires b >= 1
    ensures (v / Pow2(b)) % 2 == 0 ==> SignExtend(v, b) == v
    ensures (v / Pow2(b)) % 2 == 1 ==> SignExtend(v, b) == v % Pow2(b) - Pow2(b)
  {
    ShlMul(1, b);
    GenerateMaskValue(b - 1, 0);
    AndShiftedMask(v, 1, b);
    AndLowMask(v, b);
    MulDivCancel((v / Pow2(b)) % 2, Pow2(b));
  }

  /** Python's `v & 0xFFFFFFFF`. */
  function Mask32(v: int): (r: int)
    ensures r == v % TwoTo32
  {
    AndLowMask(v, 32);
    Pow2Values();
    BitAnd(v, 0xFFFF_FFFF)
  }

  /** Python's `v & 0xFF`. */
  function LowByte(v: int): (r: int)
    ensures r == v % 256
  {
    AndLowMask(v, 8);
    Pow2Values();
    BitAnd(v, 0xFF)
  }

  /** Python's `v & 0b11111`, the shift amount of a shift instruction. */
  function ShiftAmount(v: int): (r: nat)
    ensures r == v % 32
  {
    AndLowMask(v, 5);
    Pow2Values();
    BitAnd(v, 0x1F)
  }

  /**
   * Two adjacent fields of v, the upper one shifted back into place and or-ed
   * with the lower one, give the field spanning both: the decoders' immediates
   * are assembled this way.
   */
  lemma ExtractConcat(v: int, msb: nat, mid: nat, lsb: nat)
    requires lsb <= mid < msb
    ensures BitOr(ExtractBitfield(v, msb, mid + 1) * Pow2(mid + 1 - lsb), ExtractBitfield(v, mid, lsb))
            == ExtractBitfield(v, msb, lsb)
  {
    var p, q := Pow2(mid + 1 - lsb), Pow2(msb - mid);
    var x := v / Pow2(lsb);
    Pow2Add(lsb, mid + 1 - lsb);
    Pow2Add(mid + 1 - lsb, msb - mid);
    DivModMul(v, Pow2(lsb), p);
    DivModMul(x, p, q);
    var hi := ((x / p) % q) * p;
    MulDivCancel((x / p) % q, p);
    ExtractBitfieldValue(v, msb, mid + 1);
    ExtractBitfieldValue(v, mid, lsb);
    ExtractBitfieldValue(v, msb, lsb);
    OrDisjoint(hi, x % p, mid + 1 - lsb, p);
  }

  // ---------------------------------------------------------------------------
  // Properties of sign extension
  // ---------------------------------------------------------------------------

  /** On a (b+1)-bit pattern, sign extension lands in [-2^b, 2^b) and keeps the pattern. */
  lemma SignExtendRange(v: int, b: nat)
    requires b >= 1
    ensures 0 <= v < Pow2(b + 1) ==> -Pow2(b) <= SignExtend(v, b) < Pow2(b) && SignExtend(v, b) % Pow2(b + 1) == v
  {
    if 0 <= v < Pow2(b + 1) {
      SignExtendPattern(v, b);
    }
  }

  lemma SignExtendPattern(v: int, b: nat)
    requires b >= 1 && 0 <= v < Pow2(b + 1)
    ensures -Pow2(b) <= SignExtend(v, b) < Pow2(b)
    ensures SignExtend(v, b) % Pow2(b + 1) == v
  {
    var p, r := Pow2(b), SignExtend(v, b);
    assert Pow2(b + 1) == 2 * p;
    SignExtendValue(v, b);
    if v < p {
      DivModUnique(v, p, 0, v);
      DivModUnique(r, 2 * p, 0, v);
    } else {
      DivModUnique(v, p, 1, v - p);
      DivModUnique(r, 2 * p, -1, v);
    }
  }

  /** Sign extension undoes the reduction of any value in [-2^b, 2^b) to b+1 bits. */
  lemma SignExtendInverse(x: int, b: nat)
    requires b >= 1 && -Pow2(b) <= x < Pow2(b)
    ensures SignExtend(x % Pow2(b + 1), b) == x
  {
    var p := Pow2(b);
    assert Pow2(b + 1) == 2 * p;
    SignExtendValue(x % Pow2(b + 1), b);
    if x >= 0 {
      DivModUnique(x, 2 * p, 0, x);
      DivModUnique(x, p, 0, x);
    } else {
      DivModUnique(x, 2 * p, -1, x + 2 * p);
      DivModUnique(x + 2 * p, p, 1, x + p);
    }
  }

  /** Reinterpreting a 32-bit pattern as signed and masking it again gives the pattern back. */
  lemma SignedMasksBack(v: int)
    requires 0 <= v < TwoTo32
    ensures -0x8000_0000 <= SignExtend(v, 31) < 0x8000_0000
    ensures Mask32(SignExtend(v, 31)) == v
  {
    Pow2Values();
    SignExtendRange(v, 31);
  }

  /** The signed reading of a 32-bit pattern, by its top bit: the two's-complement rule. */
  function ToSigned32(u: int): int
  {
    if u < 0x8000_0000 then u else u - TwoTo32
  }

  /** get_signed's sign_extend(v, 31) is the two's-complement reading of the pattern. */
  lemma SignExtend31(u: int)
    requires 0 <= u < TwoTo32
    ensures SignExtend(u, 31) == ToSigned32(u)
  {
    Pow2Values();
    SignExtendValue(u, 31);
    if u < 0x8000_0000 {
      DivModUnique(u, 0x8000_0000, 0, u);
    } else {
      DivModUnique(u, 0x8000_0000, 1, u - 0x8000_0000);
    }
  }

  // ---------------------------------------------------------------------------
  // The low bits of a bitwise result depend only on the low bits of its operands
  // ---------------------------------------------------------------------------

  /** The recursive step of BitAnd holds for every pair, the fixed points 0 and -1 included. */
  lemma AndStep(a: int, b: int)
    ensures BitAnd(a, b) == 2 * BitAnd(a / 2, b / 2) + (if a % 2 == 1 && b % 2 == 1 then 1 else 0)
  {
  }

  lemma OrStep(a: int, b: int)
    ensures BitOr(a, b) == 2 * BitOr(a / 2, b / 2) + (if a % 2 == 1 || b % 2 == 1 then 1 else 0)
  {
  }

  lemma XorStep(a: int, b: int)
    ensures BitXor(a, b) == 2 * BitXor(a / 2, b / 2) + (if a % 2 != b % 2 then 1 else 0)
  {
  }

  /** Splitting x = 2 * y + bit at the lowest bit, and the mod 2p that follows. */
  lemma LowBitSplit(x: int, y: int, bit: int, p: int)
    requires p > 0 && 0 <= bit < 2 && x == 2 * y + bit
    ensures x % (2 * p) == 2 * (y % p) + bit
  {
    ModDouble(x, p);
    DivModUnique(x, 2, y, bit);
  }

  /** a mod 2p, read as its halves: the quotient by 2 is (a / 2) mod p, the low bit that of a. */
  lemma HalfOfMod(a: int, p: int)
    requires p > 0
    ensures (a % (2 * p)) / 2 == (a / 2) % p && (a % (2 * p)) % 2 == a % 2
  {
    ModDouble(a, p);
    DivModUnique(a % (2 * p), 2, (a / 2) % p, a % 2);
  }

  lemma {:induction false} AndLowBits(a: int, b: int, k: nat)
    ensures BitAnd(a, b) % Pow2(k) == BitAnd(a % Pow2(k), b % Pow2(k))
    decreases k
  {
    if k == 0 {
    } else {
      var p := Pow2(k - 1);
      var a', b' := a % (2 * p), b % (2 * p);
      HalfOfMod(a, p);
      HalfOfMod(b, p);
      AndStep(a, b);
      AndStep(a', b');
      AndLowBits(a / 2, b / 2, k - 1);
      LowBitSplit(BitAnd(a, b), BitAnd(a / 2, b / 2), if a % 2 == 1 && b % 2 == 1 then 1 else 0, p);
    }
  }

  lemma {:induction false} OrLowBits(a: int, b: int, k: nat)
    ensures BitOr(a, b) % Pow2(k) == BitOr(a % Pow2(k), b % Pow2(k))
    decreases k
  {
    if k == 0 {
    } else {
      var p := Pow2(k - 1);
      var a', b' := a % (2 * p), b % (2 * p);
      HalfOfMod(a, p);
      HalfOfMod(b, p);
      OrStep(a, b);
      OrStep(a', b');
      OrLowBits(a / 2, b / 2, k - 1);
      LowBitSplit(BitOr(a, b), BitOr(a / 2, b / 2), if a % 2 == 1 || b % 2 == 1 then 1 else 0, p);
    }
  }

  lemma {:induction false} XorLowBits(a: int, b: int, k: nat)
    ensures BitXor(a, b) % Pow2(k) == BitXor(a % Pow2(k), b % Pow2(k))
    decreases k
  {
    if k == 0 {
    } else {
      var p := Pow2(k - 1);
      var a', b' := a % (2 * p), b % (2 * p);
      HalfOfMod(a, p);
      HalfOfMod(b, p);
      XorStep(a, b);
      XorStep(a', b');
      XorLowBits(a / 2, b / 2, k - 1);
      LowBitSplit(BitXor(a, b), BitXor(a / 2, b / 2), if a % 2 != b % 2 then 1 else 0, p);
    }
  }
}
