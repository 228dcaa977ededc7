/**
 * regfile.py: the 32 general registers, the program counter and the two
 * stack-pointer watermarks.  x0 is hard-wired to zero because `set` skips it,
 * every stored value is masked to 32 bits, and the watermarks track the
 * unmasked values written to x2 (sp).
 *
 * RegState is the value the RegisterFile object holds at any moment; SetReg,
 * GetReg, GetSigned and WithPc are what its methods do to that value.
 */
module RegFile {
  import opened Bits
  import opened Decode

  /** The stack pointer is x2. */
  const SP := 2

  /** `_min_sp`, which starts at math.inf and afterwards holds an integer. */
  datatype MinMark = Infinity | Finite(v: int)

  /** Python's `val < self._min_sp`: every integer is below infinity. */
  predicate Below(v: int, m: MinMark)
  {
    m.Infinity? || v < m.v
  }

  /** `_regs`, the list of 32 registers. */
  type Registers = r: seq<int> | |r| == 32 witness seq(32, _ => 0)

  datatype RegState = RegState(regs: Registers, pc: int, maxSp: int, minSp: MinMark)

  /** What the class keeps true: 32 registers of 32 bits, x0 zero, pc of 32 bits. */
  predicate WellFormed(s: RegState)
  {
    && s.regs[0] == 0
    && (forall i :: 0 <= i < 32 ==> 0 <= s.regs[i] < TwoTo32)
    && 0 <= s.pc < TwoTo32
  }

  /** A fresh RegisterFile: every register 0, pc 0, `_max_sp` 0 and `_min_sp` infinite. */
  function Init(): (s: RegState)
    ensures WellFormed(s)
  {
    RegState(seq(32, _ => 0), 0, 0, Infinity)
  }

  /** RegisterFile.set. */
  function SetReg(s: RegState, n: RegIndex, v: int): RegState
  {
    RegState(if n != 0 then s.regs[n := Mask32(v)] else s.regs,
             s.pc,
             if n == SP && v > s.maxSp then v else s.maxSp,
             if n == SP && Below(v, s.minSp) then Finite(v) else s.minSp)
  }

  /** RegisterFile.get. */
  function GetReg(s: RegState, n: RegIndex): int
  {
    s.regs[n]
  }

  /** RegisterFile.get_signed: the register read as a 32-bit two's-complement number. */
  function GetSigned(s: RegState, n: RegIndex): int
  {
    SignExtend(GetReg(s, n), 31)
  }

  /** The pc property's setter. */
  function WithPc(s: RegState, value: int): RegState
  {
    s.(pc := Mask32(value))
  }

  // ---------------------------------------------------------------------------
  // Properties
  // ---------------------------------------------------------------------------

  /** set keeps the register file well formed. */
  lemma SetWellFormed(s: RegState, n: RegIndex, v: int)
    requires WellFormed(s)
    ensures WellFormed(SetReg(s, n, v))
  {
    var t := SetReg(s, n, v);
    forall i | 0 <= i < 32
      ensures 0 <= t.regs[i] < TwoTo32
    {
      if i == n && n != 0 {
        assert t.regs[i] == v % TwoTo32;
      }
    }
  }

  /** set(n, v) for n >= 1 stores v mod 2^32 in register n and leaves the others alone; set(0, v) stores nothing. */
  lemma SetThenGet(s: RegState, n: RegIndex, v: int, m: RegIndex)
    requires WellFormed(s)
    ensures GetReg(SetReg(s, n, v), m) == if m == n && n != 0 then v % TwoTo32 else GetReg(s, m)
    ensures GetReg(SetReg(s, n, v), 0) == 0
    ensures SetReg(s, n, v).pc == s.pc
  {
  }

  /** get_signed lies in [-2^31, 2^31) and agrees with get modulo 2^32. */
  lemma GetSignedRange(s: RegState, n: RegIndex)
    requires WellFormed(s)
    ensures -0x8000_0000 <= GetSigned(s, n) < 0x8000_0000
    ensures GetSigned(s, n) % TwoTo32 == GetReg(s, n)
  {
    SignedMasksBack(GetReg(s, n));
  }

  /**
   * After set(2, v) `_max_sp` is the larger of its old value and the unmasked
   * v, and `_min_sp` the smaller; `_max_sp` never decreases, `_min_sp` never
   * increases, and a set of any other register leaves both alone.
   */
  lemma Watermarks(s: RegState, n: RegIndex, v: int)
    ensures var t := SetReg(s, n, v);
      && t.maxSp >= s.maxSp
      && (s.minSp.Finite? ==> t.minSp.Finite? && t.minSp.v <= s.minSp.v)
      && (n == SP ==> t.maxSp >= v && t.minSp.Finite? && t.minSp.v <= v)
      && (n != SP ==> t.maxSp == s.maxSp && t.minSp == s.minSp)
      && (n == SP && s.minSp.Infinity? ==> t.minSp == Finite(v))
      && (n == SP ==> (t.maxSp == s.maxSp || t.maxSp == v) && (t.minSp == s.minSp || t.minSp == Finite(v)))
  {
  }

  /** The pc setter stores the value mod 2^32, so pc stays a 32-bit number. */
  lemma PcMasked(s: RegState, value: int)
    ensures WithPc(s, value).pc == value % TwoTo32 && 0 <= WithPc(s, value).pc < TwoTo32
    ensures WithPc(s, value).regs == s.regs
  {
  }

  lemma WithPcWellFormed(s: RegState, value: int)
    requires WellFormed(s)
    ensures WellFormed(WithPc(s, value))
  {
  }

  // ---------------------------------------------------------------------------
  // The object
  // ---------------------------------------------------------------------------

  /** The RegisterFile object, whose `_regs` list and fields its methods update in place. */
  class RegisterFile {
    var regs: Registers
    var pc: int
    var maxSp: int
    var minSp: MinMark

    function State(): RegState
      reads this
    {
      RegState(regs, pc, maxSp, minSp)
    }

    ghost predicate Valid()
      reads this
    {
      WellFormed(State())
    }

    constructor ()
      ensures State() == Init() && Valid()
    {
      regs := seq(32, _ => 0);
      pc := 0;
      maxSp := 0;
      minSp := Infinity;
    }

    /** set(num, val). */
    method Set(n: RegIndex, v: int)
      requires Valid()
      modifies this
      ensures State() == SetReg(old(State()), n, v) && Valid()
    {
      SetWellFormed(State(), n, v);
      if n != 0 {
        regs := regs[n := Mask32(v)];
      }
      if n == SP && v > maxSp {
        maxSp := v;
      }
      if n == SP && Below(v, minSp) {
        minSp := Finite(v);
      }
    }

    /** get(num). */
    method Get(n: RegIndex) returns (v: int)
      requires Valid()
      ensures v == GetReg(State(), n) && 0 <= v < TwoTo32
      ensures n == 0 ==> v == 0
    {
      v := regs[n];
    }

    /** get_signed(num). */
    method GetSignedValue(n: RegIndex) returns (v: int)
      requires Valid()
      ensures v == GetSigned(State(), n)
      ensures -0x8000_0000 <= v < 0x8000_0000 && v % TwoTo32 == GetReg(State(), n)
    {
      GetSignedRange(State(), n);
      var u := Get(n);
      v := SignExtend(u, 31);
    }

    /** The pc property's setter, `regs.pc = value`. */
    method SetPc(value: int)
      requires Valid()
      modifies this
      ensures State() == WithPc(old(State()), value) && Valid()
    {
      pc := Mask32(value);
    }
  }
}
