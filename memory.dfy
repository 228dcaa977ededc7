/**
 * memory.py: a sparse byte memory (a defaultdict, so a cell never written
 * reads as 0) with little-endian multi-byte access, an alignment check that is
 * off by default, and one console port at 0xA0001000.
 *
 * Addresses are masked to 32 bits once, at the start of an access; the bytes
 * of a multi-byte access then sit at addr + i with no further wrap.
 *
 * The console is outside the model: a read of the port takes the next
 * character code from `input` (supplied from outside), a write of the port
 * appends its low byte to `output`.  MemState is the value the Memory object
 * holds; Read and Write are what its peek and poke do to that value.
 */
module Mem {
  import opened Bits
  import opened Results

  /** The console port. */
  const PORT := 0xA000_1000

  datatype MemState = MemState(cells: map<int, int>, allowUnaligned: bool, input: seq<nat>, output: seq<int>)

  /** A fresh Memory: nothing stored, unaligned accesses allowed. */
  function InitMem(input: seq<nat>): MemState
  {
    MemState(map[], true, input, [])
  }

  /** `self._mem[a]` of the defaultdict: 0 where nothing was stored. */
  function Cell(cells: map<int, int>, a: int): int
  {
    if a in cells then cells[a] else 0
  }

  /** Every stored value is a byte: poke only ever stores `& 0xFF` results. */
  predicate BytesOnly(cells: map<int, int>)
  {
    forall a :: a in cells ==> 0 <= cells[a] < 256
  }

  /** check_alignment: with unaligned access disabled, an address that is not a multiple of the width faults. */
  function AlignmentFault(allowUnaligned: bool, addr: int, w: int): (r: Result<()>)
    requires w >= 1
  {
    if !allowUnaligned && addr % w != 0 then Err(UnalignedAccess) else Ok(())
  }

  /** peek's loop `val |= self._mem[i+addr] << (8*i)` after n rounds. */
  function ReadLE(cells: map<int, int>, a: int, n: nat): int
  {
    if n == 0 then 0 else BitOr(ReadLE(cells, a, n - 1), Shl(Cell(cells, a + (n - 1)), 8 * (n - 1)))
  }

  /** The keys peek's loop inserts into the defaultdict by reading them (with the default 0). */
  function Touch(cells: map<int, int>, a: int, n: nat): map<int, int>
  {
    if n == 0 then cells else var t := Touch(cells, a, n - 1); t[a + (n - 1) := Cell(t, a + (n - 1))]
  }

  /** poke's loop `self._mem[i+addr] = (val >> (8*i)) & 0xFF` after n rounds. */
  function WriteLE(cells: map<int, int>, a: int, v: int, n: nat): map<int, int>
  {
    if n == 0 then cells else WriteLE(cells, a, v, n - 1)[a + (n - 1) := LowByte(Shr(v, 8 * (n - 1)))]
  }

  /** The little-endian number held in cells a .. a+n-1: cell a + i weighs 2^(8i). */
  function LEValue(cells: map<int, int>, a: int, n: nat): int
  {
    if n == 0 then 0 else LEValue(cells, a, n - 1) + Cell(cells, a + (n - 1)) * Pow2(8 * (n - 1))
  }

  datatype Peeked = Peeked(value: int, mem: MemState)

  /** Memory.peek(addr, w). */
  function Read(m: MemState, addr: int, w: nat): Result<Peeked>
    requires w >= 1
  {
    var a := Mask32(addr);
    var check := AlignmentFault(m.allowUnaligned, a, w);
    if check.Err? then Err(check.fault)
    else if a == PORT then
      (if |m.input| == 0 then Err(NoInput) else Ok(Peeked(m.input[0], m.(input := m.input[1..]))))
    else Ok(Peeked(ReadLE(m.cells, a, w), m.(cells := Touch(m.cells, a, w))))
  }

  /** Memory.poke(addr, v, w): the port write is emitted and the cells are written as well. */
  function Write(m: MemState, addr: int, v: int, w: nat): Result<MemState>
    requires w >= 1
  {
    var a := Mask32(addr);
    var check := AlignmentFault(m.allowUnaligned, a, w);
    if check.Err? then Err(check.fault)
    else Ok(m.(cells := WriteLE(m.cells, a, v, w),
               output := if a == PORT then m.output + [LowByte(v)] else m.output))
  }

  // ---------------------------------------------------------------------------
  // The loops
  // ---------------------------------------------------------------------------

  /** On byte cells, or-ing the shifted bytes is adding them: peek's value is the little-endian number, below 2^(8n). */
  lemma {:induction false} ReadLEValue(cells: map<int, int>, a: int, n: nat)
    requires BytesOnly(cells)
    ensures ReadLE(cells, a, n) == LEValue(cells, a, n)
    ensures 0 <= LEValue(cells, a, n) < Pow2(8 * n)
  {
    if n > 0 {
      ReadLEValue(cells, a, n - 1);
      OrByte(ReadLE(cells, a, n - 1), Cell(cells, a + (n - 1)), 8 * (n - 1));
    }
  }

  /** Or-ing a byte in above a k-bit value adds it at weight 2^k. */
  lemma OrByte(lo: int, c: int, k: nat)
    requires 0 <= lo < Pow2(k) && 0 <= c < 256
    ensures BitOr(lo, Shl(c, k)) == lo + c * Pow2(k) && 0 <= lo + c * Pow2(k) < Pow2(k + 8)
  {
    var p := Pow2(k);
    ShlMul(c, k);
    OrCommutes(lo, c * p);
    MulDivCancel(c, p);
    OrDisjoint(c * p, lo, k, p);
    Pow2Add(k, 8);
    assert Pow2(8) == 256;
    MulMonotone(c, 255, p);
  }

  /** poke puts byte i of v in cell a + i and leaves every other cell alone. */
  lemma {:induction false} WriteLECell(cells: map<int, int>, a: int, v: int, n: nat, x: int)
    ensures Cell(WriteLE(cells, a, v, n), x) == if a <= x < a + n then (v / Pow2(8 * (x - a))) % 256 else Cell(cells, x)
  {
    if n > 0 {
      WriteLECell(cells, a, v, n - 1, x);
      if x == a + (n - 1) {
        ShrDiv(v, 8 * (n - 1));
      }
    }
  }

  lemma {:induction false} WriteLEBytes(cells: map<int, int>, a: int, v: int, n: nat)
    requires BytesOnly(cells)
    ensures BytesOnly(WriteLE(cells, a, v, n))
  {
    if n > 0 {
      WriteLEBytes(cells, a, v, n - 1);
    }
  }

  /** Reading a defaultdict key inserts it with the value it already read as. */
  lemma {:induction false} TouchCell(cells: map<int, int>, a: int, n: nat)
    ensures forall x :: Cell(Touch(cells, a, n), x) == Cell(cells, x)
    ensures BytesOnly(cells) ==> BytesOnly(Touch(cells, a, n))
  {
    if n > 0 {
      TouchCell(cells, a, n - 1);
    }
  }

  /** Reading keys that are already present leaves the dictionary as it was. */
  lemma {:induction false} TouchPresent(cells: map<int, int>, a: int, n: nat)
    requires forall x :: a <= x < a + n ==> x in cells
    ensures Touch(cells, a, n) == cells
  {
    if n > 0 {
      TouchPresent(cells, a, n - 1);
      assert a + (n - 1) in cells;
    }
  }

  /** Cells holding the base-256 digits of v, from digit 0 up, hold v mod 2^(8n). */
  lemma {:induction false} LEDigits(cells: map<int, int>, a: int, v: int, n: nat)
    requires forall i :: 0 <= i < n ==> Cell(cells, a + i) == (v / Pow2(8 * i)) % 256
    ensures LEValue(cells, a, n) == v % Pow2(8 * n)
  {
    if n > 0 {
      LEDigits(cells, a, v, n - 1);
      var p := Pow2(8 * (n - 1));
      assert Cell(cells, a + (n - 1)) == (v / p) % 256;
      DivModMul(v, p, 256);
      Pow2Add(8 * (n - 1), 8);
      assert Pow2(8) == 256;
    }
  }

  // ---------------------------------------------------------------------------
  // peek and poke
  // ---------------------------------------------------------------------------

  /** poke then peek at the same non-port address and width gives back v mod 2^(8w). */
  lemma PeekAfterPoke(m: MemState, addr: int, v: int, w: nat)
    requires w >= 1 && BytesOnly(m.cells) && addr % TwoTo32 != PORT
    requires Write(m, addr, v, w).Ok?
    ensures var m' := Write(m, addr, v, w).value;
      Read(m', addr, w).Ok? && Read(m', addr, w).value.value == v % Pow2(8 * w)
  {
    var a := addr % TwoTo32;
    var cells := WriteLE(m.cells, a, v, w);
    forall i | 0 <= i < w
      ensures Cell(cells, a + i) == (v / Pow2(8 * i)) % 256
    {
      WriteLECell(m.cells, a, v, w, a + i);
    }
    WriteLEBytes(m.cells, a, v, w);
    ReadLEValue(cells, a, w);
    LEDigits(cells, a, v, w);
  }

  /** poke writes exactly the cells a .. a+w-1 (a the masked address), byte i of v into cell a + i. */
  lemma PokeFraming(m: MemState, addr: int, v: int, w: nat, x: int)
    requires w >= 1 && Write(m, addr, v, w).Ok?
    ensures var a := addr % TwoTo32;
      Cell(Write(m, addr, v, w).value.cells, x)
        == if a <= x < a + w then (v / Pow2(8 * (x - a))) % 256 else Cell(m.cells, x)
  {
    WriteLECell(m.cells, addr % TwoTo32, v, w, x);
  }

  /** poke keeps every stored value a byte. */
  lemma PokeKeepsBytes(m: MemState, addr: int, v: int, w: nat)
    requires w >= 1 && BytesOnly(m.cells) && Write(m, addr, v, w).Ok?
    ensures BytesOnly(Write(m, addr, v, w).value.cells)
  {
    WriteLEBytes(m.cells, addr % TwoTo32, v, w);
  }

  /** peek changes no stored value, and neither the output nor the alignment setting. */
  lemma PeekKeepsValues(m: MemState, addr: int, w: nat)
    requires w >= 1 && Read(m, addr, w).Ok?
    ensures var m' := Read(m, addr, w).value.mem;
      && (forall x :: Cell(m'.cells, x) == Cell(m.cells, x))
      && (BytesOnly(m.cells) ==> BytesOnly(m'.cells))
      && m'.output == m.output && m'.allowUnaligned == m.allowUnaligned
  {
    TouchCell(m.cells, addr % TwoTo32, w);
  }

  /** A non-port access whose cells were never written reads as 0. */
  lemma UnwrittenReadsZero(m: MemState, addr: int, w: nat)
    requires w >= 1 && BytesOnly(m.cells) && addr % TwoTo32 != PORT && Read(m, addr, w).Ok?
    requires forall x :: addr % TwoTo32 <= x < addr % TwoTo32 + w ==> x !in m.cells
    ensures Read(m, addr, w).value.value == 0
  {
    var a := addr % TwoTo32;
    ReadLEValue(m.cells, a, w);
    forall i | 0 <= i < w
      ensures Cell(m.cells, a + i) == (0 / Pow2(8 * i)) % 256
    {
      assert a <= a + i < a + w;
      assert Cell(m.cells, a + i) == 0;
    }
    LEDigits(m.cells, a, 0, w);
  }

  /** peek and poke see only the address mod 2^32. */
  lemma AddressMasking(m: MemState, addr: int, v: int, w: nat)
    requires w >= 1
    ensures Read(m, addr, w) == Read(m, addr % TwoTo32, w)
    ensures Write(m, addr, v, w) == Write(m, addr % TwoTo32, v, w)
  {
    DivModUnique(addr % TwoTo32, TwoTo32, 0, addr % TwoTo32);
  }

  /** With unaligned access allowed, an access off the port always succeeds and goes to the cells. */
  lemma OrdinaryAccess(m: MemState, addr: int, v: int, w: nat)
    requires w >= 1 && m.allowUnaligned && addr % TwoTo32 != PORT
    ensures var a := addr % TwoTo32;
      Read(m, addr, w) == Ok(Peeked(ReadLE(m.cells, a, w), m.(cells := Touch(m.cells, a, w))))
    ensures Write(m, addr, v, w) == Ok(m.(cells := WriteLE(m.cells, addr % TwoTo32, v, w)))
  {
  }

  /** With unaligned access disabled, a misaligned access faults; with it enabled (the default) none does. */
  lemma Alignment(m: MemState, addr: int, v: int, w: nat)
    requires w >= 1
    ensures !m.allowUnaligned && (addr % TwoTo32) % w != 0 ==>
      Read(m, addr, w) == Err(UnalignedAccess) && Write(m, addr, v, w) == Err(UnalignedAccess)
    ensures m.allowUnaligned ==> Write(m, addr, v, w).Ok? && Read(m, addr, w) != Err(UnalignedAccess)
  {
  }

  /**
   * At the port, peek returns the next input character whatever the width and
   * the stored cells, and poke emits the low byte of the value and also writes
   * the cells.  The port address is a multiple of 4, so the alignment check
   * never stops a 1-, 2- or 4-byte access to it.
   */
  lemma Port(m: MemState, cells: map<int, int>, addr: int, v: int, w: nat, w': nat)
    requires w in {1, 2, 4} && w' in {1, 2, 4} && addr % TwoTo32 == PORT
    ensures Read(m, addr, w) == if |m.input| == 0 then Err(NoInput) else Ok(Peeked(m.input[0], m.(input := m.input[1..])))
    ensures var r, r' := Read(m, addr, w), Read(m.(cells := cells), addr, w');
      r.Ok? == r'.Ok? && (r.Ok? ==> r.value.value == r'.value.value)
    ensures Write(m, addr, v, w) == Ok(m.(cells := WriteLE(m.cells, PORT, v, w), output := m.output + [v % 256]))
  {
  }

  // ---------------------------------------------------------------------------
  // The object
  // ---------------------------------------------------------------------------

  /**
   * What peek returns and leaves behind, given the pure read it performs:
   * the value read together with the memory after the read, or the read's
   * fault with the memory as it was.
   */
  predicate PeekReturned(r: Result<int>, after: MemState, e: Result<Peeked>, before: MemState)
  {
    && (r.Ok? <==> e.Ok?)
    && (r.Ok? ==> r.value == e.value.value && after == e.value.mem)
    && (r.Err? ==> r.fault == e.fault && after == before)
  }

  /**
   * What poke reports and leaves behind, given the pure write it performs:
   * success together with the written memory, or the write's fault with the
   * memory as it was.
   */
  predicate Poked(done: Result<()>, after: MemState, e: Result<MemState>, before: MemState)
  {
    && (done.Ok? <==> e.Ok?)
    && (done.Ok? ==> after == e.value)
    && (done.Err? ==> done.fault == e.fault && after == before)
  }

  /** The Memory object, whose `_mem` dictionary peek and poke update in place. */
  class Memory {
    var cells: map<int, int>
    var allowUnaligned: bool
    var input: seq<nat>
    var output: seq<int>

    function State(): MemState
      reads this
    {
      MemState(cells, allowUnaligned, input, output)
    }

    /** Memory(), with the console's future input supplied. */
    constructor (input: seq<nat>)
      ensures State() == InitMem(input)
    {
      cells := map[];
      allowUnaligned := true;
      this.input := input;
      output := [];
    }

    /** check_alignment(addr, num_bytes). */
    method CheckAlignment(addr: int, w: nat) returns (r: Result<()>)
      requires w >= 1
      ensures r == AlignmentFault(allowUnaligned, addr, w)
      ensures r.Err? <==> !allowUnaligned && addr % w != 0
    {
      if !allowUnaligned && addr % w != 0 {
        return Err(UnalignedAccess);
      }
      return Ok(());
    }

    /** peek(addr, num_bytes). A fault leaves the memory as it was. */
    method Peek(addr: int, w: nat) returns (r: Result<int>)
      requires w >= 1
      modifies this
      ensures PeekReturned(r, State(), Read(old(State()), addr, w), old(State()))
    {
      var a := Mask32(addr);
      var check := CheckAlignment(a, w);
      if check.Err? {
        return Err(check.fault);
      }
      if a == PORT {
        if |input| == 0 {
          return Err(NoInput);
        }
        r := Ok(input[0]);
        input := input[1..];
        return;
      }
      var val := 0;
      for i := 0 to w
        invariant val == ReadLE(old(cells), a, i)
        invariant cells == Touch(old(cells), a, i)
        invariant allowUnaligned == old(allowUnaligned) && input == old(input) && output == old(output)
      {
        TouchCell(old(cells), a, i);
        var c := if i + a in cells then cells[i + a] else 0;
        assert c == Cell(old(cells), a + i);
        cells := cells[i + a := c];
        val := BitOr(val, Shl(c, 8 * i));
      }
      r := Ok(val);
    }

    /** poke(addr, val, num_bytes). A fault leaves the memory as it was. */
    method Poke(addr: int, v: int, w: nat) returns (r: Result<()>)
      requires w >= 1
      modifies this
      ensures Poked(r, State(), Write(old(State()), addr, v, w), old(State()))
    {
      var a := Mask32(addr);
      var check := CheckAlignment(a, w);
      if check.Err? {
        return Err(check.fault);
      }
      if a == PORT {
        output := output + [LowByte(v)];
      }
      for i := 0 to w
        invariant cells == WriteLE(old(cells), a, v, i)
        invariant allowUnaligned == old(allowUnaligned) && input == old(input)
        invariant output == if a == PORT then old(output) + [LowByte(v)] else old(output)
      {
        cells := cells[i + a := LowByte(Shr(v, 8 * i))];
      }
      r := Ok(());
    }
  }
}
