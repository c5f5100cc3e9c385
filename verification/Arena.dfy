/** The bump allocator `lox_arena_t` under 64-bit wrap-around, and the overflow-checked
    arithmetic it rests on. Addresses are words; the null pointer is 0. */
module Arena {
  import opened Text
  import opened Bits

  /** `lox_safe_add_size`. */
  function SafeAdd(a: Word, b: Word): (r: Option<Word>)
    ensures r == if (a as int) + (b as int) <= SIZE_MAX then Some(a + b) else None
  {
    if a > SIZE_MAX - b then None else Some(a + b)
  }

  /** `loxguard_checked_mul_size`: the quotient test never lets a wrapped product through and
      never refuses one that fits. */
  function CheckedMul(a: Word, b: Word): (r: Option<Word>)
    ensures r == if a * b <= SIZE_MAX then Some(a * b) else None
  {
    QuotientTest(a, b, SIZE_MAX);
    if a != 0 && b > SIZE_MAX / a then None else Some(a * b)
  }

  lemma QuotientTest(a: nat, b: nat, m: nat)
    ensures a != 0 ==> (b > m / a <==> a * b > m)
    ensures a == 0 ==> a * b == 0
  {
    if a != 0 {
      var q := m / a;
      if b > q {
        Monotone(q + 1, b, a);
        assert (q + 1) * a == q * a + a;
      } else {
        Monotone(b, q, a);
      }
      assert m == q * a + m % a;
    }
  }

  lemma {:induction false} Monotone(x: nat, y: nat, a: nat)
    requires x <= y
    ensures x * a <= y * a == a * y
    decreases y
  {
    if x < y {
      Monotone(x, y - 1, a);
      assert (y - 1) * a == y * a - a;
    }
  }

  // ---------------------------------------------------------------------------------
  // Where an allocation can go
  // ---------------------------------------------------------------------------------

  datatype ArenaState = ArenaState(base: Word, size: Word, used: Word)

  /** Offset o can hold a fresh block: behind everything used, aligned as an absolute address,
      addressable, and inside the region. Nothing here wraps. An arena without memory and an
      alignment that is no power of two have no place. */
  ghost predicate Places(st: ArenaState, size: Word, align: Word, o: nat) {
    && st.base != 0 && align != 0 && IsPow2(align)
    && st.used <= o && (st.base + o) % align == 0 && st.base + o <= SIZE_MAX && o + size <= st.size
  }

  /** The least multiple of align that is not below x. */
  function AlignUp(x: nat, align: Word): nat
    requires align > 0
  {
    x + (align - 1) - (x + (align - 1)) % align
  }

  lemma AlignUpIsLeast(x: nat, align: Word)
    requires align > 0
    ensures AlignUp(x, align) % align == 0 && x <= AlignUp(x, align) < x + align
    ensures forall y: nat :: x <= y && y % align == 0 ==> AlignUp(x, align) <= y
  {
    var up := AlignUp(x, align);
    var q := (x + (align - 1)) / align;
    assert up == q * align;
    ModUnique(up, align, q, 0);
    forall y: nat | x <= y && y % align == 0
      ensures up <= y
    {
      if y < up {
        var p := y / align;
        assert y == p * align;
        assert (q - p) * align == up - y;
        MultipleBounds(q - p, align);
      }
    }
  }

  /** The allocation of an arena: the offset of the new block, if there is one. */
  ghost function AllocAt(st: ArenaState, size: Word, align: Word): Option<nat> {
    if st.base == 0 || align == 0 || !IsPow2(align) then None
    else
      var o := AlignUp(st.base + st.used, align) - st.base;
      if Places(st, size, align, o) then Some(o) else None
  }

  /** Allocation is exact: for every arena and request it succeeds if and only if some place
      exists, and takes the lowest, wasting less than one alignment. */
  lemma AllocationIsExact(st: ArenaState, size: Word, align: Word)
    ensures AllocAt(st, size, align).Some? <==> exists o: nat :: Places(st, size, align, o)
    ensures forall o: nat :: AllocAt(st, size, align) == Some(o) ==>
              Places(st, size, align, o) && o - st.used < align &&
              forall p: nat :: Places(st, size, align, p) ==> o <= p
  {
    hide IsPow2;
    if st.base != 0 && align != 0 && IsPow2(align) {
      var up := AlignUp(st.base + st.used, align);
      AlignUpIsLeast(st.base + st.used, align);
      forall p: nat | Places(st, size, align, p)
        ensures up - st.base <= p && Places(st, size, align, up - st.base)
      {
        assert up <= st.base + p;
      }
    }
  }

  // ---------------------------------------------------------------------------------
  // The arena
  // ---------------------------------------------------------------------------------

  /** The address the code computes, against the one that rounding without wrap would give. */
  lemma AlignedAddress(st: ArenaState, align: Word)
    requires align > 0 && IsPow2(align) && st.base + st.used <= SIZE_MAX
    ensures var addr := And(WrapAdd(st.base + st.used, align - 1), Not(align - 1));
            addr == if AlignUp(st.base + st.used, align) <= SIZE_MAX then AlignUp(st.base + st.used, align) else 0
  {
    hide And, WrapAdd, Not, IsPow2;
    RoundUpOrZero(st.base + st.used, align);
  }

  lemma AndIsWord(x: Word, y: nat)
    ensures And(x, y) <= x
  {
  }

  class Region {
    var base: Word
    var size: Word
    var used: Word

    ghost function State(): ArenaState
      reads this
    {
      ArenaState(base, size, used)
    }

    /** `lox_arena_init`. */
    constructor (mem: Word, size: Word)
      ensures State() == ArenaState(mem, size, 0)
    {
      this.base, this.size, this.used := mem, size, 0;
    }

    /** `lox_arena_alloc`: None is the null pointer, otherwise the address of the block. */
    method Alloc(size: Word, align: Word) returns (p: Option<Word>)
      modifies this
      ensures var at := AllocAt(old(State()), size, align);
              if at.Some? then
                p == Some(base + at.value) && State() == old(State()).(used := at.value + size)
              else p == None && State() == old(State())
    {
      hide And, AlignUp, IsPow2, WrapAdd, Not;
      if base == 0 || align == 0 || And(align, align - 1) != 0 {
        if align != 0 {
          PowerOfTwoTest(align);
        }
        return None;
      }
      PowerOfTwoTest(align);
      AlignUpIsLeast(base + used, align);
      if used > this.size || base > SIZE_MAX - used {
        return None;
      }
      var curAddr := base + used;
      AndIsWord(WrapAdd(curAddr, align - 1), Not(align - 1));
      var alignedAddr: Word := And(WrapAdd(curAddr, align - 1), Not(align - 1));
      AlignedAddress(State(), align);
      if alignedAddr < base {
        return None;
      }
      var aligned := alignedAddr - base;
      if aligned > this.size {
        return None;
      }
      var end := SafeAdd(aligned, size);
      if end.None? || end.value > this.size {
        return None;
      }
      used := end.value;
      p := Some(base + aligned);
    }

    /** `loxguard_arena_alloc_array`: refused when the true product is no word. */
    method AllocArray(elementSize: Word, count: Word, align: Word) returns (p: Option<Word>)
      modifies this
      ensures var at := if elementSize * count <= SIZE_MAX then AllocAt(old(State()), elementSize * count, align) else None;
              if at.Some? then
                p == Some(base + at.value) && State() == old(State()).(used := at.value + elementSize * count)
              else p == None && State() == old(State())
    {
      var total := CheckedMul(elementSize, count);
      if total.None? {
        return None;
      }
      p := Alloc(total.value, align);
    }

    /** `lox_arena_reset`. */
    method Reset()
      modifies this
      ensures State() == old(State()).(used := 0)
    {
      used := 0;
    }

    predicate HasRoom(s: Word)
      reads this
    {
      used + s <= size
    }

    /** `lox_arena_remaining`: the largest block that still fits when nothing is lost to
        alignment, so what an allocation at alignment 1 can get. */
    method Remaining() returns (n: Word)
      ensures forall s: Word :: 0 < s ==> (s <= n <==> HasRoom(s))
      ensures base != 0 && base + used <= SIZE_MAX ==> forall s: Word :: 0 < s ==> (s <= n <==> AllocAt(State(), s, 1).Some?)
    {
      n := if used > size then 0 else size - used;
      if base != 0 && base + used <= SIZE_MAX {
        UnalignedFits(State());
      }
    }
  }

  /** At alignment 1 whatever room is left can be had, if the arena has memory and its next
      address is a word. */
  lemma UnalignedFits(st: ArenaState)
    ensures forall s: Word :: AllocAt(st, s, 1).Some? <==>
              st.base != 0 && st.base + st.used <= 0xFFFF_FFFF_FFFF_FFFF && st.used + s <= st.size
  {
    assert 1 == Pow2(0);
    forall s: Word
      ensures AllocAt(st, s, 1).Some? <==>
              st.base != 0 && st.base + st.used <= SIZE_MAX && st.used + s <= st.size
    {
      assert AlignUp(st.base + st.used, 1) == st.base + st.used;
    }
  }

  // ---------------------------------------------------------------------------------
  // Whole runs
  // ---------------------------------------------------------------------------------

  datatype Op = Alloc(size: Word, align: Word) | AllocArray(elementSize: Word, count: Word, align: Word) | Reset

  /** A granted block: where it starts in the region, how long it is and its alignment. */
  datatype Block = Block(start: nat, len: nat, align: Word)

  /** An arena with the blocks granted since the last reset. */
  datatype Run = Run(st: ArenaState, blocks: seq<Block>)

  ghost function Grant(run: Run, size: Word, align: Word): Run {
    var at := AllocAt(run.st, size, align);
    if at.Some? then Run(run.st.(used := at.value + size), run.blocks + [Block(at.value, size, align)]) else run
  }

  ghost function Step(run: Run, op: Op): Run {
    match op
    case Alloc(size, align) => Grant(run, size, align)
    case AllocArray(elementSize, count, align) =>
      if elementSize * count <= SIZE_MAX then Grant(run, elementSize * count, align) else run
    case Reset => Run(run.st.(used := 0), [])
  }

  ghost function Steps(run: Run, ops: seq<Op>): Run
    decreases |ops|
  {
    if ops == [] then run else Steps(Step(run, ops[0]), ops[1..])
  }

  /** The granted blocks lie in the region in order, apart from each other and each aligned,
      and what is used ends with the last of them. */
  ghost predicate Laid(run: Run) {
    && run.st.used <= run.st.size
    && run.st.used == (if run.blocks == [] then 0 else run.blocks[|run.blocks| - 1].start + run.blocks[|run.blocks| - 1].len)
    && (forall i :: 0 <= i < |run.blocks| ==>
          && run.blocks[i].align > 0 && (run.st.base + run.blocks[i].start) % run.blocks[i].align == 0
          && run.st.base + run.blocks[i].start <= SIZE_MAX
          && run.blocks[i].start + run.blocks[i].len <= run.st.used)
    && (forall i, j :: 0 <= i < j < |run.blocks| ==> run.blocks[i].start + run.blocks[i].len <= run.blocks[j].start)
  }

  lemma StepKeepsLaid(run: Run, op: Op)
    requires Laid(run)
    ensures Laid(Step(run, op)) && Step(run, op).st.base == run.st.base && Step(run, op).st.size == run.st.size
  {
    hide AlignUp, IsPow2;
  }

  /** Over every run from a fresh arena the blocks stay laid out. */
  lemma {:induction false} RunsStayLaid(run: Run, ops: seq<Op>)
    requires Laid(run)
    ensures Laid(Steps(run, ops)) && Steps(run, ops).st.base == run.st.base && Steps(run, ops).st.size == run.st.size
    decreases |ops|
  {
    if ops != [] {
      StepKeepsLaid(run, ops[0]);
      RunsStayLaid(Step(run, ops[0]), ops[1..]);
    }
  }

  lemma FreshRunsStayLaid(base: Word, size: Word, ops: seq<Op>)
    ensures Laid(Steps(Run(ArenaState(base, size, 0), []), ops))
  {
    RunsStayLaid(Run(ArenaState(base, size, 0), []), ops);
  }
}
