/** Requests that the step-split index supports and has an arena for, and that abort all the same. */
module StepSplitExamples {
  import opened Wrappers
  import opened Powers
  import opened Arenas
  import opened StepSplit
  import opened StepSplitBins
  import opened StepSplitIndex

  /** An arena of the least alignment is given to an index that has none of them cached. Then a request aborts whose
      aligned size is not a multiple of that alignment, whatever room the arena has. */
  method BelowLeastAborts(index: ArenaIndex, a: FastArena, size: nat, alignLog2: nat) returns (r: Acquired<FastArena>)
    requires index.Valid() && a !in index.Stored() && !a.inList && !a.Resettable() && index.Fits(a)
    requires a.alignment == Pow2(index.config.minAlignLog2) && index.entries[0].entry.cached == null
    requires Align(size, Pow2(alignLog2)) % Pow2(index.config.minAlignLog2) != 0
    requires Align(size, Pow2(alignLog2)) <= index.config.steps.MaxSize()
    modifies index, index.repr, a`inList, index.Stored()`inList
    ensures index.Valid() && index.Stored() == old(index.Stored()) + {a}
    ensures r == Aborted
  {
    MisalignedBelowLeast(index.config, size, alignLog2);
    AlignmentOfEntry(index.config, 0);
    index.Release(a);
    r := index.Acquire(size, alignLog2);
  }

  /** A configuration that create() accepts, for arenas that create() accepts. */
  ghost predicate Usual(c: Config) {
    c.Accepted() && Exact(c.steps, c.minAlignLog2) && c.steps.maxLog2 + 1 < 64 && c.minAlignLog2 >= 4
  }

  lemma LargestIsAligned(c: Config)
    requires Usual(c)
    ensures c.minAlignLog2 <= c.steps.maxLog2 + 1
    ensures MIN_ALIGNMENT <= Pow2(c.minAlignLog2) <= c.steps.MaxSize() < U64
            && c.steps.MaxSize() % Pow2(c.minAlignLog2) == 0
  {
    var m, k := c.minAlignLog2, c.steps.maxLog2 + 1;
    AlignmentSupported(c, 0);
    Pow2Monotone(4, m);
    assert Pow2(4) == 16;
    Pow2Monotone(m, k);
    Pow2Add(k - m, m);
    MultipleMod(Pow2(k - m), Pow2(m));
    Pow2Monotone(k, 64);
    U64IsPow2();
  }

  /** An arena of the least alignment, as large as the largest allocation, with its first bytes in use. */
  method NewArena(c: Config) returns (a: FastArena)
    requires Usual(c)
    ensures fresh(a) && a.alignment == a.top == Pow2(c.minAlignLog2) && a.capacity == c.steps.MaxSize()
    ensures a.freed == 0 && !a.inList
  {
    LargestIsAligned(c);
    Log2OfPow2(c.minAlignLog2);
    a := new FastArena(c.steps.MaxSize(), Pow2(c.minAlignLog2));
    MultipleMod(1, Pow2(c.minAlignLog2));
    AlignProperties(Pow2(c.minAlignLog2), Pow2(c.minAlignLog2));
    var offset := a.Acquire(Pow2(c.minAlignLog2));
  }

  lemma NewArenaFitsEntry(b: Bins, a: FastArena)
    requires b.Valid() && a.alignment == a.top == Pow2(b.alignLog2) <= a.capacity == b.steps.MaxSize() < U64
    requires a.capacity % a.alignment == 0 && a.top % a.alignment == 0
    ensures b.Fits(a)
  {
    MinAllocInRange(b.steps, b.alignLog2);
  }

  lemma NewArenaFits(index: ArenaIndex, a: FastArena)
    requires index.Valid() && Usual(index.config)
    requires a.alignment == a.top == Pow2(index.config.minAlignLog2) && a.capacity == index.config.steps.MaxSize()
    ensures index.Fits(a)
  {
    LargestIsAligned(index.config);
    AlignmentOfEntry(index.config, 0);
    MultipleMod(1, a.alignment);
    assert index.entries[0].Valid();
    NewArenaFitsEntry(index.entries[0], a);
  }

  lemma OneByteMisaligned(c: Config, size: nat, alignLog2: nat)
    requires Usual(c) && size == 1 && alignLog2 == 0
    ensures Align(size, Pow2(alignLog2)) == 1 <= c.steps.MaxSize()
    ensures Align(size, Pow2(alignLog2)) % Pow2(c.minAlignLog2) != 0
  {
    LargestIsAligned(c);
    AlignProperties(1, 1);
    DivUnique(1, Pow2(c.minAlignLog2), 0);
  }

  /** Every index comes to this: with an arena of the least alignment in it, it aborts on such a request. */
  method RequestAborts(c: Config, size: nat, alignLog2: nat)
      returns (index: ArenaIndex, a: FastArena, r: Acquired<FastArena>)
    requires Usual(c) && Align(size, Pow2(alignLog2)) % Pow2(c.minAlignLog2) != 0
    requires Align(size, Pow2(alignLog2)) <= c.steps.MaxSize()
    ensures index.Valid() && index.config == c && index.Stored() == {a}
    ensures a.alignment == Pow2(c.minAlignLog2) && a.Remaining() == c.steps.MaxSize() - a.alignment
    ensures r == Aborted
  {
    index := new ArenaIndex(c);
    a := NewArena(c);
    NewArenaFits(index, a);
    assert index.entries[0].Valid() && index.entries[0].Stored() == {};
    r := BelowLeastAborts(index, a, size, alignLog2);
  }

  /** For one, on a request for one byte at alignment 1. */
  method OneByteAborts(c: Config) returns (index: ArenaIndex, a: FastArena, r: Acquired<FastArena>)
    requires Usual(c)
    ensures index.Valid() && index.config == c && index.Stored() == {a}
    ensures a.alignment == Pow2(c.minAlignLog2) && a.Remaining() == c.steps.MaxSize() - a.alignment
    ensures r == Aborted
  {
    var size, alignLog2 := 1, 0;
    OneByteMisaligned(c, size, alignLog2);
    index, a, r := RequestAborts(c, size, alignLog2);
  }

  /** One alignment, 16, and one step, from 16 to 32 bytes, that is not split. */
  lemma SmallestIsUsual()
    ensures Usual(Config(Steps(0, 4, 4), 4, 4, 1, 1, 1))
  {
    assert Pow2(4) == 16 && Pow2(5) == 32 && Pow2(0) == 1;
  }
}
