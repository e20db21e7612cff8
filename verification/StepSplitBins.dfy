/** FastArenaBins for one alignment: arenas are filed by their remaining size, and requests looked up by theirs. */
module StepSplitBins {
  import opened Wrappers
  import opened Powers
  import opened Arenas
  import opened StepSplit
  import opened StepSplitEntry

  /** locate_step_split_arena_clamped: arenas too small for the alignment go to bin 0. */
  function FileBin(c: Steps, minBin: nat, remaining: nat): nat
    requires c.Valid()
  {
    if ArenaBin(c, remaining) < minBin then 0 else ArenaBin(c, remaining)
  }

  /** locate_step_split_size_clamped: requests start at the alignment's first usable bin. */
  function LookBin(c: Steps, minBin: nat, size: nat): nat
    requires c.Valid()
  {
    if SizeBin(c, size) < minBin then minBin else SizeBin(c, size)
  }

  /** No shift that a lookup makes wraps, and no arena without room is filed where a request is looked up: an alignment
      of 4 or more, or a smallest step of more than one byte, sees to that. Arenas are aligned to 16 at least. */
  predicate Exact(c: Steps, alignLog2: nat) {
    c.Valid() && c.Fits() && (c.minLog2 > 0 || alignLog2 >= 2)
  }

  /** The first usable bin lies above the bin that an arena without room is put into. */
  predicate Clear(c: Steps, minBin: nat) {
    c.Valid() && c.Fits() && 0 < minBin < c.NumBins() && (c.minLog2 > 0 || minBin > 2)
  }

  lemma FileBinInRange(c: Steps, minBin: nat, r: nat)
    requires Clear(c, minBin) && r < U64
    ensures FileBin(c, minBin, r) < c.NumBins()
  {
    if r == 0 && c.minLog2 == 0 {
      NothingLocated(c, false);
    } else {
      ArenaFloor(c, r);
    }
  }

  /** Where a request is looked up, the lower bound covers it. */
  lemma LookupCovers(c: Steps, minBin: nat, size: nat)
    requires Clear(c, minBin) && size <= c.MaxSize()
    ensures minBin <= LookBin(c, minBin, size) < c.NumBins()
    ensures size <= Least(c, LookBin(c, minBin, size)) && Least(c, minBin) <= Least(c, LookBin(c, minBin, size))
  {
    var look := LookBin(c, minBin, size);
    if size == 0 && c.minLog2 == 0 {
      NothingLocated(c, true);
    } else {
      SizeBracket(c, size);
      SizeAdjoint(c, size, look);
    }
    LeastRises(c, minBin, look);
  }

  /** And it is the first such bin: a usable bin is at or after it exactly when its lower bound covers the request. */
  lemma LookupLeast(c: Steps, minBin: nat, size: nat, b: nat)
    requires Clear(c, minBin) && size <= c.MaxSize() && minBin <= b < c.NumBins()
    ensures size <= Least(c, b) <==> LookBin(c, minBin, size) <= b
  {
    if size == 0 && c.minLog2 == 0 {
      NothingLocated(c, true);
    } else {
      SizeAdjoint(c, size, b);
    }
  }

  /** An arena without room is filed in bin 0. */
  lemma NoRoomFiledLow(c: Steps, minBin: nat)
    requires Clear(c, minBin)
    ensures FileBin(c, minBin, 0) == 0 && forall b | minBin <= b :: Least(c, b) > 0
  {
    LeastOfFirst(c);
    forall b | minBin <= b ensures Least(c, b) > 0 {
      LeastRises(c, 0, b);
    }
    if c.minLog2 == 0 {
      NothingLocated(c, false);
    } else {
      ArenaFloor(c, 0);
    }
  }

  /** Filing is right from the first usable bin up: below the wrap size an arena is at or above such a bin exactly when
      it has the bin's lower bound, and a larger arena is never taken for more than it is. */
  lemma FiledRight(c: Steps, minBin: nat, r: nat, b: nat)
    requires Clear(c, minBin) && r < U64 && minBin <= b < c.NumBins()
    ensures b <= FileBin(c, minBin, r) ==> Least(c, b) <= r
    ensures r < WrapSize(c) && Least(c, b) <= r ==> b <= FileBin(c, minBin, r)
  {
    if r == 0 {
      NoRoomFiledLow(c, minBin);
    } else {
      ArenaFloor(c, r);
      if b <= FileBin(c, minBin, r) {
        LeastRises(c, b, ArenaBin(c, r));
      }
      if r < WrapSize(c) {
        ArenaAdjoint(c, r, b);
      }
    }
  }

  /** An arena with less than any usable bin's lower bound goes to bin 0, from which it is only extracted. */
  lemma UselessRecycled(c: Steps, minBin: nat, r: nat)
    requires Clear(c, minBin) && r < U64
    ensures r < Least(c, minBin) ==> FileBin(c, minBin, r) == 0
    ensures r < WrapSize(c) && Least(c, minBin) <= r ==> minBin <= FileBin(c, minBin, r)
  {
    FiledRight(c, minBin, r, minBin);
  }

  /** An arena filed at or above the bin a request is looked up in can serve it, and leaves at least the alignment's
      smallest bin; one with less room than that bin's lower bound is filed below it. */
  lemma LookupServes(c: Steps, minBin: nat, size: nat, r: nat)
    requires Clear(c, minBin) && r < U64 && size <= c.MaxSize()
    ensures minBin <= LookBin(c, minBin, size) < c.NumBins()
    ensures LookBin(c, minBin, size) <= FileBin(c, minBin, r) ==> size <= r && Least(c, minBin) <= r
    ensures r < WrapSize(c) ==>
            (LookBin(c, minBin, size) <= FileBin(c, minBin, r) <==> Least(c, LookBin(c, minBin, size)) <= r)
  {
    LookupCovers(c, minBin, size);
    FiledRight(c, minBin, r, LookBin(c, minBin, size));
  }

  /** min_alloc_size_hint of FastArenaBinsInfo::create. */
  function Hint(c: Steps, alignLog2: nat): nat
    requires c.Valid()
  {
    Align(Pow2(c.minLog2 - c.splitsLog2), Pow2(alignLog2))
  }

  /** min_step_split_id and min_alloc_size of an alignment, as create() computes them. */
  function FirstInfo(c: Steps, alignLog2: nat): Info
    requires c.Valid()
  {
    Locate(c, Hint(c, alignLog2), true)
  }

  /** The first usable bin of an alignment is never the recycling bin 0, and its lower bound, also where the index is
      denormalised, is a size that a block of that alignment fits in. */
  lemma FirstBin(c: Steps, alignLog2: nat)
    requires c.Valid() && c.Fits() && alignLog2 <= c.maxLog2 + 1
    ensures 0 < FirstInfo(c, alignLog2).bin < c.NumBins()
    ensures LowerBound(c, FirstInfo(c, alignLog2)) == Least(c, FirstInfo(c, alignLog2).bin) >= Hint(c, alignLog2)
    ensures Hint(c, alignLog2) >= Pow2(alignLog2)
    ensures Clear(c, FirstInfo(c, alignLog2).bin) <==> Exact(c, alignLog2)
  {
    HintBounds(c, alignLog2);
    PositiveSizeBin(c, Hint(c, alignLog2));
    if c.minLog2 == 0 {
      FirstBinOfOneByte(c, alignLog2);
    }
  }

  /** It is the first bin for a block of the alignment and for the least split there is. */
  lemma FirstBinLeast(c: Steps, alignLog2: nat, b: nat)
    requires c.Valid() && c.Fits() && alignLog2 <= c.maxLog2 + 1 && b < c.NumBins()
    ensures FirstInfo(c, alignLog2).bin <= b <==>
              Pow2(alignLog2) <= Least(c, b) && Pow2(c.minLog2 - c.splitsLog2) <= Least(c, b)
  {
    HintBounds(c, alignLog2);
    HintIsLarger(c, alignLog2);
    SizeAdjoint(c, Hint(c, alignLog2), b);
  }

  lemma HintIsLarger(c: Steps, alignLog2: nat)
    requires c.Valid()
    ensures Pow2(alignLog2) <= Hint(c, alignLog2) && Pow2(c.minLog2 - c.splitsLog2) <= Hint(c, alignLog2)
    ensures Hint(c, alignLog2) == Pow2(alignLog2) || Hint(c, alignLog2) == Pow2(c.minLog2 - c.splitsLog2)
  {
    AlignOfPow2(c.minLog2 - c.splitsLog2, alignLog2);
    Pow2Monotone(alignLog2, c.minLog2 - c.splitsLog2);
    Pow2Monotone(c.minLog2 - c.splitsLog2, alignLog2);
  }

  /** The last bin starts at the largest size. */
  lemma LeastOfLast(c: Steps, bin: nat)
    requires c.Valid() && bin == c.NumSteps() * c.Splits() + c.Splits()
    ensures bin + 1 == c.NumBins() && Least(c, bin) == c.MaxSize()
  {
    LastBin(c);
    BinBelow(c, c.NumSteps(), c.Splits());
    LeastAt(c, c.NumSteps(), c.Splits());
    StepIsSplits(c, c.NumSteps());
    MulCommutes(c.Splits(), Width(c, c.NumSteps()));
  }

  lemma LeastInRange(c: Steps, bin: nat)
    requires c.Valid() && bin < c.NumBins()
    ensures Least(c, bin) <= c.MaxSize()
  {
    LastBin(c);
    LeastOfLast(c, c.NumBins() - 1);
    LeastRises(c, bin, c.NumBins() - 1);
  }

  /** The smallest allocation of an alignment is no larger than the largest. */
  lemma MinAllocInRange(c: Steps, alignLog2: nat)
    requires c.Valid() && c.Fits() && alignLog2 <= c.maxLog2 + 1
    ensures LowerBound(c, FirstInfo(c, alignLog2)) <= c.MaxSize()
  {
    FirstBin(c, alignLog2);
    LeastInRange(c, FirstInfo(c, alignLog2).bin);
  }

  lemma FirstBinOfOneByte(c: Steps, alignLog2: nat)
    requires c.Valid() && c.Fits() && c.minLog2 == 0 && alignLog2 <= c.maxLog2 + 1
    ensures FirstInfo(c, alignLog2).bin > 2 <==> alignLog2 >= 2
  {
    HintBounds(c, alignLog2);
    FirstStepBins(c);
    AlignOfPow2(0, alignLog2);
    SizeAdjoint(c, Pow2(alignLog2), 2);
    Pow2Monotone(alignLog2, 1);
    Pow2Monotone(2, alignLog2);
  }

  lemma PositiveSizeBin(c: Steps, s: nat)
    requires c.Valid() && c.Fits() && 0 < s <= c.MaxSize()
    ensures 0 < SizeBin(c, s) < c.NumBins()
    ensures LowerBound(c, Locate(c, s, true)) == Least(c, SizeBin(c, s)) >= s
  {
    SizeBracket(c, s);
    LocatedBound(c, s);
    LeastOfFirst(c);
  }

  lemma LocatedBound(c: Steps, s: nat)
    requires c.Valid()
    ensures LowerBound(c, Locate(c, s, true)) == Least(c, SizeBin(c, s))
  {
    LocatedStep(c, s, true);
    BoundOfInfo(c, Locate(c, s, true));
  }

  lemma LeastOfFirst(c: Steps)
    requires c.Valid()
    ensures Least(c, 0) == 0
  {
    LeastAt(c, 0, 0);
  }

  lemma HintBounds(c: Steps, alignLog2: nat)
    requires c.Valid() && alignLog2 <= c.maxLog2 + 1
    ensures 0 < Pow2(alignLog2) <= Hint(c, alignLog2) <= c.MaxSize()
  {
    AlignOfPow2(c.minLog2 - c.splitsLog2, alignLog2);
    Pow2Monotone(alignLog2, c.maxLog2 + 1);
    Pow2Monotone(c.minLog2 - c.splitsLog2, c.maxLog2 + 1);
    Pow2Monotone(alignLog2, c.minLog2 - c.splitsLog2);
  }

  // ---------------------------------------------------------------------------------------------- exact condition

  /** Requests are looked up at a bin that covers them, and arenas below the wrap size are found there exactly when they
      have that bin's lower bound. */
  ghost predicate ServesExactly(c: Steps, minBin: nat)
    requires c.Shiftable()
  {
    forall size: nat, r: nat | size <= c.MaxSize() && r < WrapSize(c) && r < U64 :: ServedRight(c, minBin, size, r)
  }

  ghost predicate ServedRight(c: Steps, minBin: nat, size: nat, r: nat)
    requires c.Valid()
  {
    var b := LookBin(c, minBin, size);
    size <= Least(c, b) && (b <= FileBin(c, minBin, r) <==> Least(c, b) <= r)
  }

  /** The locators that the index uses, which clamp to the alignment's first bin, are right exactly under this
      condition. It is not checked when the index is created. */
  lemma ExactlyWhen(c: Steps, alignLog2: nat)
    requires c.Valid() && c.maxLog2 + 1 < 64 && alignLog2 <= c.maxLog2 + 1
    ensures ServesExactly(c, FirstInfo(c, alignLog2).bin) <==> Exact(c, alignLog2)
  {
    var minBin := FirstInfo(c, alignLog2).bin;
    if Exact(c, alignLog2) {
      FirstBin(c, alignLog2);
      forall size: nat, r: nat | size <= c.MaxSize() && r < WrapSize(c) && r < U64
        ensures ServedRight(c, minBin, size, r)
      {
        LookupCovers(c, minBin, size);
        LookupServes(c, minBin, size, r);
      }
    } else if c.Fits() {
      NoRoomServed(c, alignLog2);
    } else {
      LargestRequestShort(c, alignLog2);
    }
  }

  /** For the alignments that arenas have, that leaves only the largest shift to go wrong. */
  lemma ExactForArenas(c: Steps, capacity: nat, alignment: nat)
    requires Create(capacity, alignment).Some?
    requires c.Valid() && c.maxLog2 + 1 < 64 && Log2(alignment) <= c.maxLog2 + 1
    ensures ServesExactly(c, FirstInfo(c, Log2(alignment)).bin) <==> c.Fits()
  {
    CreateValid(capacity, alignment);
    ExactlyWhen(c, Log2(alignment));
  }

  /** With a one-byte smallest step and an alignment of 1 or 2, an arena without room is found for a small request. */
  lemma NoRoomServed(c: Steps, alignLog2: nat)
    requires c.Valid() && c.Fits() && c.minLog2 == 0 && alignLog2 < 2 && alignLog2 <= c.maxLog2 + 1
    ensures !ServedRight(c, FirstInfo(c, alignLog2).bin, Pow2(alignLog2), 0) && Pow2(alignLog2) <= c.MaxSize()
  {
    HintBounds(c, alignLog2);
    AlignOfPow2(0, alignLog2);
    FirstBin(c, alignLog2);
    FirstBinOfOneByte(c, alignLog2);
    NothingLocated(c, false);
  }

  /** A power of two in the zero step, and how far the shift moves it. */
  lemma ZeroStepReach(c: Steps, j: nat)
    requires c.Valid() && j < c.minLog2
    ensures (Pow2(j) + Width(c, 0) - 1) * c.Splits() == Pow2(j + c.splitsLog2) + Pow2(c.minLog2) - c.Splits()
  {
    StepIsSplits(c, 0);
    Pow2Add(j, c.splitsLog2);
    MulDistributes(Pow2(j), Width(c, 0), c.Splits());
    MulDistributes(Pow2(j) + Width(c, 0), 1, c.Splits());
  }

  lemma ZeroStepAt(c: Steps, j: nat)
    requires c.Valid() && j < c.minLog2
    ensures var info := Locate(c, Pow2(j), true);
            && info.step == 0 && info.base == 0 && info.sizeLog2 == c.minLog2 && info.bin == info.split
            && Reach(c, Pow2(j), true) == Pow2(j) + Width(c, 0) - 1
  {
    Log2OfPow2(j);
    ZeroStepOfLog2(c, Pow2(j), true);
  }

  lemma ZeroStepSizes(c: Steps, j: nat)
    requires c.Valid() && c.maxLog2 + 1 < 64 && j < c.minLog2
    ensures Pow2(j) <= U64 / 4 && Pow2(c.minLog2) <= U64 / 4 && 0 < Width(c, 0) <= Pow2(c.minLog2)
    ensures c.Splits() <= Pow2(c.minLog2)
    ensures j + c.splitsLog2 < 64 ==> Pow2(j + c.splitsLog2) <= U64 / 2
  {
    PowersBelow(c.minLog2);
    PowersBelow(j);
    PowersBelow(j + c.splitsLog2);
    Pow2Monotone(c.splitsLog2, c.minLog2);
    Pow2Monotone(c.minLog2 - c.splitsLog2, c.minLog2);
  }

  lemma PowersBelow(k: nat)
    ensures k <= 63 ==> Pow2(k) <= U64 / 2
    ensures k <= 62 ==> Pow2(k) <= U64 / 4
  {
    U64IsPow2();
    Pow2Monotone(k, 63);
    Pow2Monotone(k, 62);
  }

  lemma ZeroStepFits(c: Steps, j: nat) returns (x: nat)
    requires c.Valid() && c.maxLog2 + 1 < 64 && c.minLog2 - c.splitsLog2 <= j < c.minLog2 && j + c.splitsLog2 < 64
    ensures x == Pow2(j) + Width(c, 0) - 1 >= Width(c, 0) && x * c.Splits() < U64
  {
    x := Pow2(j) + Width(c, 0) - 1;
    ZeroStepReach(c, j);
    ZeroStepSizes(c, j);
    Pow2Monotone(c.minLog2 - c.splitsLog2, j);
  }

  lemma ZeroStepOverflows(c: Steps, j: nat) returns (x: nat, over: nat, rest: nat)
    requires c.Valid() && c.maxLog2 + 1 < 64 && j < c.minLog2 && j + c.splitsLog2 >= 64
    ensures x == Pow2(j) + Width(c, 0) - 1 < U64 && rest < Pow2(c.minLog2) && rest < U64
    ensures x * c.Splits() == over * U64 + rest
  {
    x, over, rest := Pow2(j) + Width(c, 0) - 1, Pow2(j + c.splitsLog2 - 64), 0;
    ZeroStepReach(c, j);
    ZeroStepSizes(c, j);
    Pow2Add(j + c.splitsLog2 - 64, 64);
    U64IsPow2();
    rest := Pow2(c.minLog2) - c.Splits();
  }

  /** Where the shift does not overflow, a power of two of at least one width lies past the first split. */
  lemma ZeroStepSplit(c: Steps, j: nat)
    requires c.Valid() && c.maxLog2 + 1 < 64 && c.minLog2 - c.splitsLog2 <= j < c.minLog2 && j + c.splitsLog2 < 64
    ensures Locate(c, Pow2(j), true).split > 0
  {
    ZeroStepAt(c, j);
    var x := ZeroStepFits(c, j);
    PastFirstSplit(c, Pow2(j), x);
  }

  /** A reach of a width or more is past split 0. */
  lemma PastFirstSplit(c: Steps, size: nat, x: nat)
    requires c.Valid() && Locate(c, size, true).step == 0 && x == Reach(c, size, true)
    requires x * c.Splits() < U64 && x >= Width(c, 0)
    ensures Locate(c, size, true).split > 0
  {
    var info, l := Locate(c, size, true), StepLog2(c, 0) - c.splitsLog2;
    LocatedSplit(c, size, true);
    assert info.split == StepSplit.Smaller(DivPow2(x, l), c.Splits());
    SplitPositive(x, l, info.split, c.Splits());
  }

  lemma SplitPositive(x: nat, l: nat, split: nat, n: nat)
    requires x >= Pow2(l) && n > 0 && split == StepSplit.Smaller(DivPow2(x, l), n)
    ensures split > 0
  {
  }

  /** Where it overflows, all is lost. */
  lemma ZeroStepLost(c: Steps, j: nat)
    requires c.Valid() && c.maxLog2 + 1 < 64 && j < c.minLog2 && j + c.splitsLog2 >= 64
    ensures Locate(c, Pow2(j), true).split == 0
  {
    ZeroStepAt(c, j);
    var x, over, rest := ZeroStepOverflows(c, j);
    LostReach(c, Pow2(j), x, over, rest);
  }

  lemma LostReach(c: Steps, size: nat, x: nat, over: nat, rest: nat)
    requires c.Valid() && x == Reach(c, size, true) < U64
    requires x * c.Splits() == over * U64 + rest && rest < U64 && rest < Pow2(Locate(c, size, true).sizeLog2)
    ensures Locate(c, size, true).split == 0
  {
    LocatedStep(c, size, true);
    ShiftedOut(c, x, over, rest, Locate(c, size, true).sizeLog2);
  }

  /** From the smallest step on, a size is never in the recycling bin. */
  lemma LaterStepPositive(c: Steps, j: nat)
    requires c.Valid() && c.minLog2 <= j
    ensures SizeBin(c, Pow2(j)) > 0
  {
    Log2OfPow2(j);
    LocatedStep(c, Pow2(j), true);
    MulKeepsOrder(0, Locate(c, Pow2(j), true).step, c.Splits());
  }

  /** The first bin of an alignment, for every configuration whose largest size is a 64-bit number. It is the recycling
      bin, for which the entry is refused, exactly when the alignment is in the zero step and its shift overflows. */
  lemma FirstBinPositive(c: Steps, alignLog2: nat)
    requires c.Valid() && c.maxLog2 + 1 < 64 && alignLog2 <= c.maxLog2 + 1
    ensures FirstInfo(c, alignLog2).bin < c.NumBins()
    ensures FirstInfo(c, alignLog2).bin == 0 <==> alignLog2 < c.minLog2 && alignLog2 + c.splitsLog2 >= 64
  {
    var j := FirstBinOfPower(c, alignLog2);
    SizeBinInRange(c, Pow2(j));
    if j >= c.minLog2 {
      LaterStepPositive(c, j);
    } else {
      ZeroStepAt(c, j);
      if j + c.splitsLog2 < 64 {
        ZeroStepSplit(c, j);
      } else {
        ZeroStepLost(c, j);
      }
    }
  }

  lemma SizeBinInRange(c: Steps, size: nat)
    requires c.Valid()
    ensures SizeBin(c, size) < c.NumBins()
  {
    LocatedStep(c, size, true);
    BinBelow(c, Locate(c, size, true).step, Locate(c, size, true).split);
  }

  lemma StepBelow(k: nat, n: nat, j: nat, s: nat)
    requires k < n && j <= s && s > 0
    ensures k * s + j <= n * s
  {
    MulDistributes(k, 1, s);
    MulKeepsOrder(k + 1, n, s);
  }

  /** The size is looked up no further than the start of the last step. */
  predicate LooksLow(c: Steps, size: nat)
    requires c.Valid()
  {
    SizeBin(c, size) <= c.NumSteps() * c.Splits()
  }

  /** No power of two in range is looked up beyond the start of the last step. */
  lemma PowerStartsStep(c: Steps, j: nat)
    requires c.Valid() && c.maxLog2 + 1 < 64 && j <= c.maxLog2
    ensures LooksLow(c, Pow2(j))
  {
    var info := Locate(c, Pow2(j), true);
    LocatedStep(c, Pow2(j), true);
    if info.step < c.NumSteps() {
      StepBelow(info.step, c.NumSteps(), info.split, c.Splits());
    } else {
      Pow2Monotone(j, c.maxLog2);
      LastPowerLocated(c);
    }
  }

  lemma LastPowerLocated(c: Steps)
    requires c.Valid() && c.maxLog2 + 1 < 64
    ensures SizeBin(c, Pow2(c.maxLog2)) == c.NumSteps() * c.Splits()
  {
    LastPowerReach(c);
    LastPowerSplit(c);
    LocatedStep(c, Pow2(c.maxLog2), true);
  }

  lemma LastPowerSplit(c: Steps)
    requires c.Valid() && c.maxLog2 + 1 < 64
    ensures Locate(c, Pow2(c.maxLog2), true).split == 0
  {
    LastPowerReach(c);
    LastReachFits(c);
    ShortReach(c, Pow2(c.maxLog2), true, Width(c, c.NumSteps()) - 1, c.maxLog2 - c.splitsLog2);
  }

  /** A reach of less than one width is in split 0. */
  lemma ShortReach(c: Steps, size: nat, roundUp: bool, x: nat, l: nat)
    requires c.Valid() && x == Reach(c, size, roundUp) && l == StepLog2(c, Locate(c, size, roundUp).step) - c.splitsLog2
    requires x * c.Splits() < U64 && x < Pow2(l)
    ensures Locate(c, size, roundUp).split == 0
  {
    LocatedSplit(c, size, roundUp);
    DivPow2Unique(x, l, 0);
  }

  lemma LastPowerReach(c: Steps)
    requires c.Valid()
    ensures Locate(c, Pow2(c.maxLog2), true).step == c.NumSteps() && StepLog2(c, c.NumSteps()) == c.maxLog2
    ensures Reach(c, Pow2(c.maxLog2), true) == Pow2(c.maxLog2 - c.splitsLog2) - 1 == Width(c, c.NumSteps()) - 1
  {
    BeyondLastStep(c, Pow2(c.maxLog2), true);
  }

  lemma LastReachFits(c: Steps)
    requires c.Valid() && c.maxLog2 + 1 < 64
    ensures 0 <= (Width(c, c.NumSteps()) - 1) * c.Splits() < U64
  {
    var w := Width(c, c.NumSteps());
    StepIsSplits(c, c.NumSteps());
    MulDistributes(w, 1, c.Splits());
    MulKeepsOrder(-1, w - 1, c.Splits());
    SizesIn64(c);
  }

  /** The first bin of an alignment is that of a power of two. */
  lemma FirstBinOfPower(c: Steps, alignLog2: nat) returns (j: nat)
    requires c.Valid() && alignLog2 <= c.maxLog2 + 1
    ensures j == if c.minLog2 - c.splitsLog2 < alignLog2 then alignLog2 else c.minLog2 - c.splitsLog2
    ensures FirstInfo(c, alignLog2).bin == SizeBin(c, Pow2(j))
  {
    j := if c.minLog2 - c.splitsLog2 < alignLog2 then alignLog2 else c.minLog2 - c.splitsLog2;
    AlignOfPow2(c.minLog2 - c.splitsLog2, alignLog2);
  }

  lemma LargestLooksLow(c: Steps)
    requires c.Valid() && c.maxLog2 + 1 < 64 && !c.Fits()
    ensures LooksLow(c, c.MaxSize())
  {
    LargestRequestLocated(c);
  }

  /** When the largest shift overflows, that is so for every power of two up to the largest size, ... */
  lemma PowerLooksLow(c: Steps, j: nat, size: nat)
    requires c.Valid() && c.maxLog2 + 1 < 64 && j <= c.maxLog2 + 1 && !c.Fits() && size == Pow2(j)
    ensures LooksLow(c, size)
  {
    if j <= c.maxLog2 {
      PowerStartsStep(c, j);
    } else {
      LargestLooksLow(c);
    }
  }

  /** ... so no alignment's first bin lies beyond the start of the last step. */
  lemma FirstBinLow(c: Steps, alignLog2: nat)
    requires c.Valid() && c.maxLog2 + 1 < 64 && alignLog2 <= c.maxLog2 + 1 && !c.Fits()
    ensures FirstInfo(c, alignLog2).bin <= c.NumSteps() * c.Splits()
  {
    var j := FirstBinOfPower(c, alignLog2);
    PowerLooksLow(c, j, Pow2(j));
  }

  /** So clamping does not help the largest request. */
  lemma LargestRequestShort(c: Steps, alignLog2: nat)
    requires c.Valid() && c.maxLog2 + 1 < 64 && alignLog2 <= c.maxLog2 + 1 && !c.Fits()
    ensures !ServedRight(c, FirstInfo(c, alignLog2).bin, c.MaxSize(), 0)
  {
    LargestRequestLocated(c);
    LargestRequestMisplaced(c);
    FirstBinLow(c, alignLog2);
  }

  class Bins {
    const steps: Steps
    const alignLog2: nat
    const entry: Entry
    const minAlloc: nat  // the least lower bound of the bins that requests are looked up in

    /** An arena that can be indexed here. */
    ghost predicate Fits(a: FastArena)
      requires Exact(steps, alignLog2)
      reads a`top
    {
      && a.alignment == Pow2(alignLog2) && minAlloc <= a.capacity < U64
      && a.capacity % a.alignment == 0 && a.top % a.alignment == 0 && a.top <= a.capacity
    }

    /** Bin b is the one that the arena's current remaining size locates. */
    ghost predicate BelongsIn(a: FastArena, b: nat)
      requires Exact(steps, alignLog2)
      reads a`top
    {
      Fits(a) && FileBin(steps, entry.minBin, a.Remaining()) == b
    }

    ghost function Stored(): set<FastArena>
      reads entry
    {
      entry.Stored()
    }

    /** Nothing the two indexes change is shared. */
    ghost predicate Apart(other: Bins) {
      && entry != other.entry && entry.lists != other.entry.lists && entry.present.bins != other.entry.present.bins
    }

    ghost predicate Within(repr: set<object>) {
      entry in repr && entry.lists in repr && entry.present.bins in repr
    }

    ghost predicate Indexed()
      requires Exact(steps, alignLog2)
      reads entry, Stored()`top
    {
      && (forall a {:trigger BelongsIn(a, entry.place[a])} | a in entry.place :: BelongsIn(a, entry.place[a]))
      && (entry.cached != null ==> Fits(entry.cached))
    }

    /** The sizes that FastArenaBinsInfo::create derives for the alignment. */
    ghost predicate Sized()
      requires Exact(steps, alignLog2)
    {
      && entry.numBins == steps.NumBins() && entry.minBin == FirstInfo(steps, alignLog2).bin
      && minAlloc == LowerBound(steps, FirstInfo(steps, alignLog2))
    }

    ghost predicate Valid()
      reads entry, entry.lists, entry.present.bins, Stored()`inList, Stored()`top
    {
      && Exact(steps, alignLog2) && alignLog2 <= steps.maxLog2 + 1 && Sized()
      && entry.Valid() && Indexed()
    }

    constructor (steps: Steps, alignLog2: nat, axis: nat)
      requires Exact(steps, alignLog2) && alignLog2 <= steps.maxLog2 + 1 && steps.NumBins() <= axis
      ensures Valid() && Stored() == {} && this.steps == steps && this.alignLog2 == alignLog2
      ensures fresh(entry) && fresh(entry.lists) && fresh(entry.present.bins)
    {
      this.steps, this.alignLog2 := steps, alignLog2;
      minAlloc := LowerBound(steps, FirstInfo(steps, alignLog2));
      FirstBin(steps, alignLog2);
      entry := new Entry(steps.NumBins(), FirstInfo(steps, alignLog2).bin, axis);
    }

    /** The arena reaches the lower bound of no usable bin whose lower bound covers the request, unless it is so large
        that its filing wraps. */
    ghost predicate Short(a: FastArena, size: nat)
      requires Exact(steps, alignLog2)
      reads a`top
    {
      a.Remaining() < WrapSize(steps) ==>
        forall b: nat | entry.minBin <= b < steps.NumBins() && size <= Least(steps, b) ::
          a.Remaining() < Least(steps, b)
    }

    /** No bin's lower bound tells the two arenas apart in favour of the second, unless the first one's filing wraps. */
    ghost predicate NoLarger(a: FastArena, other: FastArena)
      requires Exact(steps, alignLog2)
      reads a`top, other`top
    {
      a.Remaining() < WrapSize(steps) ==>
        forall b: nat | entry.minBin <= b < steps.NumBins() && Least(steps, b) <= a.Remaining() ::
          Least(steps, b) <= other.Remaining()
    }

    /** The stored arenas are where their remaining sizes put them. */
    ghost predicate Filed(place: map<FastArena, nat>)
      requires Exact(steps, alignLog2)
      reads place.Keys`top
    {
      forall a {:trigger BelongsIn(a, place[a])} | a in place :: BelongsIn(a, place[a])
    }

    /** The first arena of the lowest bin in use, from the request's bin on. */
    method TakeFirst(size: nat) returns (r: Acquired<FastArena>)
      requires Valid() && size <= steps.MaxSize()
      modifies entry, entry.lists, entry.present.bins, Stored()`inList
      ensures Valid() && r.Answered() && entry.cached == old(entry.cached) && Filed(old(entry.place))
      ensures r.NoResource? ==>
                && entry.place == old(entry.place)
                && forall a | a in entry.place :: entry.place[a] < LookBin(steps, entry.minBin, size)
      ensures r.Acquired? ==>
                && r.value in old(entry.place) && entry.place == old(entry.place) - {r.value} && !r.value.inList
                && LookBin(steps, entry.minBin, size) <= old(entry.place)[r.value]
                && forall a | a in old(entry.place) && LookBin(steps, entry.minBin, size) <= old(entry.place)[a] ::
                     old(entry.place)[r.value] <= old(entry.place)[a]
    {
      var bin := LookFor(size);
      r := entry.AcquireBin(bin);
    }

    /** acquire_bin_arena_: it misses no arena but those that reach no usable bin's lower bound that covers the request,
        or are beyond the wrap size; and among the others it takes one that fits best. */
    method AcquireFromBins(size: nat) returns (r: Acquired<FastArena>)
      requires Valid() && size <= steps.MaxSize()
      modifies entry, entry.lists, entry.present.bins, Stored()`inList
      ensures Valid() && r.Answered() && entry.cached == old(entry.cached)
      ensures r.Acquired? ==>
                && r.value in old(entry.place) && entry.place == old(entry.place) - {r.value}
                && Fits(r.value) && !r.value.inList && size <= r.value.Remaining() && minAlloc <= r.value.Remaining()
                && forall a {:trigger Short(a, size)} | a in old(entry.place) :: Short(a, size) || NoLarger(r.value, a)
      ensures r.NoResource? ==>
                && entry.place == old(entry.place)
                && forall a {:trigger Short(a, size)} | a in entry.place :: Short(a, size)
    {
      r := TakeFirst(size);
      if r.Acquired? {
        BestFit(r.value, old(entry.place), size);
      } else {
        NothingLeft(size);
      }
    }

    method LookFor(size: nat) returns (bin: nat)
      requires Valid() && size <= steps.MaxSize()
      ensures bin == LookBin(steps, entry.minBin, size) && entry.minBin <= bin < entry.numBins
    {
      FirstBin(steps, alignLog2);
      LookupServes(steps, entry.minBin, size, 0);
      bin := LookBin(steps, entry.minBin, size);
    }

    /** An arena that a request is rightly not given: too small if it is the cached one, and otherwise short of every
        bin that covers the request. */
    ghost predicate TooSmall(a: FastArena, size: nat)
      requires Exact(steps, alignLog2)
      reads entry, a`top
    {
      if a == entry.cached then a.Remaining() < size else Short(a, size)
    }

    /** There is a cached arena, and it is to be asked for a size that is not aligned. */
    ghost predicate Clashes(size: nat)
      reads entry
    {
      entry.cached != null && size % Pow2(alignLog2) != 0
    }

    /** What an arena of the alignment has left is aligned, so asking it for an aligned size does not abort. */
    lemma RoomIsAligned(a: FastArena, size: nat)
      requires Exact(steps, alignLog2) && Fits(a)
      ensures a.CanAllocateAligned(size) == if size % Pow2(alignLog2) == 0 then Some(a.Remaining() >= size) else None
    {
      ModAdd(a.top, a.capacity - a.top, a.alignment);
    }

    /** acquire_arena_: it aborts if there is a cached arena and the size is not aligned; otherwise it hands out the
        cached arena if that has the room, and one from the bins if not. No arena is missed but those that reach no
        usable bin's lower bound that covers the request, or are beyond the wrap size. */
    method Acquire(size: nat) returns (r: Acquired<FastArena>)
      requires Valid() && size <= steps.MaxSize()
      modifies entry, entry.lists, entry.present.bins, Stored()`inList
      ensures Valid() && !r.Failed?
      ensures r.Aborted? <==> old(Clashes(size))
      ensures old(entry.cached) != null && old(!Clashes(size)) && old(entry.cached.Remaining()) >= size ==>
                r == Acquired(old(entry.cached))
      ensures !r.Acquired? ==> Stored() == old(Stored())
      ensures r.Acquired? ==>
                && r.value in old(Stored()) && Stored() == old(Stored()) - {r.value}
                && Fits(r.value) && !r.value.inList && size <= r.value.Remaining()
      ensures r.Acquired? && r.value != old(entry.cached) ==>
                && (old(entry.cached) != null ==> old(entry.cached.Remaining()) < size)
                && forall a {:trigger Short(a, size)} | a in old(entry.place) :: Short(a, size) || NoLarger(r.value, a)
      ensures r.NoResource? ==> forall a {:trigger TooSmall(a, size)} | a in Stored() :: TooSmall(a, size)
    {
      if entry.cached != null {
        RoomIsAligned(entry.cached, size);
      }
      r := entry.AcquireCached(size);
      if r.NoResource? {
        r := AcquireFromBins(size);
      }
    }

    lemma NothingLeft(size: nat)
      requires Valid() && size <= steps.MaxSize()
      requires forall a | a in entry.place :: entry.place[a] < LookBin(steps, entry.minBin, size)
      ensures forall a {:trigger Short(a, size)} | a in entry.place :: Short(a, size)
    {
      forall a | a in entry.place ensures Short(a, size) {
        assert BelongsIn(a, entry.place[a]);
        FiledBelow(a, size);
      }
    }

    /** An arena filed below the bin of a request is short of it. */
    lemma FiledBelow(a: FastArena, size: nat)
      requires Exact(steps, alignLog2) && alignLog2 <= steps.maxLog2 + 1 && Sized() && size <= steps.MaxSize()
      requires Fits(a)
      requires FileBin(steps, entry.minBin, a.Remaining()) < LookBin(steps, entry.minBin, size)
      ensures Short(a, size)
    {
      FirstBin(steps, alignLog2);
      forall b: nat | entry.minBin <= b < steps.NumBins() && size <= Least(steps, b)
        ensures a.Remaining() < WrapSize(steps) ==> a.Remaining() < Least(steps, b)
      {
        LookupLeast(steps, entry.minBin, size, b);
        FiledRight(steps, entry.minBin, a.Remaining(), b);
      }
    }

    /** An arena filed no higher than another one is no larger as far as the bins can tell. */
    lemma FiledNoHigher(a: FastArena, other: FastArena)
      requires Exact(steps, alignLog2) && alignLog2 <= steps.maxLog2 + 1 && Sized() && Fits(a) && Fits(other)
      requires FileBin(steps, entry.minBin, a.Remaining()) <= FileBin(steps, entry.minBin, other.Remaining())
      ensures NoLarger(a, other)
    {
      FirstBin(steps, alignLog2);
      forall b: nat | entry.minBin <= b < steps.NumBins() && Least(steps, b) <= a.Remaining()
        ensures a.Remaining() < WrapSize(steps) ==> Least(steps, b) <= other.Remaining()
      {
        FiledRight(steps, entry.minBin, a.Remaining(), b);
        FiledRight(steps, entry.minBin, other.Remaining(), b);
      }
    }

    /** The first bin from the request's on holds the arenas that fit best. */
    lemma BestFit(found: FastArena, place: map<FastArena, nat>, size: nat)
      requires Exact(steps, alignLog2) && alignLog2 <= steps.maxLog2 + 1 && Sized() && size <= steps.MaxSize()
      requires Filed(place) && found in place && LookBin(steps, entry.minBin, size) <= place[found]
      requires forall a | a in place && LookBin(steps, entry.minBin, size) <= place[a] :: place[found] <= place[a]
      ensures Fits(found) && size <= found.Remaining() && minAlloc <= found.Remaining()
      ensures forall a {:trigger Short(a, size)} | a in place :: Short(a, size) || NoLarger(found, a)
    {
      assert BelongsIn(found, place[found]);
      FirstBin(steps, alignLog2);
      LookupServes(steps, entry.minBin, size, found.Remaining());
      forall a | a in place ensures Short(a, size) || NoLarger(found, a) {
        assert BelongsIn(a, place[a]);
        if place[a] < LookBin(steps, entry.minBin, size) {
          FiledBelow(a, size);
        } else {
          FiledNoHigher(found, a);
        }
      }
    }

    /** release_arena_: the arena, or the cached one it displaces, goes to the bin its remaining size locates. */
    method Release(a: FastArena)
      requires Valid() && Fits(a) && a !in Stored() && !a.inList
      modifies entry, entry.lists, entry.present.bins, a`inList, Stored()`inList
      ensures Valid() && Stored() == old(Stored()) + {a}
      ensures entry.cached == if old(entry.cached) == null || a.Remaining() >= 2 * old(entry.cached.Remaining()) then a
                              else old(entry.cached)
    {
      FirstBin(steps, alignLog2);
      var rest := entry.TryUpdateCached(a);
      if rest != null {
        FileBinInRange(steps, entry.minBin, rest.Remaining());
        entry.Put(rest, FileBin(steps, entry.minBin, rest.Remaining()));
      }
    }

    /** extract_arena for a stored arena: it is the cached one or in the bin its remaining size locates, so the abort at
        the end is not reached. */
    method Extract(a: FastArena) returns (ok: bool)
      requires Valid() && a in Stored()
      modifies entry, entry.lists, entry.present.bins, a`inList
      ensures Valid() && ok && Stored() == old(Stored()) - {a} && !a.inList && Fits(a)
      ensures entry.cached == if a == old(entry.cached) then null else old(entry.cached)
    {
      ok := entry.TryExtractCached(a);
      if ok {
        return;
      }
      assert BelongsIn(a, entry.place[a]);
      ok := entry.TryExtractBin(a, FileBin(steps, entry.minBin, a.Remaining()));
    }
  }
}
