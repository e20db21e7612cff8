/** The two-level logarithmic size index of fast_arena_step_split_allocator.hpp. Sizes are cut into steps at powers of
    two, each step into the same number of splits, and a last bin takes everything beyond the largest step. An arena is
    filed by rounding its remaining size down to a bin, and a request is looked up by rounding its size up to one.

    All quantities are 64-bit in the source; subtraction and left shift wrap here as they do there. */
module StepSplit {
  import opened Powers

  const U64: nat := 0x1_0000_0000_0000_0000

  /** The logarithms fixed by FastArenaBinsConfig, as FastArenaBinsInfo::create checks them. */
  datatype Steps = Steps(splitsLog2: nat, minLog2: nat, maxLog2: nat) {

    predicate Valid() {
      splitsLog2 <= minLog2 <= maxLog2
    }

    /** Step sizes are 64-bit numbers. */
    predicate Shiftable() {
      Valid() && maxLog2 < 64
    }

    /** Every shift the two locators make on a size of at most MaxSize() stays within 64 bits. */
    predicate Fits() {
      maxLog2 + splitsLog2 < 64
    }

    function Splits(): nat {
      Pow2(splitsLog2)
    }

    /** The number of steps after the zero step. */
    function NumSteps(): int {
      maxLog2 - minLog2 + 1
    }

    /** num_step_splits: the number of bins, the last of which takes the sizes beyond every step. */
    function NumBins(): int {
      Splits() * (NumSteps() + 1) + 1
    }

    /** global_max_alloc_size */
    function MaxSize(): nat {
      Pow2(maxLog2 + 1)
    }
  }

  datatype Info = Info(step: nat, split: nat, bin: nat, base: nat, sizeLog2: nat)

  /** A left shift, bit by bit; what passes bit 64 is lost. */
  function Shl64(a: int, k: nat): nat
    decreases k
  {
    if k == 0 then a % U64 else Shl64(2 * a, k - 1)
  }

  lemma {:induction false} Shl64Is(a: int, k: nat)
    ensures Shl64(a, k) == (a * Pow2(k)) % U64
    decreases k
  {
    if k > 0 {
      Shl64Is(2 * a, k - 1);
      MulAssociates(a, 2, Pow2(k - 1));
      MulCommutes(a, 2);
    }
  }

  function Smaller(x: nat, y: nat): nat {
    if x < y then x else y
  }

  /** get_step_split_info; bin and split may be denormalised, that is, name the start of the next step. */
  function Locate(c: Steps, size: nat, roundUp: bool): Info
    requires c.Valid()
  {
    var located := Smaller(Log2(size), c.maxLog2);
    var zero := located < c.minLog2;
    var sizeLog2 := if zero then c.minLog2 else located;
    var step := if zero then 0 else sizeLog2 - c.minLog2 + 1;
    var base := if zero then 0 else Pow2(sizeLog2);
    var offset := if roundUp then Pow2(sizeLog2 - c.splitsLog2) - 1 else 0;
    var split := Smaller(DivPow2(Shl64((size + offset - base) % U64, c.splitsLog2), sizeLog2), c.Splits());
    Info(step, split, MulPow2(step, c.splitsLog2) + split, base, sizeLog2)
  }

  /** locate_step_split_size */
  function SizeBin(c: Steps, size: nat): nat
    requires c.Valid()
  {
    Locate(c, size, true).bin
  }

  /** locate_step_split_arena */
  function ArenaBin(c: Steps, remaining: nat): nat
    requires c.Valid()
  {
    Locate(c, remaining, false).bin
  }

  /** step_split_id_to_info */
  function BinInfo(c: Steps, bin: nat): Info
    requires c.Valid()
  {
    var step, split := DivPow2(bin, c.splitsLog2), ModPow2(bin, c.splitsLog2);
    if step > 0 then Info(step, split, bin, Pow2(c.minLog2 + step - 1), c.minLog2 + step - 1)
    else Info(step, split, bin, 0, c.minLog2)
  }

  /** get_step_split_size: the least size of the bin an Info names. */
  function LowerBound(c: Steps, info: Info): nat
    requires c.Valid()
  {
    info.base + info.split * DivPow2(Pow2(info.sizeLog2), c.splitsLog2)
  }

  /** The least size of a bin. */
  function Least(c: Steps, bin: nat): nat
    requires c.Valid()
  {
    LowerBound(c, BinInfo(c, bin))
  }

  // ---------------------------------------------------------------------------------------------- the grid

  /** Where step k starts. */
  function Base(c: Steps, k: nat): nat {
    if k == 0 then 0 else Pow2(c.minLog2 + k - 1)
  }

  function StepLog2(c: Steps, k: nat): nat {
    if k == 0 then c.minLog2 else c.minLog2 + k - 1
  }

  /** The size range of one split of step k. */
  function Width(c: Steps, k: nat): nat
    requires c.Valid()
  {
    Pow2(StepLog2(c, k) - c.splitsLog2)
  }

  lemma StepIsSplits(c: Steps, k: nat)
    requires c.Valid()
    ensures Pow2(StepLog2(c, k)) == Width(c, k) * c.Splits()
    ensures DivPow2(Pow2(StepLog2(c, k)), c.splitsLog2) == Width(c, k)
    ensures Base(c, k + 1) == Base(c, k) + Width(c, k) * c.Splits()
  {
    Pow2Add(StepLog2(c, k) - c.splitsLog2, c.splitsLog2);
    DivPow2Unique(Pow2(StepLog2(c, k)), c.splitsLog2, Width(c, k));
  }

  /** Bins are numbered step by step; a split equal to the number of splits names the next step's first bin. */
  lemma LeastAt(c: Steps, k: nat, j: nat)
    requires c.Valid() && j <= c.Splits()
    ensures Least(c, k * c.Splits() + j) == Base(c, k) + j * Width(c, k)
  {
    if j < c.Splits() {
      LeastInside(c, k, j);
    } else {
      StepIsSplits(c, k);
      MulDistributes(k, 1, c.Splits());
      LeastInside(c, k + 1, 0);
    }
  }

  lemma LeastInside(c: Steps, k: nat, j: nat)
    requires c.Valid() && j < c.Splits()
    ensures Least(c, k * c.Splits() + j) == Base(c, k) + j * Width(c, k)
  {
    StepIsSplits(c, k);
    BinSplits(c, k, j);
  }

  /** The position that a bin's number stands for. */
  lemma BinSplits(c: Steps, k: nat, j: nat)
    requires c.Valid() && j < c.Splits()
    ensures k * c.Splits() + j >= 0
    ensures DivPow2(k * c.Splits() + j, c.splitsLog2) == k && ModPow2(k * c.Splits() + j, c.splitsLog2) == j
  {
    MulKeepsOrder(0, k + 1, c.Splits());
    DivPow2Unique(k * c.Splits() + j, c.splitsLog2, k);
  }

  lemma LeastNext(c: Steps, bin: nat)
    requires c.Valid()
    ensures Least(c, bin + 1) == Least(c, bin) + Width(c, DivPow2(bin, c.splitsLog2))
  {
    var k, j := DivPow2(bin, c.splitsLog2), ModPow2(bin, c.splitsLog2);
    LeastAt(c, k, j);
    LeastAt(c, k, j + 1);
    MulDistributes(j, 1, Width(c, k));
  }

  /** Lower bounds rise strictly from bin to bin. */
  lemma {:induction false} LeastRises(c: Steps, a: nat, b: nat)
    requires c.Valid() && a <= b
    ensures Least(c, a) <= Least(c, b)
    ensures a < b ==> Least(c, a) < Least(c, b)
    decreases b - a
  {
    if a < b {
      LeastRises(c, a, b - 1);
      LeastNext(c, b - 1);
    }
  }

  // ---------------------------------------------------------------------------------------------- locating

  /** The step Locate picks. */
  lemma LocatedStep(c: Steps, size: nat, roundUp: bool)
    requires c.Valid()
    ensures var info := Locate(c, size, roundUp); var k := info.step;
            && k <= c.NumSteps() && info.base == Base(c, k) && info.sizeLog2 == StepLog2(c, k)
            && info.bin == k * c.Splits() + info.split && info.split <= c.Splits()
            && info.sizeLog2 <= c.maxLog2
            && (size > 0 || c.minLog2 > 0 ==> Base(c, k) <= size)
            && (k < c.NumSteps() ==> size < Base(c, k + 1))
  {
    var l := Log2(size);
    if l < c.minLog2 {
      Pow2Monotone(l, c.minLog2);
    } else if l <= c.maxLog2 {
    } else {
      Pow2Monotone(c.maxLog2, l);
    }
  }

  /** How far past the start of its step Locate measures a size. */
  function Reach(c: Steps, size: nat, roundUp: bool): int
    requires c.Valid()
  {
    var info := Locate(c, size, roundUp);
    size + (if roundUp then Width(c, info.step) - 1 else 0) - info.base
  }

  /** Without wrap-around, shifting left and then right by more comes to shifting right by the difference. */
  lemma ShiftedQuotient(x: nat, k: nat, l: nat)
    requires k <= l && x * Pow2(k) < U64
    ensures DivPow2(Shl64(x % U64, k), l) == DivPow2(x, l - k)
  {
    FactorBound(x, Pow2(k));
    DivUnique(x, U64, 0);
    DivUnique(x * Pow2(k), U64, 0);
    Shl64Is(x, k);
    ShiftBoth(x, l - k, k);
  }

  /** Without wrap-around the split is the distance into the step, in widths, capped at the number of splits. */
  lemma LocatedSplit(c: Steps, size: nat, roundUp: bool)
    requires c.Valid() && 0 <= Reach(c, size, roundUp) && Reach(c, size, roundUp) * c.Splits() < U64
    ensures var info := Locate(c, size, roundUp);
            info.split == Smaller(DivPow2(Reach(c, size, roundUp), StepLog2(c, info.step) - c.splitsLog2), c.Splits())
  {
    LocatedStep(c, size, roundUp);
    var info := Locate(c, size, roundUp);
    ShiftedQuotient(Reach(c, size, roundUp), c.splitsLog2, info.sizeLog2);
  }

  // ---------------------------------------------------------------------------------------------- adjunctions

  /** The first step that reaches 2^(64 - splitsLog2) bytes far, past which the left shift loses bits: the zero step if
      it is that wide, and otherwise the last step or an earlier one that is. */
  function WrapStep(c: Steps): (k: int)
    requires c.Shiftable()
    ensures 0 <= k <= c.NumSteps()
  {
    if c.minLog2 + c.splitsLog2 > 64 then 0
    else Smaller(c.maxLog2, 65 - c.splitsLog2) - c.minLog2 + 1
  }

  /** Where the filing of arenas starts to go wrong: the least remaining size whose shift loses bits. */
  function WrapSize(c: Steps): nat
    requires c.Shiftable()
  {
    Base(c, WrapStep(c)) + Pow2(64 - c.splitsLog2)
  }

  lemma U64IsPow2()
    ensures Pow2(64) == U64 && Pow2(63) == U64 / 2
  {
    assert Pow2(8) == 256;
    Pow2Add(8, 8);
    Pow2Add(16, 16);
    Pow2Add(32, 32);
  }

  /** A reach below 2^(64 - splitsLog2) survives the shift by splitsLog2. */
  lemma ShiftFits(c: Steps, x: nat)
    requires c.Shiftable()
    ensures x < Pow2(64 - c.splitsLog2) <==> x * c.Splits() < U64
  {
    U64IsPow2();
    Pow2Add(64 - c.splitsLog2, c.splitsLog2);
    MulKeepsOrder(x, Pow2(64 - c.splitsLog2), c.Splits());
  }

  lemma CappedQuotient(x: nat, w: nat, n: nat, q: nat)
    requires w > 0 && q * w <= x < q * w + w
    ensures Smaller(q, n) * w <= x
    ensures q < n ==> x < (q + 1) * w
    ensures q >= n ==> n * w <= x
  {
    MulDistributes(q, 1, w);
    MulKeepsOrder(n, q, w);
  }

  /** Below the wrap size no reach wraps. */
  lemma ReachBelowWrap(c: Steps, r: nat)
    requires c.Shiftable() && (c.minLog2 > 0 || r > 0) && r < WrapSize(c)
    ensures 0 <= Reach(c, r, false) && Reach(c, r, false) * c.Splits() < U64
  {
    var k := Locate(c, r, false).step;
    LocatedStep(c, r, false);
    ShiftFits(c, r - Base(c, k));
    if k < WrapStep(c) || (k == WrapStep(c) == 0 && c.minLog2 + c.splitsLog2 <= 64) {
      Pow2Monotone(StepLog2(c, k), 64 - c.splitsLog2);
    } else if k > WrapStep(c) {
      PastWrapStep(c, k);
    }
  }

  /** Steps after the wrap step start at the wrap size or beyond. */
  lemma PastWrapStep(c: Steps, k: nat)
    requires c.Shiftable() && WrapStep(c) < k <= c.NumSteps()
    ensures WrapSize(c) <= Base(c, k)
  {
    var w := WrapStep(c);
    if w == 0 {
      Pow2Monotone(64 - c.splitsLog2, StepLog2(c, k));
    } else {
      Pow2Monotone(StepLog2(c, w), StepLog2(c, k));
      Pow2Monotone(64 - c.splitsLog2, StepLog2(c, w));
    }
  }

  /** The split of an arena, before bins are numbered. */
  lemma ArenaSplit(c: Steps, r: nat)
    requires c.Shiftable() && (c.minLog2 > 0 || r > 0) && r < WrapSize(c)
    ensures var info := Locate(c, r, false); var k, j := info.step, info.split;
            && Base(c, k) + j * Width(c, k) <= r
            && (j < c.Splits() ==> r < Base(c, k) + (j + 1) * Width(c, k))
            && (j == c.Splits() ==> k == c.NumSteps())
  {
    var k := Locate(c, r, false).step;
    LocatedStep(c, r, false);
    ReachBelowWrap(c, r);
    LocatedSplit(c, r, false);
    var x := Reach(c, r, false);
    var q := DivPow2(x, StepLog2(c, k) - c.splitsLog2);
    CappedQuotient(x, Width(c, k), c.Splits(), q);
    if q >= c.Splits() {
      StepIsSplits(c, k);
      MulCommutes(Width(c, k), c.Splits());
    }
  }

  /** An arena is filed in the last bin whose lower bound it still reaches. */
  lemma ArenaBracket(c: Steps, r: nat)
    requires c.Shiftable() && (c.minLog2 > 0 || r > 0) && r < WrapSize(c)
    ensures ArenaBin(c, r) < c.NumBins()
    ensures Least(c, ArenaBin(c, r)) <= r
    ensures ArenaBin(c, r) + 1 < c.NumBins() ==> r < Least(c, ArenaBin(c, r) + 1)
  {
    var info := Locate(c, r, false);
    LocatedStep(c, r, false);
    ArenaSplit(c, r);
    LeastAt(c, info.step, info.split);
    BinBelow(c, info.step, info.split);
    if info.split < c.Splits() {
      LeastAt(c, info.step, info.split + 1);
    } else {
      LastBin(c);
    }
  }

  lemma LastBin(c: Steps)
    requires c.Valid()
    ensures c.NumSteps() * c.Splits() + c.Splits() + 1 == c.NumBins()
  {
    MulDistributes(c.NumSteps(), 1, c.Splits());
    assert c.Splits() * (c.NumSteps() + 1) == (c.NumSteps() + 1) * c.Splits();
  }

  lemma BinBelow(c: Steps, k: nat, j: nat)
    requires c.Valid() && k <= c.NumSteps() && j <= c.Splits()
    ensures k * c.Splits() + j < c.NumBins()
  {
    MulKeepsOrder(k, c.NumSteps(), c.Splits());
    LastBin(c);
  }

  /** Rounding d up to whole widths, when d is at most n of them. */
  lemma CeilingQuotient(d: nat, w: nat, n: nat, q: nat)
    requires w > 0 && d <= w * n && q * w <= d + w - 1 < q * w + w
    ensures q <= n && d <= q * w
    ensures q > 0 ==> (q - 1) * w < d
    ensures q == 0 ==> d == 0
  {
    MulDistributes(n, 1, w);
    MulDistributes(q, 1, w);
    MulKeepsOrder(q, n + 1, w);
    assert w * n == n * w;
  }

  /** A request lies no further into its step than the step is long. */
  lemma RequestDistance(c: Steps, s: nat)
    requires c.Valid() && (c.minLog2 > 0 || s > 0) && s <= c.MaxSize()
    ensures var k := Locate(c, s, true).step; k <= c.NumSteps() && 0 <= s - Base(c, k) <= Width(c, k) * c.Splits()
  {
    LocatedStep(c, s, true);
    StepIsSplits(c, Locate(c, s, true).step);
  }

  /** Split j of step k starts at the size or past it, and split j - 1 before it. */
  ghost predicate Covers(c: Steps, s: nat, k: nat, j: nat)
    requires c.Valid()
  {
    && s <= Base(c, k) + j * Width(c, k)
    && (j > 0 ==> Base(c, k) + (j - 1) * Width(c, k) < s)
    && (j == 0 ==> s == Base(c, k))
  }

  lemma CeilingCovers(c: Steps, s: nat, k: nat, q: nat)
    requires c.Valid() && 0 <= s - Base(c, k) <= Width(c, k) * c.Splits()
    requires q == DivPow2(s - Base(c, k) + Width(c, k) - 1, StepLog2(c, k) - c.splitsLog2)
    ensures q <= c.Splits() && Covers(c, s, k, q)
  {
    CeilingQuotient(s - Base(c, k), Width(c, k), c.Splits(), q);
  }

  /** The split of a request, before bins are numbered. */
  lemma SizeSplit(c: Steps, s: nat)
    requires c.Valid() && c.Fits() && (c.minLog2 > 0 || s > 0) && s <= c.MaxSize()
    ensures var info := Locate(c, s, true); Covers(c, s, info.step, info.split)
  {
    var k := Locate(c, s, true).step;
    LocatedStep(c, s, true);
    RequestDistance(c, s);
    SizeReachFits(c, k, s - Base(c, k));
    LocatedSplit(c, s, true);
    CeilingCovers(c, s, k, DivPow2(Reach(c, s, true), StepLog2(c, k) - c.splitsLog2));
  }

  /** A size in split j of step k, rounded up, names the first bin whose lower bound covers it. */
  lemma RoundedUp(c: Steps, s: nat, k: nat, j: nat)
    requires c.Valid() && k <= c.NumSteps() && j <= c.Splits() && Covers(c, s, k, j)
    ensures var bin := k * c.Splits() + j;
            0 <= bin < c.NumBins() && s <= Least(c, bin) && (bin > 0 ==> Least(c, bin - 1) < s)
  {
    var bin := k * c.Splits() + j;
    LeastAt(c, k, j);
    BinBelow(c, k, j);
    if j > 0 {
      LeastAt(c, k, j - 1);
    } else if bin > 0 {
      LeastRises(c, bin - 1, bin);
    }
  }

  /** A request is looked up in the first bin whose lower bound covers it. */
  lemma SizeBracket(c: Steps, s: nat)
    requires c.Valid() && c.Fits() && (c.minLog2 > 0 || s > 0) && s <= c.MaxSize()
    ensures SizeBin(c, s) < c.NumBins()
    ensures s <= Least(c, SizeBin(c, s))
    ensures SizeBin(c, s) > 0 ==> Least(c, SizeBin(c, s) - 1) < s
  {
    var info := Locate(c, s, true);
    LocatedStep(c, s, true);
    SizeSplit(c, s);
    RoundedUp(c, s, info.step, info.split);
  }

  /** get_step_split_size reads the same from an Info as from the bin it names, denormalised or not. */
  lemma BoundOfInfo(c: Steps, info: Info)
    requires c.Valid() && info.base == Base(c, info.step) && info.sizeLog2 == StepLog2(c, info.step)
    requires info.split <= c.Splits() && info.bin == info.step * c.Splits() + info.split
    ensures LowerBound(c, info) == Least(c, info.bin)
  {
    StepIsSplits(c, info.step);
    LeastAt(c, info.step, info.split);
  }

  lemma SizeReachFits(c: Steps, k: nat, d: nat)
    requires c.Valid() && c.Fits() && k <= c.NumSteps() && d <= Width(c, k) * c.Splits()
    ensures (d + Width(c, k) - 1) * c.Splits() < U64
  {
    StepIsSplits(c, k);
    Pow2Monotone(StepLog2(c, k) - c.splitsLog2, StepLog2(c, k));
    Pow2Monotone(StepLog2(c, k) + 1, 64 - c.splitsLog2);
    ShiftFits(c, d + Width(c, k) - 1);
  }

  /** Filing and looking up are the two adjoints of the bins' lower bounds: an arena is in bin b or above exactly when
      it has at least Least(b) bytes left ... */
  lemma ArenaAdjoint(c: Steps, r: nat, b: nat)
    requires c.Shiftable() && (c.minLog2 > 0 || r > 0) && r < WrapSize(c) && b < c.NumBins()
    ensures b <= ArenaBin(c, r) <==> Least(c, b) <= r
  {
    ArenaBracket(c, r);
    if b <= ArenaBin(c, r) {
      LeastRises(c, b, ArenaBin(c, r));
    } else {
      LeastRises(c, ArenaBin(c, r) + 1, b);
    }
  }

  /** ... and a request is looked up at bin b or below exactly when Least(b) bytes are enough for it. */
  lemma SizeAdjoint(c: Steps, s: nat, b: nat)
    requires c.Valid() && c.Fits() && (c.minLog2 > 0 || s > 0) && s <= c.MaxSize() && b < c.NumBins()
    ensures SizeBin(c, s) <= b <==> s <= Least(c, b)
  {
    SizeBracket(c, s);
    if SizeBin(c, s) <= b {
      LeastRises(c, SizeBin(c, s), b);
    } else {
      LeastRises(c, b, SizeBin(c, s) - 1);
    }
  }

  /** Every arena found at or above the bin of a request can serve it, and the arenas missed below that bin are exactly
      those with fewer bytes than the bin's lower bound. */
  lemma LookupIsSound(c: Steps, s: nat, r: nat)
    requires c.Valid() && c.Fits() && c.minLog2 > 0 && s <= c.MaxSize() && r < WrapSize(c)
    ensures SizeBin(c, s) <= ArenaBin(c, r) <==> Least(c, SizeBin(c, s)) <= r
    ensures SizeBin(c, s) <= ArenaBin(c, r) ==> s <= r
  {
    SizeBracket(c, s);
    ArenaAdjoint(c, r, SizeBin(c, s));
  }

  // ---------------------------------------------------------------------------------------------- beyond the wrap size

  /** A wrapping shift only takes away. */
  lemma ShiftLoses(x: nat, k: nat)
    requires x < U64
    ensures Shl64(x % U64, k) <= x * Pow2(k)
  {
    DivUnique(x, U64, 0);
    Shl64Is(x, k);
    DivNatural(x * Pow2(k), U64);
    DivBounds(x * Pow2(k), U64);
    MulGrows(1 - x * Pow2(k) / U64, U64);
  }

  /** The split of an arena of any size: it never starts beyond what the arena has left. */
  lemma AnySplit(c: Steps, r: nat)
    requires c.Valid() && (c.minLog2 > 0 || r > 0) && r < U64
    ensures var info := Locate(c, r, false);
            info.split <= c.Splits() && Base(c, info.step) + info.split * Width(c, info.step) <= r
  {
    var info := Locate(c, r, false);
    var k := info.step;
    LocatedStep(c, r, false);
    StepIsSplits(c, k);
    var x := r - info.base;
    ShiftLoses(x, c.splitsLog2);
    var q := DivPow2(Shl64(x % U64, c.splitsLog2), StepLog2(c, k));
    MulAssociates(q, Width(c, k), c.Splits());
    MulKeepsOrder(x, q * Width(c, k), c.Splits());
    MulKeepsOrder(info.split, q, Width(c, k));
  }

  /** Whatever an arena's size, it is filed in a bin whose lower bound it reaches, so it is never taken for larger than
      it is; only beyond the wrap size it may be taken for smaller. */
  lemma ArenaFloor(c: Steps, r: nat)
    requires c.Valid() && (c.minLog2 > 0 || r > 0) && r < U64
    ensures ArenaBin(c, r) < c.NumBins() && Least(c, ArenaBin(c, r)) <= r
  {
    var info := Locate(c, r, false);
    LocatedStep(c, r, false);
    AnySplit(c, r);
    LeastAt(c, info.step, info.split);
    BinBelow(c, info.step, info.split);
  }

  // ---------------------------------------------------------------------------------------------- exact range

  /** Filing is adjoint to the lower bounds for every remaining size up to R. */
  ghost predicate AdjointUpTo(c: Steps, R: nat)
    requires c.Valid()
  {
    forall r: nat, b: nat | r <= R && b < c.NumBins() :: b <= ArenaBin(c, r) <==> Least(c, b) <= r
  }

  /** The bin that the raw locator gives an arena is right for all sizes up to R exactly when the smallest step is
      larger than one byte and R stays below the size at which the shift wraps. */
  lemma AdjointRange(c: Steps, R: nat)
    requires c.Shiftable() && R < U64
    ensures AdjointUpTo(c, R) <==> c.minLog2 > 0 && R < WrapSize(c)
  {
    if c.minLog2 > 0 && R < WrapSize(c) {
      forall r: nat, b: nat | r <= R && b < c.NumBins() ensures b <= ArenaBin(c, r) <==> Least(c, b) <= r {
        ArenaAdjoint(c, r, b);
      }
    } else if c.minLog2 == 0 {
      EmptyArenaMisfiled(c);
      assert 0 <= R && 1 < c.NumBins();
    } else {
      WrappedArenaMisfiled(c);
    }
  }

  /** With a one-byte smallest step, the raw locator puts an arena with no room at all into bin 2. */
  lemma EmptyArenaMisfiled(c: Steps)
    requires c.Valid() && c.minLog2 == 0
    ensures ArenaBin(c, 0) == 2 < c.NumBins() && Least(c, 1) == 1 && Least(c, 2) == 2
  {
    NothingLocated(c, false);
    FirstStepBins(c);
  }

  /** The bins of the first step after the zero step, in a configuration with a one-byte smallest step. */
  lemma FirstStepBins(c: Steps)
    requires c.Valid() && c.minLog2 == 0
    ensures c.Splits() == 1 && 2 < c.NumBins() && Least(c, 1) == 1 && Least(c, 2) == 2
  {
    BinBelow(c, 1, 1);
    LeastAt(c, 1, 0);
    LeastAt(c, 1, 1);
    assert c.Splits() == 1 && Width(c, 1) == 1 && Base(c, 1) == 1;
  }

  /** 0 - 1 wraps around to the largest number, which is far beyond the first step. */
  lemma NothingLocated(c: Steps, roundUp: bool)
    requires c.Valid() && c.minLog2 == 0
    ensures Locate(c, 0, roundUp).step == 1 && Locate(c, 0, roundUp).split == 1
    ensures Locate(c, 0, roundUp).bin == 2
  {
    assert (0 - 1) % U64 == U64 - 1;
    assert Shl64(U64 - 1, 0) == U64 - 1;
    assert DivPow2(U64 - 1, 0) == U64 - 1 by {
      DivPow2Unique(U64 - 1, 0, U64 - 1);
    }
  }

  /** The step of the wrap size. */
  lemma WrapSizeStep(c: Steps)
    requires c.Shiftable() && WrapSize(c) < U64
    ensures var info := Locate(c, WrapSize(c), false);
            info.step == WrapStep(c) && info.base == Base(c, WrapStep(c)) && info.sizeLog2 == StepLog2(c, WrapStep(c))
  {
    if WrapStep(c) == 0 {
      WrapInZeroStep(c);
    } else if WrapStep(c) == c.NumSteps() {
      BeyondLastStep(c, WrapSize(c), false);
    } else {
      WrapInMiddle(c);
      StepOfLog2(c, WrapSize(c), WrapStep(c));
    }
  }

  /** A size whose logarithm is that of a step is in that step. */
  lemma StepOfLog2(c: Steps, size: nat, k: nat)
    requires c.Valid() && 0 < k && Log2(size) == c.minLog2 + k - 1 < c.maxLog2
    ensures var info := Locate(c, size, false);
            info.step == k && info.base == Base(c, k) && info.sizeLog2 == StepLog2(c, k)
  {
  }

  /** A size whose logarithm is below the smallest step's is in the zero step. */
  lemma ZeroStepOfLog2(c: Steps, size: nat, roundUp: bool)
    requires c.Valid() && Log2(size) < c.minLog2
    ensures var info := Locate(c, size, roundUp); info.step == 0 && info.base == 0 && info.sizeLog2 == c.minLog2
  {
  }

  lemma WrapInZeroStep(c: Steps)
    requires c.Shiftable() && WrapStep(c) == 0
    ensures var info := Locate(c, WrapSize(c), false);
            info.step == 0 && info.base == 0 && info.sizeLog2 == c.minLog2
  {
    Log2OfPow2(64 - c.splitsLog2);
    ZeroStepOfLog2(c, WrapSize(c), false);
  }

  lemma WrapInMiddle(c: Steps)
    requires c.Shiftable() && 0 < WrapStep(c) < c.NumSteps()
    ensures Log2(WrapSize(c)) == 65 - c.splitsLog2 == c.minLog2 + WrapStep(c) - 1 < c.maxLog2
  {
    Log2Unique(WrapSize(c), 65 - c.splitsLog2);
  }

  lemma WrapSizeLocated(c: Steps)
    requires c.Shiftable() && WrapSize(c) < U64
    ensures ArenaBin(c, WrapSize(c)) == WrapStep(c) * c.Splits()
  {
    WrapSizeStep(c);
    U64IsPow2();
    Pow2Add(64 - c.splitsLog2, c.splitsLog2);
    ShiftedOut(c, Pow2(64 - c.splitsLog2), 1, 0, StepLog2(c, WrapStep(c)));
  }

  /** Sizes from the start of the last step on are measured from there. */
  lemma BeyondLastStep(c: Steps, size: nat, roundUp: bool)
    requires c.Valid() && Pow2(c.maxLog2) <= size
    ensures var info := Locate(c, size, roundUp);
            info.step == c.NumSteps() && info.base == Pow2(c.maxLog2) && info.sizeLog2 == c.maxLog2
  {
    if Log2(size) < c.maxLog2 {
      Pow2Monotone(Log2(size) + 1, c.maxLog2);
    }
  }

  /** A reach that the shift carries past bit 64 leaves no more than its low bits. */
  lemma ShiftedOut(c: Steps, x: nat, q: nat, rest: nat, sizeLog2: nat)
    requires c.Valid() && x < U64 && x * c.Splits() == q * U64 + rest && rest < Pow2(sizeLog2) && rest < U64
    ensures DivPow2(Shl64(x % U64, c.splitsLog2), sizeLog2) == 0
  {
    DivUnique(x, U64, 0);
    DivUnique(x * c.Splits(), U64, q);
    Shl64Is(x, c.splitsLog2);
    DivPow2Unique(rest, sizeLog2, 0);
  }

  lemma WrapStepSecondBin(c: Steps)
    requires c.Shiftable()
    ensures 0 <= WrapStep(c) * c.Splits() + 1 < c.NumBins() && Least(c, WrapStep(c) * c.Splits() + 1) <= WrapSize(c)
  {
    var k := WrapStep(c);
    MulKeepsOrder(-1, k, c.Splits());
    LeastAt(c, k, 1);
    BinBelow(c, k, 1);
    Pow2Monotone(StepLog2(c, k) - c.splitsLog2, 64 - c.splitsLog2);
  }

  /** An arena of the wrap size is filed as if it had reached no further than the start of its step. */
  lemma WrappedArenaMisfiled(c: Steps)
    requires c.Shiftable() && WrapSize(c) < U64
    ensures var b := WrapStep(c) * c.Splits() + 1;
            0 <= b < c.NumBins() && ArenaBin(c, WrapSize(c)) < b && Least(c, b) <= WrapSize(c)
  {
    WrapSizeLocated(c);
    WrapStepSecondBin(c);
  }

  /** Every request up to the largest size is looked up at a bin that covers it. */
  ghost predicate RequestsCovered(c: Steps)
    requires c.Valid()
  {
    forall s: nat | s <= c.MaxSize() :: s <= Least(c, SizeBin(c, s))
  }

  /** Requests are looked up right exactly when the largest shift stays within 64 bits. The configuration is not checked
      for that; it only has to have a largest size that is itself a 64-bit number. */
  lemma RequestRange(c: Steps)
    requires c.Valid() && c.maxLog2 + 1 < 64
    ensures RequestsCovered(c) <==> c.Fits()
  {
    if c.Fits() {
      forall s: nat | s <= c.MaxSize() ensures s <= Least(c, SizeBin(c, s)) {
        if s > 0 {
          SizeBracket(c, s);
        }
      }
    } else {
      LargestRequestMisplaced(c);
    }
  }

  /** The shift that overflows on the largest request, and the low bits it leaves. */
  lemma LargestReach(c: Steps) returns (over: nat)
    requires c.Valid() && c.maxLog2 + 1 < 64 && !c.Fits()
    ensures (Pow2(c.maxLog2) + Width(c, c.NumSteps()) - 1) * c.Splits() == over * U64 + (Pow2(c.maxLog2) - c.Splits())
  {
    var p, w, n := Pow2(c.maxLog2), Width(c, c.NumSteps()), c.Splits();
    StepIsSplits(c, c.NumSteps());
    over := Pow2(c.maxLog2 + c.splitsLog2 - 64);
    Pow2Add(c.maxLog2 + c.splitsLog2 - 64, 64);
    Pow2Add(c.maxLog2, c.splitsLog2);
    U64IsPow2();
    MulDistributes(p, w, n);
    MulDistributes(p + w, 1, n);
  }

  lemma SizesIn64(c: Steps)
    requires c.Valid() && c.maxLog2 + 1 < 64
    ensures c.Splits() <= Pow2(c.maxLog2) && Width(c, c.NumSteps()) <= Pow2(c.maxLog2) && 4 * Pow2(c.maxLog2) <= U64
  {
    Pow2Monotone(c.splitsLog2, c.maxLog2);
    Pow2Monotone(c.maxLog2 - c.splitsLog2, c.maxLog2);
    Pow2Monotone(c.maxLog2 + 2, 64);
    U64IsPow2();
    assert Pow2(c.maxLog2 + 2) == 2 * Pow2(c.maxLog2 + 1) == 4 * Pow2(c.maxLog2);
  }

  lemma LargestRequestLocated(c: Steps)
    requires c.Valid() && c.maxLog2 + 1 < 64 && !c.Fits()
    ensures SizeBin(c, c.MaxSize()) == c.NumSteps() * c.Splits()
  {
    var p, w := Pow2(c.maxLog2), Width(c, c.NumSteps());
    BeyondLastStep(c, c.MaxSize(), true);
    var over := LargestReach(c);
    SizesIn64(c);
    ShiftedOut(c, p + w - 1, over, p - c.Splits(), c.maxLog2);
  }

  /** When the shift overflows, the largest request is looked up at the start of the last step. */
  lemma LargestRequestMisplaced(c: Steps)
    requires c.Valid() && c.maxLog2 + 1 < 64 && !c.Fits()
    ensures Least(c, SizeBin(c, c.MaxSize())) < c.MaxSize()
  {
    LargestRequestLocated(c);
    LeastAt(c, c.NumSteps(), 0);
  }
}
