/** RegionChunkAllocatorPools: how a region's handles are dealt out to the splits of its pool, and how the split of a
    handle is found again. */
module RegionPools {
  import opened Wrappers
  import opened Powers
  import opened RegionLayout

  /** handles_per_split, for a contention split of 2^splitsLog2 */
  function PerSplit(n: nat, splitsLog2: nat): nat {
    DivPow2(n + Pow2(splitsLog2) - 1, splitsLog2)
  }

  /** Where split s of n handles starts, and split s - 1 ends. */
  function SplitStart(n: nat, splitsLog2: nat, s: nat): nat {
    var x := PerSplit(n, splitsLog2) * s;
    if x < n then x else n
  }

  /** What create() computes, in 32 bits. */
  function StoredSplitStart(n: nat, splitsLog2: nat, s: nat): nat {
    var x := Cut32(PerSplit(n, splitsLog2) * s);
    if x < n then x else n
  }

  lemma SplitsRise(n: nat, splitsLog2: nat, s: nat, t: nat)
    requires s <= t
    ensures SplitStart(n, splitsLog2, s) <= SplitStart(n, splitsLog2, t)
  {
    MulDistributes(t, s, PerSplit(n, splitsLog2));
    MulKeepsOrder(0, PerSplit(n, splitsLog2), 1);
    ProductNatural(t - s, PerSplit(n, splitsLog2));
    assert PerSplit(n, splitsLog2) * s == s * PerSplit(n, splitsLog2);
    assert PerSplit(n, splitsLog2) * t == t * PerSplit(n, splitsLog2);
  }

  /** The splits cover all handles: the last one ends at n. */
  lemma SplitsCover(n: nat, splitsLog2: nat)
    ensures n <= PerSplit(n, splitsLog2) * Pow2(splitsLog2) < n + Pow2(splitsLog2)
    ensures SplitStart(n, splitsLog2, 0) == 0 && SplitStart(n, splitsLog2, Pow2(splitsLog2)) == n
  {
  }

  /** A handle of the region, relative to its first one, is in exactly one split. */
  ghost predicate InSplit(n: nat, splitsLog2: nat, h: nat, s: nat) {
    s < Pow2(splitsLog2) && SplitStart(n, splitsLog2, s) <= h < SplitStart(n, splitsLog2, s + 1)
  }

  /** Every handle is in some split ... */
  lemma {:induction false} SplitExists(n: nat, splitsLog2: nat, h: nat, bound: nat) returns (s: nat)
    requires bound <= Pow2(splitsLog2) && h < SplitStart(n, splitsLog2, bound)
    ensures InSplit(n, splitsLog2, h, s)
  {
    SplitsCover(n, splitsLog2);
    if SplitStart(n, splitsLog2, bound - 1) <= h {
      s := bound - 1;
    } else {
      s := SplitExists(n, splitsLog2, h, bound - 1);
    }
  }

  /** ... and in no other. */
  lemma SplitUnique(n: nat, splitsLog2: nat, h: nat, s: nat, t: nat)
    requires InSplit(n, splitsLog2, h, s) && InSplit(n, splitsLog2, h, t)
    ensures s == t
  {
    if s < t {
      SplitsRise(n, splitsLog2, s + 1, t);
    } else if t < s {
      SplitsRise(n, splitsLog2, t + 1, s);
    }
  }

  ghost predicate SplitsStoredExactly(n: nat, splitsLog2: nat) {
    forall s: nat | s <= Pow2(splitsLog2) :: StoredSplitStart(n, splitsLog2, s) == SplitStart(n, splitsLog2, s)
  }

  /** The split bounds are computed in 32 bits, and come out right exactly when the rounded-up number of handles can be
      counted in 32 bits; otherwise the last split, at least, ends short of the region's last handle. */
  lemma SplitsStoredExactlyWhen(n: nat, splitsLog2: nat)
    requires n < U32 && 2 * Pow2(splitsLog2) <= U32
    ensures SplitsStoredExactly(n, splitsLog2) <==> PerSplit(n, splitsLog2) * Pow2(splitsLog2) < U32
    ensures !SplitsStoredExactly(n, splitsLog2) ==> StoredSplitStart(n, splitsLog2, Pow2(splitsLog2)) < n
  {
    var q, k := PerSplit(n, splitsLog2), Pow2(splitsLog2);
    SplitsCover(n, splitsLog2);
    if q * k < U32 {
      forall s: nat | s <= k ensures StoredSplitStart(n, splitsLog2, s) == SplitStart(n, splitsLog2, s) {
        ProductNatural(k - s, q);
        MulDistributes(k, s, q);
        assert q * s == s * q && q * k == k * q;
      }
    } else {
      assert Cut32(q * k) == q * k - U32;
    }
  }

  // ---------------------------------------------------------------------------------------------- the tables

  /** The handles of a pool entry, as create() computes them for a region and a split. */
  function EntryFirst(c: Config, splitsLog2: nat, region: nat, split: nat): nat
    requires c.Accepted() && region < c.Count()
  {
    StoredFirst(c, region) + StoredSplitStart(StoredHandles(c, region), splitsLog2, split)
  }

  /** No number that create() computes for the configuration is cut short. */
  ghost predicate Exact(c: Config, splitsLog2: nat)
    requires c.Accepted()
  {
    StoredExactly(c) && forall i: nat | i < c.Count() :: SplitsStoredExactly(c.Handles(i), splitsLog2)
  }

  lemma EntryExact(c: Config, splitsLog2: nat, region: nat, split: nat)
    requires c.Accepted() && Exact(c, splitsLog2) && region < c.Count() && split <= Pow2(splitsLog2)
    ensures EntryFirst(c, splitsLog2, region, split) ==
            c.FirstHandle(region) + SplitStart(c.Handles(region), splitsLog2, split)
  {
  }

  /** Where a chunk, its handle and its split are. */
  ghost predicate Allocated(c: Config, splitsLog2: nat, l: Location, split: nat)
    requires c.Accepted()
  {
    && l.region < c.Count() && l.chunk < c.Handles(l.region)
    && l.handle == c.FirstHandle(l.region) + l.chunk
    && InSplit(c.Handles(l.region), splitsLog2, l.chunk, split)
  }

  class Pools {
    const config: Config
    const splitsLog2: nat
    const firstHandle: array2<nat>
    const lastHandle: array2<nat>  // also the sentinels that splits are searched by

    ghost predicate Valid()
      reads firstHandle, lastHandle
    {
      && config.Accepted()
      && firstHandle.Length0 == lastHandle.Length0 == config.Count()
      && firstHandle.Length1 == lastHandle.Length1 == Pow2(splitsLog2)
      && (forall r: nat, s: nat | r < config.Count() && s < Pow2(splitsLog2) ::
            && firstHandle[r, s] == EntryFirst(config, splitsLog2, r, s)
            && lastHandle[r, s] == EntryFirst(config, splitsLog2, r, s + 1))
    }

    constructor (specs: Specs, splitsLog2: nat)
      requires specs.Valid()
      ensures Valid() && config == specs.config && this.splitsLog2 == splitsLog2
    {
      var c, k := specs.config, Pow2(splitsLog2);
      var firsts, lasts := new nat[c.Count(), k], new nat[c.Count(), k];
      for r := 0 to c.Count()
        invariant forall q: nat, s: nat | q < r && s < k ::
                    firsts[q, s] == EntryFirst(c, splitsLog2, q, s)
                        && lasts[q, s] == EntryFirst(c, splitsLog2, q, s + 1)
      {
        assert Row(c, specs.regionOffset[..], specs.firstHandle[..], specs.numHandles[..], specs.regionSentinel[..], r);
        for s := 0 to k
          invariant forall q: nat, t: nat | (q < r && t < k) || (q == r && t < s) ::
                      firsts[q, t] == EntryFirst(c, splitsLog2, q, t)
                          && lasts[q, t] == EntryFirst(c, splitsLog2, q, t + 1)
        {
          firsts[r, s] := specs.firstHandle[r] + StoredSplitStart(specs.numHandles[r], splitsLog2, s);
          lasts[r, s] := specs.firstHandle[r] + StoredSplitStart(specs.numHandles[r], splitsLog2, s + 1);
        }
      }
      config, this.splitsLog2, firstHandle, lastHandle := c, splitsLog2, firsts, lasts;
    }

    /** search_pool_split: the one split whose range has the handle. */
    method SearchPoolSplit(region: nat, handle: nat) returns (split: nat)
      requires Valid() && Exact(config, splitsLog2) && region < config.Count()
      requires config.FirstHandle(region) <= handle < config.FirstHandle(region) + config.Handles(region)
      ensures InSplit(config.Handles(region), splitsLog2, handle - config.FirstHandle(region), split)
    {
      ghost var n, first := config.Handles(region), config.FirstHandle(region);
      SplitsCover(n, splitsLog2);
      split := 0;
      while split < lastHandle.Length1
        invariant split <= Pow2(splitsLog2) && first + SplitStart(n, splitsLog2, split) <= handle
      {
        EntryExact(config, splitsLog2, region, split + 1);
        if handle < lastHandle[region, split] {
          return;
        }
        split := split + 1;
      }
      assert false;
    }
  }

  lemma NotInEmptyRegion(c: Config, offset: nat, l: Location)
    requires c.Accepted() && LiesIn(c, offset, l)
    ensures forall i: nat | InRegion(c, offset, i) :: c.Handles(i) > 0
  {
    ChunkInRegion(c, offset, l);
    forall i: nat | InRegion(c, offset, i) ensures c.Handles(i) > 0 {
      RegionUnique(c, offset, i, l.region);
    }
  }

  ghost predicate InEmptyRegion(c: Config, offset: int)
    requires c.Accepted()
  {
    offset >= 0 && exists i: nat :: InRegion(c, offset, i) && c.Handles(i) == 0
  }

  lemma BeyondRegions(c: Config, offset: nat)
    requires c.Accepted() && offset >= c.Offset(c.Count())
    ensures forall i: nat :: !InRegion(c, offset, i)
    ensures forall l :: !LiesIn(c, offset, l)
  {
    forall i: nat | i < c.Count() ensures !InRegion(c, offset, i) {
      OffsetsRise(c, i + 1, c.Count());
    }
    forall l ensures !LiesIn(c, offset, l) {
      if LiesIn(c, offset, l) {
        ChunkInRegion(c, offset, l);
      }
    }
  }

  /** What ptr_to_allocation says of an address: it is in no region, the call aborts, or where it was allocated. */
  datatype Lookup = Nowhere | Abort | Found(location: Location, split: nat)

  /** The address round trip: whatever chunk was handed out, and wherever in it an address points, ptr_to_allocation
      finds that chunk, its handle and the split it came from. Addresses are relative to the first region. */
  method PtrToAllocation(specs: Specs, pools: Pools, offset: int) returns (r: Lookup)
    requires specs.Valid() && pools.Valid() && pools.config == specs.config && Exact(specs.config, pools.splitsLog2)
    ensures r.Nowhere? <==> offset < 0 || offset >= specs.totalSize
    ensures r.Abort? <==> InEmptyRegion(specs.config, offset)
    ensures r.Found? ==>
              && offset >= 0 && LiesIn(specs.config, offset, r.location)
              && Allocated(specs.config, pools.splitsLog2, r.location, r.split)
    ensures offset >= 0 ==>
              forall l, split: nat | Allocated(specs.config, pools.splitsLog2, l, split)
                  && LiesIn(specs.config, offset, l) ::
                r == Found(l, split)
  {
    if offset < 0 {
      return Nowhere;
    }
    if offset >= specs.totalSize {
      BeyondRegions(specs.config, offset);
      return Nowhere;
    }
    var found := specs.LocateChunk(offset);
    if found.None? {
      forall l | LiesIn(specs.config, offset, l) ensures false {
        NotInEmptyRegion(specs.config, offset, l);
      }
      return Abort;
    }
    NotInEmptyRegion(specs.config, offset, found.value);
    var split := pools.SearchPoolSplit(found.value.region, found.value.handle);
    forall l, t: nat | Allocated(specs.config, pools.splitsLog2, l, t) && LiesIn(specs.config, offset, l)
      ensures Found(found.value, split) == Found(l, t)
    {
      LocationUnique(specs.config, offset, l, found.value);
      SplitUnique(specs.config.Handles(l.region), pools.splitsLog2, l.chunk, t, split);
    }
    return Found(found.value, split);
  }
}
