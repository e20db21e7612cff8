/** The layout of region_chunk_allocator.hpp: regions lie one after another, each cut into chunks, the chunks of all
    regions are numbered by handles, and each region's handles are dealt out to the splits of its pool. */
module RegionLayout {
  import opened Wrappers
  import opened Powers

  /** Handles, and counts of them, are 32-bit fields; the two largest values say "failed" and "null". */
  const U32: nat := 0x1_0000_0000
  const FAILED: nat := 0xFFFF_FFFE
  const NULL: nat := 0xFFFF_FFFF

  /** The logarithms of RegionChunkAllocatorSpecsConfig: region sizes, chunk sizes and the region alignment. */
  datatype Config = Config(regionLog2: seq<nat>, chunkLog2: seq<nat>, alignLog2: nat) {

    predicate Accepted() {
      0 < |regionLog2| == |chunkLog2|
    }

    function Count(): nat {
      |regionLog2|
    }

    function SizeLog2(i: nat): nat
      requires i < Count()
    {
      if regionLog2[i] < alignLog2 then alignLog2 else regionLog2[i]
    }

    /** The aligned size of a region. */
    function Size(i: nat): nat
      requires i < Count()
    {
      Align(Pow2(regionLog2[i]), Pow2(alignLog2))
    }

    /** The number of chunks, and handles, of a region. */
    function Handles(i: nat): nat
      requires i < Count() == |chunkLog2|
    {
      DivPow2(Size(i), chunkLog2[i])
    }

    /** Where region i starts. */
    function Offset(i: nat): nat
      requires i <= Count()
    {
      if i == 0 then 0 else Offset(i - 1) + Size(i - 1)
    }

    /** The handle of the first chunk of region i. */
    function FirstHandle(i: nat): nat
      requires i <= Count() == |chunkLog2|
    {
      if i == 0 then 0 else FirstHandle(i - 1) + Handles(i - 1)
    }

    /** RegionSpec::get_relchunk: where a chunk starts. */
    function ChunkOffset(i: nat, chunk: nat): nat
      requires i < Count() == |chunkLog2|
    {
      Offset(i) + chunk * Pow2(chunkLog2[i])
    }
  }

  lemma SizeIsPow2(c: Config, i: nat)
    requires i < c.Count()
    ensures c.Size(i) == Pow2(c.SizeLog2(i)) > 0
  {
    AlignOfPow2(c.regionLog2[i], c.alignLog2);
  }

  lemma {:induction false} OffsetsRise(c: Config, i: nat, j: nat)
    requires c.Accepted() && i <= j <= c.Count()
    ensures c.Offset(i) <= c.Offset(j) && c.FirstHandle(i) <= c.FirstHandle(j)
  {
    if i < j {
      OffsetsRise(c, i, j - 1);
    }
  }

  /** How often one power of two goes into another. */
  lemma PowersDivide(s: nat, k: nat)
    ensures k <= s ==> DivPow2(Pow2(s), k) == Pow2(s - k) && Pow2(s - k) * Pow2(k) == Pow2(s)
    ensures k > s ==> DivPow2(Pow2(s), k) == 0
  {
    if k <= s {
      Pow2Add(s - k, k);
      DivPow2Unique(Pow2(s), k, Pow2(s - k));
    } else {
      Pow2Monotone(s, k);
      DivPow2Unique(Pow2(s), k, 0);
    }
  }

  /** The chunks of a region that has any fill it exactly, because region sizes are powers of two. */
  lemma ChunksFill(c: Config, i: nat)
    requires c.Accepted() && i < c.Count()
    ensures c.Handles(i) == 0 <==> c.Size(i) < Pow2(c.chunkLog2[i])
    ensures c.Handles(i) > 0 ==> c.ChunkOffset(i, c.Handles(i)) == c.Offset(i + 1)
  {
    SizeIsPow2(c, i);
    PowersDivide(c.SizeLog2(i), c.chunkLog2[i]);
    Pow2Monotone(c.SizeLog2(i), c.chunkLog2[i]);
    Pow2Monotone(c.chunkLog2[i], c.SizeLog2(i));
  }

  // ---------------------------------------------------------------------------------------------- locating

  datatype Location = Location(region: nat, chunk: nat, handle: nat)

  /** The chunk that an address offset lies in. */
  ghost predicate LiesIn(c: Config, offset: nat, l: Location)
    requires c.Accepted()
  {
    && l.region < c.Count() && l.chunk < c.Handles(l.region)
    && l.handle == c.FirstHandle(l.region) + l.chunk
    && c.ChunkOffset(l.region, l.chunk) <= offset < c.ChunkOffset(l.region, l.chunk + 1)
  }

  ghost predicate InRegion(c: Config, offset: nat, i: nat) {
    i < c.Count() && c.Offset(i) <= offset < c.Offset(i + 1)
  }

  lemma RegionUnique(c: Config, offset: nat, i: nat, j: nat)
    requires c.Accepted() && InRegion(c, offset, i) && InRegion(c, offset, j)
    ensures i == j
  {
    if i < j {
      OffsetsRise(c, i + 1, j);
    } else if j < i {
      OffsetsRise(c, j + 1, i);
    }
  }

  lemma ChunkInRegion(c: Config, offset: nat, l: Location)
    requires c.Accepted() && LiesIn(c, offset, l)
    ensures InRegion(c, offset, l.region)
  {
    ChunksFill(c, l.region);
    MulKeepsOrder(l.chunk + 1, c.Handles(l.region), Pow2(c.chunkLog2[l.region]));
    MulKeepsOrder(0, l.chunk, Pow2(c.chunkLog2[l.region]));
  }

  /** Regions and chunks partition the address range: an offset lies in one chunk at most. */
  lemma LocationUnique(c: Config, offset: nat, l: Location, m: Location)
    requires c.Accepted() && LiesIn(c, offset, l) && LiesIn(c, offset, m)
    ensures l == m
  {
    ChunkInRegion(c, offset, l);
    ChunkInRegion(c, offset, m);
    RegionUnique(c, offset, l.region, m.region);
    var w := Pow2(c.chunkLog2[l.region]);
    MulKeepsOrder(l.chunk, m.chunk + 1, w);
    MulKeepsOrder(m.chunk, l.chunk + 1, w);
  }

  /** locate_chunk_common_: the chunk that an offset within a region lies in. */
  function Within(c: Config, offset: nat, i: nat): Location
    requires c.Accepted() && i < c.Count() && c.Offset(i) <= offset
  {
    var chunk := DivPow2(offset - c.Offset(i), c.chunkLog2[i]);
    Location(i, chunk, c.FirstHandle(i) + chunk)
  }

  lemma WithinLies(c: Config, offset: nat, i: nat)
    requires c.Accepted() && InRegion(c, offset, i) && c.Handles(i) > 0
    ensures LiesIn(c, offset, Within(c, offset, i))
  {
    var w := Pow2(c.chunkLog2[i]);
    var chunk := DivPow2(offset - c.Offset(i), c.chunkLog2[i]);
    ChunksFill(c, i);
    MulDistributes(chunk, 1, w);
    MulKeepsOrder(chunk, c.Handles(i), w);
  }

  lemma HandleBelow(c: Config, region: nat, chunk: nat)
    requires c.Accepted() && region < c.Count() && chunk < c.Handles(region)
    ensures c.FirstHandle(region) + chunk < c.FirstHandle(region + 1) <= c.FirstHandle(c.Count())
  {
    OffsetsRise(c, region + 1, c.Count());
  }

  /** Handles of different chunks differ, and lie below the total. */
  lemma HandleUnique(c: Config, l: Location, m: Location)
    requires c.Accepted() && l.region < c.Count() && m.region < c.Count()
    requires l.chunk < c.Handles(l.region) && l.handle == c.FirstHandle(l.region) + l.chunk
    requires m.chunk < c.Handles(m.region) && m.handle == c.FirstHandle(m.region) + m.chunk
    ensures l.handle == m.handle <==> l == m
    ensures l.handle < c.FirstHandle(c.Count())
  {
    HandleBelow(c, l.region, l.chunk);
    HandleBelow(c, m.region, m.chunk);
    if l.region < m.region {
      OffsetsRise(c, l.region + 1, m.region);
    } else if m.region < l.region {
      OffsetsRise(c, m.region + 1, l.region);
    }
  }

  // ---------------------------------------------------------------------------------------------- 32 bits

  function Cut32(x: nat): (r: nat)
    ensures r < U32 && (x < U32 <==> r == x)
  {
    x % U32
  }

  /** What create() stores: counts and their running sum are cut to 32 bits. */
  function StoredHandles(c: Config, i: nat): nat
    requires c.Accepted() && i < c.Count()
  {
    Cut32(c.Handles(i))
  }

  function StoredFirst(c: Config, i: nat): nat
    requires c.Accepted() && i <= c.Count()
  {
    if i == 0 then 0 else Cut32(StoredFirst(c, i - 1) + StoredHandles(c, i - 1))
  }

  ghost predicate StoredExactly(c: Config)
    requires c.Accepted()
  {
    && (forall i: nat | i < c.Count() :: StoredHandles(c, i) == c.Handles(i))
    && (forall i: nat | i <= c.Count() :: StoredFirst(c, i) == c.FirstHandle(i))
  }

  lemma {:induction false} FirstStored(c: Config, i: nat)
    requires c.Accepted() && i <= c.Count() && c.FirstHandle(i) < U32
    ensures StoredFirst(c, i) == c.FirstHandle(i)
  {
    if i > 0 {
      FirstStored(c, i - 1);
    }
  }

  /** The stored numbers are the true ones exactly when all the chunks together can be counted in 32 bits; create() does
      not check for that. */
  lemma StoredExactlyWhen(c: Config)
    requires c.Accepted()
    ensures StoredExactly(c) <==> c.FirstHandle(c.Count()) < U32
  {
    if c.FirstHandle(c.Count()) < U32 {
      forall i: nat | i <= c.Count() ensures StoredFirst(c, i) == c.FirstHandle(i) {
        OffsetsRise(c, i, c.Count());
        FirstStored(c, i);
      }
      forall i: nat | i < c.Count() ensures StoredHandles(c, i) == c.Handles(i) {
        OffsetsRise(c, i + 1, c.Count());
      }
    } else {
      assert StoredFirst(c, c.Count()) < U32;
    }
  }

  // ---------------------------------------------------------------------------------------------- the tables

  /** Row i of the tables is right. */
  ghost predicate Row(c: Config, offset: seq<nat>, first: seq<nat>, count: seq<nat>, sentinel: seq<nat>, i: nat)
    requires c.Accepted() && i < c.Count() == |offset| == |first| == |count| == |sentinel|
  {
    && offset[i] == c.Offset(i) && first[i] == StoredFirst(c, i) && count[i] == StoredHandles(c, i)
    && sentinel[i] == c.Offset(i + 1)
  }

  ghost predicate AllRows(c: Config, offset: seq<nat>, first: seq<nat>, count: seq<nat>, sentinel: seq<nat>)
    requires c.Accepted() && c.Count() == |offset| == |first| == |count| == |sentinel|
  {
    forall i: nat {:trigger Row(c, offset, first, count, sentinel, i)} | i < c.Count() ::
      Row(c, offset, first, count, sentinel, i)
  }

  /** RegionChunkAllocatorSpecs: the layout, tabulated once. */
  class Specs {
    const config: Config
    const regionOffset: array<nat>
    const firstHandle: array<nat>
    const numHandles: array<nat>
    const regionSentinel: array<nat>  // where each region ends
    const totalSize: nat
    const totalHandles: nat
    const commonSizeLog2: Option<nat>  // set when all regions have the same size

    ghost predicate Valid()
      reads regionOffset, firstHandle, numHandles, regionSentinel
    {
      && config.Accepted()
      && config.Count() == regionOffset.Length == firstHandle.Length == numHandles.Length == regionSentinel.Length
      && AllRows(config, regionOffset[..], firstHandle[..], numHandles[..], regionSentinel[..])
      && totalSize == config.Offset(config.Count()) && totalHandles == StoredFirst(config, config.Count())
      && (commonSizeLog2.Some? ==> forall i: nat | i < config.Count() :: config.SizeLog2(i) == commonSizeLog2.value)
    }

    constructor (config: Config)
      requires config.Accepted()
      ensures Valid() && this.config == config
    {
      var n := config.Count();
      var offsets, firsts, counts, sentinels := new nat[n], new nat[n], new nat[n], new nat[n];
      var offset: nat, first: nat := 0, 0;
      for i := 0 to n
        invariant offset == config.Offset(i) && first == StoredFirst(config, i)
        invariant forall k: nat | k < i :: Row(config, offsets[..], firsts[..], counts[..], sentinels[..], k)
      {
        var size := config.Size(i);
        var handles := Cut32(DivPow2(size, config.chunkLog2[i]));
        label Filled:
        offsets[i], firsts[i], counts[i], sentinels[i] := offset, first, handles, offset + size;
        forall k: nat | k < i + 1 ensures Row(config, offsets[..], firsts[..], counts[..], sentinels[..], k) {
          assert k < i ==> old@Filled(Row(config, offsets[..], firsts[..], counts[..], sentinels[..], k));
        }
        first := Cut32(first + handles);
        offset := offset + size;
      }
      var equal := AllEqual(config.regionLog2);
      this.config, regionOffset, firstHandle, numHandles, regionSentinel := config, offsets, firsts, counts, sentinels;
      totalSize, totalHandles := offset, first;
      commonSizeLog2 := if equal then Some(config.SizeLog2(0)) else None;
    }

    /** search_hosting_region */
    method SearchHostingRegion(offset: nat) returns (r: Option<nat>)
      requires Valid()
      ensures r.None? <==> offset >= totalSize
      ensures r.Some? ==> InRegion(config, offset, r.value)
    {
      for i := 0 to config.Count()
        invariant config.Offset(i) <= offset
      {
        assert Row(config, regionOffset[..], firstHandle[..], numHandles[..], regionSentinel[..], i);
        if offset < regionSentinel[i] {
          OffsetsRise(config, i + 1, config.Count());
          return Some(i);
        }
      }
      return None;
    }

    /** The hosting region, by a shift when all regions are equal and by a search of the sentinels otherwise. */
    method HostingRegion(offset: nat) returns (region: nat)
      requires Valid() && offset < totalSize
      ensures InRegion(config, offset, region)
    {
      if commonSizeLog2.Some? {
        region := DivPow2(offset, commonSizeLog2.value);
        EqualRegions(config, commonSizeLog2.value, offset);
      } else {
        var found := SearchHostingRegion(offset);
        region := found.value;
      }
    }

    /** locate_chunk. An offset in a region without chunks aborts. */
    method LocateChunk(offset: nat) returns (r: Option<Location>)
      requires Valid() && StoredExactly(config) && offset < totalSize
      ensures r.Some? ==> LiesIn(config, offset, r.value)
      ensures r.None? ==> exists i :: InRegion(config, offset, i) && config.Handles(i) == 0
    {
      var region := HostingRegion(offset);
      assert Row(config, regionOffset[..], firstHandle[..], numHandles[..], regionSentinel[..], region);
      if numHandles[region] == 0 {
        return None;
      }
      WithinLies(config, offset, region);
      var chunk := DivPow2(offset - regionOffset[region], config.chunkLog2[region]);
      return Some(Location(region, chunk, firstHandle[region] + chunk));
    }
  }

  method AllEqual(s: seq<nat>) returns (b: bool)
    ensures b <==> forall i, j | 0 <= i < j < |s| :: s[i] == s[j]
  {
    var i := 1;
    while i < |s|
      invariant 1 <= i && forall j | 0 <= j < i && j < |s| :: s[j] == s[0]
    {
      if s[i - 1] != s[i] {
        return false;
      }
      i := i + 1;
    }
    return true;
  }

  /** Equal regions start at the multiples of their size. */
  lemma {:induction false} EqualOffsets(c: Config, sizeLog2: nat, i: nat)
    requires c.Accepted() && i <= c.Count() && forall k: nat | k < c.Count() :: c.SizeLog2(k) == sizeLog2
    ensures c.Offset(i) == i * Pow2(sizeLog2)
  {
    if i > 0 {
      EqualOffsets(c, sizeLog2, i - 1);
      SizeIsPow2(c, i - 1);
      MulDistributes(i - 1, 1, Pow2(sizeLog2));
    }
  }

  /** So the shift finds the same region as the search. */
  lemma EqualRegions(c: Config, sizeLog2: nat, offset: nat)
    requires c.Accepted() && forall k: nat | k < c.Count() :: c.SizeLog2(k) == sizeLog2
    requires offset < c.Offset(c.Count())
    ensures InRegion(c, offset, DivPow2(offset, sizeLog2))
  {
    var i := DivPow2(offset, sizeLog2);
    EqualOffsets(c, sizeLog2, c.Count());
    MulKeepsOrder(i, c.Count(), Pow2(sizeLog2));
    EqualOffsets(c, sizeLog2, i);
    EqualOffsets(c, sizeLog2, i + 1);
    MulDistributes(i, 1, Pow2(sizeLog2));
  }
}
