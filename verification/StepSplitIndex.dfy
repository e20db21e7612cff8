/** FastArenaBins over all its alignments: one Bins per supported alignment, and the count of the arenas stored. */
module StepSplitIndex {
  import opened Wrappers
  import opened Powers
  import opened Arenas
  import opened StepSplit
  import opened StepSplitBins
  import opened Owners

  /** FastArenaBinsConfig with the compile-time limits of the three axes. */
  datatype Config = Config(steps: Steps, minAlignLog2: nat, maxAlignLog2: nat,
                           alignAxis: nat, stepAxis: nat, splitAxis: nat) {

    /** FastArenaBinsInfo::create returns null on anything else. */
    predicate Accepted() {
      && steps.Splits() <= splitAxis
      && minAlignLog2 <= maxAlignLog2 && maxAlignLog2 - minAlignLog2 + 1 <= alignAxis
      && steps.minLog2 <= steps.maxLog2 && steps.NumSteps() <= stepAxis
      && steps.splitsLog2 <= steps.minLog2
      && Pow2(maxAlignLog2) <= steps.MaxSize()
    }

    function NumAlignments(): int {
      maxAlignLog2 - minAlignLog2 + 1
    }

    /** step_split_axis */
    function BinAxis(): nat {
      (stepAxis + 1) * splitAxis + 1
    }

    /** locate_alignment: the index of the alignment's entry, or NumAlignments() if it is too large. */
    function LocateAlignment(alignment: nat): int {
      Arenas.LocateAlignment(minAlignLog2, maxAlignLog2, alignment)
    }
  }

  lemma ProductsOrdered(n: nat, n': nat, k: nat, k': nat)
    requires 0 < n <= n' && 0 < k <= k'
    ensures n * k <= k' * n'
  {
    MulKeepsOrder(n, n', k);
    MulKeepsOrder(k, k', n');
    MulCommutes(n', k);
  }

  lemma BinsFitAxis(c: Config)
    requires c.Accepted()
    ensures c.steps.NumBins() <= c.BinAxis()
  {
    ProductsOrdered(c.steps.Splits(), c.splitAxis, c.steps.NumSteps() + 1, c.stepAxis + 1);
  }

  lemma AlignmentSupported(c: Config, id: nat)
    requires c.Accepted() && id < c.NumAlignments()
    ensures c.minAlignLog2 + id <= c.steps.maxLog2 + 1
  {
    if c.minAlignLog2 + id > c.steps.maxLog2 + 1 {
      Pow2Monotone(c.steps.maxLog2 + 1, c.minAlignLog2 + id);
      Pow2Monotone(c.minAlignLog2 + id, c.maxAlignLog2);
    }
  }

  /** Once the configuration is accepted no entry is refused, as every alignment's first bin is positive and within the
      bitmap's capacity; unless the alignment lies below the smallest step and its shift overflows. */
  lemma AcceptedNeverFails(c: Config, id: nat)
    requires c.Accepted() && c.steps.maxLog2 + 1 < 64 && id < c.NumAlignments()
    ensures c.minAlignLog2 + id <= c.steps.maxLog2 + 1
    ensures FirstInfo(c.steps, c.minAlignLog2 + id).bin < c.steps.NumBins() <= c.BinAxis()
    ensures FirstInfo(c.steps, c.minAlignLog2 + id).bin > 0
       <==> !(c.minAlignLog2 + id < c.steps.minLog2 && c.minAlignLog2 + id + c.steps.splitsLog2 >= 64)
  {
    AlignmentSupported(c, id);
    BinsFitAxis(c);
    FirstBinPositive(c.steps, c.minAlignLog2 + id);
  }

  lemma EntryAccepted(c: Config, id: nat)
    requires c.Accepted() && c.steps.Fits() && id < c.NumAlignments()
    ensures c.minAlignLog2 + id <= c.steps.maxLog2 + 1
    ensures 0 < FirstInfo(c.steps, c.minAlignLog2 + id).bin < c.steps.NumBins() <= c.BinAxis()
  {
    AlignmentSupported(c, id);
    BinsFitAxis(c);
    FirstBin(c.steps, c.minAlignLog2 + id);
  }

  lemma AlignmentOfEntry(c: Config, id: nat)
    requires id < c.NumAlignments()
    ensures c.LocateAlignment(Pow2(c.minAlignLog2 + id)) == id
  {
    Log2OfPow2(c.minAlignLog2 + id);
  }

  /** An arena with the aligned size left over has room for the size: what it has left is a multiple of its own
      alignment, which the requested alignment may undercut but not exceed. */
  lemma RoomForRequest(capacity: nat, top: nat, arenaLog2: nat, requestLog2: nat, size: nat)
    requires requestLog2 <= arenaLog2 && top <= capacity
    requires capacity % Pow2(arenaLog2) == 0 && top % Pow2(arenaLog2) == 0
    requires Align(size, Pow2(requestLog2)) <= capacity - top
    ensures Align(size, Pow2(arenaLog2)) <= capacity - top
  {
    ModAdd(top, capacity - top, Pow2(arenaLog2));
    AlignProperties(size, Pow2(requestLog2));
    AlignLeast(size, Pow2(arenaLog2), capacity - top);
  }

  /** The entry that serves an alignment has at least that alignment. */
  lemma EntryOfAlignment(c: Config, alignLog2: nat, id: nat)
    requires id == c.LocateAlignment(Pow2(alignLog2)) && id < c.NumAlignments()
    ensures alignLog2 <= c.minAlignLog2 + id
  {
    Log2OfPow2(alignLog2);
  }

  /** Rounding up to a power of two gives a multiple of every smaller one. */
  lemma AlignedToSmaller(size: nat, m: nat, k: nat)
    requires m <= k
    ensures Align(size, Pow2(k)) % Pow2(m) == 0
  {
    var q := Align(size, Pow2(k)) / Pow2(k);
    AlignProperties(size, Pow2(k));
    DivBounds(Align(size, Pow2(k)), Pow2(k));
    Pow2Add(k - m, m);
    MulAssociates(q, Pow2(k - m), Pow2(m));
    MultipleMod(q * Pow2(k - m), Pow2(m));
  }

  /** A request's aligned size is a multiple of its entry's alignment exactly if it is one of the least alignment. */
  lemma EntryAlignment(c: Config, size: nat, alignLog2: nat, id: nat)
    requires id == c.LocateAlignment(Pow2(alignLog2)) && id < c.NumAlignments()
    ensures Align(size, Pow2(alignLog2)) % Pow2(c.minAlignLog2 + id) == 0
       <==> Align(size, Pow2(alignLog2)) % Pow2(c.minAlignLog2) == 0
  {
    Log2OfPow2(alignLog2);
    if c.minAlignLog2 <= alignLog2 {
      AlignedToSmaller(size, c.minAlignLog2, alignLog2);
      AlignedToSmaller(size, alignLog2, alignLog2);
    }
  }

  /** So only a request for less than the least supported alignment can abort, and that goes to the first entry. */
  lemma MisalignedBelowLeast(c: Config, size: nat, alignLog2: nat)
    requires Align(size, Pow2(alignLog2)) % Pow2(c.minAlignLog2) != 0
    ensures alignLog2 < c.minAlignLog2 && (c.minAlignLog2 <= c.maxAlignLog2 ==> c.LocateAlignment(Pow2(alignLog2)) == 0)
  {
    Log2OfPow2(alignLog2);
    if c.minAlignLog2 <= alignLog2 {
      AlignedToSmaller(size, c.minAlignLog2, alignLog2);
    }
  }

  /** So an arena of that entry which covers the aligned request covers the request as the arena will align it. */
  lemma EntryServes(c: Config, alignLog2: nat, id: nat, capacity: nat, alignment: nat, top: nat, size: nat)
    requires id == c.LocateAlignment(Pow2(alignLog2)) && id < c.NumAlignments()
             && alignment == Pow2(c.minAlignLog2 + id)
    requires top <= capacity && capacity % alignment == 0 && top % alignment == 0
    requires Align(size, Pow2(alignLog2)) <= capacity - top
    ensures Align(size, alignment) <= capacity - top && c.LocateAlignment(alignment) == id
  {
    EntryOfAlignment(c, alignLog2, id);
    AlignmentOfEntry(c, id);
    RoomForRequest(capacity, top, c.minAlignLog2 + id, alignLog2, size);
  }

  ghost predicate NoArena(o: object) {
    !(o is FastArena)
  }

  /** The entry of the i-th alignment. */
  ghost predicate Made(c: Config, entries: seq<Bins>, i: nat)
    requires i < |entries|
  {
    entries[i].steps == c.steps && entries[i].alignLog2 == c.minAlignLog2 + i
  }

  ghost predicate Separate(entries: seq<Bins>, i: nat, j: nat)
    requires i < |entries| && j < |entries|
  {
    entries[i].Apart(entries[j])
  }

  ghost predicate AllMade(c: Config, entries: seq<Bins>) {
    && (forall i: nat {:trigger Made(c, entries, i)} | i < |entries| :: Made(c, entries, i))
    && (forall i: nat, j: nat {:trigger Separate(entries, i, j)} | i < j < |entries| :: Separate(entries, i, j))
  }

  /** An entry that holds nothing, in memory that was set aside for it. */
  ghost predicate Unused(b: Bins, used: set<object>)
    reads b.entry, b.entry.lists, b.entry.present.bins, b.Stored()`inList, b.Stored()`top
  {
    b.Valid() && b.Stored() == {} && b.Within(used)
  }

  lemma AddEntry(c: Config, entries: seq<Bins>, b: Bins, used: set<object>)
    requires AllMade(c, entries)
    requires forall i: nat {:trigger Unused(entries[i], used)} | i < |entries| :: Unused(entries[i], used)
    requires b.steps == c.steps && b.alignLog2 == c.minAlignLog2 + |entries|
    requires b.entry !in used && b.entry.lists !in used && b.entry.present.bins !in used
    ensures AllMade(c, entries + [b])
  {
    var more := entries + [b];
    forall i: nat | i < |more| ensures Made(c, more, i) {
      assert i < |entries| ==> Made(c, entries, i);
    }
    forall i: nat, j: nat | i < j < |more| ensures Separate(more, i, j) {
      assert j < |entries| ==> Separate(entries, i, j);
      assert Unused(entries[i], used);
    }
  }

  method MakeEntries(config: Config) returns (entries: seq<Bins>, ghost used: set<object>)
    requires config.Accepted() && Exact(config.steps, config.minAlignLog2)
    ensures |entries| == config.NumAlignments() && AllMade(config, entries)
    ensures fresh(used) && forall o {:trigger NoArena(o)} | o in used :: NoArena(o)
    ensures forall i: nat {:trigger Unused(entries[i], used)} | i < |entries| :: Unused(entries[i], used)
  {
    entries, used := [], {};
    while |entries| < config.NumAlignments()
      invariant |entries| <= config.NumAlignments() && AllMade(config, entries)
      invariant fresh(used) && forall o {:trigger NoArena(o)} | o in used :: NoArena(o)
      invariant forall i: nat {:trigger Unused(entries[i], used)} | i < |entries| :: Unused(entries[i], used)
    {
      EntryAccepted(config, |entries|);
      label Before:
      var b := new Bins(config.steps, config.minAlignLog2 + |entries|, config.BinAxis());
      ghost var more := used + {b.entry, b.entry.lists, b.entry.present.bins};
      forall i: nat | i < |entries| ensures Unused(entries[i], used) && Unused(entries[i], more) {
        assert old@Before(Unused(entries[i], used));
      }
      AddEntry(config, entries, b, used);
      entries, used := entries + [b], more;
    }
  }

  class ArenaIndex {
    const config: Config
    const entries: seq<Bins>
    ghost const repr: set<object>
    var total: nat
    ghost var owner: map<FastArena, nat>  // the entry of every stored arena

    ghost function Stored(): set<FastArena>
      reads this
    {
      owner.Keys
    }

    ghost function OwnedBy(id: nat): (s: set<FastArena>)
      reads this
      ensures s <= Stored()
    {
      KeysOf(owner, id)
    }

    /** One entry per alignment, no two of which share anything. */
    ghost predicate Laid() {
      && config.Accepted() && Exact(config.steps, config.minAlignLog2)
      && |entries| == config.NumAlignments()
      && this !in repr
      && (forall i: nat | i < |entries| ::
            && entries[i].Within(repr) && entries[i].steps == config.steps
            && entries[i].alignLog2 == config.minAlignLog2 + i)
      && (forall i: nat, j: nat | i < j < |entries| :: entries[i].Apart(entries[j]))
    }

    /** Every stored arena is owned by the entry of its alignment. */
    ghost predicate Owned(owner: map<FastArena, nat>) {
      && (forall a {:trigger config.LocateAlignment(a.alignment)} | a in owner ::
          config.LocateAlignment(a.alignment) == owner[a])
      && (forall a | a in owner :: owner[a] < |entries|)
    }

    /** Each entry is in order and holds exactly the arenas it owns. */
    ghost predicate Valid()
      reads this, repr, Stored()`inList, Stored()`top
    {
      && Laid() && Owned(owner) && total == |owner| && (forall o {:trigger NoArena(o)} | o in repr :: NoArena(o))
      && Holds(owner)
      && (forall i: nat {:trigger entries[i].Valid()} | i < |entries| ::
            entries[i].Stored() <= Stored() && entries[i].Valid())
    }

    /** FastArenaBins::create on an accepted configuration. */
    constructor (config: Config)
      requires config.Accepted() && Exact(config.steps, config.minAlignLog2)
      ensures Valid() && Stored() == {} && this.config == config && fresh(repr)
    {
      var made, all := MakeEntries(config);
      this.config, entries, repr := config, made, all;
      total, owner := 0, map[];
      label Before:
      new;
      forall i: nat | i < |entries|
        ensures entries[i].Valid() && entries[i].Stored() == {} && entries[i].Within(all) && Made(config, entries, i)
      {
        assert old@Before(Unused(made[i], all)) && Made(config, made, i);
      }
      forall i: nat, j: nat | i < j < |entries| ensures entries[i].Apart(entries[j]) {
        assert Separate(made, i, j);
      }
    }

    /** An arena that the index may hold: of a supported alignment, aligned throughout, and not too small. */
    ghost predicate Fits(a: FastArena)
      requires Laid()
      reads a`top
    {
      var id := config.LocateAlignment(a.alignment);
      id < |entries| && entries[id].Fits(a)
    }

    /** The request was not supported, so it never reaches an entry. */
    predicate Unsupported(size: nat, alignment: nat)
      requires alignment > 0
    {
      config.LocateAlignment(alignment) == config.NumAlignments() || Align(size, alignment) > config.steps.MaxSize()
    }

    /** The arenas lie outside the index's own objects. */
    lemma ArenasOutside()
      requires Valid()
      ensures forall a: FastArena :: a !in repr
    {
      forall a: FastArena ensures a !in repr {
        assert a in repr ==> NoArena(a);
      }
    }

    /** One entry has lost or gained arenas, and the owners are not up to date. */
    ghost predicate HoldsBut(id: nat, lost: set<FastArena>, gained: set<FastArena>)
      reads this, repr
      requires Laid()
    {
      forall i: nat {:trigger entries[i].Stored()} | i < |entries| ::
        entries[i].Stored() == if i == id then KeysOf(owner, i) - lost + gained else KeysOf(owner, i)
    }

    /** Each entry holds what the given owners say. */
    ghost predicate Holds(owner: map<FastArena, nat>)
      reads this, repr
      requires Laid()
    {
      forall i: nat {:trigger entries[i].Stored()} | i < |entries| :: entries[i].Stored() == KeysOf(owner, i)
    }

    /** All that Valid() says but that the entries hold what they own. */
    ghost predicate Outdated()
      reads this, repr, set i: nat, a | i < |entries| && entries[i].entry in repr && a in entries[i].Stored() :: a
    {
      && Laid() && Owned(owner) && total == |owner| && (forall o {:trigger NoArena(o)} | o in repr :: NoArena(o))
      && forall i: nat {:trigger entries[i].Valid()} | i < |entries| :: entries[i].Valid()
    }

    /** Brings owners and count up to date with what the entries hold. */
    method Commit(ghost owners: map<FastArena, nat>, count: nat)
      requires Outdated() && Owned(owners) && Holds(owners) && count == |owners|
      modifies this`owner, this`total
      ensures Valid() && owner == owners
    {
      total := count;
      owner := owners;
      forall i: nat | i < |entries| ensures entries[i].Stored() <= Stored() {
        assert entries[i].Stored() == KeysOf(owners, i);
      }
    }

    lemma HoldsWithout(a: FastArena, id: nat)
      requires Laid() && Owned(owner) && a in owner && owner[a] == id && HoldsBut(id, {a}, {})
      ensures Holds(owner - {a}) && |owner - {a}| == |owner| - 1 && Owned(owner - {a})
    {
      KeysOfRemove(owner, a);
    }

    lemma HoldsWith(a: FastArena, id: nat)
      requires Laid() && Owned(owner) && a !in owner && id == config.LocateAlignment(a.alignment) && id < |entries|
      requires HoldsBut(id, {}, {a})
      ensures Holds(owner[a := id]) && |owner[a := id]| == |owner| + 1 && Owned(owner[a := id])
    {
      KeysOfInsert(owner, a, id);
    }

    method AcquireFrom(id: nat, size: nat) returns (r: Acquired<FastArena>)
      requires Valid() && id < |entries| && size <= config.steps.MaxSize()
      modifies entries[id].entry, entries[id].entry.lists, entries[id].entry.present.bins, entries[id].Stored()`inList
      ensures !r.Failed?
      ensures r.Aborted? <==> old(entries[id].Clashes(size))
      ensures forall i: nat {:trigger entries[i].Valid()} | i < |entries| :: entries[i].Valid()
      ensures !r.Acquired? ==> Holds(owner)
      ensures r.NoResource? ==>
                forall a {:trigger entries[id].TooSmall(a, size)} | a in OwnedBy(id) :: entries[id].TooSmall(a, size)
      ensures r.Acquired? ==>
                && r.value in OwnedBy(id)
                && HoldsBut(id, {r.value}, {})
                && !r.value.inList && entries[id].Fits(r.value) && size <= r.value.Remaining()
    {
      r := entries[id].Acquire(size);
    }

    /** acquire_arena_ and the count of arenas it keeps */
    method AcquireAligned(id: nat, size: nat) returns (r: Acquired<FastArena>)
      requires Valid() && id < |entries| && size <= config.steps.MaxSize()
      modifies this, repr, Stored()`inList
      ensures Valid() && !r.Failed?
      ensures r.Aborted? <==> old(entries[id].Clashes(size))
      ensures !r.Acquired? ==> owner == old(owner)
      ensures r.NoResource? ==>
                forall a {:trigger entries[id].TooSmall(a, size)} | a in OwnedBy(id) :: entries[id].TooSmall(a, size)
      ensures r.Acquired? ==>
                && r.value in old(owner) && old(owner)[r.value] == id && owner == old(owner) - {r.value}
                && !r.value.inList && entries[id].Fits(r.value) && size <= r.value.Remaining()
    {
      r := AcquireFrom(id, size);
      if r.Acquired? {
        HoldsWithout(r.value, id);
        Commit(owner - {r.value}, total - 1);
      }
    }

    /** The request reaches an entry with a cached arena, which aborts on its size. */
    ghost predicate Aborts(size: nat, alignLog2: nat)
      requires Laid()
      reads this, set b | b in entries :: b.entry
    {
      && !Unsupported(size, Pow2(alignLog2))
      && entries[config.LocateAlignment(Pow2(alignLog2))].entry.cached != null
      && Align(size, Pow2(alignLog2)) % Pow2(config.minAlignLog2) != 0
    }

    /** acquire_arena: unsupported requests fail; a request whose aligned size is no multiple of the least supported
        alignment aborts if there is a cached arena of that alignment (see MisalignedBelowLeast for which these are); an
        arena handed out leaves the index and has room for the request; and if nothing is handed out, no arena of the
        alignment has more room than rounding up to a bin costs. */
    method Acquire(size: nat, alignLog2: nat) returns (r: Acquired<FastArena>)
      requires Valid()
      modifies this, repr, Stored()`inList
      ensures Valid()
      ensures r.Failed? <==> Unsupported(size, Pow2(alignLog2))
      ensures r.Aborted? <==> old(Aborts(size, alignLog2))
      ensures !r.Acquired? ==> owner == old(owner)
      ensures r.NoResource? ==>
                var id := config.LocateAlignment(Pow2(alignLog2));
                var s := Align(size, Pow2(alignLog2));
                forall a {:trigger entries[id].TooSmall(a, s)} | a in OwnedBy(id) :: entries[id].TooSmall(a, s)
      ensures r.Acquired? ==>
                && r.value in old(owner) && owner == old(owner) - {r.value}
                && old(owner)[r.value] == config.LocateAlignment(Pow2(alignLog2))
                && !r.value.inList && Fits(r.value) && Align(size, r.value.alignment) <= r.value.Remaining()
    {
      var id := config.LocateAlignment(Pow2(alignLog2));
      if id == |entries| {
        return Failed;
      }
      var sizeAligned := Align(size, Pow2(alignLog2));
      if sizeAligned > config.steps.MaxSize() {
        return Failed;
      }
      EntryAlignment(config, size, alignLog2, id);
      r := AcquireAligned(id, sizeAligned);
      if r.Acquired? {
        EntryServes(config, alignLog2, id, r.value.capacity, r.value.alignment, r.value.top, size);
      }
    }

    /** The released arena becomes its entry's cached one exactly if there was none, or if it has at least twice the
        room. */
    twostate predicate Cached(id: nat, a: FastArena)
      requires id < |entries|
      reads entries[id].entry, a`top, entries[id].entry.cached
    {
      var was := old(entries[id].entry.cached);
      entries[id].entry.cached == if was == null || a.Remaining() >= 2 * old(was.Remaining()) then a else was
    }

    method ReleaseTo(id: nat, a: FastArena)
      requires Valid() && id < |entries| && a !in Stored() && !a.inList && entries[id].Fits(a)
      modifies entries[id].entry, entries[id].entry.lists, entries[id].entry.present.bins, a`inList
      modifies entries[id].Stored()`inList
      ensures forall i: nat {:trigger entries[i].Valid()} | i < |entries| :: entries[i].Valid()
      ensures HoldsBut(id, {}, {a}) && Cached(id, a)
    {
      entries[id].Release(a);
    }

    method ReleaseAligned(id: nat, a: FastArena)
      requires Valid() && a !in Stored() && !a.inList
      requires id == config.LocateAlignment(a.alignment) && id < |entries| && entries[id].Fits(a)
      modifies this, repr, a`inList, Stored()`inList
      ensures Valid() && owner == old(owner)[a := id] && Cached(id, a)
    {
      ReleaseTo(id, a);
      HoldsWith(a, id);
      Commit(owner[a := id], total + 1);
    }

    /** release_arena: an arena that is in no list and cannot be reset goes back into the index. */
    method Release(a: FastArena)
      requires Valid() && a !in Stored() && !a.inList && !a.Resettable() && Fits(a)
      modifies this, repr, a`inList, Stored()`inList
      ensures Valid() && owner == old(owner)[a := config.LocateAlignment(a.alignment)]
      ensures Cached(config.LocateAlignment(a.alignment), a)
    {
      ReleaseAligned(config.LocateAlignment(a.alignment), a);
    }

    method ExtractFrom(id: nat, a: FastArena)
      requires Valid() && id < |entries| && a in OwnedBy(id)
      modifies entries[id].entry, entries[id].entry.lists, entries[id].entry.present.bins, a`inList
      ensures forall i: nat {:trigger entries[i].Valid()} | i < |entries| :: entries[i].Valid()
      ensures HoldsBut(id, {a}, {})
      ensures !a.inList && entries[id].Fits(a)
    {
      assert a in entries[id].Stored();
      var _ := entries[id].Extract(a);
    }

    /** extract_arena: an arena of the index is found where its alignment and its remaining size say. */
    method Extract(a: FastArena)
      requires Valid() && a in Stored()
      modifies this, repr, a`inList
      ensures Valid() && owner == old(owner) - {a} && !a.inList && Fits(a)
    {
      var id := config.LocateAlignment(a.alignment);
      ExtractFrom(id, a);
      HoldsWithout(a, id);
      Commit(owner - {a}, total - 1);
    }
  }
}
