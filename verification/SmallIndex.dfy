/** FastArenaSmallBins: one small bin per alignment, and the count of all the arenas stored. */
module SmallIndex {
  import opened Wrappers
  import opened Powers
  import opened Arenas
  import opened SmallBins
  import opened Owners

  /** A bin for the i-th alignment, whose terminators embed no arena. */
  ghost predicate Made(bins: seq<SmallBin>, i: nat, cutoff: nat, minLog2: nat)
    requires i < |bins|
  {
    && bins[i].alignment == Pow2(minLog2 + i) && bins[i].sizeCutoff == cutoff
    && forall h | h in bins[i].lists.heads :: h.item == null
  }

  ghost predicate Separate(bins: seq<SmallBin>, i: nat, j: nat)
    requires i < |bins| && j < |bins|
  {
    && bins[i] != bins[j] && bins[i].lists != bins[j].lists
    && forall h | h in bins[i].lists.heads :: h !in bins[j].lists.heads
  }

  ghost predicate AllMade(bins: seq<SmallBin>, cutoff: nat, minLog2: nat) {
    && (forall i: nat {:trigger Made(bins, i, cutoff, minLog2)} | i < |bins| :: Made(bins, i, cutoff, minLog2))
    && (forall i: nat, j: nat {:trigger Separate(bins, i, j)} | i < |bins| && j < |bins| && i != j ::
        Separate(bins, i, j))
  }

  /** A bin that holds nothing, in memory that was set aside for it. */
  ghost predicate Unused(b: SmallBin, used: set<object>)
    reads b, b.lists, b.Footprint()
  {
    b.Valid() && b.Stored() == {} && b.Footprint() <= used && forall h | h in b.lists.heads :: h in used
  }

  lemma AddBin(bins: seq<SmallBin>, b: SmallBin, cutoff: nat, minLog2: nat, used: set<object>)
    requires AllMade(bins, cutoff, minLog2)
    requires forall i: nat {:trigger Unused(bins[i], used)} | i < |bins| :: Unused(bins[i], used)
    requires b.alignment == Pow2(minLog2 + |bins|) && b.sizeCutoff == cutoff && b !in used && b.lists !in used
    requires forall h | h in b.lists.heads :: h.item == null && h !in used
    ensures AllMade(bins + [b], cutoff, minLog2)
  {
    var more := bins + [b];
    forall i: nat | i < |more| ensures Made(more, i, cutoff, minLog2) {
      assert i < |bins| ==> Made(bins, i, cutoff, minLog2);
    }
    forall i: nat, j: nat | i < |more| && j < |more| && i != j ensures Separate(more, i, j) {
      if i < |bins| && j < |bins| {
        assert Separate(bins, i, j);
      } else {
        assert Unused(bins[if i < |bins| then i else j], used);
      }
    }
  }

  method MakeBins(minLog2: nat, count: nat, cutoff: nat) returns (bins: seq<SmallBin>, ghost used: set<object>)
    ensures |bins| == count && AllMade(bins, cutoff, minLog2)
    ensures fresh(used) && forall i: nat {:trigger Unused(bins[i], used)} | i < |bins| :: Unused(bins[i], used)
  {
    bins, used := [], {};
    while |bins| < count
      invariant |bins| <= count && fresh(used) && AllMade(bins, cutoff, minLog2)
      invariant forall i: nat {:trigger Unused(bins[i], used)} | i < |bins| :: Unused(bins[i], used)
    {
      label Before:
      var b := new SmallBin(Pow2(minLog2 + |bins|), cutoff);
      b.lists.ReprIsMembersAndHeads();
      ghost var more := used + b.Footprint();
      assert fresh(b.Footprint()) && Unused(b, more);
      forall i: nat | i < |bins| ensures Unused(bins[i], used) && Unused(bins[i], more) {
        assert old@Before(Unused(bins[i], used));
      }
      AddBin(bins, b, cutoff, minLog2, used);
      bins, used := bins + [b], more;
    }
  }

  class BinIndex {
    const minLog2: nat
    const maxLog2: nat
    const sizeCutoff: nat
    const bins: seq<SmallBin>
    var total: nat
    ghost var owner: map<Entry, nat>  // the bin of every stored arena

    /** One bin per alignment, no two of which share a list or a terminator. */
    ghost predicate Laid() {
      && minLog2 <= maxLog2 && |bins| == maxLog2 - minLog2 + 1
      && sizeCutoff % Pow2(maxLog2) == 0
      && AllMade(bins, sizeCutoff, minLog2)
    }

    /** FastArenaSmallBins::create, on alignments in order; it also holds them to compile-time limits. */
    constructor (minLog2: nat, maxLog2: nat, cutoff: nat)
      requires minLog2 <= maxLog2
      ensures Valid() && owner == map[] && this.minLog2 == minLog2 && this.maxLog2 == maxLog2
      ensures sizeCutoff == Align(cutoff, Pow2(maxLog2))
    {
      var aligned := Align(cutoff, Pow2(maxLog2));
      AlignProperties(cutoff, Pow2(maxLog2));
      ghost var used: set<object>;
      var made;
      made, used := MakeBins(minLog2, maxLog2 - minLog2 + 1, aligned);
      this.minLog2, this.maxLog2, sizeCutoff, bins := minLog2, maxLog2, aligned, made;
      total, owner := 0, map[];
      label Before:
      new;
      forall i: nat | i < |bins| ensures BinOk(i, KeysOf(owner, i)) {
        assert old@Before(Unused(made[i], used));
      }
    }

    /** The bin that owns an arena is the one of its alignment. */
    ghost predicate Home(n: Entry, id: nat) {
      n.item != null && LocateAlignment(minLog2, maxLog2, n.item.alignment) == id
    }

    ghost predicate Owned(owner: map<Entry, nat>) {
      && (forall n {:trigger Home(n, owner[n])} | n in owner :: Home(n, owner[n]))
      && (forall n | n in owner :: owner[n] < |bins|)
    }

    /** Bin i is in order and holds exactly these arenas. */
    ghost predicate BinOk(i: nat, held: set<Entry>)
      requires i < |bins|
      reads bins[i], bins[i].lists, bins[i].Footprint()
    {
      bins[i].Valid() && bins[i].Stored() == held
    }

    /** The objects that operations change: bins, lists and nodes. */
    ghost function Objects(): set<object>
      reads set i: nat | i < |bins| :: bins[i], set i: nat | i < |bins| :: bins[i].lists
    {
      set i: nat, o | i < |bins| && o in bins[i].Objects() :: o
    }

    /** Each bin holds what its owners say. */
    ghost predicate AllOk(owner: map<Entry, nat>)
      reads set i: nat | i < |bins| :: bins[i], set i: nat | i < |bins| :: bins[i].lists
      reads set i: nat, o | i < |bins| && o in bins[i].Footprint() :: o
    {
      forall i: nat {:trigger BinOk(i, KeysOf(owner, i))} | i < |bins| :: BinOk(i, KeysOf(owner, i))
    }

    /** ... all but one, which is being changed. */
    ghost predicate OthersOk(id: nat)
      reads this, set i: nat | i < |bins| :: bins[i], set i: nat | i < |bins| :: bins[i].lists
      reads set i: nat, o | i < |bins| && o in bins[i].Footprint() :: o
    {
      forall i: nat {:trigger BinOk(i, KeysOf(owner, i))} | i < |bins| && i != id :: BinOk(i, KeysOf(owner, i))
    }

    /** All bins are in order, hold exactly the arenas they own, and together as many as total_arenas says. */
    ghost predicate Valid()
      reads this, set i: nat | i < |bins| :: bins[i], set i: nat | i < |bins| :: bins[i].lists
      reads set i: nat, o | i < |bins| && o in bins[i].Footprint() :: o
    {
      Laid() && Owned(owner) && total == |owner| && AllOk(owner)
    }

    /** Bins share no node: their arenas have different owners, and terminators embed no arena. */
    lemma Apart(i: nat, j: nat)
      requires Valid() && i < |bins| && j < |bins| && i != j
      ensures bins[i].Footprint() !! bins[j].Objects()
    {
      NodesOf(i);
      NodesOf(j);
      assert Separate(bins, i, j);
      assert bins[i].Nodes() !! bins[j].Nodes();
    }

    ghost predicate Away(i: nat, changed: set<object>)
      requires i < |bins|
      reads bins[i], bins[i].lists
    {
      bins[i].Footprint() !! changed
    }

    lemma AllApart(id: nat)
      requires Valid() && id < |bins|
      ensures forall i: nat {:trigger Away(i, bins[id].Objects())} | i < |bins| && i != id ::
              Away(i, bins[id].Objects())
    {
      forall i: nat | i < |bins| && i != id ensures Away(i, bins[id].Objects()) {
        Apart(i, id);
      }
    }

    /** An arena that no bin owns is a node of none. */
    lemma NotStored(n: Entry, id: nat)
      requires Valid() && n !in owner && n.item != null && id < |bins|
      ensures n !in bins[id].Nodes()
      ensures forall i: nat {:trigger Away(i, bins[id].Objects() + {n})} | i < |bins| && i != id ::
              Away(i, bins[id].Objects() + {n})
    {
      NodesOf(id);
      forall i: nat | i < |bins| && i != id ensures Away(i, bins[id].Objects() + {n}) {
        Apart(i, id);
        NodesOf(i);
      }
    }

    lemma NodesOf(i: nat)
      requires Valid() && i < |bins|
      ensures forall x | x in bins[i].Nodes() ::
                if x.item == null then x in bins[i].lists.heads else x in owner && owner[x] == i
    {
      assert BinOk(i, KeysOf(owner, i)) && Made(bins, i, sizeCutoff, minLog2);
      bins[i].lists.ReprIsMembersAndHeads();
      forall x | x in bins[i].Nodes()
        ensures if x.item == null then x in bins[i].lists.heads else x in owner && owner[x] == i
      {
        assert x in bins[i].Stored() ==> bins[i].Fits(x);
      }
    }

    /** Brings owners and count up to date with what the bins hold. */
    method Commit(ghost owners: map<Entry, nat>, count: nat)
      requires Laid() && Owned(owners) && count == |owners| && AllOk(owners)
      modifies this`owner, this`total
      ensures Valid() && owner == owners
    {
      Outside();
      total := count;
      owner := owners;
    }

    /** The index itself is none of the objects that its bins read. */
    lemma Outside()
      ensures forall i: nat | i < |bins| :: this !in bins[i].Footprint()
    {
    }

    lemma OwnedWithout(n: Entry)
      requires Owned(owner) && n in owner
      ensures Owned(owner - {n})
    {
      var rest := owner - {n};
      forall x | x in rest ensures Home(x, rest[x]) {
        assert Home(x, owner[x]);
      }
    }

    lemma OwnedWith(n: Entry, id: nat)
      requires Owned(owner) && n !in owner && id < |bins| && Home(n, id)
      ensures Owned(owner[n := id])
    {
      var all := owner[n := id];
      forall x | x in all ensures Home(x, all[x]) {
        assert x != n ==> Home(x, owner[x]);
      }
    }

    /** What is left when nothing is handed out: no listed arena with the cutoff's room, and a current arena that is too
        full. */
    ghost predicate CannotServe(id: nat, size: nat)
      requires id < |bins|
      reads bins[id], bins[id].lists, bins[id].Footprint()
    {
      var bin := bins[id];
      bin.lists.Queue(FREE) == [] && (bin.current != null ==> !bin.Serves(bin.current, size))
    }

    method AcquireIn(id: nat, size: nat) returns (r: Acquired<Entry>)
      requires id < |bins| && BinOk(id, KeysOf(owner, id)) && size <= bins[id].sizeCutoff
      modifies bins[id].Objects()
      ensures r.Answered()
      ensures r.Acquired? ==> r.value in KeysOf(owner, id) && bins[id].Serves(r.value, size)
      ensures r.NoResource? ==> CannotServe(id, size)
      ensures BinOk(id, if r.Acquired? then KeysOf(owner, id) - {r.value} else KeysOf(owner, id))
    {
      r := bins[id].Acquire(size);
    }

    /** The bin's own acquire; no other bin is touched. */
    method AcquireRaw(id: nat, size: nat) returns (r: Acquired<Entry>)
      requires Valid() && id < |bins| && size <= sizeCutoff
      modifies bins[id].Objects()
      ensures r.Answered()
      ensures r.Acquired? ==> r.value in KeysOf(owner, id) && bins[id].Serves(r.value, size)
      ensures r.NoResource? ==> CannotServe(id, size)
      ensures BinOk(id, if r.Acquired? then KeysOf(owner, id) - {r.value} else KeysOf(owner, id))
      ensures OthersOk(id)
    {
      AllApart(id);
      assert BinOk(id, KeysOf(owner, id)) && Made(bins, id, sizeCutoff, minLog2);
      ghost var changed := bins[id].Objects();
      r := AcquireIn(id, size);
      forall i: nat | i < |bins| && i != id ensures BinOk(i, KeysOf(owner, i)) {
        assert old(BinOk(i, KeysOf(owner, i))) && old(Away(i, changed));
      }
    }

    /** Owners and count follow after an arena was taken from a bin. */
    method CommitWithout(id: nat, n: Entry)
      requires Laid() && Owned(owner) && total == |owner| && n in owner && owner[n] == id
      requires BinOk(id, KeysOf(owner, id) - {n}) && OthersOk(id)
      modifies this`owner, this`total
      ensures Valid() && owner == old(owner) - {n}
    {
      KeysOfRemove(owner, n);
      OwnedWithout(n);
      ghost var owners := owner - {n};
      forall i: nat | i < |bins| ensures BinOk(i, KeysOf(owners, i)) {
        assert i != id ==> BinOk(i, KeysOf(owner, i)) && KeysOf(owners, i) == KeysOf(owner, i);
      }
      Commit(owners, total - 1);
    }

    lemma AllOkAgain(id: nat)
      requires id < |bins| && BinOk(id, KeysOf(owner, id)) && OthersOk(id)
      ensures AllOk(owner)
    {
      forall i: nat | i < |bins| ensures BinOk(i, KeysOf(owner, i)) {
        assert i != id ==> BinOk(i, KeysOf(owner, i));
      }
    }

    method AcquireFrom(id: nat, size: nat) returns (r: Acquired<Entry>)
      requires Valid() && id < |bins| && size <= sizeCutoff
      modifies this, bins[id].Objects()
      ensures Valid() && r.Answered()
      ensures r.Acquired? ==>
                && r.value in old(owner) && old(owner)[r.value] == id && owner == old(owner) - {r.value}
                && bins[id].Serves(r.value, size)
      ensures r.NoResource? ==> owner == old(owner) && CannotServe(id, size)
    {
      Outside();
      r := AcquireRaw(id, size);
      if r.Acquired? {
        CommitWithout(id, r.value);
      } else {
        AllOkAgain(id);
      }
    }

    /** FastArenaSmallAllocator::acquire: fails exactly when the alignment is too large or the size beyond the cutoff;
        an arena handed out leaves the index and has room for the request, and total_arenas follows. */
    method Acquire(size: nat, alignment: nat) returns (r: Acquired<Entry>)
      requires Valid()
      modifies this, Objects()
      ensures Valid()
      ensures !r.Aborted?
      ensures r.Failed? <==> LocateAlignment(minLog2, maxLog2, alignment) == |bins| || size > sizeCutoff
      ensures r.Acquired? ==>
                && r.value in old(owner) && owner == old(owner) - {r.value}
                && old(owner)[r.value] == LocateAlignment(minLog2, maxLog2, alignment)
                && r.value.item != null && r.value.item.View().CanAllocate(size)
      ensures !r.Acquired? ==> owner == old(owner)
      ensures r.NoResource? ==> CannotServe(LocateAlignment(minLog2, maxLog2, alignment), size)
    {
      var id := LocateAlignment(minLog2, maxLog2, alignment);
      if id == |bins| || size > sizeCutoff {
        return Failed;
      }
      r := AcquireFrom(id, size);
    }

    method ReleaseRaw(id: nat, n: Entry)
      requires Valid() && id < |bins| && n !in owner && bins[id].Fits(n)
      modifies bins[id].Objects() + {n}
      ensures BinOk(id, KeysOf(owner, id) + {n}) && OthersOk(id)
    {
      NotStored(n, id);
      ghost var changed := bins[id].Objects() + {n};
      ReleaseIn(id, n);
      forall i: nat | i < |bins| && i != id ensures BinOk(i, KeysOf(owner, i)) {
        assert old(BinOk(i, KeysOf(owner, i))) && old(Away(i, changed));
      }
    }

    method ReleaseIn(id: nat, n: Entry)
      requires id < |bins| && BinOk(id, KeysOf(owner, id)) && n !in bins[id].Nodes() && bins[id].Fits(n)
      modifies bins[id].Objects() + {n}
      ensures BinOk(id, KeysOf(owner, id) + {n})
    {
      bins[id].Release(n);
    }

    /** release: the arena is added to the bin of its alignment. */
    method Release(n: Entry)
      requires Valid() && n !in owner && n.item != null
      requires var id := LocateAlignment(minLog2, maxLog2, n.item.alignment); id < |bins| && bins[id].Fits(n)
      modifies this, Objects(), n
      ensures Valid() && owner == old(owner)[n := LocateAlignment(minLog2, maxLog2, n.item.alignment)]
    {
      var id := LocateAlignment(minLog2, maxLog2, n.item.alignment);
      ReleaseRaw(id, n);
      KeysOfInsert(owner, n, id);
      OwnedWith(n, id);
      ghost var owners := owner[n := id];
      forall i: nat | i < |bins| ensures BinOk(i, KeysOf(owners, i)) {
        assert i != id ==> BinOk(i, KeysOf(owner, i)) && KeysOf(owners, i) == KeysOf(owner, i);
      }
      Commit(owners, total + 1);
    }

    method ExtractIn(id: nat, n: Entry)
      requires id < |bins| && BinOk(id, KeysOf(owner, id)) && n in KeysOf(owner, id)
      modifies bins[id].Objects()
      ensures BinOk(id, KeysOf(owner, id) - {n})
    {
      bins[id].Extract(n);
    }

    method ExtractRaw(id: nat, n: Entry)
      requires Valid() && id < |bins| && n in KeysOf(owner, id)
      modifies bins[id].Objects()
      ensures BinOk(id, KeysOf(owner, id) - {n}) && OthersOk(id)
    {
      AllApart(id);
      assert BinOk(id, KeysOf(owner, id));
      ghost var changed := bins[id].Objects();
      ExtractIn(id, n);
      forall i: nat | i < |bins| && i != id ensures BinOk(i, KeysOf(owner, i)) {
        assert old(BinOk(i, KeysOf(owner, i))) && old(Away(i, changed));
      }
    }

    method ExtractFrom(id: nat, n: Entry)
      requires Valid() && n in owner && owner[n] == id
      modifies this, bins[id].Objects()
      ensures Valid() && owner == old(owner) - {n}
    {
      ExtractRaw(id, n);
      CommitWithout(id, n);
    }

    /** extract: a stored arena is in the bin of its alignment, whichever list it is in there. */
    method Extract(n: Entry)
      requires Valid() && n in owner
      modifies this, Objects()
      ensures Valid() && owner == old(owner) - {n}
    {
      assert Home(n, owner[n]);
      ExtractFrom(LocateAlignment(minLog2, maxLog2, n.item.alignment), n);
    }
  }
}
