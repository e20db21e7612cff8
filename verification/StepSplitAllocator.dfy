/** FastArenaStepSplitAllocator as its owner uses it. What other threads retire reaches it as a byte count through
    ReclaimArena; see RetireProtocol for where that count comes from. */
module StepSplitAllocator {
  import opened Wrappers
  import opened Powers
  import opened Arenas
  import opened StepSplitIndex

  /** What the owner gets from giving bytes back: a check aborted, or the arena stays, or it is handed back. */
  datatype Outcome = Abort | Kept | HandedBack(arena: FastArena)

  class Allocator {
    const index: ArenaIndex

    ghost function Stored(): set<FastArena>
      reads index
    {
      index.Stored()
    }

    /** Something was allocated that was not given back, so the arena cannot be reset. */
    ghost predicate Used(a: FastArena)
      reads a`top, a`freed
    {
      a.freed < a.top
    }

    /** No stored arena can be reset: one that becomes resettable is taken out and handed back at once. */
    ghost predicate Valid()
      reads index, index.repr, Stored()
    {
      index.Valid() && forall a {:trigger Used(a)} | a in Stored() :: Used(a)
    }

    constructor (config: Config)
      requires config.Accepted() && StepSplitBins.Exact(config.steps, config.minAlignLog2)
      ensures Valid() && Stored() == {} && index.config == config && fresh(index) && fresh(index.repr)
    {
      index := new ArenaIndex(config);
    }

    /** An arena outside the index that may be allocated from: a fresh one, or one that cannot be reset. */
    ghost predicate Ready(a: FastArena)
      requires index.Laid()
      reads index, a
    {
      && a !in Stored() && !a.inList && index.Fits(a)
      && (a.View().Empty() || Used(a))
    }

    /** acquire_arena: what it hands out is ready for the allocation it was asked for; it fails and aborts as the index
        does. */
    method AcquireArena(size: nat, alignLog2: nat) returns (r: Acquired<FastArena>)
      requires Valid()
      modifies index, index.repr, Stored()`inList
      ensures Valid()
      ensures r.Failed? <==> index.Unsupported(size, Pow2(alignLog2))
      ensures r.Aborted? <==> old(index.Aborts(size, alignLog2))
      ensures !r.Acquired? ==> Stored() == old(Stored())
      ensures r.Acquired? ==>
                && r.value in old(Stored()) && Stored() == old(Stored()) - {r.value}
                && Ready(r.value) && r.value.View().CanAllocate(size)
    {
      index.ArenasOutside();
      r := index.Acquire(size, alignLog2);
      assert r.Acquired? ==> old(Used(r.value));
    }

    /** allocate: hands out the next block of an arena that has the room, and files the arena. */
    method Allocate(a: FastArena, size: nat) returns (offset: nat)
      requires Valid() && Ready(a) && size > 0 && a.View().CanAllocate(size)
      modifies index, index.repr, a`top, a`inList, Stored()`inList
      ensures Valid() && Stored() == old(Stored()) + {a}
      ensures (a.View(), Some(offset)) == old(a.View().Acquire(size))
    {
      index.ArenasOutside();
      offset := Cut(a, size);
      PutBack(a);
    }

    method PutBack(a: FastArena)
      requires Valid() && a !in Stored() && !a.inList && index.Fits(a) && Used(a)
      modifies index, index.repr, a`inList, Stored()`inList
      ensures Valid() && Stored() == old(Stored()) + {a} && a.View() == old(a.View())
    {
      index.ArenasOutside();
      index.Release(a);
    }

    /** The block is cut off the arena, which still fits the index and can no longer be reset. */
    method Cut(a: FastArena, size: nat) returns (offset: nat)
      requires index.Laid() && index.Fits(a) && a.freed <= a.top && size > 0 && a.View().CanAllocate(size)
      modifies a`top
      ensures index.Fits(a) && Used(a)
      ensures (a.View(), Some(offset)) == old(a.View().Acquire(size))
    {
      AcquireSpec(a.View(), size);
      AlignProperties(size, a.alignment);
      var got := a.Acquire(size);
      offset := got.value;
    }

    /** deallocate by the owner: the arena is handed back, reset and outside the index, exactly when this was the last
        block it still had out. It aborts exactly on an empty block, and on one that the counters show the arena cannot
        have handed out. */
    method Deallocate(a: FastArena, offset: nat, size: nat) returns (r: Outcome)
      requires Valid() && a in Stored()
      modifies index, index.repr, a, Stored()`inList
      ensures Valid()
      ensures r.Abort? <==> size == 0 || old(a.View().ReleaseAligned(offset, Align(size, a.alignment))).None?
      ensures !r.Abort? ==>
                r == if old(a.freed) + Align(size, a.alignment) == old(a.top) then HandedBack(a) else Kept
      ensures r.HandedBack? ==> Stored() == old(Stored()) - {a} && Ready(a) && a.View().Empty()
      ensures r.Kept? ==>
                && Stored() == old(Stored())
                && Some(a.View()) == old(a.View().ReleaseAligned(offset, Align(size, a.alignment)))
      ensures r.Abort? ==> Stored() == old(Stored()) && a.View() == old(a.View())
    {
      if size == 0 {
        return Abort;
      }
      var ok := a.Release(offset, size);
      if !ok {
        return Abort;
      }
      if !a.Resettable() {
        return Kept;
      }
      TakeOut(a);
      Rewind(a);
      return HandedBack(a);
    }

    /** Takes out one arena; the others cannot be reset. */
    method TakeOut(a: FastArena)
      requires index.Valid() && a in Stored() && forall b {:trigger Used(b)} | b in Stored() && b != a :: Used(b)
      modifies index, index.repr, a`inList
      ensures Valid() && Stored() == old(Stored()) - {a} && !a.inList && index.Fits(a) && a.View() == old(a.View())
    {
      index.ArenasOutside();
      index.Extract(a);
    }

    /** An arena that was taken out is rewound before it is handed back. */
    method Rewind(a: FastArena)
      requires Valid() && a !in Stored() && !a.inList && index.Fits(a) && a.Resettable()
      modifies a`top, a`freed
      ensures Valid() && Ready(a) && a.View().Empty()
    {
      index.ArenasOutside();
      a.Reset();
    }

    /** reclaim_arena: credits the bytes that other threads gave back, and hands the arena back, reset, exactly when
        that makes it resettable; otherwise the arena is filed again. It aborts, with the arena already taken out,
        exactly on a count that is misaligned or more than the arena has out. */
    method ReclaimArena(a: FastArena, retired: nat) returns (r: Outcome)
      requires Valid() && a in Stored()
      modifies index, index.repr, a, Stored()`inList
      ensures Valid()
      ensures r.Abort? <==> old(a.View().ReleaseReclaimed(retired)).None?
      ensures !r.Abort? ==> r == if old(a.freed) + retired == old(a.top) then HandedBack(a) else Kept
      ensures r.HandedBack? ==> Stored() == old(Stored()) - {a} && Ready(a) && a.View().Empty()
      ensures r.Kept? ==> Stored() == old(Stored()) && Some(a.View()) == old(a.View().ReleaseReclaimed(retired))
      ensures r.Abort? ==> Stored() == old(Stored()) - {a} && a.View() == old(a.View())
    {
      TakeOut(a);
      index.ArenasOutside();
      var ok := a.ReleaseReclaimed(retired);
      if !ok {
        return Abort;
      }
      if a.Resettable() {
        Rewind(a);
        return HandedBack(a);
      }
      PutBack(a);
      return Kept;
    }
  }
}
