/** The counters of fast_arena.hpp: an arena hands out memory at a rising `top` and counts the bytes given back in
    `freed`; it may be rewound to its start once the two are equal. */
module Arenas {
  import opened Powers
  import opened Wrappers

  datatype Arena = Arena(capacity: nat, alignment: nat, top: nat, freed: nat) {

    predicate Valid() {
      && alignment > 0
      && capacity % alignment == 0
      && top % alignment == 0
      && freed <= top <= capacity
    }

    function Remaining(): int {
      capacity - top
    }

    predicate Resettable() {
      freed == top
    }

    predicate Empty() {
      freed == 0 && top == 0
    }

    /** FastArenaView::can_allocate */
    predicate CanAllocate(size: nat)
      requires alignment > 0
    {
      Remaining() >= Align(size, alignment)
    }

    /** FastArenaView::acquire: the offset handed out, or None when the arena has too little room. */
    function Acquire(size: nat): (Arena, Option<nat>)
      requires alignment > 0
    {
      if CanAllocate(size) then (this.(top := top + Align(size, alignment)), Some(top)) else (this, None)
    }

    /** FastArenaView::release on an aligned byte count; None is an abort. */
    function ReleaseAligned(offset: nat, bytes: nat): Option<Arena>
      requires alignment > 0
    {
      if bytes % alignment == 0 && offset + bytes <= capacity && freed + bytes <= top
      then Some(this.(freed := freed + bytes)) else None
    }

    /** FastArenaView::release_reclaimed; None is an abort. */
    function ReleaseReclaimed(bytes: nat): Option<Arena>
      requires alignment > 0
    {
      if bytes % alignment == 0 && freed + bytes <= top then Some(this.(freed := freed + bytes)) else None
    }

    /** FastArenaView::reset; None is an abort. */
    function Reset(): Option<Arena> {
      if Resettable() then Some(this.(top := 0, freed := 0)) else None
    }
  }

  /** The least that a build may set conf_min_alloc_alignment to. */
  const MIN_ALIGNMENT: nat := 16

  /** FastArenaView::create with the checks it makes on the sizes; the pointer checks are not part of this model. */
  function Create(capacity: nat, alignment: nat): Option<Arena> {
    if IsPow2(alignment) && alignment >= MIN_ALIGNMENT && capacity % alignment == 0
    then Some(Arena(capacity, alignment, 0, 0)) else None
  }

  lemma CreateValid(capacity: nat, alignment: nat)
    requires Create(capacity, alignment).Some?
    ensures Create(capacity, alignment).value.Valid() && Create(capacity, alignment).value.Empty()
    ensures Create(capacity, alignment).value.alignment == alignment == Pow2(Log2(alignment)) && Log2(alignment) >= 4
  {
    Pow2Monotone(Log2(alignment), 3);
    assert Pow2(3) == 8;
  }

  /** An acquired block starts aligned, ends inside the arena and lies wholly above everything handed out before. */
  lemma AcquireSpec(a: Arena, size: nat)
    requires a.Valid()
    ensures a.CanAllocate(size) <==> a.Acquire(size).1.Some?
    ensures a.CanAllocate(size) ==>
              var (b, offset) := a.Acquire(size);
              && b.Valid() && b.freed == a.freed
              && offset.value == a.top && offset.value % a.alignment == 0
              && offset.value + size <= b.top <= a.capacity
  {
    AlignProperties(size, a.alignment);
    ModAdd(a.top, Align(size, a.alignment), a.alignment);
  }

  /** An aligned block of at least this size above `top` could end here. */
  predicate CouldEnd(a: Arena, size: nat, end: nat)
    requires a.alignment > 0
  {
    a.top + size <= end <= a.capacity && end % a.alignment == 0
  }

  /** There is room exactly when such a block fits, and the block handed out is the smallest of them. */
  lemma RoomSpec(a: Arena, size: nat)
    requires a.Valid()
    ensures a.CanAllocate(size) <==> exists end: nat :: CouldEnd(a, size, end)
    ensures forall end: nat | CouldEnd(a, size, end) :: a.Acquire(size).0.top <= end
  {
    AlignProperties(size, a.alignment);
    ModAdd(a.top, Align(size, a.alignment), a.alignment);
    assert a.CanAllocate(size) ==> CouldEnd(a, size, a.top + Align(size, a.alignment));
    forall end: nat | CouldEnd(a, size, end) ensures a.top + Align(size, a.alignment) <= end {
      ModAdd(a.top, end - a.top, a.alignment);
      AlignLeast(size, a.alignment, end - a.top);
    }
  }

  /** A release of an aligned count is accepted exactly when its range lies inside the arena and the counters with the
      credit are those of an arena, and a reclaimed count exactly when the latter holds; nothing but the credit
      changes. */
  lemma ReleaseSpec(a: Arena, offset: nat, bytes: nat)
    requires a.Valid()
    ensures var b := a.(freed := a.freed + bytes); var ok := b.Valid() && bytes % a.alignment == 0;
            && a.ReleaseReclaimed(bytes) == (if ok then Some(b) else None)
            && a.ReleaseAligned(offset, bytes) == (if ok && offset + bytes <= a.capacity then Some(b) else None)
  {
  }

  /** An arena may be created exactly on a capacity in blocks of a power of two of at least 16. */
  lemma CreateSpec(capacity: nat, alignment: nat)
    ensures Create(capacity, alignment).Some? <==>
              exists k: nat :: alignment == Pow2(k) && k >= 4 && capacity % alignment == 0
  {
    assert Pow2(4) == 16;
    Pow2Monotone(Log2(alignment), 3);
    assert Create(capacity, alignment).Some? ==> alignment == Pow2(Log2(alignment));
    if k: nat :| alignment == Pow2(k) && k >= 4 && capacity % alignment == 0 {
      Log2OfPow2(k);
      Pow2Monotone(4, k);
    }
  }

  /** locate_alignment: which of the alignments 2^minLog2 to 2^maxLog2 serves a request; their number if none does. */
  function LocateAlignment(minLog2: nat, maxLog2: nat, alignment: nat): int {
    var log2 := Log2(alignment);
    if log2 > maxLog2 then maxLog2 - minLog2 + 1 else (if log2 < minLog2 then minLog2 else log2) - minLog2
  }

  /** It is the first alignment that is no smaller than the request's. */
  lemma LocatedIsLeast(minLog2: nat, maxLog2: nat, alignLog2: nat, id: nat)
    requires minLog2 + id <= maxLog2
    ensures 0 <= LocateAlignment(minLog2, maxLog2, Pow2(alignLog2)) <= maxLog2 - minLog2 + 1
    ensures LocateAlignment(minLog2, maxLog2, Pow2(alignLog2)) <= id <==> Pow2(alignLog2) <= Pow2(minLog2 + id)
  {
    Log2OfPow2(alignLog2);
    Pow2Monotone(alignLog2, minLog2 + id);
    Pow2Monotone(minLog2 + id, alignLog2);
  }

  type Positive = n: nat | n > 0 witness 1

  /** An arena as the owner's bins hold it: its counters, updated in place, and whether its list entry is linked. */
  class FastArena {
    const capacity: nat
    const alignment: Positive
    var top: nat
    var freed: nat
    var inList: bool

    ghost function View(): Arena
      reads this`top, this`freed
    {
      Arena(capacity, alignment, top, freed)
    }

    function Remaining(): int
      reads this`top
    {
      capacity - top
    }

    predicate Resettable()
      reads this`top, this`freed
    {
      freed == top
    }

    /** FastArenaView::can_allocate_aligned; None is an abort. */
    function CanAllocateAligned(bytes: nat): Option<bool>
      reads this`top
    {
      if bytes % alignment == 0 && Remaining() % alignment == 0 then Some(Remaining() >= bytes) else None
    }

    constructor (capacity: nat, alignment: nat)
      requires Create(capacity, alignment).Some?
      ensures View() == Create(capacity, alignment).value && !inList
    {
      this.capacity, this.alignment, top, freed, inList := capacity, alignment, 0, 0, false;
    }

    method Acquire(size: nat) returns (offset: Option<nat>)
      modifies this`top
      ensures (View(), offset) == old(View().Acquire(size))
    {
      var required := Align(size, alignment);
      if capacity - top < required {
        return None;
      }
      offset := Some(top);
      top := top + required;
    }

    /** Aborts, leaving the counters alone, when the range or the count cannot be right. */
    method Release(offset: nat, size: nat) returns (ok: bool)
      modifies this`freed
      ensures ok <==> old(View()).ReleaseAligned(offset, Align(size, alignment)).Some?
      ensures View() == if ok then old(View()).ReleaseAligned(offset, Align(size, alignment)).value else old(View())
    {
      var bytes := Align(size, alignment);
      ok := bytes % alignment == 0 && offset + bytes <= capacity && freed + bytes <= top;
      if ok {
        freed := freed + bytes;
      }
    }

    method ReleaseReclaimed(bytes: nat) returns (ok: bool)
      modifies this`freed
      ensures ok <==> old(View()).ReleaseReclaimed(bytes).Some?
      ensures View() == if ok then old(View()).ReleaseReclaimed(bytes).value else old(View())
    {
      ok := bytes % alignment == 0 && freed + bytes <= top;
      if ok {
        freed := freed + bytes;
      }
    }

    method Reset()
      requires Resettable()
      modifies this`top, this`freed
      ensures Some(View()) == old(View()).Reset() && View().Empty()
    {
      top, freed := 0, 0;
    }
  }
}
