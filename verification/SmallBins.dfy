/** One alignment's arenas in fast_arena_small_allocator.hpp, down to the linked heap: a current arena and three
    intrusive lists. An arena is known here by its list entry, a node that is embedded in it; the terminators embed
    nothing. */
module SmallBins {
  import opened Wrappers
  import opened Powers
  import opened Arenas
  import opened IntrusiveList
  import opened DisjointLists

  type Entry = Node<FastArena?>

  const FREE: nat := 0      // arenas with at least the cutoff left
  const CUTOFF: nat := 1    // arenas with less, the first of which is tried
  const RECYCLED: nat := 2  // arenas that are not tried any more

  /** FastArenaSmallBins::create aligns the cutoff to the largest alignment, which aligns it to every supported one. */
  lemma CutoffIsAligned(cutoff: nat, alignLog2: nat, maxLog2: nat)
    requires alignLog2 <= maxLog2
    ensures Align(cutoff, Pow2(maxLog2)) % Pow2(alignLog2) == 0 && cutoff <= Align(cutoff, Pow2(maxLog2))
  {
    var q := Align(cutoff, Pow2(maxLog2)) / Pow2(maxLog2);
    AlignProperties(cutoff, Pow2(maxLog2));
    DivBounds(Align(cutoff, Pow2(maxLog2)), Pow2(maxLog2));
    Pow2Add(maxLog2 - alignLog2, alignLog2);
    MulAssociates(q, Pow2(maxLog2 - alignLog2), Pow2(alignLog2));
    MultipleMod(q * Pow2(maxLog2 - alignLog2), Pow2(alignLog2));
  }

  class SmallBin {
    const alignment: nat
    const sizeCutoff: nat
    const lists: Lists<FastArena?>
    var current: Node?<FastArena?>

    ghost function Stored(): set<Entry>
      reads this, lists
    {
      lists.Members() + if current == null then {} else {current}
    }

    /** The nodes that the bin relinks. */
    ghost function Nodes(): set<Entry>
      reads this, lists
    {
      lists.Repr() + if current == null then {} else {current}
    }

    /** What the bin's operations change. */
    ghost function Objects(): set<object>
      reads this, lists
    {
      {this, lists} + Nodes()
    }

    /** What its validity depends on, the arenas' counters included. */
    ghost function Footprint(): set<object>
      reads this, lists
    {
      Objects() + set n | n in Stored() && n.item != null :: n.item
    }

    /** An arena that the bin may hold. */
    ghost predicate Fits(n: Entry)
      reads if n.item == null then {} else {n.item}
    {
      && n.item != null && n.item.top <= n.item.capacity
      && n.item.alignment >= alignment && sizeCutoff % n.item.alignment == 0
    }

    /** An arena that any supported request fits in. */
    ghost predicate Roomy(n: Entry)
      reads if n.item == null then {} else {n.item}
    {
      n.item != null && n.item.Remaining() >= sizeCutoff
    }

    ghost predicate Valid()
      reads this, lists, Footprint()
    {
      && lists.Valid() && |lists.heads| == 3
      && (current != null ==> current !in lists.Repr())
      && (forall n {:trigger Fits(n)} | n in Stored() :: Fits(n))
      && (forall i: nat {:trigger Roomy(lists.rings[FREE][i])} | 0 < i < |lists.rings[FREE]| ::
          Roomy(lists.rings[FREE][i]))
    }

    constructor (alignment: nat, sizeCutoff: nat)
      ensures Valid() && Stored() == {} && this.alignment == alignment && this.sizeCutoff == sizeCutoff
      ensures fresh(lists) && fresh(lists.Repr()) && forall h | h in lists.heads :: h.item == null
    {
      this.alignment, this.sizeCutoff := alignment, sizeCutoff;
      lists := new Lists(3, null);
      current := null;
    }

    /** The arena can serve the size. */
    ghost predicate Serves(n: Entry, size: nat)
      reads if n.item == null then {} else {n.item}
    {
      Fits(n) && n.item.Remaining() >= Align(size, n.item.alignment)
    }

    /** The current arena serves the request, is kept, or, with less than half the size left, is recycled. */
    method AcquireCurrent(size: nat) returns (r: Acquired<Entry>)
      requires Valid()
      modifies this, lists, lists.Repr(), current
      ensures Valid() && r.Answered()
      ensures r.Acquired? ==> r.value in old(Stored()) && Stored() == old(Stored()) - {r.value} && Serves(r.value, size)
      ensures r.Acquired? <==> old(current != null && Serves(current, size))
      ensures r.NoResource? ==> Stored() == old(Stored()) && (current != null ==> !Serves(current, size))
      ensures lists.Queue(FREE) == old(lists.Queue(FREE)) && lists.Queue(CUTOFF) == old(lists.Queue(CUTOFF))
      ensures forall x | x in lists.Repr() :: x in old(lists.Repr()) || x == old(current)
      ensures r.Acquired? ==> r.value == old(current) && current == null && lists.rings == old(lists.rings)
      ensures r.NoResource? && old(current) != null ==>
                old(current).item != null &&
                if size > 2 * old(current).item.Remaining()
                then current == null && lists.Queue(RECYCLED) == [old(current)] + old(lists.Queue(RECYCLED))
                else current == old(current) && lists.rings == old(lists.rings)
    {
      if current == null {
        return NoResource;
      }
      assert Fits(current);
      if current.item.Remaining() >= Align(size, current.item.alignment) {
        r := Acquired(current);
        current := null;
        return;
      }
      if size > 2 * current.item.Remaining() {
        lists.Push(RECYCLED, current);
        current := null;
      }
      r := NoResource;
    }

    /** list_pop_head on a list that is not empty */
    method PopArena(k: nat) returns (n: Entry)
      requires Valid() && k < 3 && lists.Queue(k) != []
      modifies lists, lists.Repr()
      ensures Valid() && n == old(lists.Queue(k))[0] && n in old(Stored()) && Stored() == old(Stored()) - {n}
      ensures Fits(n) && (k == FREE ==> Roomy(n)) && (k != FREE ==> lists.Queue(FREE) == old(lists.Queue(FREE)))
    {
      assert lists.Queue(k)[0] == lists.rings[k][1];
      assert k == FREE ==> Roomy(lists.rings[FREE][1]);
      n := lists.Pop(k);
      assert Fits(n);
    }

    /** The head of the free list serves any request up to the cutoff, whatever its alignment. */
    method AcquireFree(size: nat) returns (r: Acquired<Entry>)
      requires Valid() && size <= sizeCutoff
      modifies this, lists, lists.Repr()
      ensures Valid() && r.Answered() && current == old(current)
      ensures r.Acquired? ==> r.value in old(Stored()) && Stored() == old(Stored()) - {r.value} && Serves(r.value, size)
      ensures r.Acquired? ==> old(lists.Queue(FREE)) != [] && r.value == old(lists.Queue(FREE))[0]
      ensures r.NoResource? ==> Stored() == old(Stored()) && lists.rings == old(lists.rings) && lists.Queue(FREE) == []
    {
      var empty := lists.IsEmpty(FREE);
      if empty {
        return NoResource;
      }
      var n := PopArena(FREE);
      AlignLeast(size, n.item.alignment, sizeCutoff);
      r := Acquired(n);
    }

    /** The head of the cutoff list goes to the recycled ones. */
    method RecycleHead()
      requires Valid() && lists.Queue(CUTOFF) != []
      modifies lists, lists.Repr()
      ensures Valid() && Stored() == old(Stored()) && lists.Queue(FREE) == old(lists.Queue(FREE))
      ensures lists.Queue(CUTOFF) == old(lists.Queue(CUTOFF))[1..]
      ensures lists.Queue(RECYCLED) == [old(lists.Queue(CUTOFF))[0]] + old(lists.Queue(RECYCLED))
    {
      assert lists.Queue(CUTOFF)[0] == lists.rings[CUTOFF][1];
      var n := lists.Pop(CUTOFF);
      lists.Push(RECYCLED, n);
    }

    /** The head of the cutoff list serves the request, is kept, or is recycled. */
    method AcquireCutoff(size: nat) returns (r: Acquired<Entry>)
      requires Valid() && size <= sizeCutoff
      modifies this, lists, lists.Repr()
      ensures Valid() && r.Answered() && current == old(current) && lists.Queue(FREE) == old(lists.Queue(FREE))
      ensures r.Acquired? ==> r.value in old(Stored()) && Stored() == old(Stored()) - {r.value} && Serves(r.value, size)
      ensures r.NoResource? ==>
                && Stored() == old(Stored())
                && (old(lists.Queue(CUTOFF)) != [] ==> !Serves(old(lists.Queue(CUTOFF))[0], size))
      ensures r.Acquired? ==> old(lists.Queue(CUTOFF)) != [] && r.value == old(lists.Queue(CUTOFF))[0]
      ensures r.NoResource? && old(lists.Queue(CUTOFF)) != [] ==>
                var n := old(lists.Queue(CUTOFF))[0];
                n.item != null &&
                if size > 2 * n.item.Remaining()
                then lists.Queue(RECYCLED) == [n] + old(lists.Queue(RECYCLED))
                    && lists.Queue(CUTOFF) == old(lists.Queue(CUTOFF))[1..]
                else lists.rings == old(lists.rings)
    {
      var empty := lists.IsEmpty(CUTOFF);
      if empty {
        return NoResource;
      }
      var n := lists.Head(CUTOFF);
      assert Fits(n);
      if n.item.Remaining() >= Align(size, n.item.alignment) {
        n := PopArena(CUTOFF);
        return Acquired(n);
      }
      if size > 2 * n.item.Remaining() {
        RecycleHead();
      }
      r := NoResource;
    }

    /** acquire: an arena handed out leaves its place and serves the request; it is the current one if that serves, or
        else the first free one, or else the first cutoff one if that serves. Nothing is handed out only if neither the
        current arena nor the one cutoff arena that is tried serves it and the free list is empty. */
    method Acquire(size: nat) returns (r: Acquired<Entry>)
      requires Valid() && size <= sizeCutoff
      modifies this, lists, lists.Repr(), current
      ensures Valid() && r.Answered()
      ensures r.Acquired? ==> r.value in old(Stored()) && Stored() == old(Stored()) - {r.value} && Serves(r.value, size)
      ensures r.NoResource? ==>
                && Stored() == old(Stored()) && lists.Queue(FREE) == []
                && (current != null ==> !Serves(current, size))
                && (old(lists.Queue(CUTOFF)) != [] ==> !Serves(old(lists.Queue(CUTOFF))[0], size))
      ensures var atHand := old(current != null && Serves(current, size));
              && (atHand ==> r == Acquired(old(current)))
              && (!atHand && old(lists.Queue(FREE)) != [] ==> r == Acquired(old(lists.Queue(FREE))[0]))
              && (!atHand && old(lists.Queue(FREE)) == [] && r.Acquired? ==>
                    old(lists.Queue(CUTOFF)) != [] && r.value == old(lists.Queue(CUTOFF))[0])
    {
      r := AcquireCurrent(size);
      if r.Acquired? {
        return;
      }
      r := AcquireFree(size);
      if r.Acquired? {
        return;
      }
      r := AcquireCutoff(size);
    }

    /** list_push_head on the free or the cutoff list, as the arena's remaining size says. */
    method PushArena(n: Entry)
      requires Valid() && n !in lists.Repr() && n != current && Fits(n)
      modifies lists, lists.Repr(), n
      ensures Valid() && Stored() == old(Stored()) + {n}
      ensures var k := if n.item.Remaining() >= sizeCutoff then FREE else CUTOFF;
              lists.rings == old(lists.rings)[k := [lists.heads[k]] + ([n] + old(lists.Queue(k)))]
    {
      var k := if n.item.Remaining() >= sizeCutoff then FREE else CUTOFF;
      assert forall i: nat | 0 < i < |lists.rings[FREE]| :: Roomy(lists.rings[FREE][i]);
      lists.Push(k, n);
    }

    /** release: the arena becomes the current one if there is none, or if it has more than twice the room; the one left
        over is listed. */
    method Release(n: Entry)
      requires Valid() && n !in lists.Repr() && n != current && Fits(n)
      modifies this, lists, lists.Repr(), n, current
      ensures Valid() && Stored() == old(Stored()) + {n} && current != null
      ensures old(current) == null ==> current == n && lists.rings == old(lists.rings)
      ensures old(current) != null ==>
                old(current).item != null &&
                var bigger := n.item.Remaining() > 2 * old(current).item.Remaining();
                var rest := if bigger then old(current) else n;
                var k := if rest.item.Remaining() >= sizeCutoff then FREE else CUTOFF;
                && current == (if bigger then n else old(current))
                && lists.rings == old(lists.rings)[k := [lists.heads[k]] + ([rest] + old(lists.Queue(k)))]
    {
      if current == null {
        current := n;
        return;
      }
      assert Fits(current);
      var rest := n;
      if n.item.Remaining() > 2 * current.item.Remaining() {
        rest := current;
        current := n;
      }
      PushArena(rest);
    }

    /** extract: clears the current arena, or erases the arena by its node from whichever of the lists it is in. */
    method Extract(n: Entry)
      requires Valid() && n in Stored()
      modifies this, lists, lists.Repr()
      ensures Valid() && Stored() == old(Stored()) - {n} && n !in lists.Repr() && n != current && Fits(n)
    {
      assert Fits(n);
      if n == current {
        current := null;
      } else {
        ghost var k: nat, i: nat :| k < |lists.rings| && 0 < i < |lists.rings[k]| && lists.rings[k][i] == n;
        assert forall j: nat | 0 < j < |lists.rings[FREE]| :: Roomy(lists.rings[FREE][j]);
        lists.Erase(n, k, i);
      }
    }
  }
}
