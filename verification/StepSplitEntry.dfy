/** One alignment's arenas in the step-split index: a list per bin, a bitmap of the non-empty bins, and one cached arena
    outside the lists. Which bin an arena belongs in is decided by the caller; the entry keeps it where it was put. */
module StepSplitEntry {
  import opened Wrappers
  import opened Arenas
  import opened Bitmaps

  // ---------------------------------------------------------------------------------------------- lists

  ghost predicate Distinct(q: seq<FastArena>) {
    forall i, j | 0 <= i < j < |q| :: q[i] != q[j]
  }

  /** The arena is in the list of its place. */
  ghost predicate Placed(lists: seq<seq<FastArena>>, place: map<FastArena, nat>, a: FastArena)
    requires a in place
  {
    place[a] < |lists| && a in lists[place[a]]
  }

  /** List b holds arenas placed there only, each once. */
  ghost predicate Proper(lists: seq<seq<FastArena>>, place: map<FastArena, nat>, b: nat)
    requires b < |lists|
  {
    Distinct(lists[b]) && forall a | a in lists[b] :: a in place && place[a] == b
  }

  /** Every placed arena is in exactly the list of its place, once, and the lists hold nothing else. */
  ghost predicate Listed(lists: seq<seq<FastArena>>, place: map<FastArena, nat>) {
    && (forall a {:trigger Placed(lists, place, a)} | a in place :: Placed(lists, place, a))
    && (forall b: nat {:trigger Proper(lists, place, b)} | b < |lists| :: Proper(lists, place, b))
  }

  lemma ListedPush(lists: seq<seq<FastArena>>, place: map<FastArena, nat>, a: FastArena, b: nat)
    requires Listed(lists, place) && b < |lists| && a !in place
    ensures Listed(lists[b := [a] + lists[b]], place[a := b])
  {
    var lists', place' := lists[b := [a] + lists[b]], place[a := b];
    assert Proper(lists, place, b);
    forall c | c in place' ensures Placed(lists', place', c) {
      assert c == a || Placed(lists, place, c);
    }
    forall d: nat | d < |lists'| ensures Proper(lists', place', d) {
      assert Proper(lists, place, d);
    }
  }

  /** list_erase on the list that holds the arena. */
  function Without(q: seq<FastArena>, a: FastArena): seq<FastArena> {
    if q == [] then [] else if q[0] == a then q[1..] else [q[0]] + Without(q[1..], a)
  }

  lemma {:induction false} WithoutMembers(q: seq<FastArena>, a: FastArena)
    requires Distinct(q)
    ensures Distinct(Without(q, a))
    ensures forall c | c in Without(q, a) :: c in q && c != a
    ensures forall c | c in q && c != a :: c in Without(q, a)
  {
    if q != [] {
      assert q == [q[0]] + q[1..];
      assert q[0] !in q[1..];
      assert Distinct(q[1..]);
      WithoutMembers(q[1..], a);
    }
  }

  lemma ListedErase(lists: seq<seq<FastArena>>, place: map<FastArena, nat>, a: FastArena)
    requires Listed(lists, place) && a in place
    ensures Placed(lists, place, a)
    ensures Listed(lists[place[a] := Without(lists[place[a]], a)], place - {a})
  {
    assert Placed(lists, place, a);
    var k := place[a];
    assert Proper(lists, place, k);
    WithoutMembers(lists[k], a);
    var lists', place' := lists[k := Without(lists[k], a)], place - {a};
    forall c | c in place' ensures Placed(lists', place', c) {
      assert Placed(lists, place, c);
    }
    forall d: nat | d < |lists'| ensures Proper(lists', place', d) {
      assert Proper(lists, place, d);
    }
  }

  // ---------------------------------------------------------------------------------------------- the class

  class Entry {
    const numBins: nat
    const minBin: nat  // the first bin that requests are looked up in
    const lists: array<seq<FastArena>>
    const present: Bitmap
    var cached: FastArena?
    ghost var place: map<FastArena, nat>  // the bin of every arena in the lists

    /** Every arena of the entry: the cached one and those in the lists. */
    ghost function Stored(): set<FastArena>
      reads this
    {
      if cached == null then place.Keys else place.Keys + {cached}
    }

    /** The arenas' list entries are linked exactly when they are in a list; the cached one is in none. */
    ghost predicate Linked()
      reads this, Stored()`inList
    {
      && (forall a {:trigger a.inList} | a in place :: a.inList)
      && (cached != null ==> cached !in place && !cached.inList)
    }

    /** The bit of a bin is set exactly when its list is not empty. */
    ghost predicate MarkedAt(b: nat)
      requires b < lists.Length
      reads lists, present.bins
    {
      present.Holds(b) <==> lists[b] != []
    }

    ghost predicate Marked()
      reads lists, present.bins
    {
      forall b: nat {:trigger MarkedAt(b)} | b < lists.Length :: MarkedAt(b)
    }

    ghost predicate Valid()
      reads this, lists, present.bins, Stored()`inList
    {
      && 0 < minBin < numBins <= lists.Length == present.capacity
      && present.Valid() && Listed(lists[..], place) && Linked() && Marked()
    }

    constructor (numBins: nat, minBin: nat, axis: nat)
      requires 0 < minBin < numBins <= axis
      ensures Valid() && Stored() == {} && this.numBins == numBins && this.minBin == minBin
      ensures fresh(lists) && fresh(present) && fresh(present.bins)
    {
      this.numBins, this.minBin := numBins, minBin;
      lists := new seq<FastArena>[axis](_ => []);
      present := new Bitmap(6, axis);
      cached, place := null, map[];
    }

    /** acquire_cached_arena: the cached arena is asked whether it has the room, which it takes only an aligned size
        for. */
    method AcquireCached(size: nat) returns (r: Acquired<FastArena>)
      requires Valid()
      modifies this
      ensures Valid() && place == old(place) && cached == if r.Acquired? then null else old(cached)
      ensures old(cached) == null ==> r == NoResource
      ensures old(cached) != null ==>
                match old(cached.CanAllocateAligned(size))
                case None => r == Aborted
                case Some(fits) => r == if fits then Acquired(old(cached)) else NoResource
    {
      if cached == null {
        return NoResource;
      }
      var fits := cached.CanAllocateAligned(size);
      if fits.None? {
        return Aborted;
      }
      if fits.value {
        r := Acquired(cached);
        cached := null;
      } else {
        r := NoResource;
      }
    }

    /** Pops the head of a non-empty list, and clears its bit if that was the last of it. */
    method PopBin(id: nat) returns (a: FastArena)
      requires Valid() && id < lists.Length && lists[id] != []
      modifies this, lists, present.bins, place.Keys`inList
      ensures Valid() && cached == old(cached)
      ensures a in old(place) && old(place)[a] == id && place == old(place) - {a} && !a.inList
      ensures a == old(lists[id])[0] && lists[..] == old(lists[..])[id := old(lists[id])[1..]]
    {
      ghost var before := lists[..];
      a := lists[id][0];
      assert Proper(before, place, id) && Without(before[id], a) == before[id][1..];
      lists[id] := lists[id][1..];
      assert lists[..] == before[id := Without(before[id], a)];
      ListedErase(before, place, a);
      place := place - {a};
      a.inList := false;
      if lists[id] == [] {
        present.Unset(id);
      }
      forall b: nat | b < lists.Length ensures MarkedAt(b) {
        assert old(MarkedAt(b));
      }
    }

    /** Takes the head of the first non-empty bin at or above the given one. */
    method AcquireBin(bin: nat) returns (r: Acquired<FastArena>)
      requires Valid() && minBin <= bin < numBins
      modifies this, lists, present.bins, place.Keys`inList
      ensures Valid() && cached == old(cached)
      ensures r.NoResource? ==> place == old(place) && forall a | a in place :: place[a] < bin
      ensures r.Acquired? ==>
                r.value in old(place) && old(place)[r.value] >= bin && place == old(place) - {r.value}
                    && !r.value.inList
      ensures r.Acquired? ==>
                var id := old(place)[r.value];
                && id < lists.Length && old(lists[id]) != [] && r.value == old(lists[id])[0]
                && lists[..] == old(lists[..])[id := old(lists[id])[1..]]
                && (forall b | bin <= b < id :: lists[b] == [])
                && forall a | a in old(place) && bin <= old(place)[a] :: id <= old(place)[a]
      ensures r.Answered()
    {
      var id := present.GetFirstSet(bin);
      NothingBetween(bin, id);
      if id == present.capacity {
        return NoResource;
      }
      assert MarkedAt(id);
      forall b: nat | bin <= b < id ensures lists[..][b] == [] {
        assert MarkedAt(b);
      }
      var a := PopBin(id);
      assert forall b | bin <= b < id :: lists[b] == lists[..][b] == old(lists[..])[b];
      return Acquired(a);
    }

    lemma NothingBetween(bin: nat, id: nat)
      requires Listed(lists[..], place) && Marked() && present.capacity == lists.Length
      requires id <= present.capacity && forall b | bin <= b < id :: !present.Holds(b)
      ensures forall a | a in place :: place[a] < present.capacity && (place[a] < bin || id <= place[a])
    {
      forall a | a in place ensures place[a] < present.capacity && (place[a] < bin || id <= place[a]) {
        assert Placed(lists[..], place, a);
        assert MarkedAt(place[a]);
      }
    }

    /** Keeps the offered arena as the cached one if there is none, or if it has at least twice the room. Returns the
        arena that is left over, if any. */
    method TryUpdateCached(a: FastArena) returns (rest: FastArena?)
      requires Valid() && a !in Stored() && !a.inList
      modifies this
      ensures Valid() && place == old(place)
      ensures old(cached) == null ==> rest == null && cached == a
      ensures old(cached) != null && a.Remaining() >= 2 * old(cached.Remaining()) ==> rest == old(cached) && cached == a
      ensures old(cached) != null && a.Remaining() < 2 * old(cached.Remaining()) ==> rest == a && cached == old(cached)
    {
      if cached == null {
        cached := a;
        return null;
      }
      if a.Remaining() >= 2 * cached.Remaining() {
        rest := cached;
        cached := a;
      } else {
        rest := a;
      }
    }

    method Put(a: FastArena, bin: nat)
      requires Valid() && a !in Stored() && !a.inList && bin < numBins
      modifies this, lists, present.bins, a`inList
      ensures Valid() && place == old(place)[a := bin] && cached == old(cached)
      ensures lists[..] == old(lists[..])[bin := [a] + old(lists[bin])]
    {
      ghost var before := lists[..];
      var wasEmpty := lists[bin] == [];
      lists[bin] := [a] + lists[bin];
      assert lists[..] == before[bin := [a] + before[bin]];
      ListedPush(before, place, a, bin);
      place := place[a := bin];
      a.inList := true;
      if wasEmpty {
        present.Set(bin);
      }
      forall b: nat | b < lists.Length ensures MarkedAt(b) {
        assert old(MarkedAt(b));
      }
    }

    method TryExtractCached(a: FastArena) returns (r: bool)
      requires Valid()
      modifies this
      ensures Valid() && place == old(place) && (r <==> a == old(cached))
      ensures cached == if r then null else old(cached)
    {
      if a == cached {
        cached := null;
        return true;
      }
      return false;
    }

    /** Takes an arena out of the list of the given bin, which is the one it is in, if it is in any. */
    method TryExtractBin(a: FastArena, bin: nat) returns (r: bool)
      requires Valid() && (a.inList ==> a in place && bin == place[a])
      modifies this, lists, present.bins, a`inList
      ensures Valid() && (r <==> old(a.inList)) && !a.inList && cached == old(cached)
      ensures r ==>
                && place == old(place) - {a}
                && bin < lists.Length && lists[..] == old(lists[..])[bin := Without(old(lists[bin]), a)]
      ensures !r ==> place == old(place) && lists[..] == old(lists[..])
    {
      if !a.inList {
        return false;
      }
      ghost var before := lists[..];
      assert Placed(before, place, a);
      lists[bin] := Without(lists[bin], a);
      assert lists[..] == before[bin := Without(before[bin], a)];
      ListedErase(before, place, a);
      place := place - {a};
      a.inList := false;
      if lists[bin] == [] {
        present.Unset(bin);
      }
      forall b: nat | b < lists.Length ensures MarkedAt(b) {
        assert old(MarkedAt(b));
      }
      return true;
    }
  }
}
