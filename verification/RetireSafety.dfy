/** What the retire-reclaim protocol guarantees in every state it can reach, under every interleaving. */
module RetireSafety {
  import opened Wrappers
  import opened Powers
  import opened Arenas
  import opened RetireProtocol
  import opened RetireInvariant
  import opened PackedWords

  // ---------------------------------------------------------------------------------------------- all runs

  lemma InitialInv()
    ensures Inv(Initial)
  {
  }

  lemma OwnerPreserves(s: State)
    requires Inv(s) && Enabled(s, OwnerStep)
    ensures Inv(OwnerStepOf(s))
  {
    match s.owner
    case ExchangeRoot(_) => ExchangeRootPreserves(s);
    case LoadFlags(_) => LoadFlagsPreserves(s);
    case ExchangeWord(_) => ExchangeWordPreserves(s);
    case Fold(_, _) => FoldPreserves(s);
  }

  /** Every step of the owner and of every retiring thread keeps the invariant. */
  lemma NextPreserves(s: State, act: Action)
    requires Inv(s) && Enabled(s, act)
    ensures Inv(Next(s, act))
  {
    match act
    case Create(a, capacity, alignment, flag) =>
      CreateValid(capacity, alignment);
      CreatePreserves(s, a, Arenas.Create(capacity, alignment).value, flag);
    case Allocate(a, size) => AllocatePreserves(s, a, size);
    case Deallocate(a, block) => DeallocatePreserves(s, a, block);
    case BeginRetire(t, a, block) => BeginRetirePreserves(s, t, a, block);
    case RetirerStep(t) => RetirerPreserves(s, t);
    case BeginReclaim => BeginReclaimPreserves(s);
    case Pop => PopPreserves(s);
    case OwnerStep => OwnerPreserves(s);
  }

  lemma {:induction false} RunInv(states: seq<State>, acts: seq<Action>, n: nat)
    requires IsRun(states, acts) && n <= |acts|
    ensures Inv(states[n])
  {
    if n == 0 {
      InitialInv();
    } else {
      RunInv(states, acts, n - 1);
      NextPreserves(states[n - 1], acts[n - 1]);
    }
  }

  lemma ReachableInv(s: State)
    requires Reachable(s)
    ensures Inv(s)
  {
    var states, acts :| IsRun(states, acts) && states[|acts|] == s;
    RunInv(states, acts, |acts|);
  }

  /** Allocator safety: in every reachable state the byte ranges of live blocks lie inside their arena and are
      pairwise disjoint, whatever sizes were retired and whatever flags the arenas were created with. */
  lemma LiveBlocksDisjoint(s: State, a: ArenaId, b: Block, c: Block)
    requires Reachable(s)
    requires a in s.slots && b in s.slots[a].live && c in s.slots[a].live
    ensures b.offset + b.size <= s.slots[a].view.capacity
    ensures b != c ==> b.offset + b.size <= c.offset || c.offset + c.size <= b.offset
  {
    ReachableInv(s);
    var slot := s.slots[a];
    assert SlotOk(slot, Hand(s.owner, a));
    AlignProperties(b.size, slot.view.alignment);
    AlignProperties(c.size, slot.view.alignment);
    if b != c {
      assert Apart(b, c, slot.view.alignment);
    }
  }

  // ---------------------------------------------------------------------------------------------- ownership

  /** A thread between raising arena a's flag and its successful exchange on the root. */
  predicate Pushing(s: State, t: ThreadId, a: ArenaId) {
    t in s.retirers && !s.retirers[t].Adding() && s.retirers[t].arena == a
  }

  /** The flag of an arena created with it down is up exactly when the arena is on the shared list, or in the
      reclaimer's possession and not yet exchanged, or in the hands of a thread that is pushing it; these exclude
      each other, so the arena is listed at most once and its link has one writer. */
  lemma ExactlyOnce(s: State, a: ArenaId)
    requires Reachable(s) && a in s.slots && !s.slots[a].bornRetired
    ensures s.slots[a].word.retired <==>
              a in s.shared || a in s.snatched || OwnerHolds(s.owner, a) || exists t :: Pushing(s, t, a)
    ensures a in s.shared ==> a !in s.snatched && !OwnerHolds(s.owner, a)
    ensures a in s.snatched ==> !OwnerHolds(s.owner, a)
    ensures forall t | Pushing(s, t, a) :: a !in s.shared && a !in s.snatched && !OwnerHolds(s.owner, a)
    ensures forall t, u | Pushing(s, t, a) && Pushing(s, u, a) :: t == u
    ensures NoRepeats(s.shared) && NoRepeats(s.snatched)
  {
    ReachableInv(s);
    assert SlotOk(s.slots[a], Hand(s.owner, a));
    assert forall t | t in s.retirers :: RetirerOk(s.slots, t, s.retirers[t]);
    if s.slots[a].place.Raised? {
      assert Pushing(s, s.slots[a].place.holder, a);
    }
  }

  /** An arena created with its flag up is never pushed, so it never reaches the reclaimer. */
  lemma BornRetiredIsNeverListed(s: State, a: ArenaId)
    requires Reachable(s) && a in s.slots && s.slots[a].bornRetired
    ensures s.slots[a].word.retired && a !in s.shared && a !in s.snatched && !OwnerHolds(s.owner, a)
    ensures forall t :: !Pushing(s, t, a)
  {
    ReachableInv(s);
    assert SlotOk(s.slots[a], Hand(s.owner, a));
    assert forall t | t in s.retirers :: RetirerOk(s.slots, t, s.retirers[t]);
  }

  /** A pending count never shrinks except by reclaim_arena's exchange on that very arena. */
  lemma PendingOnlyGrows(s: State, act: Action, a: ArenaId)
    requires Enabled(s, act) && a in s.slots && a in Next(s, act).slots
    ensures Next(s, act).slots[a].bornRetired == s.slots[a].bornRetired
    ensures || Next(s, act).slots[a].word.count >= s.slots[a].word.count
            || (act.OwnerStep? && s.owner == ExchangeWord(a))
  {
  }

  /** ... and once bytes of it were retired by another thread, no step returns it or folds them. */
  lemma BornRetiredIsStuck(s: State, act: Action, a: ArenaId)
    requires Reachable(s) && Enabled(s, act) && a in s.slots && s.slots[a].bornRetired && s.slots[a].word.count > 0
    ensures a in Next(s, act).slots
    ensures var slot := Next(s, act).slots[a]; slot.bornRetired && slot.word.count >= s.slots[a].word.count
  {
    ReachableInv(s);
    if a !in Next(s, act).slots {
      ReturnsAbandoned(s, act, a);
    } else {
      PendingOnlyGrows(s, act, a);
      BornRetiredIsNotHeld(s, a);
    }
  }

  /** So it stays for the rest of every run. */
  lemma {:induction false} BornRetiredStaysStuck(states: seq<State>, acts: seq<Action>, a: ArenaId, i: nat, j: nat)
    requires IsRun(states, acts) && i <= j < |states|
    requires a in states[i].slots && states[i].slots[a].bornRetired && states[i].slots[a].word.count > 0
    ensures a in states[j].slots
    ensures var slot := states[j].slots[a]; slot.bornRetired && slot.word.count >= states[i].slots[a].word.count
    decreases j
  {
    if i < j {
      BornRetiredStaysStuck(states, acts, a, i, j - 1);
      assert IsRun(states[..j], acts[..j - 1]) && states[..j][j - 1] == states[j - 1];
      BornRetiredIsStuck(states[j - 1], acts[j - 1], a);
    }
  }

  lemma BornRetiredIsNotHeld(s: State, a: ArenaId)
    requires Inv(s) && a in s.slots && s.slots[a].bornRetired
    ensures !OwnerHolds(s.owner, a)
  {
    assert SlotOk(s.slots[a], Hand(s.owner, a));
  }

  // ---------------------------------------------------------------------------------------------- lists

  /** Exchange loses nothing: following links from the root spells the pushed and not yet snatched arenas, newest
      first; every push is either there or was handed to the reclaimer, once and in order; and the root's flag stays
      up, so no retiring thread ever becomes a second reclaimer. */
  lemma ExchangeLosesNothing(s: State)
    requires Reachable(s)
    ensures && Spells(s.slots, s.root.head, s.shared)
            && Spells(s.slots, s.list, s.snatched)
            && s.pushes == s.shared + s.taken
            && s.root.retired
  {
    ReachableInv(s);
  }

  /** What one reclaim of the root takes: exactly the arenas then chained from it, and it leaves the root empty. */
  lemma ReclaimTakesAll(s: State)
    requires Reachable(s) && Enabled(s, OwnerStep) && s.owner.ExchangeRoot?
    ensures var s' := OwnerStepOf(s);
            && Spells(s'.slots, s'.list, s.shared) && s'.taken == s.shared + s.taken
            && s'.root == Root(None, true)
            && forall a | a in s.slots :: s'.slots[a].word == s.slots[a].word && s'.slots[a].next == s.slots[a].next
  {
    ReachableInv(s);
    ExchangeRootPreserves(s);
  }

  // ---------------------------------------------------------------------------------------------- returns

  /** Only two steps return an arena: the owner's deallocate, and the end of reclaim_arena. */
  lemma HowReturned(s: State, act: Action, a: ArenaId)
    requires Enabled(s, act) && a in s.slots && a !in Next(s, act).slots
    ensures || (act.Deallocate? && act.a == a && s.owner.Idle?)
            || (act.OwnerStep? && s.owner.Fold? && s.owner.arena == a)
    ensures Next(s, act) == Return(s, a).(owner := Idle)
  {
  }

  /** What holds of an arena that may be handed back: at most `block` is live, nothing is pending, it is on no list,
      no thread is inside `retire` with it, and unless it was created with its flag up the flag is down. */
  ghost predicate Abandoned(s: State, a: ArenaId, blocks: set<Block>)
    requires a in s.slots && s.slots[a].view.alignment > 0
  {
    && s.slots[a].live <= blocks
    && s.slots[a].word.count == 0 && (s.slots[a].bornRetired || !s.slots[a].word.retired)
    && a !in s.shared && a !in s.snatched
    && (forall t | t in s.retirers :: s.retirers[t].arena != a)
    && AllMultiples(s.slots[a].retiredSizes, s.slots[a].view.alignment)
  }

  lemma DeallocateReturnsAbandoned(s: State, a: ArenaId, block: Block)
    requires Inv(s) && s.owner.Idle? && ClientHolds(s, a, block) && s.slots[a].view.alignment > 0
    requires a !in DeallocateStep(s, a, block).slots
    ensures Abandoned(s, a, {block})
  {
    var slot := s.slots[a];
    assert SlotOk(slot, 0);
    var slot' := DeallocatedSlot(slot, block);
    ResettableSlot(slot', 0);
    LeakZero(slot.retiredSizes, slot.view.alignment);
    LastBlock(s, a, block);
  }

  lemma FoldReturnsAbandoned(s: State, a: ArenaId)
    requires Inv(s) && s.owner.Fold? && s.owner.arena == a && s.slots[a].view.alignment > 0
    requires a !in FoldStep(s, a, s.owner.amount).slots
    ensures Abandoned(s, a, {})
  {
    var slot := s.slots[a];
    assert SlotOk(slot, s.owner.amount);
    FoldSlot(slot, s.owner.amount);
    var slot' := FoldedSlot(slot, s.owner.amount);
    ResettableSlot(slot', 0);
    LeakZero(slot.retiredSizes, slot.view.alignment);
    NoRetirerLeft(s, a);
  }

  lemma ReturnsAbandoned(s: State, act: Action, a: ArenaId)
    requires Inv(s) && Enabled(s, act) && a in s.slots && a !in Next(s, act).slots
    ensures s.slots[a].view.alignment > 0
    ensures Abandoned(s, a, if act.Deallocate? then {act.block} else {})
  {
    HowReturned(s, act, a);
    assert SlotOk(s.slots[a], Hand(s.owner, a));
    if act.Deallocate? {
      DeallocateReturnsAbandoned(s, a, act.block);
    } else {
      FoldReturnsAbandoned(s, a);
    }
  }

  /** No premature reset: a step returns an arena to the chunk allocator only when it is abandoned, but for the block
      that an owner's deallocate is itself giving back. */
  lemma NoPrematureReturn(s: State, act: Action, a: ArenaId)
    requires Reachable(s) && Enabled(s, act) && a in s.slots && a !in Next(s, act).slots
    ensures s.slots[a].view.alignment > 0
    ensures Abandoned(s, a, if act.Deallocate? then {act.block} else {})
  {
    ReachableInv(s);
    ReturnsAbandoned(s, act, a);
  }

  /** After the return nothing refers to the arena: not a list, not a link, not a thread, not the owner. */
  ghost predicate Unreachable(s: State, a: ArenaId) {
    && a !in s.slots && a !in s.stored && a !in s.shared && a !in s.snatched
    && s.root.head != Some(a) && s.list != Some(a) && s.owner.Idle?
    && (forall t | t in s.retirers :: s.retirers[t].arena != a)
    && (forall b | b in s.slots && b in s.shared + s.snatched :: s.slots[b].next != Some(a))
  }

  lemma ReturnedIsUnreachable(s: State, act: Action, a: ArenaId)
    requires Reachable(s) && Enabled(s, act) && a in s.slots && a !in Next(s, act).slots
    ensures Unreachable(Next(s, act), a)
  {
    ReachableInv(s);
    ReturnsAbandoned(s, act, a);
    HowReturned(s, act, a);
    NextPreserves(s, act);
    GoneIsUnreachable(s, Next(s, act), a);
  }

  lemma GoneIsUnreachable(s: State, s': State, a: ArenaId)
    requires ListsOk(s') && s' == Return(s, a).(owner := Idle)
    requires forall t | t in s.retirers :: s.retirers[t].arena != a
    ensures Unreachable(s', a)
  {
    LinksStayInside(s'.slots, s'.root.head, s'.shared, Listed);
    LinksStayInside(s'.slots, s'.list, s'.snatched, Snatched);
  }

  lemma LinksStayInside(slots: map<ArenaId, Slot>, head: Link, q: seq<ArenaId>, place: Place)
    requires ListOk(slots, head, q, place)
    ensures forall b | b in q :: b in slots && (slots[b].next.Some? ==> slots[b].next.value in slots)
    ensures head.Some? ==> head.value in slots
  {
    forall b | b in q ensures b in slots && (slots[b].next.Some? ==> slots[b].next.value in slots) {
      var i: nat :| i < |q| && q[i] == b;
      assert Leads(slots, q, i);
      if i + 1 < |q| {
        assert Leads(slots, q, i + 1) && LinkTo(q[i + 1..]) == Some(q[i + 1]);
      }
    }
    if q != [] {
      assert Leads(slots, q, 0);
    }
  }

  // ---------------------------------------------------------------------------------------------- byte counts

  /** Byte conservation in every reachable state. When every size retired on the arena is a multiple of its alignment
      nothing leaks, and every byte below `top` is freed, pending, in the owner's hand, or live. */
  lemma ByteConservation(s: State, a: ArenaId)
    requires Reachable(s) && a in s.slots
    ensures s.slots[a].view.alignment > 0
    ensures var slot := s.slots[a]; var al := slot.view.alignment; var hand := Hand(s.owner, a);
            && slot.view.freed + slot.word.count + hand + LiveBytes(slot.live, al) + Leak(slot.retiredSizes, al)
                 == slot.view.top <= slot.view.capacity
            && (Leak(slot.retiredSizes, al) == 0 <==> AllMultiples(slot.retiredSizes, al))
  {
    ReachableInv(s);
    assert SlotOk(s.slots[a], Hand(s.owner, a));
    LeakZero(s.slots[a].retiredSizes, s.slots[a].view.alignment);
  }

  /** The only abort the protocol can reach is release_reclaimed's alignment check: it fires exactly when the amount
      exchanged out of an arena is misaligned, and then some retired size was. */
  lemma OnlyMisalignedRetiresAbort(s: State)
    requires Reachable(s) && s.crashed
    ensures && s.owner.Fold? && s.owner.arena in s.slots && s.slots[s.owner.arena].view.alignment > 0
            && s.owner.amount % s.slots[s.owner.arena].view.alignment != 0
            && !AllMultiples(s.slots[s.owner.arena].retiredSizes, s.slots[s.owner.arena].view.alignment)
  {
    ReachableInv(s);
    assert SlotOk(s.slots[s.owner.arena], s.owner.amount);
  }

  /** Folding aborts if and only if the amount taken from the arena's word is not a multiple of its alignment. */
  lemma FoldAbortsIff(s: State)
    requires Reachable(s) && Enabled(s, OwnerStep) && s.owner.Fold?
    ensures OwnerStepOf(s).crashed <==> s.owner.amount % s.slots[s.owner.arena].view.alignment != 0
  {
    ReachableInv(s);
    assert SlotOk(s.slots[s.owner.arena], s.owner.amount);
    FoldSlot(s.slots[s.owner.arena], s.owner.amount);
  }

  function FlagBit(flag: bool): nat {
    if flag then 1 else 0
  }

  /** The word packed as ptr.hpp packs it: the count above one flag bit, in 64 bits. */
  function Packed(word: Word): nat {
    PackedShifted(64, 1, word.count, FlagBit(word.retired))
  }

  lemma PendingFits(s: State, a: ArenaId)
    requires Inv(s) && a in s.slots
    ensures s.slots[a].word.count <= s.slots[a].view.capacity
  {
    assert SlotOk(s.slots[a], Hand(s.owner, a));
  }

  /** The shifted counter never overflows: in every reachable state an arena's packed word reads back exactly, as long
      as arenas are smaller than half the address space. */
  lemma PackedCountIsExact(s: State, a: ArenaId)
    requires Reachable(s) && a in s.slots && s.slots[a].view.capacity < Pow2(64 - 1)
    ensures ValueShifted(1, Packed(s.slots[a].word)) == s.slots[a].word.count
    ensures Flags(1, Packed(s.slots[a].word)) == FlagBit(s.slots[a].word.retired)
  {
    ReachableInv(s);
    PendingFits(s, a);
    PackedReadsBack(s.slots[a].word);
  }

  lemma PackedReadsBack(word: Word)
    requires word.count < Pow2(64 - 1)
    ensures ValueShifted(1, Packed(word)) == word.count && Flags(1, Packed(word)) == FlagBit(word.retired)
  {
    PackRoundTrip(64, 1, word.count, FlagBit(word.retired));
  }
}
