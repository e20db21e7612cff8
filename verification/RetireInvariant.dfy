/** The inductive invariant of the retire-reclaim protocol, and its preservation by every step. */
module RetireInvariant {
  import opened Wrappers
  import opened Powers
  import opened Arenas
  import opened RetireProtocol

  // ---------------------------------------------------------------------------------------------- byte sums

  /** Bytes of the arena covered by the live blocks, each rounded up to the arena's alignment. */
  ghost function LiveBytes(live: set<Block>, alignment: nat): nat
    requires alignment > 0
  {
    if live == {} then 0
    else
      var b :| b in live;
      Align(b.size, alignment) + LiveBytes(live - {b}, alignment)
  }

  lemma {:induction false} LiveBytesRemove(live: set<Block>, b: Block, alignment: nat)
    requires alignment > 0 && b in live
    ensures LiveBytes(live, alignment) == Align(b.size, alignment) + LiveBytes(live - {b}, alignment)
    decreases |live|
  {
    var c :| c in live && LiveBytes(live, alignment) == Align(c.size, alignment) + LiveBytes(live - {c}, alignment);
    if c != b {
      LiveBytesRemove(live - {c}, b, alignment);
      LiveBytesRemove(live - {b}, c, alignment);
      assert live - {c} - {b} == live - {b} - {c};
    }
  }

  lemma LiveBytesAdd(live: set<Block>, b: Block, alignment: nat)
    requires alignment > 0 && b !in live
    ensures LiveBytes(live + {b}, alignment) == LiveBytes(live, alignment) + Align(b.size, alignment)
  {
    LiveBytesRemove(live + {b}, b, alignment);
    assert live + {b} - {b} == live;
  }

  /** No live bytes means no live block, since a client never holds an empty block. */
  lemma LiveBytesZero(live: set<Block>, alignment: nat)
    requires alignment > 0
    requires forall b | b in live :: b.size > 0
    ensures LiveBytes(live, alignment) == 0 <==> live == {}
  {
    if live != {} {
      var b :| b in live;
      LiveBytesRemove(live, b, alignment);
      AlignProperties(b.size, alignment);
    }
  }

  /** Bytes lost because `retire` adds the requested size where the block covered its aligned size. */
  function Leak(sizes: seq<nat>, alignment: nat): nat
    requires alignment > 0
  {
    if sizes == [] then 0
    else
      var n := |sizes| - 1;
      AlignProperties(sizes[n], alignment);
      Leak(sizes[..n], alignment) + (Align(sizes[n], alignment) - sizes[n])
  }

  predicate AllMultiples(sizes: seq<nat>, alignment: nat)
    requires alignment > 0
  {
    forall i | 0 <= i < |sizes| :: sizes[i] % alignment == 0
  }

  /** Nothing leaks exactly when every retired size was already a multiple of the arena's alignment. */
  lemma {:induction false} LeakZero(sizes: seq<nat>, alignment: nat)
    requires alignment > 0
    ensures Leak(sizes, alignment) == 0 <==> AllMultiples(sizes, alignment)
  {
    if sizes != [] {
      var n := |sizes| - 1;
      LeakZero(sizes[..n], alignment);
      AlignProperties(sizes[n], alignment);
    }
  }

  lemma LeakAppend(sizes: seq<nat>, size: nat, alignment: nat)
    requires alignment > 0
    ensures size <= Align(size, alignment)
    ensures Leak(sizes + [size], alignment) == Leak(sizes, alignment) + (Align(size, alignment) - size)
  {
    AlignProperties(size, alignment);
    assert (sizes + [size])[..|sizes|] == sizes;
  }

  // ---------------------------------------------------------------------------------------------- the invariant

  predicate Apart(b: Block, c: Block, alignment: nat)
    requires alignment > 0
  {
    b.offset + Align(b.size, alignment) <= c.offset || c.offset + Align(c.size, alignment) <= b.offset
  }

  /** Live blocks are non-empty, aligned, below `top`, and pairwise disjoint. */
  ghost predicate BlocksOk(live: set<Block>, alignment: nat, top: nat)
    requires alignment > 0
  {
    && (forall b | b in live :: b.size > 0 && b.offset % alignment == 0 && b.offset + Align(b.size, alignment) <= top)
    && (forall b, c | b in live && c in live && b != c :: Apart(b, c, alignment))
  }

  /** Byte conservation: everything below `top` is freed, pending, in the owner's hand, live, or leaked. */
  ghost predicate Conserved(slot: Slot, hand: nat)
    requires slot.view.alignment > 0
  {
    slot.view.freed + slot.word.count + hand + LiveBytes(slot.live, slot.view.alignment)
      + Leak(slot.retiredSizes, slot.view.alignment) == slot.view.top
  }

  predicate WordOk(slot: Slot) {
    if slot.bornRetired then slot.word.retired && slot.place.Nowhere?
    else (slot.word.retired <==> !slot.place.Nowhere?) && (slot.word.retired <==> slot.word.count > 0)
  }

  ghost predicate SlotOk(slot: Slot, hand: nat) {
    && slot.view.Valid()
    && slot.view.freed % slot.view.alignment == 0
    && BlocksOk(slot.live, slot.view.alignment, slot.view.top)
    && Conserved(slot, hand)
    && WordOk(slot)
    && (AllMultiples(slot.retiredSizes, slot.view.alignment) ==>
          slot.word.count % slot.view.alignment == 0 && hand % slot.view.alignment == 0)
  }

  function Hand(owner: Owner, a: ArenaId): nat {
    if owner.Fold? && owner.arena == a then owner.amount else 0
  }

  ghost predicate SlotsOk(slots: map<ArenaId, Slot>, owner: Owner) {
    forall a | a in slots :: SlotOk(slots[a], Hand(owner, a))
  }

  ghost predicate RetirerOk(slots: map<ArenaId, Slot>, t: ThreadId, r: Retirer) {
    && r.arena in slots
    && (r.Adding() ==> r.block in slots[r.arena].live)
    && (!r.Adding() ==> slots[r.arena].place == Raised(t))
    && (r.CasRoot? ==> slots[r.arena].next == r.seenRoot.head)
  }

  ghost predicate RetirersOk(slots: map<ArenaId, Slot>, retirers: map<ThreadId, Retirer>) {
    && (forall t | t in retirers :: RetirerOk(slots, t, retirers[t]))
    && (forall t, u | t in retirers && u in retirers && t != u && retirers[t].Adding() && retirers[u].Adding() ::
          retirers[t].arena != retirers[u].arena || retirers[t].block != retirers[u].block)
    && (forall a | a in slots && slots[a].place.Raised? ::
          var t := slots[a].place.holder;
          t in retirers && !retirers[t].Adding() && retirers[t].arena == a)
  }

  ghost predicate NoRepeats(q: seq<ArenaId>) {
    forall i, j | 0 <= i < j < |q| :: q[i] != q[j]
  }

  function LinkTo(q: seq<ArenaId>): Link {
    if q == [] then None else Some(q[0])
  }

  /** The i-th arena of q leads on to the one behind it, or to nothing. */
  ghost predicate Leads(slots: map<ArenaId, Slot>, q: seq<ArenaId>, i: nat)
    requires i < |q|
  {
    q[i] in slots && slots[q[i]].next == LinkTo(q[i + 1..])
  }

  /** Following `next` from `head` visits exactly the arenas of q, in order, and then ends. */
  ghost predicate Spells(slots: map<ArenaId, Slot>, head: Link, q: seq<ArenaId>) {
    && head == LinkTo(q)
    && (forall i: nat {:trigger Leads(slots, q, i)} | i < |q| :: Leads(slots, q, i))
  }

  ghost predicate ListOk(slots: map<ArenaId, Slot>, head: Link, q: seq<ArenaId>, place: Place) {
    && Spells(slots, head, q)
    && NoRepeats(q)
    && (forall a | a in slots :: a in q <==> slots[a].place == place)
  }

  /** The reclaimer holds arena a: popped, and its flag not yet exchanged away. */
  predicate OwnerHolds(owner: Owner, a: ArenaId) {
    (owner.LoadFlags? || owner.ExchangeWord?) && owner.arena == a
  }

  /** reclaim_arena has extracted a from the bins and not yet put it back or returned it. */
  predicate Processing(owner: Owner, a: ArenaId) {
    (owner.ExchangeWord? || owner.Fold?) && owner.arena == a
  }

  ghost predicate OwnerOk(slots: map<ArenaId, Slot>, stored: set<ArenaId>, owner: Owner) {
    && (forall a | a in slots :: slots[a].place.InHand? <==> OwnerHolds(owner, a))
    && (!owner.Idle? && !owner.ExchangeRoot? ==> owner.arena in slots)
    && (owner.Fold? ==> !slots[owner.arena].place.Snatched? && !slots[owner.arena].bornRetired)
    && stored <= slots.Keys
    && (forall a | a in stored :: slots[a].view.freed < slots[a].view.top && !Processing(owner, a))
    && (forall a | a in slots && a !in stored :: Processing(owner, a) || slots[a].view.top == 0)
  }

  ghost predicate ListsOk(s: State) {
    && s.root.retired
    && ListOk(s.slots, s.root.head, s.shared, Listed)
    && ListOk(s.slots, s.list, s.snatched, Snatched)
    && (s.owner.ExchangeRoot? ==> s.owner.seen.retired && s.list.None?)
    && s.pushes == s.shared + s.taken
  }

  /** A crash can only be the alignment check of release_reclaimed, on an arena with a misaligned retired size. */
  ghost predicate CrashOk(s: State) {
    s.crashed ==>
      && s.owner.Fold? && s.owner.arena in s.slots
      && s.slots[s.owner.arena].view.alignment > 0
      && s.owner.amount % s.slots[s.owner.arena].view.alignment != 0
  }

  /** Who holds what: everything but the byte counts. */
  ghost predicate Ownership(s: State) {
    && RetirersOk(s.slots, s.retirers)
    && OwnerOk(s.slots, s.stored, s.owner)
    && ListsOk(s)
  }

  ghost predicate Inv(s: State) {
    && SlotsOk(s.slots, s.owner)
    && Ownership(s)
    && CrashOk(s)
  }

  // ---------------------------------------------------------------------------------------------- slot steps

  lemma FreshSlot(view: Arena, flag: bool)
    requires view.Valid() && view.Empty()
    ensures SlotOk(Slot(view, Word(0, flag), None, {}, [], flag, Nowhere), 0)
  {
    MultipleMod(0, view.alignment);
  }

  lemma AllocateSlot(slot: Slot, size: nat, hand: nat)
    requires SlotOk(slot, hand) && size > 0 && slot.view.CanAllocate(size)
    ensures var (view, offset) := slot.view.Acquire(size);
            && offset.Some? && view.freed == slot.view.freed && view.freed < view.top
            && view.alignment == slot.view.alignment
            && Block(offset.value, size) !in slot.live
            && SlotOk(slot.(view := view, live := slot.live + {Block(offset.value, size)}), hand)
  {
    AcquireSpec(slot.view, size);
    AlignProperties(size, slot.view.alignment);
    var b := Block(slot.view.top, size);
    assert forall c | c in slot.live :: c.offset + Align(c.size, slot.view.alignment) <= slot.view.top;
    LiveBytesAdd(slot.live, b, slot.view.alignment);
  }

  lemma DeallocateSlot(slot: Slot, block: Block, hand: nat)
    requires SlotOk(slot, hand) && block in slot.live
    ensures slot.view.freed < slot.view.top
    ensures var released := slot.view.ReleaseAligned(block.offset, Align(block.size, slot.view.alignment));
            && released.Some?
            && SlotOk(slot.(view := released.value, live := slot.live - {block}), hand)
            && released.value.top == slot.view.top
  {
    var al := slot.view.alignment;
    LiveBytesRemove(slot.live, block, al);
    AlignProperties(block.size, al);
    ModAdd(slot.view.freed, Align(block.size, al), al);
  }

  /** A rewound arena has nothing live, nothing pending, nothing in hand and nothing leaked. */
  lemma ResettableSlot(slot: Slot, hand: nat)
    requires SlotOk(slot, hand)
    ensures slot.view.Resettable() <==>
              slot.live == {} && slot.word.count == 0 && hand == 0 && Leak(slot.retiredSizes, slot.view.alignment) == 0
    ensures slot.view.Resettable() && !slot.bornRetired ==> slot.place.Nowhere? && !slot.word.retired
  {
    LiveBytesZero(slot.live, slot.view.alignment);
  }

  lemma RetireSlot(slot: Slot, block: Block, hand: nat, t: ThreadId)
    requires SlotOk(slot, hand) && block in slot.live
    ensures SlotOk(AddedSlot(slot, t, block), hand)
    ensures slot.word.retired || slot.place.Nowhere?
  {
    var al := slot.view.alignment;
    LiveBytesRemove(slot.live, block, al);
    LeakAppend(slot.retiredSizes, block.size, al);
    var sizes' := slot.retiredSizes + [block.size];
    if AllMultiples(sizes', al) {
      assert AllMultiples(slot.retiredSizes, al) by {
        forall i | 0 <= i < |slot.retiredSizes| ensures slot.retiredSizes[i] % al == 0 {
          assert sizes'[i] == slot.retiredSizes[i];
        }
      }
      assert sizes'[|slot.retiredSizes|] % al == 0;
      ModAdd(slot.word.count, block.size, al);
    }
  }

  lemma ExchangeSlot(slot: Slot)
    requires SlotOk(slot, 0) && !slot.bornRetired
    ensures SlotOk(slot.(word := Word(0, false), place := Nowhere), slot.word.count)
  {
    MultipleMod(0, slot.view.alignment);
  }

  lemma FoldSlot(slot: Slot, amount: nat)
    requires SlotOk(slot, amount)
    ensures var released := slot.view.ReleaseReclaimed(amount);
            && (released.None? <==> amount % slot.view.alignment != 0)
            && (released.Some? ==> SlotOk(slot.(view := released.value), 0) && released.value.top == slot.view.top)
  {
    MultipleMod(0, slot.view.alignment);
    if amount % slot.view.alignment == 0 {
      ModAdd(slot.view.freed, amount, slot.view.alignment);
    }
  }

  // ---------------------------------------------------------------------------------------------- frames

  /** One slot changes; every other arena keeps its slot and the bytes the owner has in hand for it. */
  lemma SlotsPut(slots: map<ArenaId, Slot>, owner: Owner, a: ArenaId, slot': Slot, owner': Owner)
    requires SlotsOk(slots, owner) && SlotOk(slot', Hand(owner', a))
    requires forall b | b != a :: Hand(owner', b) == Hand(owner, b)
    ensures SlotsOk(slots[a := slot'], owner')
  {
    forall b | b in slots[a := slot'] ensures SlotOk(slots[a := slot'][b], Hand(owner', b)) {
      if b != a {
        assert SlotOk(slots[b], Hand(owner, b));
      }
    }
  }

  /** Changing arenas outside a list, or keeping their link and place, leaves the list spelled as before. */
  lemma ListFrame(slots: map<ArenaId, Slot>, slots': map<ArenaId, Slot>, head: Link, q: seq<ArenaId>, place: Place)
    requires ListOk(slots, head, q, place)
    requires forall a | a in slots' && a !in slots :: slots'[a].place != place
    requires forall a | a in slots && slots[a].place == place :: a in slots' && slots'[a].next == slots[a].next
    requires forall a | a in slots && a in slots' :: slots[a].place == place <==> slots'[a].place == place
    ensures ListOk(slots', head, q, place)
  {
    forall i: nat | i < |q| ensures Leads(slots', q, i) {
      assert Leads(slots, q, i) && q[i] in q;
    }
    forall a | a in slots' ensures a in q <==> slots'[a].place == place {
      if a in q {
        var i: nat :| i < |q| && q[i] == a;
        assert Leads(slots, q, i);
      }
    }
  }

  lemma ListsPut(s: State, s': State, a: ArenaId)
    requires ListsOk(s) && s'.slots.Keys == s.slots.Keys + {a}
    requires forall b | b in s.slots && b != a :: s'.slots[b] == s.slots[b]
    requires a in s.slots ==>
               s'.slots[a].place == s.slots[a].place || (Loose(s.slots[a].place) && Loose(s'.slots[a].place))
    requires a in s.slots && !Loose(s.slots[a].place) ==> s'.slots[a].next == s.slots[a].next
    requires a !in s.slots ==> Loose(s'.slots[a].place)
    requires s'.root == s.root && s'.list == s.list && s'.shared == s.shared && s'.snatched == s.snatched
    requires s'.pushes == s.pushes && s'.taken == s.taken
    requires s'.owner.ExchangeRoot? ==> s'.owner == s.owner
    ensures ListsOk(s')
  {
    ListFrame(s.slots, s'.slots, s.root.head, s.shared, Listed);
    ListFrame(s.slots, s'.slots, s.list, s.snatched, Snatched);
  }

  /** On neither of the two lists. */
  predicate Loose(place: Place) {
    !place.Listed? && !place.Snatched?
  }

  /** The owner changes arenas; no retiring thread is on an arena that goes away, or loses its block or its link. */
  lemma RetirersFrame(slots: map<ArenaId, Slot>, slots': map<ArenaId, Slot>, retirers: map<ThreadId, Retirer>)
    requires RetirersOk(slots, retirers)
    requires forall t | t in retirers :: retirers[t].arena in slots'
    requires forall t | t in retirers && retirers[t].Adding() :: retirers[t].block in slots'[retirers[t].arena].live
    requires forall a | a in slots && slots[a].place.Raised? ::
               a in slots' ==> slots'[a].place == slots[a].place && slots'[a].next == slots[a].next
    requires forall a | a in slots' && slots'[a].place.Raised? :: a in slots && slots'[a].place == slots[a].place
    ensures RetirersOk(slots', retirers)
  {
    forall t | t in retirers ensures RetirerOk(slots', t, retirers[t]) {
      assert RetirerOk(slots, t, retirers[t]);
    }
  }

  /** As RetirersFrame, for a change of one arena whose flag no retiring thread has just raised. */
  lemma RetirersQuiet(slots: map<ArenaId, Slot>, retirers: map<ThreadId, Retirer>, a: ArenaId, slot': Slot)
    requires RetirersOk(slots, retirers) && a in slots && slot'.live == slots[a].live
    requires slot'.place == slots[a].place || !(slots[a].place.Raised? || slot'.place.Raised?)
    requires slots[a].place.Raised? ==> slot'.next == slots[a].next
    ensures RetirersOk(slots[a := slot'], retirers)
  {
    assert forall t | t in retirers :: RetirerOk(slots, t, retirers[t]);
    RetirersFrame(slots, slots[a := slot'], retirers);
  }

  /** As RetirersFrame, for a change of one arena that keeps its place and link and drops at most one client block. */
  lemma RetirersPut(s: State, a: ArenaId, slot': Slot, block: Block)
    requires a in s.slots && (ClientHolds(s, a, block) || block !in s.slots[a].live)
    requires slot'.place == s.slots[a].place && slot'.next == s.slots[a].next
    requires s.slots[a].live - {block} <= slot'.live
    requires RetirersOk(s.slots, s.retirers)
    ensures RetirersOk(s.slots[a := slot'], s.retirers)
  {
    forall t | t in s.retirers && s.retirers[t].Adding()
      ensures s.retirers[t].block in s.slots[a := slot'][s.retirers[t].arena].live
    {
      assert RetirerOk(s.slots, t, s.retirers[t]);
    }
    assert forall t | t in s.retirers :: RetirerOk(s.slots, t, s.retirers[t]);
    RetirersFrame(s.slots, s.slots[a := slot'], s.retirers);
  }

  /** What thread t may change in the slot it works on: its own block and the flag it holds, or a flag that is down. */
  ghost predicate OwnChange(slots: map<ArenaId, Slot>, t: ThreadId, r: Retirer, slot': Slot)
    requires r.arena in slots
  {
    var slot := slots[r.arena];
    && (slot'.live == slot.live || (r.Adding() && slot'.live == slot.live - {r.block}))
    && (slot'.place == slot.place || slot.place.Nowhere? || slot.place == Raised(t))
    && (slot.place.Raised? && slot.place.holder != t ==> slot'.next == slot.next)
  }

  /** Thread t leaves `retire`, after changing the slot it worked on. */
  lemma RetirerLeaves(slots: map<ArenaId, Slot>, retirers: map<ThreadId, Retirer>, t: ThreadId, slot': Slot)
    requires RetirersOk(slots, retirers) && t in retirers && OwnChange(slots, t, retirers[t], slot')
    requires slot'.place.Raised? ==> slot'.place == slots[retirers[t].arena].place && slot'.place != Raised(t)
    ensures RetirersOk(slots[retirers[t].arena := slot'], retirers - {t})
  {
    assert RetirerOk(slots, t, retirers[t]);
    forall u | u in retirers && u != t ensures RetirerOk(slots[retirers[t].arena := slot'], u, retirers[u]) {
      assert RetirerOk(slots, u, retirers[u]);
    }
  }

  /** Thread t moves on to r', after changing the slot it works on. */
  lemma RetirerMoves(slots: map<ArenaId, Slot>, retirers: map<ThreadId, Retirer>, t: ThreadId, slot': Slot, r': Retirer)
    requires RetirersOk(slots, retirers) && t in retirers && OwnChange(slots, t, retirers[t], slot')
    requires r'.arena == retirers[t].arena && RetirerOk(slots[r'.arena := slot'], t, r')
    requires r'.Adding() ==> retirers[t].Adding() && r'.block == retirers[t].block && slot'.live == slots[r'.arena].live
    requires slot'.place.Raised? ==> slot'.place == slots[r'.arena].place || slot'.place == Raised(t)
    requires slot'.place != Raised(t) || !r'.Adding()
    ensures RetirersOk(slots[r'.arena := slot'], retirers[t := r'])
  {
    assert RetirerOk(slots, t, retirers[t]);
    forall u | u in retirers && u != t ensures RetirerOk(slots[r'.arena := slot'], u, retirers[u]) {
      assert RetirerOk(slots, u, retirers[u]);
    }
  }

  /** A retiring thread's change of a slot is invisible to the owner's bookkeeping. */
  lemma OwnerPut(slots: map<ArenaId, Slot>, stored: set<ArenaId>, owner: Owner, a: ArenaId, slot': Slot)
    requires OwnerOk(slots, stored, owner) && a in slots
    requires slot'.view == slots[a].view && slot'.bornRetired == slots[a].bornRetired
    requires slot'.place == slots[a].place || !(slots[a].place.InHand? || slot'.place.InHand? || slot'.place.Snatched?)
    ensures OwnerOk(slots[a := slot'], stored, owner)
  {
  }

  /** An idle owner stores an arena that is not resettable, or sees a fresh one created. */
  lemma OwnerStores(slots: map<ArenaId, Slot>, stored: set<ArenaId>, owner: Owner, a: ArenaId, slot': Slot,
      stored': set<ArenaId>)
    requires OwnerOk(slots, stored, owner) && owner.Idle?
    requires if a in slots then !slots[a].place.InHand? && slot'.place == slots[a].place else slot'.place.Nowhere?
    requires (stored' == stored + {a} && slot'.view.freed < slot'.view.top)
             || (stored' == stored && a !in slots && slot'.view.top == 0)
    ensures OwnerOk(slots[a := slot'], stored', owner)
  {
  }

  // ---------------------------------------------------------------------------------------------- owner steps

  /** An idle owner changes the counters and live blocks of an arena, and keeps or puts it in the bins. */
  lemma OwnerPutKeepsOwnership(s: State, s': State, a: ArenaId, slot': Slot, block: Block)
    requires Ownership(s) && s.owner.Idle? && a in s.slots
    requires s' == s.(slots := s.slots[a := slot'], stored := s.stored + {a})
    requires slot'.view.freed < slot'.view.top
    requires slot'.place == s.slots[a].place && slot'.next == s.slots[a].next
    requires s.slots[a].live - {block} <= slot'.live
    requires ClientHolds(s, a, block) || block !in s.slots[a].live
    ensures Ownership(s')
  {
    RetirersPut(s, a, slot', block);
    OwnerStores(s.slots, s.stored, s.owner, a, slot', s'.stored);
    ListsPut(s, s', a);
  }

  lemma CreatePreserves(s: State, a: ArenaId, view: Arena, flag: bool)
    requires Inv(s) && !s.crashed && s.owner.Idle? && a !in s.slots && view.Valid() && view.Empty()
    ensures Inv(CreateStep(s, a, view, flag))
  {
    FreshSlot(view, flag);
    SlotsPut(s.slots, s.owner, a, CreateStep(s, a, view, flag).slots[a], s.owner);
    CreateKeepsOwnership(s, a, view, flag);
  }

  lemma CreateKeepsOwnership(s: State, a: ArenaId, view: Arena, flag: bool)
    requires Ownership(s) && s.owner.Idle? && a !in s.slots && view.Empty()
    ensures Ownership(CreateStep(s, a, view, flag))
  {
    var s' := CreateStep(s, a, view, flag);
    RetirersCreate(s, a, s'.slots[a]);
    OwnerStores(s.slots, s.stored, s.owner, a, s'.slots[a], s.stored);
    ListsPut(s, s', a);
  }

  lemma RetirersCreate(s: State, a: ArenaId, slot: Slot)
    requires RetirersOk(s.slots, s.retirers) && a !in s.slots && slot.place.Nowhere?
    ensures RetirersOk(s.slots[a := slot], s.retirers)
  {
    assert forall t | t in s.retirers :: RetirerOk(s.slots, t, s.retirers[t]);
    RetirersFrame(s.slots, s.slots[a := slot], s.retirers);
  }

  lemma AllocatePreserves(s: State, a: ArenaId, size: nat)
    requires Inv(s) && !s.crashed && s.owner.Idle? && a in s.slots && size > 0 && s.slots[a].view.CanAllocate(size)
    ensures Inv(AllocateStep(s, a, size))
  {
    var s' := AllocateStep(s, a, size);
    AllocateSlot(s.slots[a], size, 0);
    SlotsPut(s.slots, s.owner, a, s'.slots[a], s.owner);
    OwnerPutKeepsOwnership(s, s', a, s'.slots[a], Block(s.slots[a].view.top, size));
  }

  /** Once the client holds every live block and the flag is down, no retiring thread has the arena in hand. */
  lemma NoRetirerLeft(s: State, a: ArenaId)
    requires RetirersOk(s.slots, s.retirers) && a in s.slots && s.slots[a].place.Nowhere?
    requires forall b | b in s.slots[a].live :: ClientHolds(s, a, b)
    ensures forall t | t in s.retirers :: s.retirers[t].arena != a
  {
    forall t | t in s.retirers ensures s.retirers[t].arena != a {
      assert RetirerOk(s.slots, t, s.retirers[t]);
      if s.retirers[t].Adding() && s.retirers[t].block in s.slots[a].live {
        assert ClientHolds(s, a, s.retirers[t].block);
      }
    }
  }

  lemma RetirersReturn(s: State, a: ArenaId)
    requires RetirersOk(s.slots, s.retirers) && a in s.slots && s.slots[a].place.Nowhere?
    requires forall t | t in s.retirers :: s.retirers[t].arena != a
    ensures RetirersOk(s.slots - {a}, s.retirers)
  {
    assert forall t | t in s.retirers :: RetirerOk(s.slots, t, s.retirers[t]);
    RetirersFrame(s.slots, s.slots - {a}, s.retirers);
  }

  lemma OwnerReturns(slots: map<ArenaId, Slot>, stored: set<ArenaId>, owner: Owner, a: ArenaId)
    requires OwnerOk(slots, stored, owner) && a in slots && slots[a].place.Nowhere?
    requires owner.Idle? || (owner.Fold? && owner.arena == a)
    ensures OwnerOk(slots - {a}, stored - {a}, Idle)
  {
  }

  /** An arena with its flag down and no retiring thread on it can leave: nobody can reach it any more. */
  lemma ReturnPreserves(s: State, a: ArenaId)
    requires Inv(s) && !s.crashed && a in s.slots && s.slots[a].place.Nowhere?
    requires forall t | t in s.retirers :: s.retirers[t].arena != a
    requires s.owner.Idle? || (s.owner.Fold? && s.owner.arena == a)
    ensures Inv(Return(s, a).(owner := Idle))
  {
    var s' := Return(s, a).(owner := Idle);
    forall b | b in s'.slots ensures SlotOk(s'.slots[b], Hand(s'.owner, b)) {
      assert SlotOk(s.slots[b], Hand(s.owner, b));
    }
    RetirersReturn(s, a);
    OwnerReturns(s.slots, s.stored, s.owner, a);
    ListsReturn(s, s', a);
  }

  lemma ListsReturn(s: State, s': State, a: ArenaId)
    requires ListsOk(s) && a in s.slots && s.slots[a].place.Nowhere?
    requires s' == Return(s, a).(owner := Idle)
    ensures ListsOk(s')
  {
    ListFrame(s.slots, s'.slots, s.root.head, s.shared, Listed);
    ListFrame(s.slots, s'.slots, s.list, s.snatched, Snatched);
  }

  lemma DeallocatePreserves(s: State, a: ArenaId, block: Block)
    requires Inv(s) && !s.crashed && s.owner.Idle? && ClientHolds(s, a, block)
    ensures Inv(DeallocateStep(s, a, block))
  {
    assert SlotOk(s.slots[a], 0);
    var slot' := DeallocatedSlot(s.slots[a], block);
    assert a in s.stored;
    DeallocateResult(s, a, block, slot');
  }

  /** The arena goes back to the chunk allocator when nothing is left in it, and stays in the bins otherwise. */
  lemma DeallocateResult(s: State, a: ArenaId, block: Block, slot': Slot)
    requires Inv(s) && !s.crashed && s.owner.Idle? && ClientHolds(s, a, block)
    requires slot' == s.slots[a].(view := slot'.view, live := s.slots[a].live - {block})
    requires SlotOk(slot', 0) && s.slots[a].view.top > 0 && slot'.view.top > 0
    requires slot'.view.Resettable() ==> slot'.live == {} && s.slots[a].place.Nowhere?
    ensures Inv(if slot'.view.Resettable() then Return(s, a) else Put(s, a, slot'))
  {
    if slot'.view.Resettable() {
      LastBlock(s, a, block);
      ReturnPreserves(s, a);
    } else {
      SlotsPut(s.slots, s.owner, a, slot', s.owner);
      DeallocateKeepsOwnership(s, a, slot', block);
    }
  }

  lemma DeallocateKeepsOwnership(s: State, a: ArenaId, slot': Slot, block: Block)
    requires Ownership(s) && s.owner.Idle? && ClientHolds(s, a, block)
    requires slot' == s.slots[a].(view := slot'.view, live := s.slots[a].live - {block})
    requires s.slots[a].view.top > 0 && slot'.view.freed < slot'.view.top
    ensures Ownership(Put(s, a, slot'))
  {
    assert s.stored + {a} == s.stored;
    OwnerPutKeepsOwnership(s, Put(s, a, slot'), a, slot', block);
  }

  lemma LastBlock(s: State, a: ArenaId, block: Block)
    requires RetirersOk(s.slots, s.retirers) && ClientHolds(s, a, block)
    requires s.slots[a].live - {block} == {} && s.slots[a].place.Nowhere?
    ensures forall t | t in s.retirers :: s.retirers[t].arena != a
  {
    assert forall b | b in s.slots[a].live :: b == block || b in s.slots[a].live - {block};
    NoRetirerLeft(s, a);
  }

  /** What deallocate does to the slot, and what is known when that leaves the arena resettable. */
  lemma DeallocatedSlot(slot: Slot, block: Block) returns (slot': Slot)
    requires SlotOk(slot, 0) && block in slot.live
    ensures slot.view.ReleaseAligned(block.offset, Align(block.size, slot.view.alignment)) == Some(slot'.view)
    ensures slot' == slot.(view := slot'.view, live := slot.live - {block}) && slot'.view.top == slot.view.top
    ensures SlotOk(slot', 0) && slot.view.freed < slot.view.top
    ensures slot'.view.Resettable() ==> slot'.live == {} && slot.place.Nowhere?
  {
    DeallocateSlot(slot, block, 0);
    var released := slot.view.ReleaseAligned(block.offset, Align(block.size, slot.view.alignment));
    slot' := slot.(view := released.value, live := slot.live - {block});
    ResettableSlot(slot', 0);
  }

  lemma BeginRetirePreserves(s: State, t: ThreadId, a: ArenaId, block: Block)
    requires Inv(s) && !s.crashed && t !in s.retirers && ClientHolds(s, a, block)
    ensures Inv(s.(retirers := s.retirers[t := LoadWord(a, block)]))
  {
    RetirersBegin(s, t, a, block);
  }

  lemma RetirersBegin(s: State, t: ThreadId, a: ArenaId, block: Block)
    requires RetirersOk(s.slots, s.retirers) && t !in s.retirers && ClientHolds(s, a, block)
    ensures RetirersOk(s.slots, s.retirers[t := LoadWord(a, block)])
  {
    forall u | u in s.retirers ensures RetirerOk(s.slots, u, s.retirers[u]) {
    }
  }

  /** Steps of a retiring thread that change nothing but its own registers. */
  lemma RegistersPreserve(s: State, t: ThreadId, r': Retirer)
    requires Inv(s) && !s.crashed && t in s.retirers && RetirerOk(s.slots, t, r')
    requires r'.arena == s.retirers[t].arena && r'.Adding() == s.retirers[t].Adding()
    requires r'.Adding() ==> r'.block == s.retirers[t].block
    ensures Inv(s.(retirers := s.retirers[t := r']))
  {
    assert RetirerOk(s.slots, t, s.retirers[t]);
    assert s.slots[r'.arena := s.slots[r'.arena]] == s.slots;
    if r'.Adding() {
      NotRaisedBy(s.slots, s.retirers, t);
    }
    RetirerMoves(s.slots, s.retirers, t, s.slots[r'.arena], r');
  }

  /** A thread that is still adding has not raised the flag of its arena. */
  lemma NotRaisedBy(slots: map<ArenaId, Slot>, retirers: map<ThreadId, Retirer>, t: ThreadId)
    requires RetirersOk(slots, retirers) && t in retirers && retirers[t].Adding()
    ensures slots[retirers[t].arena].place != Raised(t)
  {
  }

  lemma AddKeepsSlots(slots: map<ArenaId, Slot>, owner: Owner, a: ArenaId, t: ThreadId, block: Block)
    requires SlotsOk(slots, owner) && a in slots && block in slots[a].live
    ensures SlotsOk(slots[a := AddedSlot(slots[a], t, block)], owner)
    ensures slots[a].word.retired || slots[a].place.Nowhere?
  {
    assert SlotOk(slots[a], Hand(owner, a));
    RetireSlot(slots[a], block, Hand(owner, a), t);
    SlotsPut(slots, owner, a, AddedSlot(slots[a], t, block), owner);
  }

  lemma AddKeepsOwnership(s: State, t: ThreadId, r: Retirer, slot': Slot, s': State)
    requires Ownership(s) && t in s.retirers && s.retirers[t] == r && r.Adding()
    requires r.arena in s.slots && slot' == AddedSlot(s.slots[r.arena], t, r.block)
    requires s.slots[r.arena].word.retired || s.slots[r.arena].place.Nowhere?
    requires s' == Put(s, r.arena, slot').(retirers := s'.retirers)
    requires s'.retirers ==
             if s.slots[r.arena].word.retired then s.retirers - {t} else s.retirers[t := LoadRoot(r.arena)]
    ensures Ownership(s')
  {
    NotRaisedBy(s.slots, s.retirers, t);
    if s.slots[r.arena].word.retired {
      RetirerLeaves(s.slots, s.retirers, t, slot');
    } else {
      RetirerMoves(s.slots, s.retirers, t, slot', LoadRoot(r.arena));
    }
    OwnerPut(s.slots, s.stored, s.owner, r.arena, slot');
    ListsPut(s, s', r.arena);
  }

  /** retire_data's successful exchange: the bytes move from the block to the word, and the flag goes up. */
  lemma AddPreserves(s: State, t: ThreadId)
    requires Inv(s) && !s.crashed && t in s.retirers && s.retirers[t].CasWord?
    requires s.slots[s.retirers[t].arena].word == s.retirers[t].seenWord
    ensures Inv(RetirerStepOf(s, t))
  {
    var r := s.retirers[t];
    assert RetirerOk(s.slots, t, r);
    AddKeepsSlots(s.slots, s.owner, r.arena, t, r.block);
    AddKeepsOwnership(s, t, r, AddedSlot(s.slots[r.arena], t, r.block), RetirerStepOf(s, t));
  }

  lemma SetNextRetirers(slots: map<ArenaId, Slot>, retirers: map<ThreadId, Retirer>, t: ThreadId, a: ArenaId,
      seen: Root)
    requires RetirersOk(slots, retirers) && t in retirers && retirers[t] == SetNext(a, seen) && a in slots
    ensures slots[a].place == Raised(t)
    ensures RetirersOk(slots[a := slots[a].(next := seen.head)], retirers[t := CasRoot(a, seen)])
  {
    assert RetirerOk(slots, t, retirers[t]);
    RetirerMoves(slots, retirers, t, slots[a].(next := seen.head), CasRoot(a, seen));
  }

  lemma SetNextKeepsOwnership(s: State, t: ThreadId, a: ArenaId, seen: Root, s': State)
    requires Ownership(s) && t in s.retirers && s.retirers[t] == SetNext(a, seen) && a in s.slots
    requires s' == Put(s, a, s.slots[a].(next := seen.head)).(retirers := s.retirers[t := CasRoot(a, seen)])
    ensures Ownership(s')
  {
    SetNextRetirers(s.slots, s.retirers, t, a, seen);
    OwnerPut(s.slots, s.stored, s.owner, a, s.slots[a].(next := seen.head));
    ListsPut(s, s', a);
  }

  /** A slot that differs only in its link, or in which list it is on, keeps its byte counts. */
  lemma LinkKeepsSlots(slots: map<ArenaId, Slot>, owner: Owner, a: ArenaId, slot': Slot)
    requires SlotsOk(slots, owner) && a in slots
    requires slot' == slots[a].(next := slot'.next, place := slot'.place)
    requires slot'.place.Nowhere? == slots[a].place.Nowhere?
    ensures SlotsOk(slots[a := slot'], owner)
  {
    assert SlotOk(slots[a], Hand(owner, a));
    SlotsPut(slots, owner, a, slot', owner);
  }

  lemma SetNextPreserves(s: State, t: ThreadId)
    requires Inv(s) && !s.crashed && t in s.retirers && s.retirers[t].SetNext?
    ensures Inv(RetirerStepOf(s, t))
  {
    var r := s.retirers[t];
    assert RetirerOk(s.slots, t, r);
    LinkKeepsSlots(s.slots, s.owner, r.arena, s.slots[r.arena].(next := r.seenRoot.head));
    SetNextKeepsOwnership(s, t, r.arena, r.seenRoot, RetirerStepOf(s, t));
  }

  /** An arena whose link holds the list's head, pushed in front. */
  lemma PushList(slots: map<ArenaId, Slot>, head: Link, q: seq<ArenaId>, a: ArenaId)
    requires ListOk(slots, head, q, Listed)
    requires a in slots && slots[a].place.Raised? && slots[a].next == head
    ensures ListOk(slots[a := slots[a].(place := Listed)], Some(a), [a] + q, Listed)
  {
    var q' := [a] + q;
    var slots' := slots[a := slots[a].(place := Listed)];
    assert a !in q;
    assert q'[1..] == q;
    forall i: nat | i < |q'| ensures Leads(slots', q', i) {
      if i > 0 {
        assert Leads(slots, q, i - 1);
        assert q'[i] == q[i - 1] && q'[i + 1..] == q[i..] && q[i - 1] in q;
      }
    }
  }

  lemma PushKeepsOwnership(s: State, t: ThreadId, a: ArenaId, slot': Slot, s': State)
    requires Ownership(s) && t in s.retirers && s.retirers[t] == CasRoot(a, s.root)
    requires a in s.slots && slot' == s.slots[a].(place := Listed)
    requires s' == Put(s, a, slot').(root := Root(Some(a), true), retirers := s.retirers - {t},
                                     shared := [a] + s.shared, pushes := [a] + s.pushes)
    ensures Ownership(s')
  {
    assert RetirerOk(s.slots, t, s.retirers[t]);
    RetirerLeaves(s.slots, s.retirers, t, slot');
    OwnerPut(s.slots, s.stored, s.owner, a, slot');
    PushedLists(s, t, a, slot', s');
  }

  lemma PushedLists(s: State, t: ThreadId, a: ArenaId, slot': Slot, s': State)
    requires ListsOk(s) && a in s.slots && s.slots[a].place.Raised? && s.slots[a].next == s.root.head
    requires slot' == s.slots[a].(place := Listed) && s'.slots == s.slots[a := slot'] && s'.root == Root(Some(a), true)
    requires s'.shared == [a] + s.shared && s'.pushes == [a] + s.pushes && s'.taken == s.taken
    requires s'.list == s.list && s'.snatched == s.snatched && s'.owner == s.owner
    ensures ListsOk(s')
  {
    PushList(s.slots, s.root.head, s.shared, a);
    ListFrame(s.slots, s'.slots, s.list, s.snatched, Snatched);
    assert [a] + (s.shared + s.taken) == [a] + s.shared + s.taken;
  }

  /** retire_ptr's successful exchange: the arena becomes the head of the shared list. */
  lemma PushPreserves(s: State, t: ThreadId)
    requires Inv(s) && !s.crashed && t in s.retirers && s.retirers[t].CasRoot? && s.root == s.retirers[t].seenRoot
    ensures Inv(RetirerStepOf(s, t))
  {
    var r := s.retirers[t];
    assert RetirerOk(s.slots, t, r);
    LinkKeepsSlots(s.slots, s.owner, r.arena, s.slots[r.arena].(place := Listed));
    PushKeepsOwnership(s, t, r.arena, s.slots[r.arena].(place := Listed), RetirerStepOf(s, t));
  }

  lemma RetirerPreserves(s: State, t: ThreadId)
    requires Inv(s) && !s.crashed && t in s.retirers
    ensures s.retirers[t].arena in s.slots && Inv(RetirerStepOf(s, t))
  {
    var r := s.retirers[t];
    assert RetirerOk(s.slots, t, r);
    match r
    case LoadWord(a, block) => RegistersPreserve(s, t, CasWord(a, block, s.slots[a].word));
    case CasWord(a, block, seen) =>
      if s.slots[a].word == seen {
        AddPreserves(s, t);
      } else {
        RegistersPreserve(s, t, CasWord(a, block, s.slots[a].word));
      }
    case LoadRoot(a) => RegistersPreserve(s, t, SetNext(a, s.root));
    case SetNext(_, _) => SetNextPreserves(s, t);
    case CasRoot(a, seen) =>
      if s.root == seen {
        PushPreserves(s, t);
      } else {
        RegistersPreserve(s, t, SetNext(a, s.root));
      }
  }

  // ---------------------------------------------------------------------------------------------- reclaiming

  lemma BeginReclaimPreserves(s: State)
    requires Inv(s) && !s.crashed && s.owner.Idle? && s.list.None?
    ensures s.root.retired && Inv(s.(owner := ExchangeRoot(s.root)))
  {
    forall a | a in s.slots ensures SlotOk(s.slots[a], Hand(ExchangeRoot(s.root), a)) {
      assert SlotOk(s.slots[a], Hand(s.owner, a));
    }
  }

  lemma ExchangeRootKeepsOwnership(s: State)
    requires Ownership(s) && s.owner.ExchangeRoot?
    ensures Ownership(ExchangeRootStep(s, s.owner.seen))
  {
    var s' := ExchangeRootStep(s, s.owner.seen);
    assert s.snatched == [];
    assert forall t | t in s.retirers :: RetirerOk(s.slots, t, s.retirers[t]);
    RetirersFrame(s.slots, s'.slots, s.retirers);
    ExchangedLists(s, s');
  }

  lemma ExchangedLists(s: State, s': State)
    requires ListsOk(s) && s.owner.ExchangeRoot? && s.snatched == [] && s' == ExchangeRootStep(s, s.owner.seen)
    ensures ListsOk(s')
  {
    forall i: nat | i < |s.shared| ensures Leads(s'.slots, s.shared, i) {
      assert Leads(s.slots, s.shared, i);
      assert s.shared[i] in s.slots;
    }
    assert [] + (s.shared + s.taken) == s'.shared + s'.taken;
  }

  lemma ExchangeRootPreserves(s: State)
    requires Inv(s) && !s.crashed && s.owner.ExchangeRoot?
    ensures Inv(ExchangeRootStep(s, s.owner.seen))
  {
    var s' := ExchangeRootStep(s, s.owner.seen);
    forall a | a in s'.slots ensures SlotOk(s'.slots[a], Hand(s'.owner, a)) {
      assert SlotOk(s.slots[a], Hand(s.owner, a));
    }
    ExchangeRootKeepsOwnership(s);
  }

  /** The head of the owner's list leaves it; the rest stays spelled. */
  lemma PopList(slots: map<ArenaId, Slot>, q: seq<ArenaId>)
    requires q != [] && ListOk(slots, Some(q[0]), q, Snatched)
    ensures q[0] in slots
    ensures ListOk(slots[q[0] := slots[q[0]].(next := None, place := InHand)], slots[q[0]].next, q[1..], Snatched)
  {
    assert Leads(slots, q, 0);
    var a := q[0];
    var q' := q[1..];
    var slots' := slots[a := slots[a].(next := None, place := InHand)];
    assert q == [a] + q';
    assert q[0 + 1..] == q';
    forall i: nat | i < |q'| ensures Leads(slots', q', i) {
      assert Leads(slots, q, i + 1);
      assert q'[i] == q[i + 1] && q'[i + 1..] == q[i + 2..];
    }
  }

  lemma PoppedLists(s: State)
    requires ListsOk(s) && s.owner.Idle? && s.list.Some?
    ensures s.list.value in s.slots && s.slots[s.list.value].place.Snatched? && ListsOk(PopStep(s))
  {
    assert Leads(s.slots, s.snatched, 0);
    var s' := PopStep(s);
    assert s.snatched[0] in s.snatched;
    PopList(s.slots, s.snatched);
    ListFrame(s.slots, s'.slots, s.root.head, s.shared, Listed);
  }

  /** An idle owner takes an arena in hand. */
  lemma OwnerTakes(slots: map<ArenaId, Slot>, stored: set<ArenaId>, owner: Owner, a: ArenaId)
    requires OwnerOk(slots, stored, owner) && owner.Idle? && a in slots
    ensures OwnerOk(slots[a := slots[a].(next := None, place := InHand)], stored, LoadFlags(a))
  {
  }

  lemma PopKeepsOwnership(s: State)
    requires Ownership(s) && s.owner.Idle? && s.list.Some?
    ensures s.list.value in s.slots && Ownership(PopStep(s))
  {
    PoppedLists(s);
    var a := s.list.value;
    RetirersQuiet(s.slots, s.retirers, a, s.slots[a].(next := None, place := InHand));
    OwnerTakes(s.slots, s.stored, s.owner, a);
  }

  lemma PopPreserves(s: State)
    requires Inv(s) && !s.crashed && s.owner.Idle? && s.list.Some?
    ensures s.list.value in s.slots && Inv(PopStep(s))
  {
    var a := s.snatched[0];
    assert a in s.snatched && Leads(s.slots, s.snatched, 0);
    LinkKeepsSlots(s.slots, s.owner, a, PopStep(s).slots[a]);
    PopKeepsOwnership(s);
    forall b | b in PopStep(s).slots ensures SlotOk(PopStep(s).slots[b], Hand(LoadFlags(a), b)) {
      assert SlotOk(PopStep(s).slots[b], Hand(s.owner, b));
    }
  }

  /** The popped arena is in the bins and its flag is up, so neither of reclaim_arena's first two aborts can fire. */
  lemma PoppedIsReady(s: State)
    requires SlotsOk(s.slots, s.owner) && OwnerOk(s.slots, s.stored, s.owner) && s.owner.LoadFlags?
    ensures s.owner.arena in s.stored && s.slots[s.owner.arena].word.retired
    ensures s.slots[s.owner.arena].view.alignment > 0
  {
    assert SlotOk(s.slots[s.owner.arena], 0);
    assert s.slots[s.owner.arena].view.top > 0;
  }

  lemma LoadFlagsPreserves(s: State)
    requires Inv(s) && !s.crashed && s.owner.LoadFlags?
    ensures s.slots[s.owner.arena].view.alignment > 0 && Inv(OwnerStepOf(s))
  {
    var a := s.owner.arena;
    PoppedIsReady(s);
    forall b | b in s.slots ensures SlotOk(s.slots[b], Hand(ExchangeWord(a), b)) {
      assert SlotOk(s.slots[b], Hand(s.owner, b));
    }
    OwnerExtracts(s.slots, s.stored, a);
  }

  lemma OwnerExtracts(slots: map<ArenaId, Slot>, stored: set<ArenaId>, a: ArenaId)
    requires OwnerOk(slots, stored, LoadFlags(a))
    ensures OwnerOk(slots, stored - {a}, ExchangeWord(a))
  {
  }

  lemma ExchangeWordKeepsOwnership(s: State)
    requires Ownership(s) && s.owner.ExchangeWord? && !s.slots[s.owner.arena].bornRetired
    requires s.slots[s.owner.arena].view.alignment > 0
    ensures Ownership(OwnerStepOf(s))
  {
    var s' := OwnerStepOf(s);
    RetirersQuiet(s.slots, s.retirers, s.owner.arena, s'.slots[s.owner.arena]);
    ListsPut(s, s', s.owner.arena);
  }

  lemma ExchangeWordPreserves(s: State)
    requires Inv(s) && !s.crashed && s.owner.ExchangeWord?
    ensures s.slots[s.owner.arena].view.alignment > 0 && Inv(OwnerStepOf(s))
  {
    var a := s.owner.arena;
    assert SlotOk(s.slots[a], 0);
    ExchangeSlot(s.slots[a]);
    SlotsPut(s.slots, s.owner, a, OwnerStepOf(s).slots[a], Fold(a, s.slots[a].word.count));
    ExchangeWordKeepsOwnership(s);
  }

  lemma FoldBackKeepsOwnership(s: State, slot': Slot)
    requires Ownership(s) && s.owner.Fold? && slot'.view.freed < slot'.view.top
    requires slot' == s.slots[s.owner.arena].(view := slot'.view)
    ensures Ownership(Put(s, s.owner.arena, slot').(owner := Idle, stored := s.stored + {s.owner.arena}))
  {
    var a := s.owner.arena;
    var s' := Put(s, a, slot').(owner := Idle, stored := s.stored + {a});
    RetirersQuiet(s.slots, s.retirers, a, slot');
    ListsPut(s, s', a);
  }

  /** What the fold does to the slot; it aborts exactly when the reclaimed amount is misaligned. */
  lemma FoldedSlot(slot: Slot, amount: nat) returns (slot': Slot)
    requires SlotOk(slot, amount) && amount % slot.view.alignment == 0
    ensures slot.view.ReleaseReclaimed(amount) == Some(slot'.view) && slot' == slot.(view := slot'.view)
    ensures SlotOk(slot', 0)
    ensures slot'.view.Resettable() && !slot.bornRetired ==> slot'.live == {} && slot'.place.Nowhere?
  {
    FoldSlot(slot, amount);
    slot' := slot.(view := slot.view.ReleaseReclaimed(amount).value);
    ResettableSlot(slot', 0);
  }

  lemma FoldPreserves(s: State)
    requires Inv(s) && !s.crashed && s.owner.Fold?
    ensures s.slots[s.owner.arena].view.alignment > 0 && Inv(FoldStep(s, s.owner.arena, s.owner.amount))
  {
    var a := s.owner.arena;
    assert SlotOk(s.slots[a], s.owner.amount);
    if s.owner.amount % s.slots[a].view.alignment == 0 {
      var slot' := FoldedSlot(s.slots[a], s.owner.amount);
      if slot'.view.Resettable() {
        NoRetirerLeft(s, a);
        ReturnPreserves(s, a);
      } else {
        SlotsPut(s.slots, s.owner, a, slot', Idle);
        FoldBackKeepsOwnership(s, slot');
      }
    }
  }
}
