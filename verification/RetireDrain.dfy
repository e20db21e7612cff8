/** The owner's full reclaim pass, run without interference: reclaim_arenas, then pop and reclaim_arena until the list
    is empty. It empties the allocator exactly when nothing leaked and every arena was created with its flag down. */
module RetireDrain {
  import opened Wrappers
  import opened RetireProtocol
  import opened RetireInvariant

  /** Every allocation was freed or retired, nobody is inside `retire`, and the owner holds no list. */
  ghost predicate Quiescent(s: State) {
    && Inv(s) && !s.crashed && s.owner.Idle? && s.list.None? && s.retirers == map[]
    && forall a | a in s.slots :: s.slots[a].live == {}
  }

  /** The arena can come back in full: it was created with its flag down and only multiples of its alignment were
      ever retired on it. */
  ghost predicate Recoverable(slot: Slot) {
    && slot.view.alignment > 0
    && !slot.bornRetired
    && AllMultiples(slot.retiredSizes, slot.view.alignment)
  }

  /** What never changes during a pass: who is retiring, and each arena's history. */
  ghost predicate SameHistory(s0: State, s: State) {
    && s.slots.Keys <= s0.slots.Keys
    && (forall a | a in s.slots ::
          && s.slots[a].live == s0.slots[a].live && s.slots[a].retiredSizes == s0.slots[a].retiredSizes
          && s.slots[a].view.alignment == s0.slots[a].view.alignment
          && s.slots[a].bornRetired == s0.slots[a].bornRetired)
  }

  /** In the middle of a pass: an arena still stored is still to come on the list or cannot come back in full, and
      one that is gone could. */
  ghost predicate Progress(s0: State, s: State) {
    && s.retirers == map[] && s.shared == [] && s.stored <= s.slots.Keys
    && (!s.crashed ==> s.owner.Idle?)
    && SameHistory(s0, s)
    && (forall a | a in s.slots :: s.slots[a].live == {})
    && (forall a | a in s.stored :: a in s0.stored && (a in s.snatched || !Recoverable(s.slots[a])))
    && (forall a | a in s0.slots && a !in s.slots :: a in s0.stored && Recoverable(s0.slots[a]))
    && (!s.crashed ==> forall a | a in s0.stored && a in s.slots :: a in s.stored)
    && (s.crashed ==> exists a :: a in s0.stored && a in s0.slots && !Recoverable(s0.slots[a]))
  }

  ghost predicate Draining(s0: State, s: State) {
    Inv(s) && Progress(s0, s)
  }

  /** The three steps of reclaim_arena on a popped arena. */
  function ReclaimArena(s: State): State
    requires Ready(s)
  {
    OwnerStepOf(OwnerStepOf(OwnerStepOf(s)))
  }

  predicate Ready(s: State) {
    && s.owner.LoadFlags? && s.owner.arena in s.slots && s.slots[s.owner.arena].view.alignment > 0
    && s.owner.arena in s.stored && s.slots[s.owner.arena].word.retired
  }

  /** The state between the exchange on the popped arena's word and the fold. */
  function Exchanged(s: State): State
    requires Ready(s)
  {
    OwnerStepOf(OwnerStepOf(s))
  }

  lemma PoppedReady(s: State)
    requires Inv(s) && !s.crashed && s.owner.Idle? && s.list.Some?
    ensures s.list.value in s.slots && Ready(PopStep(s)) && s.snatched != [] && s.list.value == s.snatched[0]
    ensures Inv(PopStep(s)) && Inv(Exchanged(PopStep(s)))
  {
    PopPreserves(s);
    var p := PopStep(s);
    PoppedIsReady(p);
    LoadFlagsPreserves(p);
    ExchangeWordPreserves(OwnerStepOf(p));
  }

  /** e is s with the head of the owner's list popped, taken out of the bins, and its word exchanged. */
  ghost predicate HeadExchanged(s: State, e: State) {
    && s.snatched != [] && s.list == Some(s.snatched[0]) && s.snatched[0] in s.slots
    && e.owner.Fold? && e.owner.arena == s.snatched[0] && !e.crashed
    && e.slots.Keys == s.slots.Keys && e.stored == s.stored - {s.snatched[0]}
    && e.retirers == s.retirers && e.shared == s.shared && e.snatched == s.snatched[1..]
    && (forall b | b in s.slots ::
          && e.slots[b].live == s.slots[b].live && e.slots[b].view == s.slots[b].view
          && e.slots[b].retiredSizes == s.slots[b].retiredSizes && e.slots[b].bornRetired == s.slots[b].bornRetired)
  }

  lemma ExchangedShape(s: State)
    requires !s.crashed && s.owner.Idle? && s.list.Some? && s.list.value in s.slots
    requires Ready(PopStep(s)) && s.snatched != [] && s.list.value == s.snatched[0]
    ensures HeadExchanged(s, Exchanged(PopStep(s)))
    ensures Exchanged(PopStep(s)).slots[s.list.value].word.count == 0
  {
  }

  /** An arena that can come back in full is handed back; another aborts the owner, or is filed again. */
  ghost predicate FoldedTo(e: State, a: ArenaId, s': State)
    requires a in e.slots
  {
    var slot := e.slots[a];
    if Recoverable(slot) then s' == Return(e, a).(owner := Idle)
    else
      || s' == Crash(e)
      || (&& a in s'.slots && s'.slots[a].view.alignment == slot.view.alignment
          && s' == Put(e, a, slot.(view := s'.slots[a].view)).(owner := Idle, stored := e.stored + {a}))
  }

  /** Folding the popped arena, all of whose blocks were given back: it leaves if it can come back in full. If not, it
      goes back to the bins, or the alignment check aborts. */
  lemma FoldOutcome(e: State)
    requires Inv(e) && !e.crashed && e.owner.Fold? && e.owner.arena in e.slots
    requires e.slots[e.owner.arena].live == {} && e.slots[e.owner.arena].word.count == 0
    ensures var a := e.owner.arena; var slot := e.slots[a];
            && slot.view.alignment > 0 && !slot.bornRetired
            && var s' := FoldStep(e, a, e.owner.amount);
            && Inv(s')
            && FoldedTo(e, a, s')
  {
    var a := e.owner.arena;
    var slot := e.slots[a];
    assert SlotOk(slot, e.owner.amount);
    FoldPreserves(e);
    LeakZero(slot.retiredSizes, slot.view.alignment);
    FoldSlot(slot, e.owner.amount);
    if e.owner.amount % slot.view.alignment == 0 {
      var slot' := FoldedSlot(slot, e.owner.amount);
      ResettableSlot(slot', 0);
    }
  }

  lemma DrainOne(s0: State, s: State)
    requires Draining(s0, s) && !s.crashed && s.list.Some?
    ensures s.list.value in s.slots && Ready(PopStep(s))
    ensures var s' := ReclaimArena(PopStep(s));
            Draining(s0, s') && (!s'.crashed ==> |s'.snatched| < |s.snatched|)
  {
    PoppedReady(s);
    ExchangedShape(s);
    var e := Exchanged(PopStep(s));
    FoldOutcome(e);
    var s' := FoldStep(e, s.list.value, e.owner.amount);
    assert e.owner.arena == s.list.value == s.snatched[0];
    DrainFolded(s0, s, e, s');
  }

  lemma DrainFolded(s0: State, s: State, e: State, s': State)
    requires Progress(s0, s) && !s.crashed && HeadExchanged(s, e) && s.snatched[0] in s.stored
    requires FoldedTo(e, s.snatched[0], s')
    ensures Progress(s0, s')
  {
    var a := s.snatched[0];
    assert Recoverable(e.slots[a]) == Recoverable(s0.slots[a]);
    DrainFoldedStored(s0, s, e, s', a);
  }

  /** What is still stored after one arena is done: what was stored and still to come, or could not come back. */
  lemma DrainFoldedStored(s0: State, s: State, e: State, s': State, a: ArenaId)
    requires SameHistory(s0, s) && HeadExchanged(s, e) && a == s.snatched[0] && a in s.stored
    requires s'.stored == s.stored - {a} || (s'.stored == s.stored && !Recoverable(s.slots[a]))
    requires s'.snatched == s.snatched[1..] && s'.slots.Keys <= s.slots.Keys && s'.stored <= s'.slots.Keys
    requires forall b | b in s'.slots :: Recoverable(s'.slots[b]) == Recoverable(s.slots[b])
    requires forall b | b in s.stored :: b in s0.stored && (b in s.snatched || !Recoverable(s.slots[b]))
    ensures forall b | b in s'.stored :: b in s0.stored && (b in s'.snatched || !Recoverable(s'.slots[b]))
  {
    assert s.snatched == [a] + s.snatched[1..];
    forall b | b in s'.stored ensures b in s0.stored && (b in s'.snatched || !Recoverable(s'.slots[b])) {
      assert b in s.stored;
    }
  }

  /** In a quiescent state every stored arena that can come back in full is on the shared list. */
  lemma RecoverableIsListed(s: State, a: ArenaId)
    requires Quiescent(s) && a in s.stored
    ensures a in s.slots && (Recoverable(s.slots[a]) ==> a in s.shared)
    ensures s.snatched == []
  {
    var slot := s.slots[a];
    assert SlotOk(slot, 0);
    LeakZero(slot.retiredSizes, slot.view.alignment);
    LiveBytesZero(slot.live, slot.view.alignment);
    if Recoverable(slot) {
      assert slot.word.count > 0;
      assert slot.place.Listed?;
    }
  }

  lemma BeginDrain(s0: State)
    requires Quiescent(s0)
    ensures var s := ExchangeRootStep(s0.(owner := ExchangeRoot(s0.root)), s0.root);
            Draining(s0, s) && !s.crashed
  {
    BeginReclaimPreserves(s0);
    ExchangeRootPreserves(s0.(owner := ExchangeRoot(s0.root)));
    forall a | a in s0.stored && Recoverable(s0.slots[a]) ensures a in s0.shared {
      RecoverableIsListed(s0, a);
    }
    BeginProgress(s0);
  }

  lemma BeginProgress(s0: State)
    requires s0.retirers == map[] && !s0.crashed && s0.stored <= s0.slots.Keys
    requires forall a | a in s0.slots :: s0.slots[a].live == {}
    requires forall a | a in s0.stored && Recoverable(s0.slots[a]) :: a in s0.shared
    ensures Progress(s0, ExchangeRootStep(s0.(owner := ExchangeRoot(s0.root)), s0.root))
  {
  }

  /** A full reclaim pass over a quiescent allocator leaves no arena behind, without aborting, if and only if every
      stored arena was created with its flag down and had only multiples of its alignment retired on it. */
  method ReclaimAll(s0: State) returns (s: State)
    requires Quiescent(s0)
    ensures Inv(s)
    ensures !s.crashed && s.stored == {} <==> forall a | a in s0.stored :: Recoverable(s0.slots[a])
    ensures forall a | a in s0.slots && a !in s.slots :: a in s0.stored && Recoverable(s0.slots[a])
    ensures !s.crashed ==> forall a | a in s0.stored && Recoverable(s0.slots[a]) :: a !in s.slots
  {
    BeginDrain(s0);
    s := ExchangeRootStep(s0.(owner := ExchangeRoot(s0.root)), s0.root);
    while s.list.Some? && !s.crashed
      invariant Draining(s0, s)
      decreases !s.crashed, |s.snatched|
    {
      DrainOne(s0, s);
      s := PopStep(s);
      s := ReclaimArena(s);
    }
    DrainEnd(s0, s);
  }

  lemma DrainEnd(s0: State, s: State)
    requires Progress(s0, s) && s0.stored <= s0.slots.Keys && (s.snatched == [] || s.crashed)
    ensures !s.crashed && s.stored == {} <==> forall a | a in s0.stored :: Recoverable(s0.slots[a])
    ensures !s.crashed ==> forall a | a in s0.stored && Recoverable(s0.slots[a]) :: a !in s.slots
  {
    if !s.crashed {
      forall a | a in s0.stored && Recoverable(s0.slots[a]) ensures a !in s.slots {
        assert a in s.slots ==> a in s.stored;
      }
      if s.stored == {} {
        assert forall a | a in s0.stored :: a !in s.slots;
      }
    }
  }
}
