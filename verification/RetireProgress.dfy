/** What one call of `retire` achieves: it ends only after its bytes were counted, it ends within a few steps if the
    others pause, and whoever raises an arena's flag chains the arena to the root. */
module RetireProgress {
  import opened Wrappers
  import opened Powers
  import opened Arenas
  import opened RetireProtocol
  import opened RetireInvariant
  import opened RetireSafety

  // ---------------------------------------------------------------------------------------------- one step

  /** Between the two states the arena's count rose by exactly the block's size, its flag is up, and the client has the
      block no more; nothing else about the arena's memory changed, and no other arena did. */
  ghost predicate Counted(s: State, s': State, a: ArenaId, block: Block) {
    && a in s.slots && block in s.slots[a].live
    && s'.slots.Keys == s.slots.Keys
    && (forall b | b in s.slots && b != a :: s'.slots[b] == s.slots[b])
    && s'.slots[a].word == Word(s.slots[a].word.count + block.size, true)
    && s'.slots[a].live == s.slots[a].live - {block}
    && s'.slots[a].view == s.slots[a].view
  }

  /** A step of a thread that has yet to count its block either counts it, which it does whenever it saw the arena's
      word as it is, or changes nothing but that the thread has now seen that word. */
  lemma CountsOrRetries(s: State, t: ThreadId)
    requires Reachable(s) && Enabled(s, RetirerStep(t)) && s.retirers[t].Adding()
    ensures var s', r := Next(s, RetirerStep(t)), s.retirers[t];
            var seesIt := r.CasWord? && r.seenWord == s.slots[r.arena].word;
            && (seesIt ==> Counted(s, s', r.arena, r.block))
            && (!seesIt ==> s' == s.(retirers := s.retirers[t := CasWord(r.arena, r.block, s.slots[r.arena].word)]))
  {
    RetirerFacts(s, t);
    CountStep(s, t);
  }

  /** A thread's arena is there, and the block it has yet to count is live. */
  lemma RetirerFacts(s: State, t: ThreadId)
    requires Reachable(s) && t in s.retirers
    ensures s.retirers[t].arena in s.slots
    ensures s.retirers[t].Adding() ==> s.retirers[t].block in s.slots[s.retirers[t].arena].live
  {
    ReachableInv(s);
    assert RetirerOk(s.slots, t, s.retirers[t]);
  }

  lemma CountStep(s: State, t: ThreadId)
    requires Enabled(s, RetirerStep(t)) && s.retirers[t].Adding()
    requires s.retirers[t].block in s.slots[s.retirers[t].arena].live
    ensures var s', r := RetirerStepOf(s, t), s.retirers[t];
            if r.CasWord? && r.seenWord == s.slots[r.arena].word then Counted(s, s', r.arena, r.block)
            else s' == s.(retirers := s.retirers[t := CasWord(r.arena, r.block, s.slots[r.arena].word)])
  {
  }

  /** Once its block is counted, the thread is done exactly if the flag was up before; otherwise it holds the arena. */
  lemma WhoPushes(s: State, t: ThreadId)
    requires Reachable(s) && Enabled(s, RetirerStep(t)) && s.retirers[t].Adding()
    requires Counted(s, Next(s, RetirerStep(t)), s.retirers[t].arena, s.retirers[t].block)
    ensures var s', a := Next(s, RetirerStep(t)), s.retirers[t].arena;
            && (s.slots[a].word.retired ==> t !in s'.retirers)
            && (!s.slots[a].word.retired ==> Pushing(s', t, a))
  {
    RetirerFacts(s, t);
    CountStep(s, t);
  }

  /** A step of a thread that pushes an arena leaves the queue as it is and the thread at its push, or puts the arena
      in front and ends the push; the latter whenever the thread saw the root as it is and tries its exchange. */
  lemma ListsOrRetries(s: State, t: ThreadId, a: ArenaId)
    requires Enabled(s, RetirerStep(t)) && Pushing(s, t, a)
    ensures var s' := Next(s, RetirerStep(t));
            if s.retirers[t] == CasRoot(a, s.root)
            then s'.shared == [a] + s.shared && s'.root == Root(Some(a), true) && t !in s'.retirers
            else s'.shared == s.shared && s'.root == s.root && Pushing(s', t, a)
  {
  }

  // ---------------------------------------------------------------------------------------------- runs

  /** Step k of the run is the thread's, and counts the block. */
  ghost predicate CountedAt(states: seq<State>, acts: seq<Action>, t: ThreadId, a: ArenaId, block: Block, k: nat)
    requires k < |acts| < |states|
  {
    acts[k] == RetirerStep(t) && Counted(states[k], states[k + 1], a, block)
  }

  ghost predicate ListedAt(states: seq<State>, acts: seq<Action>, t: ThreadId, a: ArenaId, k: nat)
    requires k < |acts| < |states|
  {
    acts[k] == RetirerStep(t) && states[k + 1].shared == [a] + states[k].shared
  }

  predicate AddsTo(s: State, t: ThreadId, a: ArenaId, block: Block) {
    t in s.retirers && s.retirers[t].Adding() && s.retirers[t].arena == a && s.retirers[t].block == block
  }

  lemma PrefixReachable(states: seq<State>, acts: seq<Action>, i: nat)
    requires IsRun(states, acts) && i < |states|
    ensures Reachable(states[i])
  {
    assert IsRun(states[..i + 1], acts[..i]) && states[..i + 1][i] == states[i];
  }

  /** In step k the thread counts the block, or is still at it. */
  ghost predicate AddsOn(states: seq<State>, acts: seq<Action>, t: ThreadId, a: ArenaId, block: Block, k: nat)
    requires k < |acts| < |states|
  {
    AddsTo(states[k], t, a, block) ==> AddsTo(states[k + 1], t, a, block) || CountedAt(states, acts, t, a, block, k)
  }

  /** In step k the thread chains the arena to the root, or is still at it. */
  ghost predicate PushesOn(states: seq<State>, acts: seq<Action>, t: ThreadId, a: ArenaId, k: nat)
    requires k < |acts| < |states|
  {
    Pushing(states[k], t, a) ==> Pushing(states[k + 1], t, a) || ListedAt(states, acts, t, a, k)
  }

  lemma StaysAdding(states: seq<State>, acts: seq<Action>, t: ThreadId, a: ArenaId, block: Block, k: nat)
    requires IsRun(states, acts) && k < |acts|
    ensures AddsOn(states, acts, t, a, block, k)
  {
    PrefixReachable(states, acts, k);
    if AddsTo(states[k], t, a, block) && acts[k] == RetirerStep(t) {
      CountsOrRetries(states[k], t);
    }
  }

  lemma StaysPushing(states: seq<State>, acts: seq<Action>, t: ThreadId, a: ArenaId, k: nat)
    requires IsRun(states, acts) && k < |acts|
    ensures PushesOn(states, acts, t, a, k)
  {
    if Pushing(states[k], t, a) && acts[k] == RetirerStep(t) {
      ListsOrRetries(states[k], t, a);
    }
  }

  /** So a thread that is no longer adding has counted its block, ... */
  lemma {:induction false} CountedBetween(states: seq<State>, acts: seq<Action>, t: ThreadId, a: ArenaId, block: Block,
                                          i: nat, j: nat) returns (k: nat)
    requires i <= j < |states| == |acts| + 1
    requires forall k: nat {:trigger AddsOn(states, acts, t, a, block, k)} | i <= k < j ::
               AddsOn(states, acts, t, a, block, k)
    requires AddsTo(states[i], t, a, block) && !AddsTo(states[j], t, a, block)
    ensures i <= k < j && AddsTo(states[k], t, a, block) && CountedAt(states, acts, t, a, block, k)
    decreases j
  {
    k := j - 1;
    assert AddsOn(states, acts, t, a, block, k);
    if !AddsTo(states[k], t, a, block) {
      k := CountedBetween(states, acts, t, a, block, i, k);
    }
  }

  /** ... and one that is no longer pushing has chained its arena to the root. */
  lemma {:induction false} ListedBetween(states: seq<State>, acts: seq<Action>, t: ThreadId, a: ArenaId, i: nat, j: nat)
      returns (k: nat)
    requires i <= j < |states| == |acts| + 1
    requires forall k: nat {:trigger PushesOn(states, acts, t, a, k)} | i <= k < j :: PushesOn(states, acts, t, a, k)
    requires Pushing(states[i], t, a) && !Pushing(states[j], t, a)
    ensures i <= k < j && ListedAt(states, acts, t, a, k)
    decreases j
  {
    k := j - 1;
    assert PushesOn(states, acts, t, a, k);
    if !Pushing(states[k], t, a) {
      k := ListedBetween(states, acts, t, a, i, k);
    }
  }

  /** A retire ends only after its bytes were counted; and if that step found the arena's flag down, only after the
      thread chained the arena to the root. */
  lemma RetireCompletes(states: seq<State>, acts: seq<Action>, t: ThreadId, a: ArenaId, block: Block, i: nat, j: nat)
    requires IsRun(states, acts) && i < j < |states| && acts[i] == BeginRetire(t, a, block)
    requires t !in states[j].retirers
    ensures exists k ::
              && i < k < j && CountedAt(states, acts, t, a, block, k)
              && (!states[k].slots[a].word.retired ==> exists m :: k < m < j && ListedAt(states, acts, t, a, m))
  {
    forall k: nat | k < |acts| ensures AddsOn(states, acts, t, a, block, k) && PushesOn(states, acts, t, a, k) {
      StaysAdding(states, acts, t, a, block, k);
      StaysPushing(states, acts, t, a, k);
    }
    assert AddsTo(states[i + 1], t, a, block);
    var k := CountedBetween(states, acts, t, a, block, i + 1, j);
    if !states[k].slots[a].word.retired {
      PrefixReachable(states, acts, k);
      WhoPushes(states[k], t);
      var m := ListedBetween(states, acts, t, a, k + 1, j);
    }
  }

  // ---------------------------------------------------------------------------------------------- alone

  /** The state after k steps of thread t, or fewer if it is done before. */
  ghost function Alone(s: State, t: ThreadId, k: nat): State
    decreases k
  {
    if k == 0 || !Enabled(s, RetirerStep(t)) then s else Alone(Next(s, RetirerStep(t)), t, k - 1)
  }

  /** The thread is done, and nothing changed since s but one arena's slot, and that the arena may be in front of the
      queue now. */
  ghost predicate Done(s: State, s': State, t: ThreadId, a: ArenaId, listed: bool) {
    && a in s.slots && a in s'.slots
    && s'.slots == s.slots[a := s'.slots[a]]
    && s'.retirers == s.retirers - {t}
    && s'.shared == (if listed then [a] + s.shared else s.shared)
    && s'.root == (if listed then Root(Some(a), true) else s.root)
    && s'.stored == s.stored && s'.owner == s.owner && s'.list == s.list && s'.snatched == s.snatched
    && !s'.crashed
    && s'.slots[a].view == s.slots[a].view
  }

  ghost predicate Pushed(s: State, s': State, t: ThreadId, a: ArenaId) {
    Done(s, s', t, a, true) && s'.slots[a].word == s.slots[a].word && s'.slots[a].live == s.slots[a].live
  }

  lemma FirstStep(s: State, t: ThreadId, k: nat)
    requires Enabled(s, RetirerStep(t)) && k > 0
    ensures Alone(s, t, k) == Alone(RetirerStepOf(s, t), t, k - 1)
  {
  }

  lemma AloneGone(s: State, t: ThreadId, k: nat)
    requires t !in s.retirers
    ensures Alone(s, t, k) == s
  {
  }

  /** From the write of the link on, when the thread saw the root as it is, ... */
  lemma LinkAlone(s: State, t: ThreadId, a: ArenaId, k: nat)
    requires !s.crashed && a in s.slots && t in s.retirers && s.retirers[t] == SetNext(a, s.root) && k >= 2
    ensures Pushed(s, Alone(s, t, k), t, a)
  {
    var s1 := RetirerStepOf(s, t);
    var s2 := RetirerStepOf(s1, t);
    FirstStep(s, t, k);
    FirstStep(s1, t, k - 1);
    AloneGone(s2, t, k - 2);
    assert s2.retirers == s.retirers - {t};
  }

  /** ... from where the thread is about to see it, or tries its exchange, ... */
  lemma SeeAlone(s: State, t: ThreadId, a: ArenaId, k: nat)
    requires !s.crashed && a in s.slots && Pushing(s, t, a) && !s.retirers[t].SetNext? && k >= 3
    ensures Pushed(s, Alone(s, t, k), t, a)
  {
    var s1 := RetirerStepOf(s, t);
    FirstStep(s, t, k);
    if s.retirers[t] == CasRoot(a, s.root) {
      AloneGone(s1, t, k - 1);
    } else {
      assert s1.retirers[t] == SetNext(a, s.root);
      LinkAlone(s1, t, a, k - 1);
      assert s1.retirers - {t} == s.retirers - {t};
    }
  }

  /** ... and from anywhere in the push. */
  lemma PushAlone(s: State, t: ThreadId, a: ArenaId, k: nat)
    requires !s.crashed && a in s.slots && Pushing(s, t, a) && k >= 4
    ensures Pushed(s, Alone(s, t, k), t, a)
  {
    if s.retirers[t] == SetNext(a, s.root) {
      LinkAlone(s, t, a, k);
    } else if s.retirers[t].SetNext? {
      var s1 := RetirerStepOf(s, t);
      FirstStep(s, t, k);
      SeeAlone(s1, t, a, k - 1);
      assert s1.retirers - {t} == s.retirers - {t};
    } else {
      SeeAlone(s, t, a, k);
    }
  }

  /** The block is counted, and the arena in front of the queue if that raised its flag. */
  ghost predicate Retired(s: State, s': State, t: ThreadId, a: ArenaId, block: Block) {
    && a in s.slots && Done(s, s', t, a, !s.slots[a].word.retired) && Counted(s, s', a, block)
  }

  lemma CountAlone(s: State, t: ThreadId, a: ArenaId, block: Block, k: nat)
    requires !s.crashed && a in s.slots && block in s.slots[a].live && k >= 4
    requires t in s.retirers && s.retirers[t] == CasWord(a, block, s.slots[a].word)
    ensures Retired(s, Alone(s, t, k), t, a, block)
  {
    var s1 := RetirerStepOf(s, t);
    FirstStep(s, t, k);
    if s.slots[a].word.retired {
      AloneGone(s1, t, k - 1);
    } else {
      SeeAlone(s1, t, a, k - 1);
      assert s1.retirers - {t} == s.retirers - {t};
    }
  }

  lemma AddAlone(s: State, t: ThreadId, a: ArenaId, block: Block, k: nat)
    requires !s.crashed && AddsTo(s, t, a, block) && a in s.slots && block in s.slots[a].live && k >= 5
    ensures Retired(s, Alone(s, t, k), t, a, block)
  {
    if s.retirers[t] == CasWord(a, block, s.slots[a].word) {
      CountAlone(s, t, a, block, k);
    } else {
      var s1 := RetirerStepOf(s, t);
      FirstStep(s, t, k);
      CountAlone(s1, t, a, block, k - 1);
      assert s1.retirers - {t} == s.retirers - {t};
    }
  }

  /** Run alone, a thread is done within five steps: its bytes are counted if they were not before, and an arena whose
      flag it raised is in front of the queue. */
  lemma RetireAlone(s: State, t: ThreadId, k: nat)
    requires Reachable(s) && !s.crashed && t in s.retirers && k >= 5
    ensures var s', r := Alone(s, t, k), s.retirers[t];
            if r.Adding() then Retired(s, s', t, r.arena, r.block) else Pushed(s, s', t, r.arena)
  {
    RetirerFacts(s, t);
    if s.retirers[t].Adding() {
      AddAlone(s, t, s.retirers[t].arena, s.retirers[t].block, k);
    } else {
      PushAlone(s, t, s.retirers[t].arena, k);
    }
  }

  // ---------------------------------------------------------------------------------------------- a block's way

  lemma StepReachable(s: State, act: Action)
    requires Reachable(s) && Enabled(s, act)
    ensures Reachable(Next(s, act))
  {
    var states, acts :| IsRun(states, acts) && states[|acts|] == s;
    assert IsRun(states + [Next(s, act)], acts + [act]);
  }

  /** The client gets the next block of an arena with room, and may hand it back at once. */
  lemma AllocatedIsHeld(s: State, a: ArenaId, size: nat)
    requires Reachable(s) && !s.crashed && s.owner.Idle? && a in s.slots && size > 0
    requires s.slots[a].view.alignment > 0 && s.slots[a].view.CanAllocate(size)
    ensures Enabled(s, Allocate(a, size))
    ensures var s', block := Next(s, Allocate(a, size)), Block(s.slots[a].view.top, size);
            && !s'.crashed && s'.owner.Idle? && a in s'.slots && s'.slots[a].live == s.slots[a].live + {block}
            && block !in s.slots[a].live
            && Enabled(s', Deallocate(a, block)) && forall t | t !in s.retirers :: Enabled(s', BeginRetire(t, a, block))
  {
    ReachableInv(s);
    assert SlotOk(s.slots[a], Hand(s.owner, a));
    AllocateSlot(s.slots[a], size, 0);
    var s', block := Next(s, Allocate(a, size)), Block(s.slots[a].view.top, size);
    forall t | t in s'.retirers ensures !AddsTo(s', t, a, block) {
      assert RetirerOk(s.slots, t, s.retirers[t]);
    }
  }

  /** A block that the owner frees is credited by its aligned size, without an abort; and the arena is handed back
      exactly when that was its last live block, nothing is pending and nothing ever leaked. */
  lemma DeallocateCredits(s: State, a: ArenaId, block: Block)
    requires Reachable(s) && Enabled(s, Deallocate(a, block))
    ensures var s', slot := Next(s, Deallocate(a, block)), s.slots[a];
            && !s'.crashed
            && (a !in s'.slots <==> slot.live == {block} && slot.word.count == 0
                                    && AllMultiples(slot.retiredSizes, slot.view.alignment))
            && (a in s'.slots ==>
                  && s'.slots[a].live == slot.live - {block}
                  && s'.slots[a].view == slot.view.(freed := slot.view.freed + Align(block.size, slot.view.alignment)))
  {
    ReachableInv(s);
    var slot := s.slots[a];
    assert SlotOk(slot, Hand(s.owner, a));
    DeallocateSlot(slot, block, 0);
    var slot' := DeallocatedSlot(slot, block);
    ResettableSlot(slot', 0);
    LeakZero(slot.retiredSizes, slot.view.alignment);
    NextPreserves(s, Deallocate(a, block));
  }
}
