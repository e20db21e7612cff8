/** Two runs that break promises of the source. A block of 8 bytes in an arena aligned to 16, retired with the size the
    client asked for, makes the owner abort when it reclaims the arena; and an arena that was created with its flag up
    is lost as soon as another thread retires a block of it. */
module RetireExamples {
  import opened Wrappers
  import opened Powers
  import opened Arenas
  import opened RetireProtocol
  import RetireSafety

  lemma Extend(s: State, act: Action)
    requires Reachable(s) && Enabled(s, act)
    ensures Reachable(Next(s, act))
  {
    var states, acts :| IsRun(states, acts) && states[|acts|] == s;
    var states', acts' := states + [Next(s, act)], acts + [act];
    forall i | 0 <= i < |acts'| ensures Enabled(states'[i], acts'[i]) && states'[i + 1] == Next(states'[i], acts'[i]) {
      if i < |acts| {
        assert Enabled(states[i], acts[i]) && states[i + 1] == Next(states[i], acts[i]);
      }
    }
    assert IsRun(states', acts') && states'[|acts'|] == Next(s, act);
  }

  const THE_BLOCK := Block(0, 8)

  function Stage(top: nat, word: Word, next: Link, live: set<Block>, sizes: seq<nat>, place: Place)
    : map<ArenaId, Slot>
  {
    map[64 := Slot(Arena(64, 16, top, 0), word, next, live, sizes, false, place)]
  }

  /** Created, one block of 8 bytes handed out. */
  function Handed(): State {
    Initial.(slots := Stage(16, Word(0, false), None, {THE_BLOCK}, [], Nowhere), stored := {64})
  }

  /** Created, and nothing handed out. */
  function Created(flag: bool): State {
    Initial.(slots := map[64 := Slot(Arena(64, 16, 0, 0), Word(0, flag), None, {}, [], flag, Nowhere)])
  }

  lemma CreatedReachable(flag: bool)
    ensures Reachable(Created(flag))
  {
    assert IsRun([Initial], []) && [Initial][0] == Initial;
    Log2OfPow2(4);
    assert Pow2(4) == 16;
    Extend(Initial, Create(64, 64, 16, flag));
    assert Next(Initial, Create(64, 64, 16, flag)) == Created(flag);
  }

  /** Each block takes 16 bytes, whether it has 8 or 16. */
  lemma FirstBlock(size: nat)
    requires 0 < size <= 16
    ensures Arena(64, 16, 0, 0).CanAllocate(size)
            && Arena(64, 16, 0, 0).Acquire(size) == (Arena(64, 16, 16, 0), Some(0))
  {
    AlignProperties(size, 16);
    DivUnique(size + 15, 16, 1);
  }

  lemma AllocatedReachable(flag: bool, size: nat)
    requires 0 < size <= 16
    ensures var slot := Slot(Arena(64, 16, 16, 0), Word(0, flag), None, {Block(0, size)}, [], flag, Nowhere);
            Reachable(Initial.(slots := map[64 := slot], stored := {64}))
  {
    CreatedReachable(flag);
    FirstBlock(size);
    Extend(Created(flag), Allocate(64, size));
    var slot := Slot(Arena(64, 16, 16, 0), Word(0, flag), None, {Block(0, size)}, [], flag, Nowhere);
    assert {} + {Block(0, size)} == {Block(0, size)} && {} + {64} == {64};
    assert Created(flag).slots[64 := slot] == map[64 := slot];
    assert Next(Created(flag), Allocate(64, size)) == Initial.(slots := map[64 := slot], stored := {64});
  }

  lemma HandedReachable()
    ensures Reachable(Handed())
  {
    AllocatedReachable(false, 8);
  }

  /** Thread 1 has retired the block: 8 bytes are pending, the flag is up, and the push is about to start. */
  function Raised1(r: Retirer): State {
    Handed().(slots := Stage(16, Word(8, true), None, {}, [8], Raised(1)), retirers := map[1 := r])
  }

  lemma RaisedReachable()
    ensures Reachable(Raised1(LoadRoot(64)))
  {
    HandedReachable();
    var s1 := Handed().(retirers := map[1 := LoadWord(64, THE_BLOCK)]);
    var s2 := Handed().(retirers := map[1 := CasWord(64, THE_BLOCK, Word(0, false))]);
    Extend(Handed(), BeginRetire(1, 64, THE_BLOCK));
    assert Next(Handed(), BeginRetire(1, 64, THE_BLOCK)) == s1;
    Extend(s1, RetirerStep(1));
    assert Next(s1, RetirerStep(1)) == s2;
    Extend(s2, RetirerStep(1));
    assert {THE_BLOCK} - {THE_BLOCK} == {} && [] + [8] == [8];
    assert Next(s2, RetirerStep(1)) == Raised1(LoadRoot(64));
  }

  /** The arena is on the shared list. */
  function Pushed(): State {
    Handed().(slots := Stage(16, Word(8, true), None, {}, [8], Listed),
              root := Root(Some(64), true), shared := [64], pushes := [64])
  }

  lemma PushedReachable()
    ensures Reachable(Pushed())
  {
    RaisedReachable();
    Extend(Raised1(LoadRoot(64)), RetirerStep(1));
    assert Next(Raised1(LoadRoot(64)), RetirerStep(1)) == Raised1(SetNext(64, Root(None, true)));
    Extend(Raised1(SetNext(64, Root(None, true))), RetirerStep(1));
    assert Next(Raised1(SetNext(64, Root(None, true))), RetirerStep(1)) == Raised1(CasRoot(64, Root(None, true)));
    Extend(Raised1(CasRoot(64, Root(None, true))), RetirerStep(1));
    assert Next(Raised1(CasRoot(64, Root(None, true))), RetirerStep(1)) == Pushed();
  }

  /** The owner has snatched the list, popped the arena and exchanged its word: 8 bytes are in its hand. */
  function InHand8(): State {
    Initial.(slots := Stage(16, Word(0, false), None, {}, [8], Nowhere), owner := Fold(64, 8),
             pushes := [64], taken := [64])
  }

  /** The owner has snatched the list. */
  function Taken(): State {
    Pushed().(slots := Stage(16, Word(8, true), None, {}, [8], Snatched), root := Root(None, true),
              list := Some(64), shared := [], snatched := [64], taken := [64])
  }

  lemma TakenReachable()
    ensures Reachable(Taken())
  {
    PushedReachable();
    var s1 := Pushed().(owner := ExchangeRoot(Root(Some(64), true)));
    Extend(Pushed(), BeginReclaim);
    assert Next(Pushed(), BeginReclaim) == s1;
    Extend(s1, OwnerStep);
    assert Next(s1, OwnerStep) == Taken();
  }

  lemma InHandReachable()
    ensures Reachable(InHand8())
  {
    TakenReachable();
    var s1 := Taken().(slots := Stage(16, Word(8, true), None, {}, [8], InHand), list := None, snatched := [],
                       owner := LoadFlags(64));
    var s2 := s1.(stored := {}, owner := ExchangeWord(64));
    Extend(Taken(), Pop);
    assert Next(Taken(), Pop) == s1;
    Extend(s1, OwnerStep);
    assert Next(s1, OwnerStep) == s2;
    Extend(s2, OwnerStep);
    assert Next(s2, OwnerStep) == InHand8();
  }

  /** A client that obeys every rule of the interface, but retires 8 bytes of a 16-byte slot, aborts the owner. */
  lemma MisalignedRetireAborts()
    ensures Reachable(InHand8()) && Enabled(InHand8(), OwnerStep) && Reachable(Next(InHand8(), OwnerStep))
    ensures Next(InHand8(), OwnerStep).crashed
  {
    InHandReachable();
    Extend(InHand8(), OwnerStep);
  }

  /** An arena created with the flag up, all of whose one block of 16 bytes another thread has retired. */
  function LostSlot(top: nat, count: nat, live: set<Block>, sizes: seq<nat>): Slot {
    Slot(Arena(64, 16, top, 0), Word(count, true), None, live, sizes, true, Nowhere)
  }

  function Lost(): State {
    Initial.(slots := map[64 := LostSlot(16, 16, {}, [16])], stored := {64})
  }

  const WHOLE_BLOCK := Block(0, 16)

  lemma LostReachable()
    ensures Reachable(Lost())
  {
    AllocatedReachable(true, 16);
    var s0 := Initial.(slots := map[64 := LostSlot(16, 0, {WHOLE_BLOCK}, [])], stored := {64});
    var s1 := s0.(retirers := map[1 := LoadWord(64, WHOLE_BLOCK)]);
    var s2 := s0.(retirers := map[1 := CasWord(64, WHOLE_BLOCK, Word(0, true))]);
    Extend(s0, BeginRetire(1, 64, WHOLE_BLOCK));
    assert Next(s0, BeginRetire(1, 64, WHOLE_BLOCK)) == s1;
    Extend(s1, RetirerStep(1));
    assert Next(s1, RetirerStep(1)) == s2;
    Extend(s2, RetirerStep(1));
    assert {WHOLE_BLOCK} - {WHOLE_BLOCK} == {} && [] + [16] == [16];
    assert Next(s2, RetirerStep(1)) == Lost();
  }

  /** Everything was given back, aligned, and nobody is at work; but the arena is on no list, and whatever is done next
      it is still there with its bytes pending. */
  lemma BornRetiredIsLost(act: Action)
    ensures Reachable(Lost()) && Lost().retirers == map[] && Lost().shared == Lost().snatched == []
    ensures var slot := Lost().slots[64]; slot.bornRetired && slot.live == {} && slot.word.count == slot.view.top
    ensures Enabled(Lost(), act) ==> 64 in Next(Lost(), act).slots && Next(Lost(), act).slots[64].word.count >= 16
  {
    LostReachable();
    if Enabled(Lost(), act) {
      RetireSafety.BornRetiredIsStuck(Lost(), act, 64);
    }
  }
}
