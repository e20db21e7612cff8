/** The retire-reclaim protocol of retire_reclaim.hpp over the arenas of one step-split allocator, as an interleaving
    of atomic steps by one owning thread and any number of retiring threads.

    Every load, compare-exchange and exchange of a shared word, and every write of an arena's `next` link, is one step.
    An arena is named by its address, so a returned arena may later be created again under the same name. */
module RetireProtocol {
  import opened Wrappers
  import opened Powers
  import opened Arenas

  type ArenaId = nat
  type ThreadId = nat
  type Link = Option<ArenaId>

  /** A live allocation: where it starts in its arena, and the size the client asked for. */
  datatype Block = Block(offset: nat, size: nat)

  /** An arena's packed retire word: bytes retired and not yet reclaimed, and the retired flag. */
  datatype Word = Word(count: nat, retired: bool)

  /** The allocator's packed root word: head of the list of retired arenas, and the retired flag. */
  datatype Root = Root(head: Link, retired: bool)

  /** Who may write an arena's `next` link. A history variable: no step reads it. */
  datatype Place = Nowhere | Raised(holder: ThreadId) | Listed | Snatched | InHand

  /** An arena and its retire-reclaim entry. The last four fields are history: the client's live blocks, the sizes
      retired since creation, whether the arena was created with the flag raised, and the holder of the flag. */
  datatype Slot = Slot(view: Arena, word: Word, next: Link,
                       live: set<Block>, retiredSizes: seq<nat>, bornRetired: bool, place: Place)

  /** Where a thread stands inside `retire`: retire_data on the arena's word, then retire_ptr on the root. */
  datatype Retirer =
    | LoadWord(arena: ArenaId, block: Block)
    | CasWord(arena: ArenaId, block: Block, seenWord: Word)
    | LoadRoot(arena: ArenaId)
    | SetNext(arena: ArenaId, seenRoot: Root)
    | CasRoot(arena: ArenaId, seenRoot: Root)
  {
    predicate Adding() { LoadWord? || CasWord? }
  }

  /** Where the owner stands inside reclaim_arenas, or between popping an arena and the end of reclaim_arena. */
  datatype Owner =
    | Idle
    | ExchangeRoot(seen: Root)
    | LoadFlags(arena: ArenaId)
    | ExchangeWord(arena: ArenaId)
    | Fold(arena: ArenaId, amount: nat)

  /** `list` is the head of the owner's snatched list. `shared`, `snatched`, `pushes` and `taken` are history: the
      arenas chained from the root and from `list`, and every push and every snatched arena, newest first. */
  datatype State = State(
    slots: map<ArenaId, Slot>,
    stored: set<ArenaId>,
    root: Root,
    owner: Owner,
    list: Link,
    retirers: map<ThreadId, Retirer>,
    crashed: bool,
    shared: seq<ArenaId>,
    snatched: seq<ArenaId>,
    pushes: seq<ArenaId>,
    taken: seq<ArenaId>)

  const Initial := State(map[], {}, Root(None, true), Idle, None, map[], false, [], [], [], [])

  /** What the environment picks next. The client hands a block back at most once. */
  datatype Action =
    | Create(a: ArenaId, capacity: nat, alignment: nat, flag: bool)
    | Allocate(a: ArenaId, size: nat)
    | Deallocate(a: ArenaId, block: Block)
    | BeginRetire(t: ThreadId, a: ArenaId, block: Block)
    | RetirerStep(t: ThreadId)
    | BeginReclaim
    | Pop
    | OwnerStep

  // ---------------------------------------------------------------------------------------------- steps

  /** The client still holds the block: it is live and no thread is in the middle of retiring it. */
  predicate ClientHolds(s: State, a: ArenaId, block: Block) {
    && a in s.slots
    && block in s.slots[a].live
    && forall t | t in s.retirers ::
        !(s.retirers[t].Adding() && s.retirers[t].arena == a && s.retirers[t].block == block)
  }

  ghost predicate Enabled(s: State, act: Action) {
    && !s.crashed
    && match act
       case Create(a, capacity, alignment, flag) =>
         s.owner.Idle? && a !in s.slots && Arenas.Create(capacity, alignment).Some?
       case Allocate(a, size) =>
         s.owner.Idle? && a in s.slots && size > 0
         && s.slots[a].view.alignment > 0 && s.slots[a].view.CanAllocate(size)
       case Deallocate(a, block) => s.owner.Idle? && ClientHolds(s, a, block) && s.slots[a].view.alignment > 0
       case BeginRetire(t, a, block) => t !in s.retirers && ClientHolds(s, a, block)
       case RetirerStep(t) => t in s.retirers && s.retirers[t].arena in s.slots
       case BeginReclaim => s.owner.Idle? && s.list.None?
       case Pop => s.owner.Idle? && s.list.Some? && s.list.value in s.slots
       case OwnerStep =>
         match s.owner
         case Idle => false
         case ExchangeRoot(seen) => true
         case _ => s.owner.arena in s.slots && s.slots[s.owner.arena].view.alignment > 0
  }

  function Put(s: State, a: ArenaId, slot: Slot): State {
    s.(slots := s.slots[a := slot])
  }

  function Crash(s: State): State {
    s.(crashed := true)
  }

  function CreateStep(s: State, a: ArenaId, view: Arena, flag: bool): State {
    Put(s, a, Slot(view, Word(0, flag), None, {}, [], flag, Nowhere))
  }

  /** FastArenaStepSplitAllocator::allocate: bump the arena and (re)store it in the bins. */
  function AllocateStep(s: State, a: ArenaId, size: nat): State
    requires a in s.slots && s.slots[a].view.alignment > 0
  {
    var slot := s.slots[a];
    var (view, offset) := slot.view.Acquire(size);
    if offset.None? then Crash(s)
    else Put(s, a, slot.(view := view, live := slot.live + {Block(offset.value, size)})).(stored := s.stored + {a})
  }

  /** Takes an arena out of the bins and returns it to the chunk allocator. */
  function Return(s: State, a: ArenaId): State {
    s.(slots := s.slots - {a}, stored := s.stored - {a})
  }

  /** FastArenaStepSplitAllocator::deallocate by the owner. */
  function DeallocateStep(s: State, a: ArenaId, block: Block): State
    requires a in s.slots && s.slots[a].view.alignment > 0
  {
    var slot := s.slots[a];
    var released := slot.view.ReleaseAligned(block.offset, Align(block.size, slot.view.alignment));
    if released.None? then Crash(s)
    else if released.value.Resettable() then
      if a in s.stored then Return(s, a) else Crash(s)
    else Put(s, a, slot.(view := released.value, live := slot.live - {block}))
  }

  /** The slot after retire_data's exchange by t, which also raises the flag if it was down. */
  function AddedSlot(slot: Slot, t: ThreadId, block: Block): Slot {
    slot.(word := Word(slot.word.count + block.size, true), live := slot.live - {block},
          retiredSizes := slot.retiredSizes + [block.size],
          place := if slot.word.retired then slot.place else Raised(t))
  }

  /** One step of `retire` by thread t. The count added is the size the client passed, not its aligned size. */
  function RetirerStepOf(s: State, t: ThreadId): State
    requires t in s.retirers && s.retirers[t].arena in s.slots
  {
    var a := s.retirers[t].arena;
    var slot := s.slots[a];
    match s.retirers[t]
    case LoadWord(_, block) => s.(retirers := s.retirers[t := CasWord(a, block, slot.word)])
    case CasWord(_, block, seen) =>
      if slot.word != seen then s.(retirers := s.retirers[t := CasWord(a, block, slot.word)])
      else
        Put(s, a, AddedSlot(slot, t, block)).(
          retirers := if seen.retired then s.retirers - {t} else s.retirers[t := LoadRoot(a)])
    case LoadRoot(_) => s.(retirers := s.retirers[t := SetNext(a, s.root)])
    case SetNext(_, seen) =>
      Put(s, a, slot.(next := seen.head)).(retirers := s.retirers[t := CasRoot(a, seen)])
    case CasRoot(_, seen) =>
      if s.root != seen then s.(retirers := s.retirers[t := SetNext(a, s.root)])
      else
        Put(s, a, slot.(place := Listed)).(root := Root(Some(a), true), retirers := s.retirers - {t},
                                           shared := [a] + s.shared, pushes := [a] + s.pushes)
  }

  /** FastArenaReclaimList::pop; the arena goes on to reclaim_arena. */
  function PopStep(s: State): State
    requires s.list.Some? && s.list.value in s.slots
  {
    var a := s.list.value;
    Put(s, a, s.slots[a].(next := None, place := InHand)).(
      list := s.slots[a].next, owner := LoadFlags(a), snatched := if s.snatched == [] then [] else s.snatched[1..])
  }

  /** RetireReclaimPtrView::reclaim on the root: keep the flag that was loaded, take the whole list. */
  function ExchangeRootStep(s: State, seen: Root): State {
    var slots := map a | a in s.slots :: if a in s.shared then s.slots[a].(place := Snatched) else s.slots[a];
    s.(root := Root(None, seen.retired), list := s.root.head, owner := Idle,
       slots := slots, shared := [], snatched := s.shared, taken := s.shared + s.taken)
  }

  /** reclaim_arena after its exchange: fold the count into `freed`, then return the arena or put it back. */
  function FoldStep(s: State, a: ArenaId, amount: nat): State
    requires a in s.slots && s.slots[a].view.alignment > 0
  {
    var released := s.slots[a].view.ReleaseReclaimed(amount);
    if released.None? then Crash(s)
    else if released.value.Resettable() then Return(s, a).(owner := Idle)
    else Put(s, a, s.slots[a].(view := released.value)).(owner := Idle, stored := s.stored + {a})
  }

  function OwnerStepOf(s: State): State
    requires match s.owner
             case Idle => false
             case ExchangeRoot(_) => true
             case _ => s.owner.arena in s.slots && s.slots[s.owner.arena].view.alignment > 0
  {
    match s.owner
    case ExchangeRoot(seen) => ExchangeRootStep(s, seen)
    case LoadFlags(a) =>
      if a in s.stored && s.slots[a].word.retired then s.(stored := s.stored - {a}, owner := ExchangeWord(a))
      else Crash(s)
    case ExchangeWord(a) =>
      Put(s, a, s.slots[a].(word := Word(0, false), place := Nowhere)).(owner := Fold(a, s.slots[a].word.count))
    case Fold(a, amount) => FoldStep(s, a, amount)
  }

  ghost function Next(s: State, act: Action): State
    requires Enabled(s, act)
  {
    match act
    case Create(a, capacity, alignment, flag) => CreateStep(s, a, Arenas.Create(capacity, alignment).value, flag)
    case Allocate(a, size) => AllocateStep(s, a, size)
    case Deallocate(a, block) => DeallocateStep(s, a, block)
    case BeginRetire(t, a, block) => s.(retirers := s.retirers[t := LoadWord(a, block)])
    case RetirerStep(t) => RetirerStepOf(s, t)
    case BeginReclaim => if s.root.retired then s.(owner := ExchangeRoot(s.root)) else Crash(s)
    case Pop => PopStep(s)
    case OwnerStep => OwnerStepOf(s)
  }

  /** The states visited by a run of the protocol from the initial state, under the given actions. */
  ghost predicate IsRun(states: seq<State>, acts: seq<Action>) {
    && |states| == |acts| + 1
    && states[0] == Initial
    && forall i | 0 <= i < |acts| :: Enabled(states[i], acts[i]) && states[i + 1] == Next(states[i], acts[i])
  }

  ghost predicate Reachable(s: State) {
    exists states, acts :: IsRun(states, acts) && states[|acts|] == s
  }
}
