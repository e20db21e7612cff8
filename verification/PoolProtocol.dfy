/** One pool of chunk handles (atomic.hpp and region_chunk_allocator.hpp): a versioned lock-free free list in front of a
    bump counter, shared by any number of threads. Every load, store, compare-exchange and fetch-and-add is one step.

    A pop reads the head, then the successor of the head's node from memory that other threads may meanwhile rewrite,
    and then exchanges the head if neither its version nor its node changed. The version is unbounded here. */
module PoolProtocol {
  import opened Wrappers

  type Handle = nat
  type ThreadId = nat
  type Link = Option<Handle>

  /** The head word of the free list. */
  datatype Head = Head(version: nat, next: Link)

  /** Who owns a handle. A history variable: no step reads it. */
  datatype Place = Fresh | Free | Held | Pushing(holder: ThreadId)

  /** Where a thread stands: popping with `left` attempts remaining (negative means no limit), bumping, or pushing. */
  datatype Worker =
    | PopLoad(left: int)
    | PopRead(left: int, seen: Head)
    | PopCas(left: int, seen: Head, succ: Link)
    | BumpLoad
    | BumpAdd
    | BumpUndo
    | PushLoad(handle: Handle)
    | PushLink(handle: Handle, seen: Head)
    | PushCas(handle: Handle, seen: Head)
  {
    predicate Pushes() { PushLoad? || PushLink? || PushCas? }

    predicate Saw() { PopRead? || PopCas? || PushLink? || PushCas? }
  }

  /** A pool over the handles [first, limit). `links` is the array of next links, `top` the bump counter; `places` and
      `free` (the free list from its head) are history. */
  datatype Pool = Pool(first: Handle, limit: Handle, head: Head, top: nat, links: map<Handle, Link>,
                       workers: map<ThreadId, Worker>, places: map<Handle, Place>, free: seq<Handle>)

  /** What a finished call returns: a handle, null_link, or op_failed; a deallocation returns nothing. */
  datatype Answer = Running | Got(handle: Handle) | Null | OpFailed | Pushed

  datatype Action =
    | BeginAllocate(t: ThreadId, attempts: int)
    | BeginDeallocate(t: ThreadId, handle: Handle)
    | WorkerStep(t: ThreadId)

  predicate InRange(p: Pool, h: Handle) {
    p.first <= h < p.limit
  }

  predicate Enabled(p: Pool, act: Action) {
    match act
    case BeginAllocate(t, _) => t !in p.workers
    case BeginDeallocate(t, h) => t !in p.workers && h in p.places && p.places[h].Held?
    case WorkerStep(t) => t in p.workers && WorkerEnabled(p, p.workers[t])
  }

  /** get_next and set_next check that the node is a handle of the pool, and set_next that the link is one or null. */
  predicate WorkerEnabled(p: Pool, w: Worker) {
    && (w.PopRead? && w.left != 0 && w.seen.next.Some? ==> w.seen.next.value in p.links)
    && (w.PopCas? ==> w.seen.next.Some?)
    && (w.PushLink? ==> w.handle in p.links && (w.seen.next.Some? ==> w.seen.next.value in p.links))
    && (w.BumpUndo? ==> p.top > 0)
  }

  function Leave(p: Pool, t: ThreadId): Pool {
    p.(workers := p.workers - {t})
  }

  function Become(p: Pool, t: ThreadId, w: Worker): Pool {
    p.(workers := p.workers[t := w])
  }

  function Hold(p: Pool, h: Handle): Pool {
    p.(places := p.places[h := Held])
  }

  /** The attempt counter of AtomicListView: a negative one never runs out. */
  function OneLess(left: int): int {
    if left > 0 then left - 1 else left
  }

  function PopCasStep(p: Pool, t: ThreadId, left: int, seen: Head, succ: Link): (Pool, Answer)
    requires seen.next.Some?
  {
    if p.head == seen then
      (Hold(Leave(p, t), seen.next.value).(head := Head(seen.version + 1, succ),
                                           free := if p.free == [] then [] else p.free[1..]),
       Got(seen.next.value))
    else (Become(p, t, PopRead(OneLess(left), p.head)), Running)
  }

  function PushCasStep(p: Pool, t: ThreadId, h: Handle, seen: Head): (Pool, Answer) {
    if p.head == seen then
      (Leave(p, t).(head := Head(seen.version + 1, Some(h)), places := p.places[h := Free], free := [h] + p.free),
       Pushed)
    else (Become(p, t, PushLink(h, p.head)), Running)
  }

  /** AtomicBumpStackView::bump after its first load: an index below the limit is the caller's. */
  function BumpAddStep(p: Pool, t: ThreadId): (Pool, Answer) {
    if p.top < p.limit then (Hold(Leave(p, t), p.top).(top := p.top + 1), Got(p.top))
    else (Become(p, t, BumpUndo).(top := p.top + 1), Running)
  }

  /** One step of thread t. A pop that finds the list empty goes on to bump, as allocate_chunk_ does. */
  function WorkerStepOf(p: Pool, t: ThreadId): (Pool, Answer)
    requires t in p.workers && WorkerEnabled(p, p.workers[t])
  {
    match p.workers[t]
    case PopLoad(left) => (Become(p, t, PopRead(left, p.head)), Running)
    case PopRead(left, seen) =>
      if left == 0 then (Leave(p, t), OpFailed)
      else if seen.next.None? then (Become(p, t, BumpLoad), Running)
      else (Become(p, t, PopCas(left, seen, p.links[seen.next.value])), Running)
    case PopCas(left, seen, succ) => PopCasStep(p, t, left, seen, succ)
    case BumpLoad => if p.top >= p.limit then (Leave(p, t), Null) else (Become(p, t, BumpAdd), Running)
    case BumpAdd => BumpAddStep(p, t)
    case BumpUndo => (Leave(p, t).(top := p.top - 1), Null)
    case PushLoad(h) => (Become(p, t, PushLink(h, p.head)), Running)
    case PushLink(h, seen) => (Become(p, t, PushCas(h, seen)).(links := p.links[h := seen.next]), Running)
    case PushCas(h, seen) => PushCasStep(p, t, h, seen)
  }

  function Next(p: Pool, act: Action): Pool
    requires Enabled(p, act)
  {
    match act
    case BeginAllocate(t, attempts) => Become(p, t, PopLoad(attempts))
    case BeginDeallocate(t, h) => Become(p, t, PushLoad(h)).(places := p.places[h := Pushing(t)])
    case WorkerStep(t) => WorkerStepOf(p, t).0
  }

  /** RegionChunkAllocatorPools::create for one entry; the links hold whatever was in memory. */
  ghost predicate IsInitial(p: Pool) {
    && p.first <= p.limit
    && p.head == Head(0, None) && p.top == p.first && p.workers == map[] && p.free == []
    && (forall h :: h in p.links <==> InRange(p, h))
    && (forall h :: h in p.places <==> InRange(p, h))
    && (forall h | h in p.places :: p.places[h].Fresh?)
  }

  ghost predicate IsRun(pools: seq<Pool>, acts: seq<Action>) {
    && |pools| == |acts| + 1
    && IsInitial(pools[0])
    && forall i | 0 <= i < |acts| :: Enabled(pools[i], acts[i]) && pools[i + 1] == Next(pools[i], acts[i])
  }

  ghost predicate Reachable(p: Pool) {
    exists pools, acts :: IsRun(pools, acts) && pools[|acts|] == p
  }
}
