/** Safety of a handle pool under every interleaving: the version argument against ABA, conservation of handles, and
    the bounds of the overshooting bump counter. */
module PoolSafety {
  import opened Wrappers
  import opened PoolProtocol

  // ---------------------------------------------------------------------------------------------- the invariant

  ghost predicate NoRepeats(q: seq<Handle>) {
    forall i, j | 0 <= i < j < |q| :: q[i] != q[j]
  }

  function LinkTo(q: seq<Handle>): Link {
    if q == [] then None else Some(q[0])
  }

  /** Following `links` from `start` visits exactly the handles of q, in order, and then ends. */
  ghost predicate Spells(links: map<Handle, Link>, start: Link, q: seq<Handle>) {
    && start == LinkTo(q)
    && (forall i | 0 <= i < |q| :: q[i] in links && links[q[i]] == LinkTo(q[i + 1..]))
  }

  ghost predicate ListOk(p: Pool) {
    && Spells(p.links, p.head.next, p.free)
    && NoRepeats(p.free)
    && (forall h | h in p.places :: p.places[h].Free? <==> h in p.free)
    && (forall h | h in p.free :: h in p.places)
  }

  ghost predicate RangeOk(p: Pool) {
    && p.first <= p.limit && p.first <= p.top
    && (forall h :: h in p.links <==> InRange(p, h))
    && (forall h :: h in p.places <==> InRange(p, h))
    && (forall h | h in p.places :: p.places[h].Fresh? <==> h >= p.top)
  }

  /** A head seen earlier: its version is not from the future, and the same version means the very same head. */
  predicate SeenOk(p: Pool, seen: Head) {
    && seen.version <= p.head.version
    && (seen.version == p.head.version ==> seen == p.head)
    && (seen.next.Some? ==> InRange(p, seen.next.value))
  }

  ghost predicate WorkerOk(p: Pool, t: ThreadId, w: Worker) {
    && (w.Saw() ==> SeenOk(p, w.seen))
    && (w.PopCas? ==> w.seen.next.Some?)
    && (w.PopCas? && w.seen == p.head && w.seen.next.value in p.links ==> p.links[w.seen.next.value] == w.succ)
    && (w.Pushes() ==> w.handle in p.places && p.places[w.handle] == Pushing(t))
    && (w.PushCas? && w.handle in p.links ==> p.links[w.handle] == w.seen.next)
  }

  ghost predicate WorkersOk(p: Pool) {
    && (forall t | t in p.workers :: WorkerOk(p, t, p.workers[t]))
    && (forall h | h in p.places && p.places[h].Pushing? ::
          var t := p.places[h].holder; t in p.workers && p.workers[t].Pushes() && p.workers[t].handle == h)
  }

  /** The threads that overshot the limit and have not yet taken their increment back. */
  function Undoers(workers: map<ThreadId, Worker>): set<ThreadId> {
    set t | t in workers && workers[t].BumpUndo?
  }

  predicate BumpOk(p: Pool) {
    if Undoers(p.workers) == {} then p.top <= p.limit else p.top == p.limit + |Undoers(p.workers)|
  }

  ghost predicate Inv(p: Pool) {
    RangeOk(p) && ListOk(p) && WorkersOk(p) && BumpOk(p)
  }

  // ---------------------------------------------------------------------------------------------- steps

  lemma InitialInv(p: Pool)
    requires IsInitial(p)
    ensures Inv(p)
  {
    assert Undoers(p.workers) == {};
  }

  lemma UndoersKeep(workers: map<ThreadId, Worker>, t: ThreadId, w: Worker)
    requires !w.BumpUndo? && (t in workers ==> !workers[t].BumpUndo?)
    ensures Undoers(workers[t := w]) == Undoers(workers)
    ensures Undoers(workers - {t}) == Undoers(workers)
  {
  }

  /** A thread changes only its own registers. */
  lemma BecomePreserves(p: Pool, t: ThreadId, w: Worker)
    requires Inv(p) && WorkerOk(p, t, w) && !w.BumpUndo?
    requires t in p.workers ==>
               && !p.workers[t].BumpUndo? && w.Pushes() == p.workers[t].Pushes()
               && (w.Pushes() ==> w.handle == p.workers[t].handle)
    requires t !in p.workers ==> !w.Pushes()
    ensures Inv(Become(p, t, w))
  {
    UndoersKeep(p.workers, t, w);
    forall u | u in p.workers ensures WorkerOk(Become(p, t, w), u, p.workers[u]) {
      assert WorkerOk(p, u, p.workers[u]);
    }
  }

  lemma LeavePreserves(p: Pool, t: ThreadId)
    requires Inv(p) && t in p.workers && !p.workers[t].BumpUndo? && !p.workers[t].Pushes()
    ensures Inv(Leave(p, t))
  {
    UndoersKeep(p.workers, t, PopLoad(0));
    forall u | u in p.workers ensures WorkerOk(Leave(p, t), u, p.workers[u]) {
      assert WorkerOk(p, u, p.workers[u]);
    }
  }

  lemma BeginDeallocatePreserves(p: Pool, t: ThreadId, h: Handle)
    requires Inv(p) && Enabled(p, BeginDeallocate(t, h))
    ensures Inv(Next(p, BeginDeallocate(t, h)))
  {
    var p' := Next(p, BeginDeallocate(t, h));
    UndoersKeep(p.workers, t, PushLoad(h));
    forall u | u in p'.workers ensures WorkerOk(p', u, p'.workers[u]) {
      if u != t {
        assert WorkerOk(p, u, p.workers[u]);
      }
    }
  }

  /** The version argument: if the head is unchanged when a pop exchanges it, the link the pop read is still the
      successor of the node at the head. */
  lemma PopReadIsCurrent(p: Pool, t: ThreadId)
    requires Inv(p) && t in p.workers && p.workers[t].PopCas? && p.workers[t].seen == p.head
    ensures p.free != [] && p.workers[t].seen.next == Some(p.free[0])
    ensures p.workers[t].succ == LinkTo(p.free[1..])
  {
    assert WorkerOk(p, t, p.workers[t]);
    assert p.free[0] in p.links && p.links[p.free[0]] == LinkTo(p.free[0 + 1..]);
  }

  lemma PopListOk(p: Pool)
    requires ListOk(p) && p.free != []
    ensures p.free[0] in p.places
    ensures ListOk(Hold(p, p.free[0]).(head := Head(p.head.version + 1, LinkTo(p.free[1..])), free := p.free[1..]))
  {
    var q := p.free[1..];
    assert p.free == [p.free[0]] + q;
    forall i | 0 <= i < |q| ensures q[i] in p.links && p.links[q[i]] == LinkTo(q[i + 1..]) {
      assert q[i] == p.free[i + 1] && q[i + 1..] == p.free[i + 2..];
    }
  }

  lemma PopPreserves(p: Pool, t: ThreadId)
    requires Inv(p) && t in p.workers && p.workers[t].PopCas? && p.workers[t].seen == p.head
    ensures p.workers[t].seen.next.Some? && Inv(PopCasStep(p, t, p.workers[t].left, p.head, p.workers[t].succ).0)
  {
    PopReadIsCurrent(p, t);
    PopListOk(p);
    UndoersKeep(p.workers, t, PopLoad(0));
    var p' := PopCasStep(p, t, p.workers[t].left, p.head, p.workers[t].succ).0;
    forall u | u in p'.workers ensures WorkerOk(p', u, p'.workers[u]) {
      assert WorkerOk(p, u, p.workers[u]);
    }
  }

  lemma PushListOk(p: Pool, h: Handle)
    requires ListOk(p) && h in p.places && h in p.links && p.places[h].Pushing? && p.links[h] == p.head.next
    ensures ListOk(p.(head := Head(p.head.version + 1, Some(h)), places := p.places[h := Free], free := [h] + p.free))
  {
    var q := [h] + p.free;
    assert q[1..] == p.free;
    forall i | 0 <= i < |q| ensures q[i] in p.links && p.links[q[i]] == LinkTo(q[i + 1..]) {
      if i > 0 {
        assert q[i] == p.free[i - 1] && q[i + 1..] == p.free[i..];
      }
    }
  }

  lemma PushPreserves(p: Pool, t: ThreadId)
    requires Inv(p) && t in p.workers && p.workers[t].PushCas? && p.workers[t].seen == p.head
    ensures Inv(PushCasStep(p, t, p.workers[t].handle, p.head).0)
  {
    var h := p.workers[t].handle;
    assert WorkerOk(p, t, p.workers[t]);
    PushListOk(p, h);
    UndoersKeep(p.workers, t, PopLoad(0));
    var p' := PushCasStep(p, t, h, p.head).0;
    forall u | u in p'.workers ensures WorkerOk(p', u, p'.workers[u]) {
      assert WorkerOk(p, u, p.workers[u]);
    }
  }

  /** Linking a handle that is being pushed disturbs no list and no pop that could still succeed. */
  lemma LinkPreserves(p: Pool, t: ThreadId)
    requires Inv(p) && t in p.workers && p.workers[t].PushLink?
    ensures p.workers[t].handle in p.links && Inv(WorkerStepOf(p, t).0)
  {
    var h := p.workers[t].handle;
    assert WorkerOk(p, t, p.workers[t]);
    UndoersKeep(p.workers, t, PopLoad(0));
    UndoersKeep(p.workers, t, PushCas(h, p.workers[t].seen));
    var p' := WorkerStepOf(p, t).0;
    assert p'.workers == p.workers[t := PushCas(h, p.workers[t].seen)];
    forall i | 0 <= i < |p.free| ensures p.free[i] in p'.links && p'.links[p.free[i]] == LinkTo(p.free[i + 1..]) {
      assert p.free[i] in p.free;
    }
    forall u | u in p'.workers ensures WorkerOk(p', u, p'.workers[u]) {
      if u != t {
        assert WorkerOk(p, u, p.workers[u]);
        if p.workers[u].PopCas? && p.workers[u].seen == p.head {
          assert p.free[0] in p.free;
        }
      }
    }
  }

  /** An index below the limit is handed out ... */
  lemma BumpTakes(p: Pool, t: ThreadId)
    requires Inv(p) && t in p.workers && p.workers[t].BumpAdd? && p.top < p.limit
    ensures Inv(BumpAddStep(p, t).0)
  {
    var p' := BumpAddStep(p, t).0;
    UndoersKeep(p.workers, t, PopLoad(0));
    assert InRange(p, p.top);
    forall u | u in p'.workers ensures WorkerOk(p', u, p'.workers[u]) {
      assert WorkerOk(p, u, p.workers[u]);
    }
  }

  /** ... and an increment beyond it has to be taken back. */
  lemma BumpOvershoots(p: Pool, t: ThreadId)
    requires Inv(p) && t in p.workers && p.workers[t].BumpAdd? && p.top >= p.limit
    ensures Inv(BumpAddStep(p, t).0)
  {
    var p' := BumpAddStep(p, t).0;
    assert Undoers(p'.workers) == Undoers(p.workers) + {t};
    forall u | u in p'.workers ensures WorkerOk(p', u, p'.workers[u]) {
      if u != t {
        assert WorkerOk(p, u, p.workers[u]);
      }
    }
  }

  lemma BumpPreserves(p: Pool, t: ThreadId)
    requires Inv(p) && t in p.workers && p.workers[t].BumpAdd?
    ensures Inv(BumpAddStep(p, t).0)
  {
    if p.top < p.limit {
      BumpTakes(p, t);
    } else {
      BumpOvershoots(p, t);
    }
  }

  lemma UndoPreserves(p: Pool, t: ThreadId)
    requires Inv(p) && t in p.workers && p.workers[t].BumpUndo?
    ensures p.top > p.limit && Inv(WorkerStepOf(p, t).0)
  {
    assert t in Undoers(p.workers);
    var p' := WorkerStepOf(p, t).0;
    assert Undoers(p'.workers) == Undoers(p.workers) - {t};
    assert |Undoers(p'.workers)| == |Undoers(p.workers)| - 1;
    forall u | u in p'.workers ensures WorkerOk(p', u, p'.workers[u]) {
      assert WorkerOk(p, u, p.workers[u]);
    }
  }

  lemma PopStepPreserves(p: Pool, t: ThreadId)
    requires Inv(p) && t in p.workers && (p.workers[t].PopLoad? || p.workers[t].PopRead? || p.workers[t].PopCas?)
    ensures WorkerEnabled(p, p.workers[t]) && Inv(WorkerStepOf(p, t).0)
  {
    assert WorkerOk(p, t, p.workers[t]);
    match p.workers[t]
    case PopLoad(left) => BecomePreserves(p, t, PopRead(left, p.head));
    case PopRead(left, seen) =>
      if left == 0 {
        LeavePreserves(p, t);
      } else if seen.next.None? {
        BecomePreserves(p, t, BumpLoad);
      } else {
        BecomePreserves(p, t, PopCas(left, seen, p.links[seen.next.value]));
      }
    case PopCas(left, seen, succ) =>
      if p.head == seen {
        PopPreserves(p, t);
      } else {
        BecomePreserves(p, t, PopRead(OneLess(left), p.head));
      }
  }

  lemma PushStepPreserves(p: Pool, t: ThreadId)
    requires Inv(p) && t in p.workers && p.workers[t].Pushes()
    ensures WorkerEnabled(p, p.workers[t]) && Inv(WorkerStepOf(p, t).0)
  {
    assert WorkerOk(p, t, p.workers[t]);
    match p.workers[t]
    case PushLoad(h) => BecomePreserves(p, t, PushLink(h, p.head));
    case PushLink(_, _) => LinkPreserves(p, t);
    case PushCas(h, seen) =>
      if p.head == seen {
        PushPreserves(p, t);
      } else {
        BecomePreserves(p, t, PushLink(h, p.head));
      }
  }

  lemma WorkerPreserves(p: Pool, t: ThreadId)
    requires Inv(p) && t in p.workers
    ensures WorkerEnabled(p, p.workers[t]) && Inv(WorkerStepOf(p, t).0)
  {
    match p.workers[t]
    case BumpLoad =>
      if p.top >= p.limit {
        LeavePreserves(p, t);
      } else {
        BecomePreserves(p, t, BumpAdd);
      }
    case BumpAdd => BumpPreserves(p, t);
    case BumpUndo => UndoPreserves(p, t);
    case PushLoad(_) => PushStepPreserves(p, t);
    case PushLink(_, _) => PushStepPreserves(p, t);
    case PushCas(_, _) => PushStepPreserves(p, t);
    case PopLoad(_) => PopStepPreserves(p, t);
    case PopRead(_, _) => PopStepPreserves(p, t);
    case PopCas(_, _, _) => PopStepPreserves(p, t);
  }

  lemma NextPreserves(p: Pool, act: Action)
    requires Inv(p) && Enabled(p, act)
    ensures Inv(Next(p, act))
  {
    match act
    case BeginAllocate(t, attempts) => BecomePreserves(p, t, PopLoad(attempts));
    case BeginDeallocate(t, h) => BeginDeallocatePreserves(p, t, h);
    case WorkerStep(t) => WorkerPreserves(p, t);
  }

  lemma {:induction false} RunInv(pools: seq<Pool>, acts: seq<Action>, n: nat)
    requires IsRun(pools, acts) && n <= |acts|
    ensures Inv(pools[n])
  {
    if n == 0 {
      InitialInv(pools[0]);
    } else {
      RunInv(pools, acts, n - 1);
      NextPreserves(pools[n - 1], acts[n - 1]);
    }
  }

  lemma ReachableInv(p: Pool)
    requires Reachable(p)
    ensures Inv(p)
  {
    var pools, acts :| IsRun(pools, acts) && pools[|acts|] == p;
    RunInv(pools, acts, |acts|);
  }

  // ---------------------------------------------------------------------------------------------- theorems

  /** A thread between taking a handle back from its client and its successful exchange on the head. */
  predicate InFlight(p: Pool, t: ThreadId, h: Handle) {
    t in p.workers && p.workers[t].Pushes() && p.workers[t].handle == h
  }

  /** Handle conservation: in every reachable state each handle of the pool is in exactly one place: not yet bumped, on
      the chain that starts at the head word, with one client, or in the hands of one pushing thread. */
  lemma HandleConservation(p: Pool, h: Handle)
    requires Reachable(p) && InRange(p, h)
    ensures Spells(p.links, p.head.next, p.free) && NoRepeats(p.free) && h in p.places
    ensures p.places[h].Fresh? <==> h >= p.top
    ensures p.places[h].Free? <==> h in p.free
    ensures p.places[h].Pushing? <==> exists t :: InFlight(p, t, h)
    ensures forall t, u | InFlight(p, t, h) && InFlight(p, u, h) :: t == u
  {
    ReachableInv(p);
    assert forall t | t in p.workers :: WorkerOk(p, t, p.workers[t]);
    if p.places[h].Pushing? {
      assert InFlight(p, p.places[h].holder, h);
    }
  }

  /** A handle that an allocation returns was on the free list or not yet bumped. */
  lemma GrantedIsFree(p: Pool, t: ThreadId)
    requires Inv(p) && Enabled(p, WorkerStep(t))
    ensures var answer := WorkerStepOf(p, t).1;
            answer.Got? ==>
              InRange(p, answer.handle) && (p.places[answer.handle].Fresh? || p.places[answer.handle].Free?)
  {
    assert WorkerOk(p, t, p.workers[t]);
    if p.workers[t].PopCas? && p.workers[t].seen == p.head {
      PopReadIsCurrent(p, t);
    }
  }

  /** What an answer of a thread's step means. */
  ghost predicate Means(p: Pool, t: ThreadId, p': Pool, answer: Answer)
    requires t in p.workers
  {
    match answer
    case Running => t in p'.workers && p'.free == p.free && p'.places == p.places
    case Got(h) =>
      t !in p'.workers && h in p.places && (p.places[h].Fresh? || p.places[h].Free?) && p'.places == p.places[h := Held]
    case Null => t !in p'.workers && p'.places == p.places && forall h | h in p.places :: !p.places[h].Fresh?
    case OpFailed => p.workers[t].PopRead? && p.workers[t].left == 0 && p' == Leave(p, t)
    case Pushed => p.workers[t].PushCas? && p'.places == p.places[p.workers[t].handle := Free]
  }

  /** An allocation never hands out a handle that a client or a pushing thread still has; a null answer means that
      every handle has been bumped, and op_failed that the attempts ran out. */
  lemma AnswerMeaning(p: Pool, t: ThreadId)
    requires Reachable(p) && Enabled(p, WorkerStep(t))
    ensures var (p', answer) := WorkerStepOf(p, t); Means(p, t, p', answer)
  {
    ReachableInv(p);
    match p.workers[t]
    case PopCas(_, _, _) => PopMeaning(p, t);
    case BumpAdd => BumpMeaning(p, t);
    case BumpLoad => NullMeaning(p, t);
    case BumpUndo => NullMeaning(p, t);
    case _ =>
  }

  lemma PopMeaning(p: Pool, t: ThreadId)
    requires Inv(p) && t in p.workers && p.workers[t].PopCas? && WorkerEnabled(p, p.workers[t])
    ensures var (p', answer) := WorkerStepOf(p, t); Means(p, t, p', answer)
  {
    if p.workers[t].seen == p.head {
      PopReadIsCurrent(p, t);
      assert p.free[0] in p.free;
    }
  }

  lemma BumpMeaning(p: Pool, t: ThreadId)
    requires Inv(p) && t in p.workers && p.workers[t].BumpAdd?
    ensures var (p', answer) := WorkerStepOf(p, t); Means(p, t, p', answer)
  {
    assert p.top < p.limit ==> InRange(p, p.top);
  }

  lemma NullMeaning(p: Pool, t: ThreadId)
    requires Inv(p) && t in p.workers && (p.workers[t].BumpLoad? || p.workers[t].BumpUndo?)
             && WorkerEnabled(p, p.workers[t])
    ensures var (p', answer) := WorkerStepOf(p, t); Means(p, t, p', answer)
  {
    if p.workers[t].BumpUndo? {
      UndoPreserves(p, t);
    }
  }

  /** What a step of a worker may do to the free list seen as a sequence. */
  predicate SequenceStep(before: seq<Handle>, after: seq<Handle>, w: Worker, answer: Answer) {
    match answer
    case Got(h) => if w.PopCas? then before == [h] + after else w.BumpAdd? && after == before
    case Pushed => w.Pushes() && after == [w.handle] + before
    case _ => after == before
  }

  /** The versioned list refines a sequence: whatever the interleaving, a successful pop removes the handle at the head
      of the sequence and returns it, a successful push puts its handle in front, every other step leaves the sequence
      alone, and the links in memory always spell it from the head word. */
  lemma ListRefinesSequence(p: Pool, t: ThreadId)
    requires Reachable(p) && Enabled(p, WorkerStep(t))
    ensures var (p', answer) := WorkerStepOf(p, t);
            SequenceStep(p.free, p'.free, p.workers[t], answer) && Spells(p'.links, p'.head.next, p'.free)
  {
    ReachableInv(p);
    WorkerPreserves(p, t);
    if p.workers[t].PopCas? && p.workers[t].seen == p.head {
      PopReadIsCurrent(p, t);
    }
    StepsOnSequence(p, t);
  }

  lemma StepsOnSequence(p: Pool, t: ThreadId)
    requires t in p.workers && WorkerEnabled(p, p.workers[t])
    requires p.workers[t].PopCas? && p.workers[t].seen == p.head ==>
               p.free != [] && p.workers[t].seen.next == Some(p.free[0])
    ensures SequenceStep(p.free, WorkerStepOf(p, t).0.free, p.workers[t], WorkerStepOf(p, t).1)
  {
    if p.workers[t].PopCas? && p.workers[t].seen == p.head {
      assert p.free == [p.free[0]] + p.free[1..];
    }
  }

  /** The counter never goes below its first index nor, once it reached the limit, below the limit; what it exceeds the
      limit by is the number of threads that have yet to undo their increment. */
  lemma BumpBounds(p: Pool)
    requires Reachable(p)
    ensures p.first <= p.top <= p.limit + |Undoers(p.workers)|
    ensures p.top >= p.limit ==> p.top == p.limit + |Undoers(p.workers)|
    ensures p.top < p.limit ==> Undoers(p.workers) == {}
  {
    ReachableInv(p);
  }

  function Min(x: nat, y: nat): nat {
    if x < y then x else y
  }

  /** The number of indices handed out never falls, and a bump returns the next one: so each is returned once. */
  lemma BumpOnce(p: Pool, act: Action)
    requires Reachable(p) && Enabled(p, act)
    ensures Min(Next(p, act).top, p.limit) >= Min(p.top, p.limit)
    ensures act.WorkerStep? && p.workers[act.t].BumpAdd? ==>
              match WorkerStepOf(p, act.t).1
              case Got(h) => h == Min(p.top, p.limit) && Min(Next(p, act).top, p.limit) == h + 1
              case _ => Min(p.top, p.limit) == p.limit
  {
    ReachableInv(p);
    if act.WorkerStep? {
      match p.workers[act.t]
      case BumpUndo => UndoPreserves(p, act.t);
      case BumpAdd =>
      case _ => assert WorkerStepOf(p, act.t).0.top == p.top && WorkerStepOf(p, act.t).0.limit == p.limit;
    }
  }
}
