/** How calls on a handle pool end: a pop fails exactly when it used up its attempts, and every call ends within a few
    steps if the other threads pause. */
module PoolProgress {
  import opened Wrappers
  import opened PoolProtocol
  import opened PoolSafety

  // ---------------------------------------------------------------------------------------------- attempts

  /** The step is an exchange of the head by thread t that fails. */
  predicate FailedExchange(p: Pool, act: Action, t: ThreadId) {
    act == WorkerStep(t) && t in p.workers && p.workers[t].PopCas? && p.head != p.workers[t].seen
  }

  /** The attempts that thread t's last allocation before step i was called with. */
  ghost function Given(acts: seq<Action>, t: ThreadId, i: nat): Option<int>
    requires i <= |acts|
  {
    if i == 0 then None
    else if acts[i - 1].BeginAllocate? && acts[i - 1].t == t then Some(acts[i - 1].attempts)
    else Given(acts, t, i - 1)
  }

  /** How many of its exchanges failed. */
  ghost function Failures(pools: seq<Pool>, acts: seq<Action>, t: ThreadId, i: nat): nat
    requires i <= |acts| < |pools|
  {
    if i == 0 || (acts[i - 1].BeginAllocate? && acts[i - 1].t == t) then 0
    else Failures(pools, acts, t, i - 1) + if FailedExchange(pools[i - 1], acts[i - 1], t) then 1 else 0
  }

  predicate Popping(w: Worker) {
    w.PopLoad? || w.PopRead? || w.PopCas?
  }

  /** A pop's attempts left, as far as they are limited, and its failures make up the attempts it was given. */
  ghost predicate Counts(pools: seq<Pool>, acts: seq<Action>, t: ThreadId, i: nat)
    requires i <= |acts| < |pools|
  {
    t in pools[i].workers && Popping(pools[i].workers[t]) ==>
      var w, n, failures := pools[i].workers[t], Given(acts, t, i), Failures(pools, acts, t, i);
      && n.Some? && (w.PopCas? ==> w.left != 0) && (w.PopLoad? ==> failures == 0)
      && (if n.value < 0 then w.left == n.value else w.left >= 0 && w.left + failures == n.value)
  }

  lemma {:induction false} CountsInRun(pools: seq<Pool>, acts: seq<Action>, t: ThreadId, i: nat)
    requires IsRun(pools, acts) && i <= |acts|
    ensures Counts(pools, acts, t, i)
  {
    if i > 0 {
      CountsInRun(pools, acts, t, i - 1);
      CountsOn(pools, acts, t, i - 1);
    }
  }

  lemma CountsOn(pools: seq<Pool>, acts: seq<Action>, t: ThreadId, i: nat)
    requires IsRun(pools, acts) && i < |acts| && Counts(pools, acts, t, i)
    ensures Counts(pools, acts, t, i + 1)
  {
    assert Enabled(pools[i], acts[i]) && pools[i + 1] == Next(pools[i], acts[i]);
    if acts[i].t != t {
      OthersStay(pools[i], acts[i], t);
    }
  }

  /** A step moves one thread only. */
  lemma OthersStay(p: Pool, act: Action, t: ThreadId)
    requires Enabled(p, act) && act.t != t
    ensures At(Next(p, act), t) == At(p, t)
  {
  }

  /** Where the thread is, if it is anywhere. */
  function At(p: Pool, t: ThreadId): Option<Worker> {
    if t in p.workers then Some(p.workers[t]) else None
  }

  /** At the top of its loop, a pop fails exactly if it was given a limit and as many exchanges failed; with a negative
      number of attempts it never fails, and never more exchanges fail than it was given attempts. */
  lemma FailsAfterItsAttempts(pools: seq<Pool>, acts: seq<Action>, t: ThreadId, i: nat)
    requires IsRun(pools, acts) && i < |acts| && acts[i] == WorkerStep(t)
    ensures t in pools[i].workers && WorkerEnabled(pools[i], pools[i].workers[t])
    ensures var w, answer := pools[i].workers[t], WorkerStepOf(pools[i], t).1;
            var n, failures := Given(acts, t, i), Failures(pools, acts, t, i);
            && (answer == OpFailed <==> w.PopRead? && n == Some(failures))
            && (Popping(w) && n.Some? && n.value >= 0 ==> failures <= n.value)
            && (Popping(w) ==> n.Some?)
  {
    assert Enabled(pools[i], acts[i]);
    CountsInRun(pools, acts, t, i);
  }

  // ---------------------------------------------------------------------------------------------- alone

  /** Runs thread t until its call returns. */
  function Drive(p: Pool, t: ThreadId, fuel: nat): (Pool, Answer)
    decreases fuel
  {
    if fuel == 0 || t !in p.workers || !WorkerEnabled(p, p.workers[t]) then (p, Running)
    else
      var (p', answer) := WorkerStepOf(p, t);
      if answer.Running? then Drive(p', t, fuel - 1) else (p', answer)
  }

  /** Driving a pool keeps its invariant. */
  lemma {:induction false} DriveKeeps(p: Pool, t: ThreadId, fuel: nat)
    requires Inv(p)
    ensures Inv(Drive(p, t, fuel).0)
    decreases fuel
  {
    if fuel > 0 && t in p.workers {
      WorkerPreserves(p, t);
      DriveKeeps(WorkerStepOf(p, t).0, t, fuel - 1);
    }
  }

  /** The call returned, and the others are where they were. */
  predicate Left(p: Pool, p': Pool, t: ThreadId, answer: Answer) {
    !answer.Running? && p'.workers == p.workers - {t} && p'.first == p.first && p'.limit == p.limit
  }

  predicate TookHead(p: Pool, p': Pool, answer: Answer) {
    p.free != [] && answer == Got(p.free[0]) && p'.free == p.free[1..] && p'.top == p.top
  }

  predicate TookNext(p: Pool, p': Pool, answer: Answer) {
    && p'.free == p.free
    && if p.top < p.limit then answer == Got(p.top) && p'.top == p.top + 1 else answer == Null && p'.top == p.top
  }

  predicate Took(p: Pool, p': Pool, answer: Answer) {
    if p.free != [] then TookHead(p, p', answer) else TookNext(p, p', answer)
  }

  /** What a call comes to from where its thread stands. Only a pop that comes from a failed exchange can miss that the
      free list is in use again. */
  predicate Outcome(p: Pool, p': Pool, w: Worker, answer: Answer) {
    match w
    case PopLoad(left) => if left == 0 then answer == OpFailed else Took(p, p', answer)
    case PopRead(left, seen) =>
      if left == 0 then answer == OpFailed
      else if seen.next.None? then TookNext(p, p', answer)
      else if p.head != seen && left == 1 then answer == OpFailed
      else Took(p, p', answer)
    case PopCas(left, seen, _) => if p.head != seen && 0 <= left <= 1 then answer == OpFailed else Took(p, p', answer)
    case BumpLoad => TookNext(p, p', answer)
    case BumpAdd => TookNext(p, p', answer)
    case BumpUndo => answer == Null && p'.free == p.free && p'.top == p.top - 1
    case PushLoad(h) => answer == Pushed && p'.free == [h] + p.free && p'.top == p.top
    case PushLink(h, _) => answer == Pushed && p'.free == [h] + p.free && p'.top == p.top
    case PushCas(h, _) => answer == Pushed && p'.free == [h] + p.free && p'.top == p.top
  }

  ghost predicate EndsWell(p: Pool, t: ThreadId, fuel: nat)
    requires t in p.workers
  {
    var (p', answer) := Drive(p, t, fuel);
    Left(p, p', t, answer) && Outcome(p, p', p.workers[t], answer)
  }

  /** A step that goes on, to a thread that ends well with the same outcome. */
  lemma FirstStep(p: Pool, t: ThreadId, w: Worker, fuel: nat)
    requires t in p.workers && WorkerEnabled(p, p.workers[t]) && 0 < fuel
    requires var q := WorkerStepOf(p, t);
             && q.1.Running? && q.0.workers == p.workers[t := w] && EndsWell(q.0, t, fuel - 1)
             && q.0.first == p.first && q.0.limit == p.limit && q.0.free == p.free
    requires forall p', answer | Outcome(WorkerStepOf(p, t).0, p', w, answer) :: Outcome(p, p', p.workers[t], answer)
    ensures EndsWell(p, t, fuel)
  {
    var q := WorkerStepOf(p, t).0;
    var (p', answer) := Drive(q, t, fuel - 1);
    assert q.workers[t] == w && q.workers - {t} == p.workers - {t};
    assert Outcome(q, p', w, answer) && Drive(p, t, fuel) == (p', answer);
  }

  lemma LinkAlone(p: Pool, t: ThreadId, fuel: nat)
    requires Inv(p) && t in p.workers && p.workers[t].PushLink? && p.workers[t].seen == p.head && fuel >= 2
    ensures EndsWell(p, t, fuel)
  {
    WorkerPreserves(p, t);
    var q := WorkerStepOf(p, t).0;
    assert Drive(q, t, fuel - 1) == WorkerStepOf(q, t);
    FirstStep(p, t, PushCas(p.workers[t].handle, p.head), fuel);
  }

  /** A push that is about to see the head, or that tries its exchange. */
  lemma SeeAlone(p: Pool, t: ThreadId, fuel: nat)
    requires Inv(p) && t in p.workers && (p.workers[t].PushLoad? || p.workers[t].PushCas?) && fuel >= 3
    ensures EndsWell(p, t, fuel)
  {
    WorkerPreserves(p, t);
    var q := WorkerStepOf(p, t).0;
    if p.workers[t].PushLoad? || p.workers[t].seen != p.head {
      LinkAlone(q, t, fuel - 1);
      FirstStep(p, t, PushLink(p.workers[t].handle, p.head), fuel);
    }
  }

  lemma PushAlone(p: Pool, t: ThreadId, fuel: nat)
    requires Inv(p) && t in p.workers && p.workers[t].Pushes() && fuel >= 4
    ensures EndsWell(p, t, fuel)
  {
    if p.workers[t].PushLink? {
      WorkerPreserves(p, t);
      SeeAlone(WorkerStepOf(p, t).0, t, fuel - 1);
      FirstStep(p, t, PushCas(p.workers[t].handle, p.workers[t].seen), fuel);
    } else {
      SeeAlone(p, t, fuel);
    }
  }

  predicate Bumping(w: Worker) {
    w.BumpLoad? || w.BumpAdd? || w.BumpUndo?
  }

  lemma BumpAlone(p: Pool, t: ThreadId, fuel: nat)
    requires Inv(p) && t in p.workers && Bumping(p.workers[t]) && fuel >= 2
    ensures EndsWell(p, t, fuel)
  {
    WorkerPreserves(p, t);
    var q := WorkerStepOf(p, t).0;
    match p.workers[t]
    case BumpLoad =>
      if p.top < p.limit {
        assert Drive(q, t, fuel - 1) == WorkerStepOf(q, t);
        FirstStep(p, t, BumpAdd, fuel);
      }
    case BumpAdd =>
      if p.top >= p.limit {
        assert Drive(q, t, fuel - 1) == WorkerStepOf(q, t);
        FirstStep(p, t, BumpUndo, fuel);
      }
    case BumpUndo =>
  }

  lemma ExchangeAlone(p: Pool, t: ThreadId, fuel: nat)
    requires Inv(p) && t in p.workers && p.workers[t].PopCas? && p.workers[t].seen == p.head && fuel >= 1
    ensures EndsWell(p, t, fuel)
  {
    PopReadIsCurrent(p, t);
    WorkerPreserves(p, t);
    assert Drive(p, t, fuel) == WorkerStepOf(p, t);
  }

  /** A pop at the top of its loop that saw the head as it is. */
  lemma HeadAlone(p: Pool, t: ThreadId, fuel: nat)
    requires Inv(p) && t in p.workers && p.workers[t].PopRead? && p.workers[t].seen == p.head && fuel >= 3
    ensures EndsWell(p, t, fuel)
  {
    WorkerPreserves(p, t);
    var q, left := WorkerStepOf(p, t).0, p.workers[t].left;
    if left != 0 && p.free == [] {
      BumpAlone(q, t, fuel - 1);
      FirstStep(p, t, BumpLoad, fuel);
    } else if left != 0 {
      ExchangeAlone(q, t, fuel - 1);
      FirstStep(p, t, PopCas(left, p.head, p.links[p.free[0]]), fuel);
    }
  }

  lemma PopAlone(p: Pool, t: ThreadId, fuel: nat)
    requires Inv(p) && t in p.workers && (p.workers[t].PopLoad? || p.workers[t].PopCas?) && fuel >= 4
    ensures EndsWell(p, t, fuel)
  {
    if p.workers[t].PopCas? && p.workers[t].seen == p.head {
      ExchangeAlone(p, t, fuel);
    } else {
      WorkerPreserves(p, t);
      var q := WorkerStepOf(p, t).0;
      HeadAlone(q, t, fuel - 1);
      FirstStep(p, t, q.workers[t], fuel);
    }
  }

  lemma ReadAlone(p: Pool, t: ThreadId, fuel: nat)
    requires Inv(p) && t in p.workers && p.workers[t].PopRead? && fuel >= 5
    ensures EndsWell(p, t, fuel)
  {
    WorkerPreserves(p, t);
    var w, q := p.workers[t], WorkerStepOf(p, t).0;
    if w.left != 0 && w.seen.next.Some? {
      PopAlone(q, t, fuel - 1);
      FirstStep(p, t, q.workers[t], fuel);
    } else if w.left != 0 {
      BumpAlone(q, t, fuel - 1);
      FirstStep(p, t, BumpLoad, fuel);
    }
  }

  /** Run alone, every call returns within five steps: a push puts its handle in front, a pop takes the handle in front
      or, with the list empty, the next unused one, and fails only when its attempts are used up. */
  lemma CallAlone(p: Pool, t: ThreadId, steps: nat)
    requires Reachable(p) && t in p.workers && steps >= 5
    ensures var (p', answer) := Drive(p, t, steps);
            Left(p, p', t, answer) && Outcome(p, p', p.workers[t], answer)
  {
    ReachableInv(p);
    if p.workers[t].Pushes() {
      PushAlone(p, t, steps);
    } else if p.workers[t].PopRead? {
      ReadAlone(p, t, steps);
    } else if Popping(p.workers[t]) {
      PopAlone(p, t, steps);
    } else {
      BumpAlone(p, t, steps);
    }
  }

  // ---------------------------------------------------------------------------------------------- round trip

  lemma StepReachable(p: Pool, act: Action)
    requires Reachable(p) && Enabled(p, act)
    ensures Reachable(Next(p, act))
  {
    var pools, acts :| IsRun(pools, acts) && pools[|acts|] == p;
    assert IsRun(pools + [Next(p, act)], acts + [act]);
  }

  lemma {:induction false} DriveReachable(p: Pool, t: ThreadId, fuel: nat)
    requires Reachable(p)
    ensures Reachable(Drive(p, t, fuel).0)
    decreases fuel
  {
    if fuel > 0 && t in p.workers && WorkerEnabled(p, p.workers[t]) {
      StepReachable(p, WorkerStep(t));
      DriveReachable(WorkerStepOf(p, t).0, t, fuel - 1);
    }
  }

  /** A call begun by a thread that the others let be. */
  ghost function Call(p: Pool, act: Action, steps: nat): (Pool, Answer)
    requires Enabled(p, act) && !act.WorkerStep?
  {
    Drive(Next(p, act), act.t, steps)
  }

  /** In whatever state the other threads pause, an allocation succeeds if there is a handle on the free list or one not
      yet handed out, and the thread may then put back what it got; ... */
  lemma AllocationSucceeds(p: Pool, t: ThreadId, attempts: int, steps: nat)
    requires Reachable(p) && t !in p.workers && attempts != 0 && steps >= 5
    ensures Enabled(p, BeginAllocate(t, attempts))
    ensures var (p', answer) := Call(p, BeginAllocate(t, attempts), steps);
            && Reachable(p') && p'.workers == p.workers
            && (p.free == [] && p.top >= p.limit ==> answer == Null)
            && (p.free != [] || p.top < p.limit ==>
                  && answer == Got(if p.free != [] then p.free[0] else p.top)
                  && p'.free == (if p.free != [] then p.free[1..] else [])
                  && Enabled(p', BeginDeallocate(t, answer.handle)))
  {
    var q := Next(p, BeginAllocate(t, attempts));
    StepReachable(p, BeginAllocate(t, attempts));
    CallAlone(q, t, steps);
    DriveReachable(q, t, steps);
    assert q.workers - {t} == p.workers;
    var (p', answer) := Drive(q, t, steps);
    if answer.Got? {
      GotIsHeld(q, t, steps);
    }
  }

  /** What a call returned is held. */
  lemma {:induction false} GotIsHeld(p: Pool, t: ThreadId, fuel: nat)
    requires Drive(p, t, fuel).1.Got?
    ensures var (p', answer) := Drive(p, t, fuel); answer.handle in p'.places && p'.places[answer.handle].Held?
    decreases fuel
  {
    StepGives(p, t);
    if WorkerStepOf(p, t).1.Running? {
      GotIsHeld(WorkerStepOf(p, t).0, t, fuel - 1);
    }
  }

  lemma StepGives(p: Pool, t: ThreadId)
    requires t in p.workers && WorkerEnabled(p, p.workers[t])
    ensures var (p', answer) := WorkerStepOf(p, t);
            answer.Got? ==> answer.handle in p'.places && p'.places[answer.handle].Held?
  {
  }

  /** ... and a thread that puts a handle back and then allocates gets that handle, and leaves the list as it was. */
  lemma FreedIsNext(p: Pool, t: ThreadId, h: Handle, attempts: int, steps: nat)
    requires Reachable(p) && Enabled(p, BeginDeallocate(t, h)) && attempts != 0 && steps >= 5
    ensures var (p', answer) := Call(p, BeginDeallocate(t, h), steps);
            && answer == Pushed && Enabled(p', BeginAllocate(t, attempts))
            && var (p'', again) := Call(p', BeginAllocate(t, attempts), steps);
               again == Got(h) && p''.free == p.free && p''.workers == p.workers && Reachable(p'')
  {
    var q := Next(p, BeginDeallocate(t, h));
    StepReachable(p, BeginDeallocate(t, h));
    CallAlone(q, t, steps);
    DriveReachable(q, t, steps);
    assert q.workers - {t} == p.workers;
    AllocationSucceeds(Drive(q, t, steps).0, t, attempts, steps);
  }
}
