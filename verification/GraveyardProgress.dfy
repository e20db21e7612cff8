/** What one call on the graveyard's queue achieves: a snatch takes the queue unless it saw it empty, a bite takes as
    many entries as asked for, and a push that the others let be ends with its list in front of the queue. */
module GraveyardProgress {
  import opened Wrappers
  import opened SkipList
  import opened Graveyard
  import opened GraveyardSafety

  /** snatch gives up exactly when the queue is empty; otherwise it goes on to its exchange. */
  lemma LookSeesEmpty(s: State, t: nat)
    requires Reachable(s) && Enabled(s, Look(t))
    ensures Enabled(Step(s, Look(t)), Exchange(t)) <==> s.shared != []
    ensures s.shared == [] ==> Step(s, Look(t)) == s
    ensures s.shared != [] ==> Step(s, Look(t)) == s.(phase := s.phase[t := Found])
  {
    ReachableInv(s);
  }

  /** What a thread has in hand after its exchange is a list that it can walk: null exactly when the queue was taken by
      somebody else after the look. */
  lemma ExchangeTakesAll(s: State, t: nat)
    requires Reachable(s) && Enabled(s, Exchange(t))
    ensures var s' := Step(s, Exchange(t));
            && s'.head == None && s'.shared == [] && s'.own[t] == s.shared && s'.phase[t] == Taken(First(s.shared))
            && Chain(s'.next, s.shared, None)
  {
    ReachableInv(s);
  }

  /** A part of the snatched list is kept: as many entries as asked for, if there are, linked and each hinting at the
      last; their taker is their only holder, and what it goes on to push is the rest. */
  lemma BiteTakesPrefix(s: State, t: nat, amount: nat)
    requires Reachable(s) && Enabled(s, Bite(t, amount)) && s.phase[t].snatched.Some?
    ensures var list, s' := s.own[t], Step(s, Bite(t, amount));
            exists n: nat :: CutsAt(list, amount, n) && TakesPrefix(s', t, list, n)
  {
    ReachableInv(s);
    var list, n := s.own[t], Bitten(s.own[t], amount);
    assert OwnOk(s, t);
    OwnInside(s, t);
    PrefixTaken(s, t, amount);
    assert CutsAt(list, amount, n) && TakesPrefix(Step(s, Bite(t, amount)), t, list, n);
  }

  lemma PrefixTaken(s: State, t: nat, amount: nat)
    requires Enabled(s, Bite(t, amount)) && s.phase[t].snatched.Some? && |s.skip| == |s.next|
    requires Chain(s.next, s.own[t], None) && Hints(s.skip, s.own[t]) && forall x | x in s.own[t] :: x < |s.place|
    ensures TakesPrefix(Step(s, Bite(t, amount)), t, s.own[t], Bitten(s.own[t], amount))
  {
    var list, n := s.own[t], Bitten(s.own[t], amount);
    BiteKeeps(s.next, s.skip, list, n);
    assert LeadsOn(s.next, list, None, n - 1);
    assert forall x | x in list[..n] :: x in list;
  }

  ghost predicate TakesPrefix(s': State, t: nat, list: seq<nat>, n: nat)
    requires n <= |list| && t < |s'.phase| && t < |s'.own|
  {
    && (forall x | x in list[..n] :: x < |s'.place| && s'.place[x] == Held(t))
    && Chain(s'.next, list[..n], None) && (n > 0 ==> forall x | x in list[..n] :: Hinted(s', x, list[n - 1]))
    && s'.phase[t] == Pushing(First(list[n..])) && s'.own[t] == list[n..] && Chain(s'.next, list[n..], None)
  }

  predicate Hinted(s: State, x: nat, tail: nat) {
    x < |s.skip| && s.skip[x] == Some(tail)
  }

  // ---------------------------------------------------------------------------------------------- pushing

  /** The next step of a push, if thread t is in one. */
  function NextOfPush(s: State, t: nat): Option<Action>
    requires t < |s.phase| && t < |s.own|
  {
    match s.phase[t]
    case Pushing(_) => Some(LoadHead(t))
    case Loaded(_, _) => if s.own[t] == [] then None else Some(FindTail(t, Last(s.own[t])))
    case Ready(_, _, _) => Some(Aim(t))
    case Aimed(_, _, _) => Some(Swap(t))
    case _ => None
  }

  /** The state after so many steps of the push of thread t, or fewer if it is done before. */
  ghost function Alone(s: State, t: nat, steps: nat): State
    requires t < |s.phase| && t < |s.own|
    decreases steps
  {
    var a := NextOfPush(s, t);
    if steps == 0 || a.None? || !Enabled(s, a.value) then s
    else
      var s' := Step(s, a.value);
      if t < |s'.phase| && t < |s'.own| then Alone(s', t, steps - 1) else s'
  }

  predicate PushIsDone(s: State, s': State, t: nat)
    requires t < |s.own| && t < |s.phase|
  {
    && s'.phase == s.phase[t := Idle]
    && s'.shared == s.own[t] + s.shared
    && (s.own[t] != [] ==> Hinted(s', s.own[t][0], Last(s.own[t])))
  }

  lemma FirstStep(s: State, t: nat, steps: nat)
    requires Inv(s) && t < |s.phase| && NextOfPush(s, t).Some? && steps > 0
    ensures var a := NextOfPush(s, t).value;
            Enabled(s, a) && Inv(Step(s, a)) && Alone(s, t, steps) == Alone(Step(s, a), t, steps - 1)
  {
    assert OwnOk(s, t);
    if s.phase[t].Loaded? {
      OwnInside(s, t);
      assert s.own[t][0] in s.own[t];
      SettlesAtTail(s.next, s.skip, s.own[t], Last(s.own[t]));
    }
    StepKeeps(s, NextOfPush(s, t).value);
  }

  lemma ReadyAlone(s: State, t: nat, steps: nat)
    requires Inv(s) && t < |s.phase| && s.phase[t].Ready? && s.phase[t].seen == s.head && steps >= 2
    ensures PushIsDone(s, Alone(s, t, steps), t)
  {
    FirstStep(s, t, steps);
    var q := Step(s, Aim(t));
    FirstStep(q, t, steps - 1);
    assert OwnOk(s, t);
    assert Step(q, Swap(t)).phase == s.phase[t := Idle];
  }

  lemma AimedAlone(s: State, t: nat, steps: nat)
    requires Inv(s) && t < |s.phase| && s.phase[t].Aimed? && steps >= 3
    ensures PushIsDone(s, Alone(s, t, steps), t)
  {
    FirstStep(s, t, steps);
    assert OwnOk(s, t);
    var q := Step(s, Swap(t));
    if s.head != s.phase[t].seen {
      ReadyAlone(q, t, steps - 1);
      assert q.phase[t := Idle] == s.phase[t := Idle];
    }
  }

  lemma LoadedAlone(s: State, t: nat, steps: nat)
    requires Inv(s) && t < |s.phase| && s.phase[t].Loaded? && steps >= 5
    ensures PushIsDone(s, Alone(s, t, steps), t)
  {
    assert OwnOk(s, t);
    FirstStep(s, t, steps);
    var q := Step(s, FindTail(t, Last(s.own[t])));
    FirstStep(q, t, steps - 1);
    AimedAlone(Step(q, Aim(t)), t, steps - 2);
    assert Step(q, Aim(t)).phase[t := Idle] == s.phase[t := Idle];
  }

  /** Run alone, a push is done within six steps: its list is in front of the queue, and the first node of it hints at
      the last. */
  lemma PushAlone(s: State, t: nat, steps: nat)
    requires Reachable(s) && t < |s.phase| && t < |s.own| && NextOfPush(s, t).Some? && steps >= 6
    ensures PushIsDone(s, Alone(s, t, steps), t)
  {
    ReachableInv(s);
    assert OwnOk(s, t);
    FirstStep(s, t, steps);
    var q := Step(s, NextOfPush(s, t).value);
    match s.phase[t]
    case Pushing(list) =>
      if list.Some? {
        LoadedAlone(q, t, steps - 1);
        assert q.phase[t := Idle] == s.phase[t := Idle];
      }
    case Loaded(_, _) => LoadedAlone(s, t, steps);
    case Ready(_, _, _) =>
      AimedAlone(q, t, steps - 1);
      assert q.phase[t := Idle] == s.phase[t := Idle];
    case Aimed(_, _, _) => AimedAlone(s, t, steps);
  }

  // ---------------------------------------------------------------------------------------------- round trip

  lemma StepReachable(s: State, a: Action)
    requires Reachable(s) && Enabled(s, a)
    ensures Reachable(Step(s, a))
  {
    var run, actions :| IsRun(run, actions) && run[|run| - 1] == s;
    assert IsRun(run + [Step(s, a)], actions + [a]);
  }

  lemma {:induction false} AloneReachable(s: State, t: nat, steps: nat)
    requires Reachable(s) && t < |s.phase| && t < |s.own|
    ensures Reachable(Alone(s, t, steps))
    decreases steps
  {
    var a := NextOfPush(s, t);
    if steps > 0 && a.Some? && Enabled(s, a.value) {
      StepReachable(s, a.value);
      AloneReachable(Step(s, a.value), t, steps - 1);
    }
  }

  /** An idle thread may put back an entry that it holds, and if the others let it be, that entry is first in the
      queue. */
  lemma EnqueueAlone(s: State, t: nat, n: nat, steps: nat)
    requires Reachable(s) && t < |s.phase| && s.phase[t].Idle? && n < |s.place| && s.place[n] == Held(t) && steps >= 6
    ensures Enabled(s, Enqueue(t, n))
    ensures var s' := Alone(Step(s, Enqueue(t, n)), t, steps);
            Reachable(s') && s'.phase == s.phase && s'.shared == [n] + s.shared
  {
    ReachableInv(s);
    var q := Step(s, Enqueue(t, n));
    StepReachable(s, Enqueue(t, n));
    PushAlone(q, t, steps);
    AloneReachable(q, t, steps);
    assert q.phase[t := Idle] == s.phase;
  }

  /** An idle thread that acquires gets the first entry of the queue, and if the others let it be, the queue is left
      with the other entries, in order. */
  lemma AcquireAlone(s: State, t: nat, steps: nat)
    requires Reachable(s) && t < |s.phase| && s.phase[t].Idle? && s.shared != [] && steps >= 6
    ensures t < |s.own| && Enabled(s, Look(t)) && Enabled(Step(s, Look(t)), Exchange(t))
    ensures var taken := Step(Step(s, Look(t)), Exchange(t));
            && Enabled(taken, Keep(t))
            && var s' := Alone(Step(taken, Keep(t)), t, steps);
               && Reachable(s') && s'.phase == s.phase && s'.shared == s.shared[1..]
               && s.shared[0] < |Step(taken, Keep(t)).place| && Step(taken, Keep(t)).place[s.shared[0]] == Held(t)
  {
    ReachableInv(s);
    LookSeesEmpty(s, t);
    var found := Step(s, Look(t));
    StepReachable(s, Look(t));
    ExchangeTakesAll(found, t);
    var taken := Step(found, Exchange(t));
    StepReachable(found, Exchange(t));
    AcquireTakesFirst(taken, t);
    StepReachable(taken, Keep(t));
    KeptAlone(s, taken, t, steps);
  }

  lemma KeptAlone(s: State, taken: State, t: nat, steps: nat)
    requires t < |s.phase| && s.phase[t].Idle? && s.shared != [] && steps >= 6
    requires t < |taken.phase| && Enabled(taken, Keep(t)) && Reachable(Step(taken, Keep(t)))
    requires taken.phase == s.phase[t := Taken(First(s.shared))] && taken.own[t] == s.shared && taken.shared == []
    ensures var kept := Step(taken, Keep(t)); t < |kept.phase| && t < |kept.own|
    ensures var s' := Alone(Step(taken, Keep(t)), t, steps);
            Reachable(s') && s'.phase == s.phase && s'.shared == s.shared[1..]
  {
    var kept := Step(taken, Keep(t));
    PushAlone(kept, t, steps);
    AloneReachable(kept, t, steps);
    assert kept.phase[t := Idle] == s.phase;
  }
}
