/** What every run of the graveyard keeps: each entry is in exactly one place, every list is linked and hints ahead, and
    the shared queue behaves as a sequence that lists are put in front of and that is taken whole. */
module GraveyardSafety {
  import opened Wrappers
  import opened SkipList
  import opened Graveyard

  // ---------------------------------------------------------------------------------------------- lists

  lemma ChainFrame(next: Links, next': Links, list: seq<nat>, end: Option<nat>)
    requires Chain(next, list, end) && |next'| == |next|
    requires forall x | x in list && x < |next| :: next'[x] == next[x]
    ensures Chain(next', list, end)
  {
    forall i: nat | i < |list| ensures LeadsOn(next', list, end, i) {
      assert LeadsOn(next, list, end, i);
    }
  }

  lemma HintsFrame(skip: Links, skip': Links, list: seq<nat>)
    requires Hints(skip, list) && |skip'| == |skip|
    requires forall x | x in list && x < |skip| :: skip'[x] == skip[x]
    ensures Hints(skip', list)
  {
    forall i: nat | i < |list| ensures HintsAhead(skip', list, i) {
      assert HintsAhead(skip, list, i);
    }
  }

  /** The part of a list after some node. */
  lemma ChainRest(next: Links, skip: Links, list: seq<nat>, end: Option<nat>, n: nat)
    requires Chain(next, list, end) && Hints(skip, list) && n <= |list|
    ensures Chain(next, list[n..], end) && Hints(skip, list[n..])
  {
    forall i: nat | i < |list| - n ensures LeadsOn(next, list[n..], end, i) && HintsAhead(skip, list[n..], i) {
      assert LeadsOn(next, list, end, n + i) && HintsAhead(skip, list, n + i);
      var j :| n + i <= j < |list| && skip[list[n + i]] == Some(list[j]);
      assert list[n..][j - n] == list[j];
    }
  }

  /** A list whose end is the first node of another continues into it. */
  lemma ChainJoin(next: Links, skip: Links, a: seq<nat>, b: seq<nat>, end: Option<nat>)
    requires a != [] && Chain(next, a, First(b)) && Hints(skip, a) && Chain(next, b, None) && Hints(skip, b)
    requires forall x | x in a :: x !in b
    ensures Chain(next, a + b, None) && Hints(skip, a + b)
  {
    var list := a + b;
    forall i, j | 0 <= i < j < |list| ensures list[i] != list[j] {
      if i < |a| <= j {
        assert list[i] in a && list[j] in b;
      }
    }
    forall i: nat | i < |list| ensures LeadsOn(next, list, None, i) && HintsAhead(skip, list, i) {
      if i < |a| {
        assert LeadsOn(next, a, First(b), i) && HintsAhead(skip, a, i);
        var j :| i <= j < |a| && skip[a[i]] == Some(a[j]);
        assert list[j] == a[j];
      } else {
        assert LeadsOn(next, b, None, i - |a|) && HintsAhead(skip, b, i - |a|);
        var j :| i - |a| <= j < |b| && skip[b[i - |a|]] == Some(b[j]);
        assert list[j + |a|] == b[j];
      }
    }
  }

  /** Following hints stays in the list, and comes to rest exactly at its last node. */
  lemma {:induction false} FollowStays(next: Links, skip: Links, list: seq<nat>, times: nat)
    requires Chain(next, list, None) && Hints(skip, list) && list != []
    ensures exists i :: 0 <= i < |list| && Follow(next, skip, list[0], times) == Some(list[i])
  {
    if times == 0 {
      assert Follow(next, skip, list[0], 0) == Some(list[0]);
    } else {
      FollowStays(next, skip, list, times - 1);
      var i :| 0 <= i < |list| && Follow(next, skip, list[0], times - 1) == Some(list[i]);
      SkipMovesOn(next, skip, list, i);
      var j :| 0 <= j < |list| && GetSkip(next, skip, list[i]) == Some(list[j]);
      assert Follow(next, skip, list[0], times) == Some(list[j]);
    }
  }

  lemma {:induction false} FollowArrives(next: Links, skip: Links, list: seq<nat>, i: nat, times: nat)
      returns (more: nat)
    requires Chain(next, list, None) && Hints(skip, list) && i < |list|
    requires Follow(next, skip, list[0], times) == Some(list[i])
    ensures Follow(next, skip, list[0], more) == Some(Last(list))
    decreases |list| - i
  {
    if i + 1 == |list| {
      more := times;
    } else {
      SkipMovesOn(next, skip, list, i);
      var j :| i < j < |list| && GetSkip(next, skip, list[i]) == Some(list[j]);
      assert Follow(next, skip, list[0], times + 1) == Some(list[j]);
      more := FollowArrives(next, skip, list, j, times + 1);
    }
  }

  /** get_tail on a list comes to rest, and nowhere but at the list's last node. */
  lemma SettlesAtTail(next: Links, skip: Links, list: seq<nat>, tail: nat)
    requires Chain(next, list, None) && Hints(skip, list) && list != []
    ensures Settles(next, skip, list[0], tail) <==> tail == Last(list)
  {
    if Settles(next, skip, list[0], tail) {
      var times: nat :| Follow(next, skip, list[0], times) == Some(tail);
      FollowStays(next, skip, list, times);
      var i: nat :| i < |list| && list[i] == tail;
      SkipMovesOn(next, skip, list, i);
    }
    if tail == Last(list) {
      SkipMovesOn(next, skip, list, |list| - 1);
      var _ := FollowArrives(next, skip, list, 0, 0);
    }
  }

  // ---------------------------------------------------------------------------------------------- steps

  /** A step of thread t changes the links only of entries that t holds or is pushing. */
  ghost predicate OnlyTouches(s: State, s': State, t: nat) {
    && |s.skip| == |s.next| == |s.place| && |s'.next| == |s.next| && |s'.skip| == |s.skip|
    && forall x | 0 <= x < |s.place| && s.place[x] != Private(t) && s.place[x] != Held(t) ::
         s'.next[x] == s.next[x] && s'.skip[x] == s.skip[x]
  }

  lemma OwnInside(s: State, i: nat)
    requires Inv(s) && i < |s.own|
    ensures forall x | x in s.own[i] :: x < |s.place| && s.place[x] == Private(i)
  {
    assert OwnOk(s, i);
    forall x | x in s.own[i] ensures x < |s.place| && s.place[x] == Private(i) {
      var k: nat :| k < |s.own[i]| && s.own[i][k] == x;
      assert HintsAhead(s.skip, s.own[i], k);
      assert PlaceOk(s, x);
    }
  }

  lemma SharedInside(s: State)
    requires Inv(s)
    ensures forall x | x in s.shared :: x < |s.place| && s.place[x] == Shared
  {
    forall x | x in s.shared ensures x < |s.place| && s.place[x] == Shared {
      var k: nat :| k < |s.shared| && s.shared[k] == x;
      assert HintsAhead(s.skip, s.shared, k);
      assert PlaceOk(s, x);
    }
  }

  /** So the lists of the other threads stay as they are ... */
  lemma OthersKeep(s: State, s': State, t: nat, i: nat)
    requires Inv(s) && OnlyTouches(s, s', t) && i != t && i < |s.own| == |s'.own| == |s'.phase|
    requires s'.own[i] == s.own[i] && s'.phase[i] == s.phase[i]
    ensures OwnOk(s', i)
  {
    OwnInside(s, i);
    assert OwnOk(s, i);
    var list := s.own[i];
    HintsFrame(s.skip, s'.skip, list);
    match s.phase[i]
    case Idle =>
    case Found =>
    case Taken(_) => ChainFrame(s.next, s'.next, list, None);
    case Pushing(_) => ChainFrame(s.next, s'.next, list, None);
    case Loaded(_, _) => ChainFrame(s.next, s'.next, list, None);
    case Ready(_, tail, _) => ChainFrame(s.next, s'.next, list, s.next[tail]);
    case Aimed(_, _, seen) => ChainFrame(s.next, s'.next, list, seen);
  }

  /** ... and so does the shared queue. */
  lemma SharedKeeps(s: State, s': State, t: nat)
    requires Inv(s) && OnlyTouches(s, s', t) && s'.shared == s.shared && s'.head == s.head
    ensures SharedOk(s')
  {
    SharedInside(s);
    HintsFrame(s.skip, s'.skip, s.shared);
    ChainFrame(s.next, s'.next, s.shared, None);
  }

  /** Putting an invariant back together after a step that leaves the queue alone. */
  lemma Reassemble(s: State, s': State, t: nat)
    requires Inv(s) && OnlyTouches(s, s', t) && t < |s.phase|
    requires |s'.place| == |s.place| && |s'.own| == |s.own| && |s'.phase| == |s.phase|
    requires s'.own == s.own[t := s'.own[t]] && s'.phase == s.phase[t := s'.phase[t]]
    requires SharedOk(s') && OwnOk(s', t)
    requires forall n: nat | n < |s.place| :: PlaceOk(s', n)
    ensures Inv(s')
  {
    forall i: nat | i < |s'.phase| ensures OwnOk(s', i) {
      if i != t {
        OthersKeep(s, s', t, i);
      }
    }
  }

  lemma SamePlaces(s: State, s': State)
    requires Inv(s) && s'.place == s.place && s'.shared == s.shared && s'.own == s.own
    ensures forall n: nat | n < |s.place| :: PlaceOk(s', n)
  {
    forall n: nat | n < |s.place| ensures PlaceOk(s', n) {
      assert PlaceOk(s, n);
    }
  }

  lemma ExchangeKeeps(s: State, t: nat)
    requires Inv(s) && Enabled(s, Exchange(t))
    ensures Inv(Step(s, Exchange(t)))
  {
    var s' := Step(s, Exchange(t));
    assert OwnOk(s, t);
    SharedInside(s);
    forall n: nat | n < |s.place| ensures PlaceOk(s', n) {
      assert PlaceOk(s, n);
    }
    Reassemble(s, s', t);
  }

  lemma KeepKeeps(s: State, t: nat)
    requires Inv(s) && Enabled(s, Keep(t))
    ensures Inv(Step(s, Keep(t)))
  {
    var s' := Step(s, Keep(t));
    var list := s.own[t];
    assert OwnOk(s, t);
    SharedKeeps(s, s', t);
    if s.phase[t].snatched.Some? {
      ChainRest(s.next, s.skip, list, None, 1);
      assert LeadsOn(s.next, list, None, 0);
      OwnInside(s, t);
      forall n: nat | n < |s.place| ensures PlaceOk(s', n) {
        assert PlaceOk(s, n);
        assert list[..1] + list[1..] == list;
        assert n in list <==> n in list[..1] || n in list[1..];
        assert n in list[..1] <==> n == list[0];
        assert list[0] !in list[1..];
      }
    } else {
      SamePlaces(s, s');
    }
    Reassemble(s, s', t);
  }

  lemma BiteKeepsInv(s: State, t: nat, amount: nat)
    requires Inv(s) && Enabled(s, Bite(t, amount))
    ensures Inv(Step(s, Bite(t, amount)))
  {
    var s' := Step(s, Bite(t, amount));
    var list := s.own[t];
    assert OwnOk(s, t);
    OwnInside(s, t);
    if s.phase[t].snatched.Some? {
      var n := Bitten(list, amount);
      BiteKeeps(s.next, s.skip, list, n);
      assert LeadsOn(s.next, list, None, n - 1);
      SharedKeeps(s, s', t);
      forall m: nat | m < |s.place| ensures PlaceOk(s', m) {
        assert PlaceOk(s, m);
        assert list[..n] + list[n..] == list;
        assert m in list <==> m in list[..n] || m in list[n..];
        assert m in list[..n] ==> m !in list[n..];
      }
    } else {
      SharedKeeps(s, s', t);
      SamePlaces(s, s');
    }
    Reassemble(s, s', t);
  }

  lemma EnqueueKeeps(s: State, t: nat, n: nat)
    requires Inv(s) && Enabled(s, Enqueue(t, n))
    ensures Inv(Step(s, Enqueue(t, n)))
  {
    var s' := Step(s, Enqueue(t, n));
    assert OwnOk(s, t);
    SharedKeeps(s, s', t);
    assert LeadsOn(s'.next, [n], None, 0);
    assert s'.skip[[n][0]] == Some([n][0]);
    forall m: nat | m < |s.place| ensures PlaceOk(s', m) {
      assert PlaceOk(s, m);
    }
    Reassemble(s, s', t);
  }

  lemma LoadHeadKeeps(s: State, t: nat)
    requires Inv(s) && Enabled(s, LoadHead(t))
    ensures Inv(Step(s, LoadHead(t)))
  {
    var s' := Step(s, LoadHead(t));
    assert OwnOk(s, t);
    SharedKeeps(s, s', t);
    SamePlaces(s, s');
    Reassemble(s, s', t);
  }

  lemma FindTailKeeps(s: State, t: nat, tail: nat)
    requires Inv(s) && Enabled(s, FindTail(t, tail))
    ensures Inv(Step(s, FindTail(t, tail)))
  {
    var s' := Step(s, FindTail(t, tail));
    var list := s.own[t];
    assert OwnOk(s, t);
    OwnInside(s, t);
    SettlesAtTail(s.next, s.skip, list, tail);
    SharedKeeps(s, s', t);
    SamePlaces(s, s');
    assert LeadsOn(s.next, list, None, |list| - 1);
    forall i: nat | i < |list| ensures HintsAhead(s'.skip, list, i) {
      assert HintsAhead(s.skip, list, i);
      assert i == 0 ==> s'.skip[list[i]] == Some(list[|list| - 1]);
    }
    Reassemble(s, s', t);
  }

  lemma AimKeeps(s: State, t: nat)
    requires Inv(s) && Enabled(s, Aim(t))
    ensures Inv(Step(s, Aim(t)))
  {
    var s' := Step(s, Aim(t));
    var list, tail := s.own[t], s.phase[t].tail;
    assert OwnOk(s, t);
    OwnInside(s, t);
    SharedKeeps(s, s', t);
    SamePlaces(s, s');
    forall i: nat | i < |list| ensures LeadsOn(s'.next, list, s.phase[t].seen, i) {
      assert LeadsOn(s.next, list, s.next[tail], i);
    }
    Reassemble(s, s', t);
  }

  lemma SwapKeeps(s: State, t: nat)
    requires Inv(s) && Enabled(s, Swap(t))
    ensures Inv(Step(s, Swap(t)))
  {
    var s' := Step(s, Swap(t));
    var list := s.own[t];
    assert OwnOk(s, t);
    OwnInside(s, t);
    SharedInside(s);
    if s.head == s.phase[t].seen {
      ChainJoin(s.next, s.skip, list, s.shared, None);
      forall m: nat | m < |s.place| ensures PlaceOk(s', m) {
        assert PlaceOk(s, m);
      }
    } else {
      SharedKeeps(s, s', t);
      SamePlaces(s, s');
      assert LeadsOn(s.next, list, s.phase[t].seen, |list| - 1);
    }
    Reassemble(s, s', t);
  }

  lemma StepKeeps(s: State, a: Action)
    requires Inv(s) && Enabled(s, a)
    ensures Inv(Step(s, a))
  {
    match a
    case Look(t) => LookKeeps(s, t);
    case Exchange(t) => ExchangeKeeps(s, t);
    case Keep(t) => KeepKeeps(s, t);
    case Bite(t, amount) => BiteKeepsInv(s, t, amount);
    case Enqueue(t, n) => EnqueueKeeps(s, t, n);
    case LoadHead(t) => LoadHeadKeeps(s, t);
    case FindTail(t, tail) => FindTailKeeps(s, t, tail);
    case Aim(t) => AimKeeps(s, t);
    case Swap(t) => SwapKeeps(s, t);
  }

  lemma LookKeeps(s: State, t: nat)
    requires Inv(s) && Enabled(s, Look(t))
    ensures Inv(Step(s, Look(t)))
  {
    var s' := Step(s, Look(t));
    assert OwnOk(s, t);
    SharedKeeps(s, s', t);
    SamePlaces(s, s');
    Reassemble(s, s', t);
  }

  lemma InitInv(s: State)
    requires Init(s)
    ensures Inv(s)
  {
  }

  lemma {:induction false} RunInv(run: seq<State>, actions: seq<Action>, i: nat)
    requires IsRun(run, actions) && i < |run|
    ensures Inv(run[i])
  {
    if i == 0 {
      InitInv(run[0]);
    } else {
      RunInv(run, actions, i - 1);
      StepKeeps(run[i - 1], actions[i - 1]);
    }
  }

  lemma ReachableInv(s: State)
    requires Reachable(s)
    ensures Inv(s)
  {
    var run, actions :| IsRun(run, actions) && run[|run| - 1] == s;
    RunInv(run, actions, |run| - 1);
  }

  // ---------------------------------------------------------------------------------------------- results

  /** In every reachable state an entry is in the shared queue, in the list of one thread, or held by one thread, and in
      no list twice. Whoever has it is a thread of the system, so none is ever lost. */
  lemma OnePlace(s: State, n: nat)
    requires Reachable(s) && n < |s.place|
    ensures Distinct(s.shared) && forall t | 0 <= t < |s.own| :: Distinct(s.own[t])
    ensures n in s.shared ==> !s.place[n].Held? && forall t | 0 <= t < |s.own| :: n !in s.own[t]
    ensures forall t, u | 0 <= t < u < |s.own| && n in s.own[t] :: n !in s.own[u]
    ensures s.place[n].Held? ==>
              s.place[n].thread < |s.phase| && n !in s.shared && forall t | 0 <= t < |s.own| :: n !in s.own[t]
    ensures s.place[n].Held? || n in s.shared || exists t :: 0 <= t < |s.own| && n in s.own[t]
  {
    ReachableInv(s);
    assert PlaceOk(s, n);
    forall t: nat | t < |s.own| ensures Distinct(s.own[t]) {
      assert OwnOk(s, t);
    }
  }

  /** A held entry stays with its holder until the holder puts it into the queue. */
  lemma HeldStays(s: State, a: Action, n: nat)
    requires Reachable(s) && Enabled(s, a) && n < |s.place| && s.place[n].Held?
    requires a != Enqueue(s.place[n].thread, n)
    ensures Step(s, a).place[n] == s.place[n]
  {
    ReachableInv(s);
    assert PlaceOk(s, n);
    if a.Keep? || a.Bite? {
      var list := s.own[a.t];
      assert n !in list;
      assert a.Bite? ==> forall x | x in list[..Bitten(list, a.amount)] :: x in list;
    }
  }

  /** The queue is a sequence: pushing puts a list in front of it, snatching takes all of it, and no other step changes
      it. The swap may succeed on a head that was away in between, which does no harm: the pushed list always ends at
      the present head. */
  lemma QueueIsSequence(s: State, a: Action)
    requires Reachable(s) && Enabled(s, a)
    ensures s.head == None <==> s.shared == []
    ensures Step(s, a).shared ==
              if a.Exchange? then []
              else if a.Swap? && s.head == s.phase[a.t].seen then s.own[a.t] + s.shared
              else s.shared
    ensures a.Exchange? ==> Step(s, a).own[a.t] == s.shared
  {
    ReachableInv(s);
  }

  /** An acquired entry is the first of the snatched list, and its acquirer is its only holder; what a thread pushes
      back is the rest. */
  lemma AcquireTakesFirst(s: State, t: nat)
    requires Reachable(s) && t < |s.phase| && t < |s.own| && s.phase[t].Taken?
    ensures Enabled(s, Keep(t)) && forall amount :: Enabled(s, Bite(t, amount))
    ensures var s' := Step(s, Keep(t));
            s.phase[t].snatched.Some? ==>
              && s.own[t] != [] && s.phase[t].snatched.value == s.own[t][0] < |s'.place|
              && s'.place[s.own[t][0]] == Held(t) && s'.own[t] == s.own[t][1..]
  {
    ReachableInv(s);
    assert OwnOk(s, t);
    OwnInside(s, t);
    assert forall i | 0 <= i < |s.own[t]| :: s.own[t][i] in s.own[t];
  }

  /** A push never has to stop: the tail it looks for is found, and is the last node of the pushed list. */
  lemma PushFindsTail(s: State, t: nat, tail: nat)
    requires Reachable(s) && t < |s.phase| && t < |s.own| && s.phase[t].Loaded?
    ensures s.own[t] != [] && (Enabled(s, FindTail(t, tail)) <==> tail == Last(s.own[t]))
  {
    ReachableInv(s);
    assert OwnOk(s, t);
    OwnInside(s, t);
    assert s.own[t][0] in s.own[t];
    SettlesAtTail(s.next, s.skip, s.own[t], tail);
  }

  /** No step that a thread's phase calls for is ever barred: the nodes it reads and writes exist. */
  lemma NeverStuck(s: State, t: nat)
    requires Reachable(s) && t < |s.phase|
    ensures match s.phase[t]
            case Idle => Enabled(s, Look(t))
            case Found => Enabled(s, Exchange(t))
            case Taken(_) => Enabled(s, Keep(t))
            case Pushing(_) => Enabled(s, LoadHead(t))
            case Loaded(_, _) => t < |s.own| && s.own[t] != [] && Enabled(s, FindTail(t, Last(s.own[t])))
            case Ready(_, _, _) => Enabled(s, Aim(t))
            case Aimed(_, _, _) => Enabled(s, Swap(t))
  {
    ReachableInv(s);
    assert OwnOk(s, t);
    if s.phase[t].Taken? {
      AcquireTakesFirst(s, t);
    } else if s.phase[t].Loaded? {
      PushFindsTail(s, t, Last(s.own[t]));
    }
  }
}
