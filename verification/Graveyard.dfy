/** The graveyard of thread_graveyard.hpp in its compiled form, over the push-snatch list of atomic.hpp, as a step
    system: any number of threads put entries into the shared queue, and take it whole to keep a part and push back the
    rest. Each load, exchange and compare-and-swap of the head is one step; a thread's work on nodes that only it can
    reach is one. */
module Graveyard {
  import opened Wrappers
  import opened SkipList

  /** Who may touch an entry: it is in the shared queue, in the list a thread is pushing, or held by a thread. */
  datatype Place = Shared | Private(thread: nat) | Held(thread: nat)

  /** Where a thread is, with its registers. */
  datatype Phase =
    | Idle
    | Found                                               // snatch: the head was not null
    | Taken(snatched: Option<nat>)                        // snatch: exchanged
    | Pushing(list: Option<nat>)                          // push: called with this list
    | Loaded(first: nat, seen: Option<nat>)                // push: the head was read
    | Ready(first: nat, tail: nat, seen: Option<nat>)      // push: at the top of the loop
    | Aimed(first: nat, tail: nat, seen: Option<nat>)      // push: the tail leads to what the head was

  datatype State = State(
    next: Links, skip: Links, head: Option<nat>, phase: seq<Phase>,
    // what the run has done so far, for the proofs only
    place: seq<Place>, shared: seq<nat>, own: seq<seq<nat>>)

  datatype Action =
    | Look(t: nat)
    | Exchange(t: nat)
    | Keep(t: nat)                // acquire_distribute_: the first entry is acquired, the rest pushed back
    | Bite(t: nat, amount: nat)   // snatch_part: a part is kept, the rest pushed back
    | Enqueue(t: nat, n: nat)     // enqueue_thread_
    | LoadHead(t: nat)
    | FindTail(t: nat, tail: nat)
    | Aim(t: nat)
    | Swap(t: nat)

  /** All entries are new or alive, each held by a thread, and the queue is empty. */
  ghost predicate Init(s: State) {
    && |s.skip| == |s.next| == |s.place| && |s.own| == |s.phase|
    && s.head == None && s.shared == []
    && (forall t | 0 <= t < |s.phase| :: s.phase[t] == Idle && s.own[t] == [])
    && (forall n | 0 <= n < |s.place| :: s.place[n].Held? && s.place[n].thread < |s.phase|)
  }

  /** The node reached by following hints a number of times. */
  function Follow(next: Links, skip: Links, node: nat, times: nat): Option<nat> {
    if times == 0 then Some(node) else
      match Follow(next, skip, node, times - 1)
      case None => None
      case Some(n) => if n < |next| && n < |skip| then GetSkip(next, skip, n) else None
  }

  /** get_tail: following hints from the node comes to rest here. */
  ghost predicate Settles(next: Links, skip: Links, node: nat, tail: nat) {
    && tail < |next| && tail < |skip| && GetSkip(next, skip, tail) == Some(tail)
    && exists times: nat :: Follow(next, skip, node, times) == Some(tail)
  }

  function Moved(place: seq<Place>, list: seq<nat>, p: Place): seq<Place> {
    seq(|place|, n requires 0 <= n < |place| => if n in list then p else place[n])
  }

  ghost predicate Enabled(s: State, a: Action) {
    && a.t < |s.phase| && a.t < |s.own|
    && var p := s.phase[a.t];
       match a
       case Look(_) => p.Idle?
       case Exchange(_) => p.Found?
       case Keep(t) => p.Taken? && (p.snatched.Some? ==> s.own[t] != [] && p.snatched.value < |s.next|)
       case Bite(t, amount) =>
         && p.Taken?
         && (p.snatched.Some? ==>
               var n := Bitten(s.own[t], amount);
               0 < n <= |s.own[t]| && (forall i | 0 <= i < n :: s.own[t][i] < |s.next| && s.own[t][i] < |s.skip|))
       case Enqueue(t, n) => p.Idle? && n < |s.place| && s.place[n] == Held(t) && n < |s.next| && n < |s.skip|
       case LoadHead(_) => p.Pushing?
       case FindTail(_, tail) => p.Loaded? && p.first < |s.skip| && Settles(s.next, s.skip, p.first, tail)
       case Aim(_) => p.Ready? && p.tail < |s.next|
       case Swap(_) => p.Aimed?
  }

  ghost function Step(s: State, a: Action): State
    requires Enabled(s, a)
  {
    var t := a.t;
    var p := s.phase[t];
    match a
    case Look(_) => if s.head == None then s else s.(phase := s.phase[t := Found])
    case Exchange(_) =>
      s.(phase := s.phase[t := Taken(s.head)], head := None,
         place := Moved(s.place, s.shared, Private(t)), own := s.own[t := s.shared], shared := [])
    case Keep(_) => StepKeep(s, t)
    case Bite(_, amount) => StepBite(s, t, amount)
    case Enqueue(_, n) =>
      s.(next := s.next[n := None], skip := s.skip[n := Some(n)], phase := s.phase[t := Pushing(Some(n))],
         place := s.place[n := Private(t)], own := s.own[t := [n]])
    case LoadHead(_) => s.(phase := s.phase[t := if p.list.None? then Idle else Loaded(p.list.value, s.head)])
    case FindTail(_, tail) =>
      s.(skip := s.skip[p.first := Some(tail)],
         phase := s.phase[t := Ready(p.first, tail, p.seen)])
    case Aim(_) => s.(next := s.next[p.tail := p.seen], phase := s.phase[t := Aimed(p.first, p.tail, p.seen)])
    case Swap(_) =>
      if s.head == p.seen then
        s.(head := Some(p.first), phase := s.phase[t := Idle],
           place := Moved(s.place, s.own[t], Shared), shared := s.own[t] + s.shared, own := s.own[t := []])
      else s.(phase := s.phase[t := Ready(p.first, p.tail, s.head)])
  }

  ghost function StepKeep(s: State, t: nat): State
    requires Enabled(s, Keep(t))
  {
    match s.phase[t].snatched
    case None => s.(phase := s.phase[t := Idle])
    case Some(x) =>
      s.(phase := s.phase[t := Pushing(s.next[x])],
         place := Moved(s.place, s.own[t][..1], Held(t)), own := s.own[t := s.own[t][1..]])
  }

  ghost function StepBite(s: State, t: nat, amount: nat): State
    requires Enabled(s, Bite(t, amount))
  {
    match s.phase[t].snatched
    case None => s.(phase := s.phase[t := Pushing(None)])
    case Some(_) =>
      var list := s.own[t];
      var n := Bitten(list, amount);
      s.(next := CutNext(s.next, list, n), skip := PointAt(s.skip, list[..n], list[n - 1]),
         phase := s.phase[t := Pushing(s.next[list[n - 1]])],
         place := Moved(s.place, list[..n], Held(t)), own := s.own[t := list[n..]])
  }

  ghost predicate IsRun(run: seq<State>, actions: seq<Action>) {
    && |run| == |actions| + 1 && Init(run[0])
    && forall i | 0 <= i < |actions| :: Enabled(run[i], actions[i]) && run[i + 1] == Step(run[i], actions[i])
  }

  ghost predicate Reachable(s: State) {
    exists run, actions :: IsRun(run, actions) && run[|run| - 1] == s
  }

  // ---------------------------------------------------------------------------------------------- the invariant

  /** The list that a thread is working on, as its phase says. */
  ghost predicate OwnOk(s: State, t: nat)
    requires t < |s.phase| && t < |s.own|
  {
    var list := s.own[t];
    Hints(s.skip, list) &&
    match s.phase[t]
    case Idle => list == []
    case Found => list == []
    case Taken(x) => Chain(s.next, list, None) && x == First(list)
    case Pushing(x) => Chain(s.next, list, None) && x == First(list)
    case Loaded(x, _) => Chain(s.next, list, None) && list != [] && x == list[0]
    case Ready(x, tail, _) =>
      Tailed(s, list, x, tail) && tail < |s.next| && Chain(s.next, list, s.next[tail])
    case Aimed(x, tail, seen) => Tailed(s, list, x, tail) && Chain(s.next, list, seen)
  }

  /** The first and the last node of the list, the one hinting at the other. */
  ghost predicate Tailed(s: State, list: seq<nat>, first: nat, tail: nat) {
    list != [] && first == list[0] && tail == Last(list) && first < |s.skip| && s.skip[first] == Some(tail)
  }

  ghost predicate SharedOk(s: State) {
    Hints(s.skip, s.shared) && Chain(s.next, s.shared, None) && s.head == First(s.shared)
  }

  /** Where the entry is agrees with the lists, and whoever has it is a thread of the system. */
  ghost predicate PlaceOk(s: State, n: nat)
    requires n < |s.place|
  {
    && (s.place[n] == Shared || s.place[n].thread < |s.own|)
    && (n in s.shared <==> s.place[n] == Shared)
    && (forall t | 0 <= t < |s.own| :: n in s.own[t] <==> s.place[n] == Private(t))
  }

  ghost predicate Inv(s: State) {
    && |s.skip| == |s.next| == |s.place| && |s.own| == |s.phase|
    && SharedOk(s)
    && (forall t: nat {:trigger OwnOk(s, t)} | t < |s.phase| :: OwnOk(s, t))
    && (forall n: nat {:trigger PlaceOk(s, n)} | n < |s.place| :: PlaceOk(s, n))
  }
}
