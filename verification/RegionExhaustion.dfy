/** allocate_chunk run by one thread alone: it tries the splits of a region in an order that reaches all of them, so it
    comes back empty-handed only when every chunk of the region is held. */
module RegionExhaustion {
  import opened Wrappers
  import opened Powers
  import opened PoolProtocol
  import PoolSafety
  import opened PoolProgress
  import opened RegionLayout
  import opened RegionPools

  // ---------------------------------------------------------------------------------------------- order of the splits

  /** RegionChunkAllocatorPools::next_split */
  function NextSplit(split: nat, step: nat, splitsLog2: nat): nat {
    ModPow2(split + step, splitsLog2)
  }

  lemma ModOf(x: nat, n: nat, q: int, r: nat)
    requires x == q * Pow2(n) + r && r < Pow2(n)
    ensures ModPow2(x, n) == r
  {
    MulGrows(q + 1, Pow2(n));
    MulDistributes(q, 1, Pow2(n));
    DivPow2Unique(x, n, q);
  }

  /** Remainders may be taken before adding. */
  lemma ModBeforeAdd(x: nat, y: nat, n: nat)
    ensures ModPow2(ModPow2(x, n) + y, n) == ModPow2(x + y, n)
  {
    var s := ModPow2(x, n) + y;
    MulDistributes(DivPow2(x, n), DivPow2(s, n), Pow2(n));
    ModOf(x + y, n, DivPow2(x, n) + DivPow2(s, n), ModPow2(s, n));
  }

  /** The split after k steps. */
  function SplitAt(start: nat, step: nat, splitsLog2: nat, k: nat): nat {
    ModPow2(start + k * step, splitsLog2)
  }

  lemma SplitAfter(start: nat, step: nat, splitsLog2: nat, k: nat)
    ensures NextSplit(SplitAt(start, step, splitsLog2, k), step, splitsLog2) == SplitAt(start, step, splitsLog2, k + 1)
  {
    MulDistributes(k, 1, step);
    ModBeforeAdd(start + k * step, step, splitsLog2);
  }

  /** An odd number has an inverse modulo every power of two. */
  lemma {:induction false} OddInverse(a: nat, m: nat) returns (inverse: nat, q: int)
    requires a % 2 == 1
    ensures a * inverse == 1 + q * Pow2(m)
  {
    if m == 0 {
      inverse, q := 1, a - 1;
    } else {
      inverse, q := OddInverse(a, m - 1);
      inverse, q := DoubleModulus(a, inverse, q, Pow2(m - 1));
    }
  }

  /** An inverse modulo p, or that inverse plus p, is one modulo 2 * p. */
  lemma DoubleModulus(a: nat, inverse: nat, q: int, p: nat) returns (inverse': nat, q': int)
    requires a % 2 == 1 && a * inverse == 1 + q * p
    ensures a * inverse' == 1 + q' * (2 * p)
  {
    if q % 2 == 0 {
      inverse', q' := inverse, q / 2;
    } else {
      inverse', q' := inverse + p, (q + a) / 2;
      MulDistributes(q, a, p);
      MulDistributes(inverse, p, a);
      assert a * (inverse + p) == (inverse + p) * a && p * a == a * p && inverse * a == a * inverse;
    }
    HalfTimes(q', p);
  }

  lemma HalfTimes(q: int, p: int)
    ensures q * (2 * p) == (2 * q) * p
  {
  }

  /** With an odd step, every split is reached within as many steps as there are splits. */
  lemma VisitsAll(start: nat, step: nat, splitsLog2: nat, d: nat) returns (k: nat)
    requires step % 2 == 1 && d < Pow2(splitsLog2)
    ensures k < Pow2(splitsLog2) && SplitAt(start, step, splitsLog2, k) == d
  {
    var n := Pow2(splitsLog2);
    var inverse, q := OddInverse(step, splitsLog2);
    var x := (d - start) * inverse;
    DivBounds(x, n);
    k := x % n;
    // start + k * step == start + (d - start) * inverse * step - (x / n) * n * step == d + a multiple of n
    var y := (d - start) * q - (x / n) * step;
    Rearranged(start, step, d, inverse, q, x / n, n);
    ModOf(start + k * step, splitsLog2, y, d);
  }

  lemma Rearranged(start: int, step: int, d: int, inverse: int, q: int, quotient: int, n: int)
    requires step * inverse == 1 + q * n
    ensures start + ((d - start) * inverse - quotient * n) * step == ((d - start) * q - quotient * step) * n + d
  {
    var e := d - start;
    MulDistributes(e * inverse, quotient * n, step);
    assert e * inverse * step == e * (step * inverse) by { MulAssociates(e, inverse, step); }
    assert e * (1 + q * n) == e + e * (q * n);
    MulAssociates(e, q, n);
    assert quotient * n * step == quotient * step * n by {
      MulAssociates(quotient, n, step);
      MulAssociates(quotient, step, n);
    }
    MulDistributes(e * q, quotient * step, n);
  }

  ghost predicate Reaches(start: nat, step: nat, splitsLog2: nat, d: nat) {
    exists k: nat :: k < Pow2(splitsLog2) && SplitAt(start, step, splitsLog2, k) == d
  }

  /** Odd steps are the only ones that reach all splits, unless there is but one; next_split lets a step of 0 pass as
      well. */
  lemma ReachesAllWhenOdd(start: nat, step: nat, splitsLog2: nat)
    ensures (forall d: nat | d < Pow2(splitsLog2) :: Reaches(start, step, splitsLog2, d)) 
       <==> step % 2 == 1 || splitsLog2 == 0
  {
    if step % 2 == 1 {
      forall d: nat | d < Pow2(splitsLog2) ensures Reaches(start, step, splitsLog2, d) {
        var k := VisitsAll(start, step, splitsLog2, d);
      }
    } else if splitsLog2 == 0 {
      forall d: nat | d < Pow2(splitsLog2) ensures Reaches(start, step, splitsLog2, d) {
        assert SplitAt(start, step, splitsLog2, 0) == d;
      }
    } else {
      EvenStepMisses(start, step, splitsLog2);
    }
  }

  lemma EvenStepMisses(start: nat, step: nat, splitsLog2: nat)
    requires step % 2 == 0 && splitsLog2 > 0
    ensures ModPow2(start + 1, splitsLog2) < Pow2(splitsLog2)
    ensures !Reaches(start, step, splitsLog2, ModPow2(start + 1, splitsLog2))
  {
    var d := ModPow2(start + 1, splitsLog2);
    KeepsParity(start + 1, splitsLog2);
    forall k: nat ensures SplitAt(start, step, splitsLog2, k) != d {
      StepKeepsParity(start, step, splitsLog2, k);
    }
  }

  lemma StepKeepsParity(start: nat, step: nat, splitsLog2: nat, k: nat)
    requires step % 2 == 0 && splitsLog2 > 0
    ensures SplitAt(start, step, splitsLog2, k) % 2 == start % 2
  {
    var half := EvenTimes(k, step);
    KeepsParity(start + k * step, splitsLog2);
    SameParity(start + k * step, half, start);
  }

  lemma EvenTimes(k: nat, step: nat) returns (half: nat)
    requires step % 2 == 0
    ensures k * step == 2 * half
  {
    half := k * (step / 2);
    MulAssociates(2, step / 2, k);
    MulCommutes(k, step / 2);
    MulCommutes(k, step);
  }

  lemma SameParity(x: int, half: int, y: int)
    requires x == 2 * half + y
    ensures x % 2 == y % 2
  {
  }

  lemma KeepsParity(x: nat, n: nat)
    requires n > 0
    ensures ModPow2(x, n) % 2 == x % 2
  {
    var q, p := DivPow2(x, n), Pow2(n - 1);
    HalfTimes(q, p);
    MulAssociates(2, q, p);
    SameParity(x, q * p, ModPow2(x, n));
  }

  // ---------------------------------------------------------------------------------------------- one pool, one thread

  /** No call is under way, so the pool is in one of the states its invariant leaves to it. */
  ghost predicate Quiet(p: Pool) {
    PoolSafety.Inv(p) && p.workers == map[]
  }

  ghost predicate AllHeld(p: Pool) {
    forall h | InRange(p, h) :: h in p.places && p.places[h].Held?
  }

  /** An allocation from one pool, with no one else at work. */
  function AllocateAlone(p: Pool, t: ThreadId, attempts: int): (Pool, Answer) {
    Drive(Become(p, t, PopLoad(attempts)), t, 4)
  }

  lemma BecomeTwice(p: Pool, t: ThreadId, v: Worker, w: Worker)
    ensures Become(Become(p, t, v), t, w) == Become(p, t, w)
    ensures p.workers == map[] ==> Leave(Become(p, t, v), t) == p
  {
    assert p.workers[t := v][t := w] == p.workers[t := w];
    if p.workers == map[] {
      assert p.workers[t := v] - {t} == map[];
    }
  }

  /** The steps it takes: to the head, and then to the node on the free list ... */
  lemma AloneFromList(p: Pool, t: ThreadId, attempts: int)
    requires Quiet(p) && attempts != 0 && p.free != []
    ensures var (p', answer) := AllocateAlone(p, t, attempts);
            && p.free[0] in p.places && answer == Got(p.free[0])
            && p'.first == p.first && p'.limit == p.limit && p'.workers == map[]
            && p'.places == p.places[p.free[0] := Held]
  {
    var q0 := Become(p, t, PopLoad(attempts));
    var q1 := WorkerStepOf(q0, t).0;
    BecomeTwice(p, t, PopLoad(attempts), PopRead(attempts, p.head));
    assert q1 == Become(p, t, PopRead(attempts, p.head));
    assert Drive(q0, t, 4) == Drive(q1, t, 3);
    var h := p.free[0];
    var w := PopCas(attempts, p.head, p.links[h]);
    BecomeTwice(p, t, PopRead(attempts, p.head), w);
    var q2 := Become(p, t, w);
    assert WorkerStepOf(q1, t) == (q2, Running);
    assert Drive(q1, t, 3) == Drive(q2, t, 2);
    BecomeTwice(p, t, w, w);
    assert Drive(q2, t, 2) == WorkerStepOf(q2, t);
  }

  /** ... or to the counter, when the list is empty. */
  lemma AloneFromStack(p: Pool, t: ThreadId, attempts: int)
    requires Quiet(p) && attempts != 0 && p.free == []
    ensures var (p', answer) := AllocateAlone(p, t, attempts);
            && answer == (if p.top < p.limit then Got(p.top) else Null)
            && p' == if p.top < p.limit then Hold(p, p.top).(top := p.top + 1) else p
  {
    var q0 := Become(p, t, PopLoad(attempts));
    var q1 := Become(p, t, PopRead(attempts, p.head));
    BecomeTwice(p, t, PopLoad(attempts), PopRead(attempts, p.head));
    assert WorkerStepOf(q0, t) == (q1, Running) && Drive(q0, t, 4) == Drive(q1, t, 3);
    var q2 := Become(p, t, BumpLoad);
    BecomeTwice(p, t, PopRead(attempts, p.head), BumpLoad);
    assert WorkerStepOf(q1, t) == (q2, Running) && Drive(q1, t, 3) == Drive(q2, t, 2);
    BecomeTwice(p, t, BumpLoad, BumpAdd);
    if p.top < p.limit {
      var q3 := Become(p, t, BumpAdd);
      assert WorkerStepOf(q2, t) == (q3, Running) && Drive(q2, t, 2) == Drive(q3, t, 1);
      BecomeTwice(p, t, BumpAdd, BumpAdd);
      assert Drive(q3, t, 1) == WorkerStepOf(q3, t);
    } else {
      assert Drive(q2, t, 2) == WorkerStepOf(q2, t);
    }
  }

  /** Run alone, an allocation returns the head of the free list or else the next unused handle, and null exactly when
      all handles of the pool are held; it never fails. */
  lemma AloneMeaning(p: Pool, t: ThreadId, attempts: int)
    requires Quiet(p) && attempts != 0
    ensures var (p', answer) := AllocateAlone(p, t, attempts);
            && Quiet(p') && p'.first == p.first && p'.limit == p.limit
            && (answer == Null <==> AllHeld(p)) && (answer == Null ==> p' == p)
            && (answer != Null ==>
                  && answer == Got(if p.free != [] then p.free[0] else p.top)
                  && answer.handle in p.places && !p.places[answer.handle].Held?
                  && p'.places == p.places[answer.handle := Held])
  {
    PoolSafety.NextPreserves(p, BeginAllocate(t, attempts));
    DriveKeeps(Become(p, t, PopLoad(attempts)), t, 4);
    if p.free != [] {
      AloneFromList(p, t, attempts);
      assert p.free[0] in p.free;
    } else {
      AloneFromStack(p, t, attempts);
      if p.top < p.limit {
        assert InRange(p, p.top) && p.places[p.top].Fresh?;
      } else {
        forall h | InRange(p, h) ensures h in p.places && p.places[h].Held? {
          assert !p.places[h].Free? && !p.places[h].Fresh? && !p.places[h].Pushing?;
        }
      }
    }
  }

  /** Without attempts an allocation fails, whatever there is to allocate. allocate_chunk does not count such a round,
      and tries for ever. */
  lemma NoAttemptsFail(p: Pool, t: ThreadId)
    requires Quiet(p)
    ensures AllocateAlone(p, t, 0) == (p, OpFailed)
  {
    var q0, q1 := Become(p, t, PopLoad(0)), Become(p, t, PopRead(0, p.head));
    BecomeTwice(p, t, PopLoad(0), PopRead(0, p.head));
    assert WorkerStepOf(q0, t) == (q1, Running) && Drive(q0, t, 4) == Drive(q1, t, 3);
    BecomeTwice(p, t, PopRead(0, p.head), PopRead(0, p.head));
    assert Drive(q1, t, 3) == WorkerStepOf(q1, t);
  }

  // ---------------------------------------------------------------------------------------------- a region

  ghost predicate AllQuiet(entries: seq<Pool>) {
    forall i | 0 <= i < |entries| :: Quiet(entries[i])
  }

  /** One handle of one pool is held now, and was not before; nothing else was given out. */
  ghost predicate Granted(before: seq<Pool>, after: seq<Pool>, split: nat, h: Handle) {
    && split < |before| == |after| && after == before[split := after[split]]
    && after[split].first == before[split].first && after[split].limit == before[split].limit
    && h in before[split].places && !before[split].places[h].Held?
    && after[split].places == before[split].places[h := Held]
  }

  method TrySplit(entries: array<Pool>, split: nat, t: ThreadId, attempts: int) returns (r: Option<Handle>)
    requires split < entries.Length && AllQuiet(entries[..]) && attempts != 0
    modifies entries
    ensures AllQuiet(entries[..])
    ensures r.None? ==> entries[..] == old(entries[..]) && AllHeld(entries[split])
    ensures r.Some? ==> Granted(old(entries[..]), entries[..], split, r.value)
  {
    AloneMeaning(entries[split], t, attempts);
    var (pool, answer) := AllocateAlone(entries[split], t, attempts);
    entries[split] := pool;
    return if answer.Got? then Some(answer.handle) else None;
  }

  /** next_split aborts on a positive even step. */
  predicate StepAllowed(step: nat) {
    step == 0 || step % 2 == 1
  }

  /** All the splits that allocate_chunk_ tries are used up. */
  ghost predicate TriedHeld(entries: seq<Pool>, splitsLog2: nat, start: nat, step: nat)
    requires |entries| == Pow2(splitsLog2)
  {
    forall d: nat {:trigger Reaches(start, step, splitsLog2, d)} | d < |entries| ::
      Reaches(start, step, splitsLog2, d) ==> AllHeld(entries[d])
  }

  ghost predicate EveryHeld(entries: seq<Pool>) {
    forall d: nat | d < |entries| :: AllHeld(entries[d])
  }

  /** Which is all the splits, if the step is odd or there is but one. */
  lemma TriedIsEvery(entries: seq<Pool>, splitsLog2: nat, start: nat, step: nat)
    requires |entries| == Pow2(splitsLog2) && (step % 2 == 1 || splitsLog2 == 0)
    ensures TriedHeld(entries, splitsLog2, start, step) <==> EveryHeld(entries)
  {
    ReachesAllWhenOdd(start, step, splitsLog2);
    if TriedHeld(entries, splitsLog2, start, step) {
      forall d: nat | d < |entries| ensures AllHeld(entries[d]) {
        assert Reaches(start, step, splitsLog2, d);
      }
    }
  }

  /** The split's turn comes after k splits that are all used up. */
  ghost predicate FirstInTurn(entries: seq<Pool>, splitsLog2: nat, start: nat, step: nat, split: nat, k: nat)
    requires |entries| == Pow2(splitsLog2)
  {
    && k < |entries| && SplitAt(start, step, splitsLog2, k) == split
    && forall i | 0 <= i < k :: AllHeld(entries[SplitAt(start, step, splitsLog2, i)])
  }

  /** allocate_chunk_: tries as many splits as there are, in the order of the step. */
  method AllocateOnce(entries: array<Pool>, splitsLog2: nat, t: ThreadId, attempts: int, start: nat, step: nat)
      returns (r: Option<(nat, Handle)>)
    requires entries.Length == Pow2(splitsLog2) && AllQuiet(entries[..]) && attempts != 0 && StepAllowed(step)
    modifies entries
    ensures AllQuiet(entries[..])
    ensures r.None? ==> entries[..] == old(entries[..]) && TriedHeld(entries[..], splitsLog2, start, step)
    ensures r.Some? ==>
              && Granted(old(entries[..]), entries[..], r.value.0, r.value.1)
              && Reaches(start, step, splitsLog2, r.value.0)
              && exists k :: FirstInTurn(old(entries[..]), splitsLog2, start, step, r.value.0, k)
  {
    var split := NextSplit(start, 0, splitsLog2);
    var k := 0;
    while k < entries.Length
      invariant k <= entries.Length && split == SplitAt(start, step, splitsLog2, k)
      invariant entries[..] == old(entries[..])
      invariant forall i | 0 <= i < k :: AllHeld(entries[SplitAt(start, step, splitsLog2, i)])
    {
      var handle := TrySplit(entries, split, t, attempts);
      if handle.Some? {
        assert FirstInTurn(old(entries[..]), splitsLog2, start, step, split, k);
        return Some((split, handle.value));
      }
      SplitAfter(start, step, splitsLog2, k);
      split := NextSplit(split, step, splitsLog2);
      k := k + 1;
    }
    AllTried(entries[..], splitsLog2, start, step);
    return None;
  }

  lemma AllTried(entries: seq<Pool>, splitsLog2: nat, start: nat, step: nat)
    requires |entries| == Pow2(splitsLog2)
    requires forall i | 0 <= i < |entries| :: AllHeld(entries[SplitAt(start, step, splitsLog2, i)])
    ensures TriedHeld(entries, splitsLog2, start, step)
  {
    forall d: nat | d < |entries| && Reaches(start, step, splitsLog2, d) ensures AllHeld(entries[d]) {
      var i: nat :| i < Pow2(splitsLog2) && SplitAt(start, step, splitsLog2, i) == d;
    }
  }

  /** The handle handed out was not held, and its split is one of those tried. */
  lemma GrantedWasFree(before: seq<Pool>, after: seq<Pool>, splitsLog2: nat, start: nat, step: nat, split: nat,
      h: Handle)
    requires |before| == Pow2(splitsLog2) && AllQuiet(before)
    requires Granted(before, after, split, h) && Reaches(start, step, splitsLog2, split)
    ensures !TriedHeld(before, splitsLog2, start, step)
  {
    assert Quiet(before[split]) && InRange(before[split], h);
    assert !AllHeld(before[split]);
  }

  /** allocate_chunk: in a round that is not the last it tries again, and without a limit on the rounds it does so until
      it gets a chunk, so then one has to be free. It comes back with nothing exactly when there are no rounds or all
      the splits that it tries are used up, and otherwise with a chunk that nobody held. */
  method AllocateChunk(entries: array<Pool>, splitsLog2: nat, t: ThreadId, rounds: int, attempts: int, start: nat,
      step: nat)
      returns (r: Option<(nat, Handle)>)
    requires entries.Length == Pow2(splitsLog2) && AllQuiet(entries[..]) && StepAllowed(step)
    requires rounds != 0 ==> attempts != 0
    requires rounds < 0 ==> !TriedHeld(entries[..], splitsLog2, start, step)
    modifies entries
    ensures AllQuiet(entries[..])
    ensures r.None? <==> rounds == 0 || TriedHeld(old(entries[..]), splitsLog2, start, step)
    ensures r.None? ==> entries[..] == old(entries[..])
    ensures r.Some? ==> Granted(old(entries[..]), entries[..], r.value.0, r.value.1)
  {
    var left := rounds;
    while left != 0
      invariant AllQuiet(entries[..]) && entries[..] == old(entries[..])
      invariant if rounds < 0 then left == rounds else 0 <= left <= rounds
      invariant left != rounds ==> TriedHeld(entries[..], splitsLog2, start, step)
      decreases if left > 0 then left else 0
    {
      r := AllocateOnce(entries, splitsLog2, t, attempts, start, step);
      if r.Some? {
        GrantedWasFree(old(entries[..]), entries[..], splitsLog2, start, step, r.value.0, r.value.1);
        return;
      }
      left := left - (if left > 0 then 1 else 0);
    }
    return None;
  }

  // ---------------------------------------------------------------------------------------------- a whole region

  /** These are the pools that create() made for the splits of a region. */
  ghost predicate PoolsOf(c: Config, region: nat, splitsLog2: nat, entries: seq<Pool>)
    requires c.Accepted() && region < c.Count()
  {
    && |entries| == Pow2(splitsLog2)
    && forall d: nat {:trigger PoolOf(c, region, splitsLog2, entries, d)} | d < |entries| ::
         PoolOf(c, region, splitsLog2, entries, d)
  }

  ghost predicate PoolOf(c: Config, region: nat, splitsLog2: nat, entries: seq<Pool>, d: nat)
    requires c.Accepted() && region < c.Count() && d < |entries|
  {
    && entries[d].first == EntryFirst(c, splitsLog2, region, d)
    && entries[d].limit == EntryFirst(c, splitsLog2, region, d + 1)
  }

  /** Somebody has the handle. */
  ghost predicate HandleHeld(entries: seq<Pool>, h: Handle) {
    exists d: nat :: d < |entries| && InRange(entries[d], h) && h in entries[d].places && entries[d].places[h].Held?
  }

  /** Every chunk of the region is held. */
  ghost predicate RegionHeld(c: Config, region: nat, entries: seq<Pool>)
    requires c.Accepted() && region < c.Count()
  {
    forall h: nat | c.FirstHandle(region) <= h < c.FirstHandle(region) + c.Handles(region) :: HandleHeld(entries, h)
  }

  /** A region's pool has a handle in its range exactly if its chunk is one of the region's and of that split. */
  lemma RangeIsSplit(c: Config, region: nat, splitsLog2: nat, entries: seq<Pool>, d: nat, h: nat)
    requires c.Accepted() && Exact(c, splitsLog2) && region < c.Count()
    requires PoolsOf(c, region, splitsLog2, entries) && d < |entries|
    ensures InRange(entries[d], h) <==>
              h >= c.FirstHandle(region) && InSplit(c.Handles(region), splitsLog2, h - c.FirstHandle(region), d)
    ensures InRange(entries[d], h) ==> h < c.FirstHandle(region) + c.Handles(region)
  {
    assert PoolOf(c, region, splitsLog2, entries, d);
    EntryExact(c, splitsLog2, region, d);
    EntryExact(c, splitsLog2, region, d + 1);
  }

  /** No two pools of a region have a handle in common ... */
  lemma OnePool(c: Config, region: nat, splitsLog2: nat, entries: seq<Pool>, d: nat, e: nat, h: nat)
    requires c.Accepted() && Exact(c, splitsLog2) && region < c.Count() && PoolsOf(c, region, splitsLog2, entries)
    requires d < |entries| && e < |entries| && InRange(entries[d], h) && InRange(entries[e], h)
    ensures d == e
  {
    RangeIsSplit(c, region, splitsLog2, entries, d, h);
    RangeIsSplit(c, region, splitsLog2, entries, e, h);
    SplitUnique(c.Handles(region), splitsLog2, h - c.FirstHandle(region), d, e);
  }

  /** ... and every handle of the region is in one. */
  lemma SomePool(c: Config, region: nat, splitsLog2: nat, entries: seq<Pool>, h: nat) returns (d: nat)
    requires c.Accepted() && Exact(c, splitsLog2) && region < c.Count() && PoolsOf(c, region, splitsLog2, entries)
    requires c.FirstHandle(region) <= h < c.FirstHandle(region) + c.Handles(region)
    ensures d < |entries| && InRange(entries[d], h)
  {
    SplitsCover(c.Handles(region), splitsLog2);
    d := SplitExists(c.Handles(region), splitsLog2, h - c.FirstHandle(region), Pow2(splitsLog2));
    RangeIsSplit(c, region, splitsLog2, entries, d, h);
  }

  /** All the pools are used up exactly when all the region's chunks are held. */
  lemma EveryIsRegion(c: Config, region: nat, splitsLog2: nat, entries: seq<Pool>)
    requires c.Accepted() && Exact(c, splitsLog2) && region < c.Count() && PoolsOf(c, region, splitsLog2, entries)
    ensures EveryHeld(entries) <==> RegionHeld(c, region, entries)
  {
    if EveryHeld(entries) {
      forall h: nat | c.FirstHandle(region) <= h < c.FirstHandle(region) + c.Handles(region)
        ensures HandleHeld(entries, h)
      {
        var d := SomePool(c, region, splitsLog2, entries, h);
        assert AllHeld(entries[d]);
      }
    }
    if RegionHeld(c, region, entries) {
      forall d: nat | d < |entries| ensures AllHeld(entries[d]) {
        RegionMeansPool(c, region, splitsLog2, entries, d);
      }
    }
  }

  lemma RegionMeansPool(c: Config, region: nat, splitsLog2: nat, entries: seq<Pool>, d: nat)
    requires c.Accepted() && Exact(c, splitsLog2) && region < c.Count() && PoolsOf(c, region, splitsLog2, entries)
    requires RegionHeld(c, region, entries) && d < |entries|
    ensures AllHeld(entries[d])
  {
    forall h | InRange(entries[d], h) ensures h in entries[d].places && entries[d].places[h].Held? {
      RangeIsSplit(c, region, splitsLog2, entries, d, h);
      assert HandleHeld(entries, h);
      var e: nat :| e < |entries| && InRange(entries[e], h) && h in entries[e].places && entries[e].places[h].Held?;
      OnePool(c, region, splitsLog2, entries, d, e, h);
    }
  }

  /** With an odd step, or a single split, nothing comes back exactly when every chunk of the region is held, and
      otherwise a chunk of the region that nobody held. */
  method AllocateFromRegion(c: Config, region: nat, entries: array<Pool>, splitsLog2: nat, t: ThreadId, rounds: int,
                            attempts: int, start: nat, step: nat)
      returns (r: Option<(nat, Handle)>)
    requires c.Accepted() && Exact(c, splitsLog2) && region < c.Count() && PoolsOf(c, region, splitsLog2, entries[..])
    requires AllQuiet(entries[..]) && attempts != 0 && rounds > 0
    requires step % 2 == 1 || (step == 0 && splitsLog2 == 0)
    modifies entries
    ensures AllQuiet(entries[..])
    ensures r.None? <==> RegionHeld(c, region, old(entries[..]))
    ensures r.None? ==> entries[..] == old(entries[..])
    ensures r.Some? ==>
              && Granted(old(entries[..]), entries[..], r.value.0, r.value.1)
              && c.FirstHandle(region) <= r.value.1 < c.FirstHandle(region) + c.Handles(region)
              && !HandleHeld(old(entries[..]), r.value.1)
  {
    TriedIsEvery(entries[..], splitsLog2, start, step);
    EveryIsRegion(c, region, splitsLog2, entries[..]);
    r := AllocateChunk(entries, splitsLog2, t, rounds, attempts, start, step);
    if r.Some? {
      GrantedNotHeld(c, region, splitsLog2, old(entries[..]), entries[..], r.value.0, r.value.1);
    }
  }

  lemma GrantedNotHeld(c: Config, region: nat, splitsLog2: nat, before: seq<Pool>, after: seq<Pool>, split: nat,
      h: Handle)
    requires c.Accepted() && Exact(c, splitsLog2) && region < c.Count() && PoolsOf(c, region, splitsLog2, before)
    requires AllQuiet(before) && Granted(before, after, split, h)
    ensures c.FirstHandle(region) <= h < c.FirstHandle(region) + c.Handles(region) && !HandleHeld(before, h)
  {
    assert Quiet(before[split]) && InRange(before[split], h);
    RangeIsSplit(c, region, splitsLog2, before, split, h);
    if HandleHeld(before, h) {
      var d: nat :| d < |before| && InRange(before[d], h) && h in before[d].places && before[d].places[h].Held?;
      OnePool(c, region, splitsLog2, before, d, split, h);
    }
  }

  // ---------------------------------------------------------------------------------------------- a step of 0

  /** A split without chunks, and one whose only chunk nobody has used. */
  const NO_CHUNK := Pool(0, 0, Head(0, None), 0, map[], map[], map[], [])
  const ONE_CHUNK := Pool(0, 1, Head(0, None), 0, map[0 := None], map[], map[0 := Fresh], [])

  lemma ExamplePools()
    ensures Quiet(NO_CHUNK) && AllHeld(NO_CHUNK)
    ensures Quiet(ONE_CHUNK) && !AllHeld(ONE_CHUNK)
  {
    PoolSafety.InitialInv(NO_CHUNK);
    PoolSafety.InitialInv(ONE_CHUNK);
    assert InRange(ONE_CHUNK, 0);
  }

  lemma ZeroStepStays(k: nat)
    ensures SplitAt(0, 0, 1, k) == 0
  {
    assert k * 0 == 0;
    DivPow2Unique(0, 1, 0);
  }

  lemma FirstSplitTried(entries: seq<Pool>)
    requires |entries| == 2 && AllHeld(entries[0])
    ensures Pow2(1) == 2 && TriedHeld(entries, 1, 0, 0)
  {
    assert Pow2(1) == 2;
    forall d: nat | d < 2 && Reaches(0, 0, 1, d) ensures AllHeld(entries[d]) {
      var k: nat :| k < Pow2(1) && SplitAt(0, 0, 1, k) == d;
      ZeroStepStays(k);
    }
  }

  /** Two splits, of which only the second has a chunk: a step of 0, which next_split lets pass, never gets there. */
  method ZeroStepMissesChunk(t: ThreadId, rounds: int, attempts: int)
      returns (entries: array<Pool>, r: Option<(nat, Handle)>)
    requires rounds > 0 && attempts != 0
    ensures AllQuiet(entries[..]) && r == None && !EveryHeld(entries[..])
  {
    ExamplePools();
    entries := new Pool[2](i => if i == 0 then NO_CHUNK else ONE_CHUNK);
    assert Pow2(1) == 2;
    assert entries[..] == [NO_CHUNK, ONE_CHUNK];
    FirstSplitTried(entries[..]);
    r := AllocateChunk(entries, 1, t, rounds, attempts, 0, 0);
    assert !AllHeld(entries[..][1]);
  }
}
