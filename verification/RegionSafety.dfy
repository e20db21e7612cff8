/** All the pools of a region chunk allocator at once. Each pool is the step system of PoolProtocol over its own
    handles; a step of the whole is a step of one pool. Since the handles partition the regions, what one client holds
    never overlaps what another holds, whichever pools they came from. */
module RegionSafety {
  import opened Powers
  import opened RegionLayout
  import opened RegionPools
  import PoolProtocol
  import PoolSafety
  import PoolProgress

  datatype Key = Key(region: nat, split: nat)

  type System = map<Key, PoolProtocol.Pool>

  ghost predicate IsKey(c: Config, splitsLog2: nat, k: Key) {
    k.region < c.Count() && k.split < Pow2(splitsLog2)
  }

  /** A pool is over the handles that create() gave to its entry. */
  ghost predicate Placed(c: Config, splitsLog2: nat, k: Key, p: PoolProtocol.Pool)
    requires c.Accepted()
  {
    && IsKey(c, splitsLog2, k)
    && p.first == EntryFirst(c, splitsLog2, k.region, k.split)
    && p.limit == EntryFirst(c, splitsLog2, k.region, k.split + 1)
  }

  ghost predicate Init(c: Config, splitsLog2: nat, s: System)
    requires c.Accepted()
  {
    forall k | k in s :: Placed(c, splitsLog2, k, s[k]) && PoolProtocol.IsInitial(s[k])
  }

  ghost predicate Enabled(s: System, k: Key, act: PoolProtocol.Action) {
    k in s && PoolProtocol.Enabled(s[k], act)
  }

  function Next(s: System, k: Key, act: PoolProtocol.Action): System
    requires Enabled(s, k, act)
  {
    s[k := PoolProtocol.Next(s[k], act)]
  }

  ghost predicate IsRun(c: Config, splitsLog2: nat, run: seq<System>, acts: seq<(Key, PoolProtocol.Action)>)
    requires c.Accepted()
  {
    && |run| == |acts| + 1 && Init(c, splitsLog2, run[0])
    && forall i | 0 <= i < |acts| :: Enabled(run[i], acts[i].0, acts[i].1)
        && run[i + 1] == Next(run[i], acts[i].0, acts[i].1)
  }

  ghost predicate Reachable(c: Config, splitsLog2: nat, s: System)
    requires c.Accepted()
  {
    exists run, acts :: IsRun(c, splitsLog2, run, acts) && run[|acts|] == s
  }

  ghost predicate Inv(c: Config, splitsLog2: nat, s: System)
    requires c.Accepted()
  {
    forall k {:trigger PoolOk(c, splitsLog2, k, s)} | k in s :: PoolOk(c, splitsLog2, k, s)
  }

  ghost predicate PoolOk(c: Config, splitsLog2: nat, k: Key, s: System)
    requires c.Accepted() && k in s
  {
    Placed(c, splitsLog2, k, s[k]) && PoolSafety.Inv(s[k])
  }

  lemma RangeStays(p: PoolProtocol.Pool, act: PoolProtocol.Action)
    requires PoolProtocol.Enabled(p, act)
    ensures PoolProtocol.Next(p, act).first == p.first && PoolProtocol.Next(p, act).limit == p.limit
  {
  }

  lemma {:induction false} RunInv(c: Config, splitsLog2: nat, run: seq<System>, acts: seq<(Key, PoolProtocol.Action)>,
      n: nat)
    requires c.Accepted() && IsRun(c, splitsLog2, run, acts) && n <= |acts|
    ensures Inv(c, splitsLog2, run[n])
  {
    if n == 0 {
      forall k | k in run[0] ensures PoolOk(c, splitsLog2, k, run[0]) {
        PoolSafety.InitialInv(run[0][k]);
      }
    } else {
      RunInv(c, splitsLog2, run, acts, n - 1);
      var s, k, act := run[n - 1], acts[n - 1].0, acts[n - 1].1;
      assert PoolOk(c, splitsLog2, k, s);
      PoolSafety.NextPreserves(s[k], act);
      RangeStays(s[k], act);
      forall j | j in run[n] ensures PoolOk(c, splitsLog2, j, run[n]) {
        assert PoolOk(c, splitsLog2, j, s);
      }
    }
  }

  lemma ReachableInv(c: Config, splitsLog2: nat, s: System)
    requires c.Accepted() && Reachable(c, splitsLog2, s)
    ensures Inv(c, splitsLog2, s)
  {
    var run, acts :| IsRun(c, splitsLog2, run, acts) && run[|acts|] == s;
    RunInv(c, splitsLog2, run, acts, |acts|);
  }

  lemma {:induction false} PoolsInRun(c: Config, splitsLog2: nat, run: seq<System>,
      acts: seq<(Key, PoolProtocol.Action)>, n: nat)
    requires c.Accepted() && IsRun(c, splitsLog2, run, acts) && n <= |acts|
    ensures forall k | k in run[n] :: PoolProtocol.Reachable(run[n][k])
  {
    if n == 0 {
      forall k | k in run[0] ensures PoolProtocol.Reachable(run[0][k]) {
        assert PoolProtocol.IsRun([run[0][k]], []);
      }
    } else {
      PoolsInRun(c, splitsLog2, run, acts, n - 1);
      PoolProgress.StepReachable(run[n - 1][acts[n - 1].0], acts[n - 1].1);
    }
  }

  /** Among others a pool goes through no state that it could not reach by itself, so all that is proved of one pool
      holds of each; and it may take any step that it could take by itself. */
  lemma PoolsAsAlone(c: Config, splitsLog2: nat, s: System, k: Key)
    requires c.Accepted() && Reachable(c, splitsLog2, s) && k in s
    ensures PoolProtocol.Reachable(s[k])
    ensures forall act | PoolProtocol.Enabled(s[k], act) ::
              Enabled(s, k, act) && Reachable(c, splitsLog2, Next(s, k, act))
  {
    var run, acts :| IsRun(c, splitsLog2, run, acts) && run[|acts|] == s;
    PoolsInRun(c, splitsLog2, run, acts, |acts|);
    forall act | PoolProtocol.Enabled(s[k], act) ensures Reachable(c, splitsLog2, Next(s, k, act)) {
      OneStepMore(c, splitsLog2, run, acts, k, act);
    }
  }

  lemma OneStepMore(c: Config, splitsLog2: nat, run: seq<System>, acts: seq<(Key, PoolProtocol.Action)>, k: Key,
      act: PoolProtocol.Action)
    requires c.Accepted() && IsRun(c, splitsLog2, run, acts) && Enabled(run[|acts|], k, act)
    ensures Reachable(c, splitsLog2, Next(run[|acts|], k, act))
  {
    var run', acts' := run + [Next(run[|acts|], k, act)], acts + [(k, act)];
    forall i | 0 <= i < |acts'|
      ensures Enabled(run'[i], acts'[i].0, acts'[i].1) && run'[i + 1] == Next(run'[i], acts'[i].0, acts'[i].1)
    {
      if i < |acts| {
        assert run'[i] == run[i] && run'[i + 1] == run[i + 1] && acts'[i] == acts[i];
      }
    }
    assert IsRun(c, splitsLog2, run', acts') && run'[|acts'|] == Next(run[|acts|], k, act);
  }

  /** The chunk of a handle in a pool, and the bytes it spans. */
  function ChunkOf(c: Config, k: Key, h: nat): Location
    requires c.Accepted() && k.region < c.Count() && c.FirstHandle(k.region) <= h
  {
    Location(k.region, h - c.FirstHandle(k.region), h)
  }

  /** A handle of a pool stands for a chunk of its region and comes from its split. */
  lemma HandleIsChunk(c: Config, splitsLog2: nat, s: System, k: Key, h: nat)
    requires c.Accepted() && Exact(c, splitsLog2) && Inv(c, splitsLog2, s) && k in s && PoolProtocol.InRange(s[k], h)
    ensures k.region < c.Count() && c.FirstHandle(k.region) <= h
    ensures Allocated(c, splitsLog2, ChunkOf(c, k, h), k.split)
  {
    assert PoolOk(c, splitsLog2, k, s);
    EntryExact(c, splitsLog2, k.region, k.split);
    EntryExact(c, splitsLog2, k.region, k.split + 1);
  }

  /** Two handles, in whatever pools, stand for the same byte only if they are the same handle of the same pool. */
  lemma ChunksDisjoint(c: Config, splitsLog2: nat, s: System, k: Key, h: nat, j: Key, g: nat, offset: nat)
    requires c.Accepted() && Exact(c, splitsLog2) && Reachable(c, splitsLog2, s)
    requires k in s && j in s && PoolProtocol.InRange(s[k], h) && PoolProtocol.InRange(s[j], g)
    requires k.region < c.Count() && c.FirstHandle(k.region) <= h && LiesIn(c, offset, ChunkOf(c, k, h))
    requires j.region < c.Count() && c.FirstHandle(j.region) <= g && LiesIn(c, offset, ChunkOf(c, j, g))
    ensures k == j && h == g
  {
    ReachableInv(c, splitsLog2, s);
    HandleIsChunk(c, splitsLog2, s, k, h);
    HandleIsChunk(c, splitsLog2, s, j, g);
    SameByteSameHandle(c, splitsLog2, k, h, j, g, offset);
  }

  lemma SameByteSameHandle(c: Config, splitsLog2: nat, k: Key, h: nat, j: Key, g: nat, offset: nat)
    requires c.Accepted()
    requires k.region < c.Count() && c.FirstHandle(k.region) <= h && LiesIn(c, offset, ChunkOf(c, k, h))
    requires j.region < c.Count() && c.FirstHandle(j.region) <= g && LiesIn(c, offset, ChunkOf(c, j, g))
    requires Allocated(c, splitsLog2, ChunkOf(c, k, h), k.split) && Allocated(c, splitsLog2, ChunkOf(c, j, g), j.split)
    ensures k == j && h == g
  {
    LocationUnique(c, offset, ChunkOf(c, k, h), ChunkOf(c, j, g));
    SplitUnique(c.Handles(k.region), splitsLog2, h - c.FirstHandle(k.region), k.split, j.split);
  }

  /** The memory that allocate_chunk hands out overlaps no chunk that some client has, or that some thread is still
      putting back, in any pool. */
  lemma GrantedOverlapsNobody(c: Config, splitsLog2: nat, s: System, k: Key, t: nat, j: Key, g: nat, offset: nat)
    requires c.Accepted() && Exact(c, splitsLog2) && Reachable(c, splitsLog2, s)
    requires Enabled(s, k, PoolProtocol.WorkerStep(t)) && PoolProtocol.WorkerStepOf(s[k], t).1.Got?
    requires j in s && PoolProtocol.InRange(s[j], g) && g in s[j].places
             && (s[j].places[g].Held? || s[j].places[g].Pushing?)
    ensures var h := PoolProtocol.WorkerStepOf(s[k], t).1.handle;
            && k.region < c.Count() && c.FirstHandle(k.region) <= h && j.region < c.Count()
            && c.FirstHandle(j.region) <= g
            && !(LiesIn(c, offset, ChunkOf(c, k, h)) && LiesIn(c, offset, ChunkOf(c, j, g)))
  {
    var h := PoolProtocol.WorkerStepOf(s[k], t).1.handle;
    ReachableInv(c, splitsLog2, s);
    assert PoolOk(c, splitsLog2, k, s) && PoolOk(c, splitsLog2, j, s);
    PoolSafety.GrantedIsFree(s[k], t);
    HandleIsChunk(c, splitsLog2, s, k, h);
    HandleIsChunk(c, splitsLog2, s, j, g);
    if LiesIn(c, offset, ChunkOf(c, k, h)) && LiesIn(c, offset, ChunkOf(c, j, g)) {
      ChunksDisjoint(c, splitsLog2, s, k, h, j, g, offset);
    }
  }

  // ---------------------------------------------------------------------------------------------- answers as words

  /** The 32-bit word in which a pool's answer comes back. */
  function Word(a: PoolProtocol.Answer): nat
    requires a.Got? || a.Null? || a.OpFailed?
  {
    match a
    case Got(h) => h
    case OpFailed => FAILED
    case Null => NULL
  }

  lemma GrantedBelowTotal(c: Config, splitsLog2: nat, s: System, k: Key, t: nat)
    requires c.Accepted() && Exact(c, splitsLog2) && Inv(c, splitsLog2, s)
    requires Enabled(s, k, PoolProtocol.WorkerStep(t)) && PoolProtocol.WorkerStepOf(s[k], t).1.Got?
    ensures PoolProtocol.WorkerStepOf(s[k], t).1.handle < c.FirstHandle(c.Count())
  {
    var h := PoolProtocol.WorkerStepOf(s[k], t).1.handle;
    assert PoolOk(c, splitsLog2, k, s);
    PoolSafety.GrantedIsFree(s[k], t);
    HandleIsChunk(c, splitsLog2, s, k, h);
    HandleBelow(c, k.region, h - c.FirstHandle(k.region));
  }

  /** allocate_chunk_ takes a word for a handle when it is below num_handles. For the words that pools answer this is
      right exactly if there are at most FAILED chunks. */
  lemma AnswersToldApart(c: Config, splitsLog2: nat, s: System, k: Key, t: nat)
    requires c.Accepted() && Exact(c, splitsLog2) && Reachable(c, splitsLog2, s)
    requires Enabled(s, k, PoolProtocol.WorkerStep(t))
    requires var a := PoolProtocol.WorkerStepOf(s[k], t).1; a.Got? || a.Null? || a.OpFailed?
    ensures var a := PoolProtocol.WorkerStepOf(s[k], t).1;
            (a.Got? <==> Word(a) < c.FirstHandle(c.Count())) <==> !(a.OpFailed? && c.FirstHandle(c.Count()) > FAILED)
  {
    var a := PoolProtocol.WorkerStepOf(s[k], t).1;
    StoredExactlyWhen(c);
    if a.Got? {
      ReachableInv(c, splitsLog2, s);
      GrantedBelowTotal(c, splitsLog2, s, k, t);
    }
  }
}
