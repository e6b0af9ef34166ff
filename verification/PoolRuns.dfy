/**
 The block allocator over whole runs: any sequence of requests and releases, from the empty table on.
*/
module PoolRuns {
  import opened Bits
  import opened Malloc

  /** A call and its result. */
  datatype Step = Take(size: U32, offset: U32) | Give(offset: U32)

  datatype State = State(table: seq<U16>, live: Regions)

  /** A request may be for any size. Only the first block of a live region may be released. */
  ghost predicate Follows(s: State, step: Step, blockSize: nat, s': State)
    requires blockSize > 0
  {
    match step
    case Take(size, offset) => Served(size, blockSize, s.table, s.live, offset, s'.table, s'.live)
    case Give(offset) =>
      var k: int := offset / blockSize;
      && k in s.live && k < |s.table|
      && s' == State(Filled(s.table, k, s.table[k], 0), s.live - {k})
  }

  ghost predicate IsRun(states: seq<State>, steps: seq<Step>, blockSize: nat)
    requires blockSize > 0
  {
    && |states| == |steps| + 1
    && forall i | 0 <= i < |steps| :: Follows(states[i], steps[i], blockSize, states[i + 1])
  }

  lemma FirstBlock(table: seq<U16>, live: Regions, k: int)
    requires Describes(table, live) && k in live
    ensures !Inside(live, k) && 0 <= k < |table|
  {
    assert Covers(live, k, k);
  }

  lemma StepDescribes(s: State, step: Step, blockSize: nat, s': State)
    requires blockSize > 0 && Describes(s.table, s.live) && Follows(s, step, blockSize, s')
    ensures Describes(s'.table, s'.live) && |s'.table| == |s.table|
  {
    match step
    case Take(size, offset) =>
      hide Describes, Blocks, Wrap16;
      var n, t := Wrap16(Blocks(size, blockSize)), offset / blockSize;
      if offset != FAILED {
        if n > 0 {
          MarkDescribes(s.table, s.live, t, n);
        } else {
          assert s'.table == s.table;
        }
      }
    case Give(offset) =>
      var k: int := offset / blockSize;
      FirstBlock(s.table, s.live, k);
      FreeDescribes(s.table, s.live, k);
  }

  /** In every state of every run the table describes the live regions. */
  lemma {:induction false} RunDescribes(states: seq<State>, steps: seq<Step>, blockSize: nat, i: nat)
    requires blockSize > 0 && IsRun(states, steps, blockSize) && i <= |steps|
    requires Describes(states[0].table, states[0].live)
    ensures Describes(states[i].table, states[i].live)
    decreases i
  {
    if i > 0 {
      RunDescribes(states, steps, blockSize, i - 1);
      StepDescribes(states[i - 1], steps[i - 1], blockSize, states[i]);
    }
  }

  /** The blocks that the callers hold: handed out and not yet released. */
  ghost function Held(steps: seq<Step>, blockSize: nat): set<int>
    requires blockSize > 0
  {
    if steps == [] then {}
    else
      var before := Held(steps[..|steps| - 1], blockSize);
      match steps[|steps| - 1]
      case Take(size, offset) => if offset == FAILED then before else before + {offset / blockSize}
      case Give(offset) => before - {offset / blockSize}
  }

  /** Requests whose number of blocks fits 16 bits. */
  ghost predicate Sized(steps: seq<Step>, blockSize: nat)
    requires blockSize > 0
  {
    forall i | 0 <= i < |steps| && steps[i].Take? :: Blocks(steps[i].size, blockSize) < 0x1_0000
  }

  lemma TakesNewBlock(s: State, step: Step, blockSize: nat, s': State)
    requires blockSize > 0 && Describes(s.table, s.live) && Follows(s, step, blockSize, s')
    requires step.Take? && step.offset != FAILED && Blocks(step.size, blockSize) < 0x1_0000
    ensures step.offset / blockSize !in s.live
    ensures s'.live.Keys == s.live.Keys + {step.offset / blockSize}
  {
    hide Describes, Blocks, Wrap16;
    var n := Wrap16(Blocks(step.size, blockSize));
    Wrap16Is(Blocks(step.size, blockSize));
    Rounded(step.size, blockSize);
    MarkDescribes(s.table, s.live, step.offset / blockSize, n);
  }

  /** From the empty table on, the first blocks of the live regions are exactly the blocks held. */
  lemma {:induction false} LiveIsHeld(states: seq<State>, steps: seq<Step>, blockSize: nat, i: nat)
    requires blockSize > 0 && IsRun(states, steps, blockSize) && i <= |steps| && Sized(steps, blockSize)
    requires Describes(states[0].table, map[]) && states[0].live == map[]
    ensures states[i].live.Keys == Held(steps[..i], blockSize)
    decreases i
  {
    if i > 0 {
      hide Describes, Served, Blocks;
      LiveIsHeld(states, steps, blockSize, i - 1);
      RunDescribes(states, steps, blockSize, i - 1);
      assert steps[..i][..i - 1] == steps[..i - 1];
      HeldStep(states[i - 1], steps[i - 1], blockSize, states[i]);
    }
  }

  lemma HeldStep(s: State, step: Step, blockSize: nat, s': State)
    requires blockSize > 0 && Describes(s.table, s.live) && Follows(s, step, blockSize, s')
    requires step.Take? ==> Blocks(step.size, blockSize) < 0x1_0000
    ensures var k := step.offset / blockSize;
            s'.live.Keys == if step.Give? then s.live.Keys - {k}
                            else if step.offset == FAILED then s.live.Keys
                            else s.live.Keys + {k}
  {
    hide Describes;
    if step.Take? && step.offset != FAILED {
      TakesNewBlock(s, step, blockSize, s');
    }
  }

  /** No request is served with a block that some caller holds. */
  lemma NeverTwice(states: seq<State>, steps: seq<Step>, blockSize: nat, i: nat)
    requires blockSize > 0 && IsRun(states, steps, blockSize) && i < |steps| && Sized(steps, blockSize)
    requires Describes(states[0].table, map[]) && states[0].live == map[]
    requires steps[i].Take? && steps[i].offset != FAILED
    ensures steps[i].offset / blockSize !in Held(steps[..i], blockSize)
  {
    hide Describes, Served, Blocks, Held;
    LiveIsHeld(states, steps, blockSize, i);
    RunDescribes(states, steps, blockSize, i);
    TakesNewBlock(states[i], steps[i], blockSize, states[i + 1]);
  }

  /** When everything has been released the table is empty again. */
  lemma AllReleased(states: seq<State>, steps: seq<Step>, blockSize: nat)
    requires blockSize > 0 && IsRun(states, steps, blockSize) && Sized(steps, blockSize)
    requires Describes(states[0].table, map[]) && states[0].live == map[] && Held(steps, blockSize) == {}
    ensures var table := states[|steps|].table; forall i | 0 <= i < |table| :: table[i] == 0
  {
    hide Served, Blocks, Held;
    LiveIsHeld(states, steps, blockSize, |steps|);
    RunDescribes(states, steps, blockSize, |steps|);
    assert steps[..|steps|] == steps;
    assert forall s, i :: !Covers(states[|steps|].live, s, i);
  }

  lemma Extend(states: seq<State>, steps: seq<Step>, blockSize: nat, step: Step, s': State)
    requires blockSize > 0 && IsRun(states, steps, blockSize) && Follows(states[|steps|], step, blockSize, s')
    ensures IsRun(states + [s'], steps + [step], blockSize)
  {
    hide Follows;
  }

  // ---------- The functions, called by well-behaved callers ----------

  datatype Request = Allocate(size: U32) | Free(offset: U32)

  /** The calls that such callers make: every request for blocks, and a release exactly if the block is held. */
  ghost predicate Answers(requests: seq<Request>, steps: seq<Step>, blockSize: nat)
    requires blockSize > 0
    decreases |requests|
  {
    if requests == [] then steps == []
    else
      var before := requests[..|requests| - 1];
      match requests[|requests| - 1]
      case Allocate(size) =>
        && steps != [] && steps[|steps| - 1].Take? && steps[|steps| - 1].size == size
        && Answers(before, steps[..|steps| - 1], blockSize)
      case Free(offset) =>
        || (&& steps != [] && steps[|steps| - 1] == Give(offset)
            && offset / blockSize in Held(steps[..|steps| - 1], blockSize)
            && Answers(before, steps[..|steps| - 1], blockSize))
        || (offset / blockSize !in Held(steps, blockSize) && Answers(before, steps, blockSize))
  }

  lemma AnswersTake(requests: seq<Request>, steps: seq<Step>, blockSize: nat, size: U32, offset: U32)
    requires blockSize > 0 && Answers(requests, steps, blockSize)
    ensures Answers(requests + [Allocate(size)], steps + [Take(size, offset)], blockSize)
    ensures Held(steps + [Take(size, offset)], blockSize)
         == if offset == FAILED then Held(steps, blockSize) else Held(steps, blockSize) + {offset / blockSize}
  {
    assert (requests + [Allocate(size)])[..|requests|] == requests;
    assert (steps + [Take(size, offset)])[..|steps|] == steps;
  }

  lemma AnswersFree(requests: seq<Request>, steps: seq<Step>, blockSize: nat, offset: U32)
    requires blockSize > 0 && Answers(requests, steps, blockSize)
    ensures var k := offset / blockSize;
            if k in Held(steps, blockSize) then
              && Answers(requests + [Free(offset)], steps + [Give(offset)], blockSize)
              && Held(steps + [Give(offset)], blockSize) == Held(steps, blockSize) - {k}
            else
              Answers(requests + [Free(offset)], steps, blockSize)
  {
    assert (requests + [Free(offset)])[..|requests|] == requests;
    assert (steps + [Give(offset)])[..|steps|] == steps;
  }

  ghost function Now(pool: Pool): State
    reads pool, pool.memmap
  {
    State(pool.Table(), pool.live)
  }

  /** A release by callers that release only what they hold: it is passed on only for a block held. */
  method Release(pool: Pool, offset: U32, held: set<int>) returns (done: bool)
    requires pool.Valid() && pool.ready && held == pool.live.Keys
    modifies pool`ready, pool`live, pool.memmap
    ensures pool.Valid() && pool.ready && (done <==> offset / pool.blockSize in held)
    ensures done ==> Follows(old(Now(pool)), Give(offset), pool.blockSize, Now(pool))
    ensures done ==> pool.live.Keys == held - {offset / pool.blockSize}
    ensures !done ==> Now(pool) == old(Now(pool))
  {
    hide Describes;
    done := offset / pool.blockSize in held;
    if done {
      FirstBlock(pool.memmap[..], pool.live, offset / pool.blockSize);
      InPool(offset, pool.memmap.Length, pool.blockSize);
      var r, overrun := pool.Free(offset);
    }
  }

  lemma InPool(offset: nat, length: nat, blockSize: nat)
    requires blockSize > 0 && offset / blockSize < length
    ensures offset < length * blockSize
  {
    assert offset == offset / blockSize * blockSize + offset % blockSize;
    MulMonotone(offset / blockSize + 1, length, blockSize);
    Spread(offset / blockSize, 1, blockSize);
  }

  method Obtain(pool: Pool, size: U32, held: set<int>) returns (offset: U32)
    requires pool.Valid() && pool.ready && held == pool.live.Keys && Blocks(size, pool.blockSize) < 0x1_0000
    modifies pool`ready, pool`live, pool.memmap
    ensures pool.Valid() && pool.ready
    ensures Follows(old(Now(pool)), Take(size, offset), pool.blockSize, Now(pool))
    ensures pool.live.Keys == if offset == FAILED then held else held + {offset / pool.blockSize}
  {
    hide Describes, Blocks, Served;
    ghost var before := Now(pool);
    offset := pool.Allocate(size);
    HeldStep(before, Take(size, offset), pool.blockSize, Now(pool));
  }

  /** Any sequence of requests and releases: the calls made, which are all that such callers make, and the
      states passed through are a run of the kind above, from the empty table on. */
  method Serve(pool: Pool, requests: seq<Request>) returns (ghost steps: seq<Step>, ghost states: seq<State>)
    requires pool.Valid()
    requires forall r | r in requests && r.Allocate? :: Blocks(r.size, pool.blockSize) < 0x1_0000
    modifies pool`ready, pool`live, pool.memmap
    ensures pool.Valid() && pool.ready && IsRun(states, steps, pool.blockSize) && Sized(steps, pool.blockSize)
    ensures Answers(requests, steps, pool.blockSize)
    ensures states[0] == State(seq(pool.memmap.Length, _ => 0), map[]) && states[|steps|] == Now(pool)
    ensures Held(steps, pool.blockSize) == {} ==> forall i | 0 <= i < pool.memmap.Length :: pool.memmap[i] == 0
  {
    hide Describes, Follows, Blocks, Held, Answers;
    pool.Init();
    NoRequests(pool.blockSize);
    var held: set<int> := {};
    steps, states := [], [Now(pool)];
    for i := 0 to |requests|
      invariant pool.Valid() && pool.ready && held == pool.live.Keys == Held(steps, pool.blockSize)
      invariant Answers(requests[..i], steps, pool.blockSize)
      invariant IsRun(states, steps, pool.blockSize) && Sized(steps, pool.blockSize)
      invariant states[0] == State(seq(pool.memmap.Length, _ => 0), map[]) && states[|steps|] == Now(pool)
    {
      assert requests[..i + 1] == requests[..i] + [requests[i]];
      match requests[i]
      case Allocate(size) =>
        assert requests[i] in requests;
        var offset := Obtain(pool, size, held);
        Extend(states, steps, pool.blockSize, Take(size, offset), Now(pool));
        AnswersTake(requests[..i], steps, pool.blockSize, size, offset);
        steps, states := steps + [Take(size, offset)], states + [Now(pool)];
        held := if offset == FAILED then held else held + {offset / pool.blockSize};
      case Free(offset) =>
        AnswersFree(requests[..i], steps, pool.blockSize, offset);
        var done := Release(pool, offset, held);
        if done {
          Extend(states, steps, pool.blockSize, Give(offset), Now(pool));
          steps, states := steps + [Give(offset)], states + [Now(pool)];
          held := held - {offset / pool.blockSize};
        }
    }
    assert requests[..|requests|] == requests;
    EmptyTable(pool.memmap.Length);
    if Held(steps, pool.blockSize) == {} {
      AllReleased(states, steps, pool.blockSize);
      assert pool.memmap[..] == states[|steps|].table;
    }
  }

  lemma NoRequests(blockSize: nat)
    requires blockSize > 0
    ensures Held([], blockSize) == {} && Answers([], [], blockSize)
  {
  }

  lemma EmptyTable(length: nat)
    ensures Describes(seq(length, _ => 0), map[])
  {
  }
}
