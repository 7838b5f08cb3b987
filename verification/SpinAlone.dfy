/** One thread that runs while the others stand still: its calls do exactly what the serial
    allocator does, and each of them ends. */
module SpinAlone {
  import opened Words
  import opened Bump
  import opened SpinBump

  /** All moves are those of thread t, whose calls are all op. */
  ghost predicate Only(schedule: seq<(nat, BumpOp)>, t: nat, op: BumpOp) {
    forall i :: 0 <= i < |schedule| ==> schedule[i] == (t, op)
  }

  lemma {:induction false} RunAppend(w: World, first: seq<(nat, BumpOp)>, mid: World,
                                     second: seq<(nat, BumpOp)>, w': World)
    requires SpinBump.Run(w, first, mid) && SpinBump.Run(mid, second, w')
    ensures SpinBump.Run(w, first + second, w')
    decreases |first|
  {
    hide Move;
    if first == [] {
      assert first + second == second;
    } else {
      RunAppend(Move(w, first[0].0, first[0].1), first[1..], mid, second, w');
      assert (first + second)[1..] == first[1..] + second;
    }
  }

  lemma OneMove(w: World, t: nat, op: BumpOp)
    requires t in w.pcs
    ensures SpinBump.Run(w, [(t, op)], Move(w, t, op))
  {
    assert [(t, op)][1..] == [];
    assert SpinBump.Run(Move(w, t, op), [], Move(w, t, op));
  }

  /** A move in front of a run. */
  lemma MoveFirst(w: World, t: nat, op: BumpOp, rest: seq<(nat, BumpOp)>, w': World)
    requires t in w.pcs && SpinBump.Run(Move(w, t, op), rest, w') && Only(rest, t, op)
    ensures SpinBump.Run(w, [(t, op)] + rest, w') && Only([(t, op)] + rest, t, op)
  {
    hide Move;
    assert ([(t, op)] + rest)[1..] == rest;
  }

  // ----- the test without the lock -----

  /** The last access before the lock: when the base and the top that get_unused reads for its test
      are equal, the call ends with nothing changed but one more quit; otherwise it goes on to
      the lock. */
  lemma TestExactly(w: World, t: nat, op: BumpOp)
    requires t in w.pcs && w.pcs[t].TestTop?
    ensures var (pc, w') := (w.pcs[t], Move(w, t, op));
            && w'.sh == w.sh && w'.calls == w.calls && w'.replies == w.replies
            && if pc.base == w.sh.top
               then w'.pcs == w.pcs[t := Outside] && w'.quits == w.quits + [Reply(t, Range(pc.pBase, pc.pTop))]
               else w'.pcs == w.pcs[t := AcquireRest(pc.pBase, pc.pTop)] && w'.quits == w.quits
  {
  }

  // ----- with the lock -----

  /** Accesses left until the lock is released, at most. */
  function Rank(pc: Pc): nat {
    match pc
    case ReadTop(_) => 13
    case ReadBase(_, _) => 12
    case ReadPad(_, _, _) => 11
    case ReadFree(_, _, _, _) => 10
    case ReadOld(_, _, _) => 9
    case WriteBase(_, _, _) => 8
    case TestCount(_, _) => 7
    case IndexBase(_, _) => 6
    case StoreBase(_, _, _) => 5
    case IndexSize(_, _) => 4
    case StoreSize(_, _, _) => 3
    case ReadCount(_, _) => 2
    case WriteCount(_, _, _) => 1
    case RestIndexBase(_, _) => 11
    case RestReadBase(_, _, _) => 10
    case RestStoreBase(_, _, _, _) => 9
    case RestReadTop(_, _) => 8
    case RestReadSize(_, _, _) => 7
    case RestIndexSize(_, _, _) => 6
    case RestStoreSize(_, _, _, _) => 5
    case RestReadCount(_, _) => 4
    case RestWriteCount(_, _, _) => 3
    case RestLastTop(_, _) => 2
    case RestWriteBase(_, _, _) => 1
    case _ => 0
  }

  lemma RankDrops(sh: Shared, pc: Pc)
    requires Critical(pc) && !pc.Release? && !pc.RestRelease?
    ensures Rank(Access(sh, pc).1) < Rank(pc)
  {
    hide Align, Wrap, SetBase, SetSize;
  }

  /** What the call returns when it is done. */
  ghost predicate Returns(s: BumpState, op: BumpOp, pc: Pc, result: Result) {
    match op
    case Alloc(r) => result == Pointer(AllocSpec(s, r).1)
    case GetUnused => HasRange(pc) && result == Range(pc.pBase, pc.pTop)
  }

  lemma RestHasRange(s: BumpState, sh: Shared, pc: Pc)
    requires RestProgress(s, sh, pc)
    ensures HasRange(pc)
  {
    hide Matches, HalfLogged, LogIs, Commit;
  }

  /** The holder makes one access inside the lock. */
  lemma HolderMoves(w: World, t: nat, s: BumpState, op: BumpOp, any: BumpOp)
    requires t in w.pcs && Progress(s, w.sh, op, w.pcs[t]) && !w.sh.wild && (op.GetUnused? ==> |s.log| < LOG_SIZE)
    requires !w.pcs[t].Release? && !w.pcs[t].RestRelease?
    ensures Critical(w.pcs[t])
    ensures var (sh, pc) := Access(w.sh, w.pcs[t]);
            && Move(w, t, any) == World(sh, w.pcs[t := pc], w.calls, w.replies, w.quits)
            && !sh.wild && Progress(s, sh, op, pc) && Rank(pc) < Rank(w.pcs[t])
            && forall result :: Returns(s, op, pc, result) ==> Returns(s, op, w.pcs[t], result)
  {
    hide Access, Progress, AllocSpec;
    var pc := w.pcs[t];
    AccessProgress(s, w.sh, op, pc);
    StoreIntoTheWild(s, w.sh, op, pc);
    AccessShape(w.sh, pc);
    RankDrops(w.sh, pc);
  }

  /** The holder releases the lock. */
  lemma HolderLeaves(w: World, t: nat, s: BumpState, op: BumpOp, any: BumpOp) returns (result: Result)
    requires t in w.pcs && Progress(s, w.sh, op, w.pcs[t]) && !w.sh.wild
    requires w.pcs[t].Release? || w.pcs[t].RestRelease?
    ensures Returns(s, op, w.pcs[t], result) && Matches(w.sh.(lock := 0), Commit(s, op))
    ensures Move(w, t, any) ==
            World(w.sh.(lock := 0), w.pcs[t := Outside], w.calls, w.replies + [Reply(t, result)], w.quits)
  {
    hide Progress, AllocSpec, Commit, Matches;
    var pc := w.pcs[t];
    Completed(s, w.sh, op, pc);
    result := if pc.Release? then Pointer(pc.result) else Range(pc.pBase, pc.pTop);
  }

  /** From anywhere inside the lock the holder, alone, finishes its call. */
  lemma {:induction false} Finishes(w: World, t: nat, s: BumpState, op: BumpOp, any: BumpOp)
    returns (schedule: seq<(nat, BumpOp)>, w': World, result: Result)
    requires t in w.pcs && Progress(s, w.sh, op, w.pcs[t]) && !w.sh.wild && (op.GetUnused? ==> |s.log| < LOG_SIZE)
    ensures Only(schedule, t, any) && SpinBump.Run(w, schedule, w') && Returns(s, op, w.pcs[t], result)
    ensures w' == World(w'.sh, w.pcs[t := Outside], w.calls, w.replies + [Reply(t, result)], w.quits)
    ensures w'.sh.lock == 0 && !w'.sh.wild && Matches(w'.sh, Commit(s, op))
    decreases Rank(w.pcs[t])
  {
    hide Progress, Returns, Move, Access, Matches, Commit, Rank;
    if w.pcs[t].Release? || w.pcs[t].RestRelease? {
      result := HolderLeaves(w, t, s, op, any);
      w' := Move(w, t, any);
      schedule := [(t, any)];
      OneMove(w, t, any);
    } else {
      HolderMoves(w, t, s, op, any);
      var next := Move(w, t, any);
      var rest;
      rest, w', result := Finishes(next, t, s, op, any);
      schedule := [(t, any)] + rest;
      MoveFirst(w, t, any, rest, w');
      assert next.pcs[t := Outside] == w.pcs[t := Outside];
    }
  }

  /** A thread in front of the free lock, alone, takes it and finishes its call. */
  lemma LockAndFinish(w: World, t: nat, s: BumpState, op: BumpOp, any: BumpOp)
    returns (schedule: seq<(nat, BumpOp)>, w': World, result: Result)
    requires t in w.pcs && Matches(w.sh, s) && !w.sh.wild && w.sh.lock == 0
    requires if op.Alloc? then w.pcs[t] == Acquire(op.r) else w.pcs[t].AcquireRest? && |s.log| < LOG_SIZE
    ensures Only(schedule, t, any) && SpinBump.Run(w, schedule, w') && Returns(s, op, w.pcs[t], result)
    ensures w' == World(w'.sh, w.pcs[t := Outside], w.calls + [Call(t, op)], w.replies + [Reply(t, result)], w.quits)
    ensures w'.sh.lock == 0 && !w'.sh.wild && Matches(w'.sh, Commit(s, op))
  {
    hide Matches, Progress, Commit, AllocSpec;
    var next := Move(w, t, any);
    Entered(s, w.sh, op, next.pcs[t]);
    var rest;
    rest, w', result := Finishes(next, t, s, op, any);
    schedule := [(t, any)] + rest;
    hide Move;
    MoveFirst(w, t, any, rest, w');
  }

  // ----- whole calls -----

  /** An allocation alone, from a free lock: the state, the pointer and the log of the serial one. */
  lemma AllocAlone(w: World, t: nat, s: BumpState, r: Request)
    returns (schedule: seq<(nat, BumpOp)>, w': World)
    requires t in w.pcs && w.pcs[t].Outside? && Matches(w.sh, s) && !w.sh.wild && w.sh.lock == 0
    ensures Only(schedule, t, Alloc(r)) && SpinBump.Run(w, schedule, w')
    ensures w' == World(w'.sh, w.pcs, w.calls + [Call(t, Alloc(r))],
                        w.replies + [Reply(t, Pointer(AllocSpec(s, r).1))], w.quits)
    ensures w'.sh.lock == 0 && !w'.sh.wild && Matches(w'.sh, AllocSpec(s, r).0)
  {
    hide Matches, AllocSpec;
    var begun := Move(w, t, Alloc(r));
    var rest, result;
    rest, w', result := LockAndFinish(begun, t, s, Alloc(r), Alloc(r));
    schedule := [(t, Alloc(r))] + rest;
    hide Move;
    MoveFirst(w, t, Alloc(r), rest, w');
    assert w.pcs[t := Outside] == w.pcs;
  }

  /** get_unused, alone, up to its test, which finds nothing left or goes on to the lock. */
  lemma LookAlone(w: World, t: nat) returns (schedule: seq<(nat, BumpOp)>, w': World)
    requires t in w.pcs && w.pcs[t].Outside?
    ensures Only(schedule, t, GetUnused) && SpinBump.Run(w, schedule, w')
    ensures var range := Range(w.sh.base, w.sh.top);
            if w.sh.base == w.sh.top
            then w' == World(w.sh, w.pcs, w.calls, w.replies, w.quits + [Reply(t, range)])
            else w' == World(w.sh, w.pcs[t := AcquireRest(range.base, range.top)], w.calls, w.replies, w.quits)
  {
    var w1 := Move(w, t, GetUnused);
    var w2 := Move(w1, t, GetUnused);
    var w3 := Move(w2, t, GetUnused);
    var w4 := Move(w3, t, GetUnused);
    assert w4 == World(w.sh, w.pcs[t := TestTop(w.sh.base, w.sh.top, w.sh.base)], w.calls, w.replies, w.quits);
    w' := Move(w4, t, GetUnused);
    assert w.pcs[t := Outside] == w.pcs;
    hide Move;
    schedule := [(t, GetUnused)];
    OneMove(w4, t, GetUnused);
    MoveFirst(w3, t, GetUnused, schedule, w');
    schedule := [(t, GetUnused)] + schedule;
    MoveFirst(w2, t, GetUnused, schedule, w');
    schedule := [(t, GetUnused)] + schedule;
    MoveFirst(w1, t, GetUnused, schedule, w');
    schedule := [(t, GetUnused)] + schedule;
    MoveFirst(w, t, GetUnused, schedule, w');
    schedule := [(t, GetUnused)] + schedule;
  }

  /** get_unused alone, from a free lock and with room in the log or nothing left: memory is that of
      the serial one, and the range is all that was left. With nothing left memory and the calls
      stay as they are, and the reply is a quit. */
  lemma UnusedAlone(w: World, t: nat, s: BumpState) returns (schedule: seq<(nat, BumpOp)>, w': World)
    requires t in w.pcs && w.pcs[t].Outside? && Matches(w.sh, s) && !w.sh.wild && w.sh.lock == 0
    requires s.base == s.top || |s.log| < LOG_SIZE
    ensures Only(schedule, t, GetUnused) && SpinBump.Run(w, schedule, w')
    ensures w'.sh.lock == 0 && !w'.sh.wild && Matches(w'.sh, UnusedSpec(s))
    ensures var reply := Reply(t, Range(s.base, s.top));
            if s.base == s.top then w' == w.(quits := w.quits + [reply])
            else w' == World(w'.sh, w.pcs, w.calls + [Call(t, GetUnused)], w.replies + [reply], w.quits)
  {
    hide LogIs, Move;
    var first, second, at, result;
    first, at := LookAlone(w, t);
    if s.base == s.top {
      schedule, w' := first, at;
    } else {
      second, w', result := LockAndFinish(at, t, s, GetUnused, GetUnused);
      schedule := first + second;
      RunAppend(w, first, at, second, w');
      assert at.pcs[t := Outside] == w.pcs;
    }
  }
}
