/** A schedule on which phys_alloc_get_unused hands out memory that another thread was given. */
module SpinRace {
  import opened Words
  import opened Bump
  import opened SpinBump
  import opened SpinAlone

  const LOW: word := 0x1000
  const HIGH: word := 0x2000
  const R := Request(0x10, 1)

  /** Two threads that have not called yet, and a region from LOW to HIGH. */
  function Start(regions: seq<Region>): World {
    World(Shared(0, LOW, HIGH, regions, 0, false), map[0 := Outside, 1 := Outside], [], [], [])
  }

  /** The request gets the first 16 bytes. */
  lemma Served()
    ensures AllocSpec(BumpState(LOW, HIGH, []), R) == (BumpState(LOW + 0x10, HIGH, [Region(LOW, 0x10)]), LOW)
  {
    hide Align;
    assert Pow2(0) == 1;
    AlignFixed(LOW, 0);
    assert Padding(LOW, R.align) == 0;
    assert [] + [Region(LOW, 0x10)] == [Region(LOW, 0x10)];
  }

  /** get_unused begins and reads base. */
  lemma FirstPart(regions: seq<Region>) returns (schedule: seq<(nat, BumpOp)>, w': World)
    ensures SpinBump.Run(Start(regions), schedule, w')
    ensures w' == Start(regions).(pcs := map[0 := LookTop(LOW), 1 := Outside])
  {
    var w := Start(regions);
    var begun := Move(w, 0, GetUnused);
    w' := Move(begun, 0, GetUnused);
    OneMove(begun, 0, GetUnused);
    MoveFirst(w, 0, GetUnused, [(0, GetUnused)], w');
    schedule := [(0, GetUnused)] + [(0, GetUnused)];
    assert begun.pcs == map[0 := LookBase, 1 := Outside];
    assert w'.pcs == map[0 := LookTop(LOW), 1 := Outside];
  }

  /** get_unused goes on with the outdated base: it reads top, finds that something is left, and
      waits for the lock. */
  lemma SecondPart(w: World) returns (schedule: seq<(nat, BumpOp)>, w': World)
    requires 0 in w.pcs && w.pcs[0] == LookTop(LOW) && w.sh.top == HIGH && w.sh.base != HIGH
    ensures SpinBump.Run(w, schedule, w')
    ensures w' == w.(pcs := w.pcs[0 := AcquireRest(LOW, HIGH)])
  {
    var w1 := Move(w, 0, GetUnused);
    var w2 := Move(w1, 0, GetUnused);
    w' := Move(w2, 0, GetUnused);
    assert w2 == w.(pcs := w.pcs[0 := TestTop(LOW, HIGH, w.sh.base)]);
    hide Move;
    OneMove(w2, 0, GetUnused);
    MoveFirst(w1, 0, GetUnused, [(0, GetUnused)], w');
    MoveFirst(w, 0, GetUnused, [(0, GetUnused)] + [(0, GetUnused)], w');
    schedule := [(0, GetUnused)] + ([(0, GetUnused)] + [(0, GetUnused)]);
  }

  /** Thread 0 calls get_unused and reads base; then thread 1 asks for 16 bytes and gets them; then
      thread 0 goes on and returns a range that begins with those 16 bytes. */
  lemma UnusedRace(regions: seq<Region>) returns (schedule: seq<(nat, BumpOp)>, w': World)
    requires |regions| == LOG_SIZE
    ensures Initial(Start(regions), BumpState(LOW, HIGH, []))
    ensures SpinBump.Run(Start(regions), schedule, w') && !w'.sh.wild && w'.sh.lock == 0
    ensures w'.calls == [Call(1, Alloc(R)), Call(0, GetUnused)]
    ensures w'.replies == [Reply(1, Pointer(LOW)), Reply(0, Range(LOW, HIGH))]
  {
    hide Move, SpinBump.Run, Only, AllocSpec, Commit;
    var w, s := Start(regions), BumpState(LOW, HIGH, []);
    assert Initial(w, s);
    Served();
    var s' := AllocSpec(s, R).0;
    var part, w1, w2, w3, result;
    schedule, w1 := FirstPart(regions);
    part, w2 := AllocAlone(w1, 1, s, R);
    RunAppend(w, schedule, w1, part, w2);
    schedule := schedule + part;
    part, w3 := SecondPart(w2);
    RunAppend(w, schedule, w2, part, w3);
    schedule := schedule + part;
    part, w', result := LockAndFinish(w3, 0, s', GetUnused, GetUnused);
    RunAppend(w, schedule, w3, part, w');
    schedule := schedule + part;
  }
}
