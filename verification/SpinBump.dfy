/** The early allocator under its spin lock, for any number of threads interleaved at single reads
    and writes of shared memory. phys_alloc_get_unused reads base and top before it takes the
    lock, so that what it returns may be out of date. */
module SpinBump {
  import opened Words
  import opened Bump

  /** A store past the end of the log array has no meaning: from then on memory is wild. */
  datatype Shared = Shared(lock: word, base: word, top: word, regions: seq<Region>, count: nat, wild: bool)

  /** Where a thread is, with the values it has read so far. Each step from one of these places
      makes one access to shared memory. */
  datatype Pc =
    | Outside
    // phys_alloc_aligned_safe
    | Acquire(r: Request)
    | ReadTop(r: Request)
    | ReadBase(r: Request, top: word)
    | ReadPad(r: Request, top: word, addr: word)
    | ReadFree(r: Request, top: word, addr: word, need: word)
    | ReadOld(r: Request, addr: word, need: word)
    | WriteBase(r: Request, addr: word, sum: word)
    | TestCount(r: Request, addr: word)
    | IndexBase(r: Request, addr: word)
    | StoreBase(r: Request, addr: word, i: nat)
    | IndexSize(r: Request, addr: word)
    | StoreSize(r: Request, addr: word, i: nat)
    | ReadCount(r: Request, addr: word)
    | WriteCount(r: Request, addr: word, n: nat)
    | Release(result: word)
    // phys_alloc_get_unused, with the base and top that it is going to return
    | LookBase
    | LookTop(pBase: word)
    | TestBase(pBase: word, pTop: word)
    | TestTop(pBase: word, pTop: word, base: word)
    | AcquireRest(pBase: word, pTop: word)
    | RestIndexBase(pBase: word, pTop: word)
    | RestReadBase(pBase: word, pTop: word, i: nat)
    | RestStoreBase(pBase: word, pTop: word, i: nat, base: word)
    | RestReadTop(pBase: word, pTop: word)
    | RestReadSize(pBase: word, pTop: word, top: word)
    | RestIndexSize(pBase: word, pTop: word, size: word)
    | RestStoreSize(pBase: word, pTop: word, i: nat, size: word)
    | RestReadCount(pBase: word, pTop: word)
    | RestWriteCount(pBase: word, pTop: word, n: nat)
    | RestLastTop(pBase: word, pTop: word)
    | RestWriteBase(pBase: word, pTop: word, top: word)
    | RestRelease(pBase: word, pTop: word)

  predicate Critical(pc: Pc) {
    && !pc.Outside? && !pc.Acquire?
    && !pc.LookBase? && !pc.LookTop? && !pc.TestBase? && !pc.TestTop? && !pc.AcquireRest?
  }

  function SetBase(sh: Shared, i: nat, base: word): Shared {
    if i < |sh.regions| then sh.(regions := sh.regions[i := sh.regions[i].(base := base)]) else sh.(wild := true)
  }

  function SetSize(sh: Shared, i: nat, size: word): Shared {
    if i < |sh.regions| then sh.(regions := sh.regions[i := sh.regions[i].(size := size)]) else sh.(wild := true)
  }

  /** One access. Acquiring is an atomic test-and-set that is repeated until it reads 0. */
  function Access(sh: Shared, pc: Pc): (Shared, Pc)
    requires !pc.Outside?
  {
    match pc
    case Acquire(r) => (sh.(lock := 1), if sh.lock != 0 then pc else ReadTop(r))
    case ReadTop(r) => (sh, ReadBase(r, sh.top))
    case ReadBase(r, top) => (sh, ReadPad(r, top, Align(sh.base, r.align)))
    case ReadPad(r, top, addr) => (sh, ReadFree(r, top, addr, Wrap(r.size + Wrap(addr - sh.base))))
    case ReadFree(r, top, addr, need) =>
      (sh, if Wrap(top - sh.base) < need then Release(INVALID) else ReadOld(r, addr, need))
    case ReadOld(r, addr, need) => (sh, WriteBase(r, addr, Wrap(sh.base + need)))
    case WriteBase(r, addr, sum) => (sh.(base := sum), TestCount(r, addr))
    case TestCount(r, addr) => (sh, if sh.count < LOG_SIZE then IndexBase(r, addr) else Release(addr))
    case IndexBase(r, addr) => (sh, StoreBase(r, addr, sh.count))
    case StoreBase(r, addr, i) => (SetBase(sh, i, addr), IndexSize(r, addr))
    case IndexSize(r, addr) => (sh, StoreSize(r, addr, sh.count))
    case StoreSize(r, addr, i) => (SetSize(sh, i, r.size), ReadCount(r, addr))
    case ReadCount(r, addr) => (sh, WriteCount(r, addr, sh.count + 1))
    case WriteCount(r, addr, n) => (sh.(count := n), Release(addr))
    case Release(result) => (sh.(lock := 0), Outside)
    case LookBase => (sh, LookTop(sh.base))
    case LookTop(b) => (sh, TestBase(b, sh.top))
    case TestBase(b, t) => (sh, TestTop(b, t, sh.base))
    case TestTop(b, t, base) => (sh, if base == sh.top then Outside else AcquireRest(b, t))
    case AcquireRest(b, t) => (sh.(lock := 1), if sh.lock != 0 then pc else RestIndexBase(b, t))
    case RestIndexBase(b, t) => (sh, RestReadBase(b, t, sh.count))
    case RestReadBase(b, t, i) => (sh, RestStoreBase(b, t, i, sh.base))
    case RestStoreBase(b, t, i, base) => (SetBase(sh, i, base), RestReadTop(b, t))
    case RestReadTop(b, t) => (sh, RestReadSize(b, t, sh.top))
    case RestReadSize(b, t, top) => (sh, RestIndexSize(b, t, Wrap(top - sh.base)))
    case RestIndexSize(b, t, size) => (sh, RestStoreSize(b, t, sh.count, size))
    case RestStoreSize(b, t, i, size) => (SetSize(sh, i, size), RestReadCount(b, t))
    case RestReadCount(b, t) => (sh, RestWriteCount(b, t, sh.count + 1))
    case RestWriteCount(b, t, n) => (sh.(count := n), RestLastTop(b, t))
    case RestLastTop(b, t) => (sh, RestWriteBase(b, t, sh.top))
    case RestWriteBase(b, t, top) => (sh.(base := top), RestRelease(b, t))
    case RestRelease(b, t) => (sh.(lock := 0), Outside)
  }

  datatype Result = Pointer(addr: word) | Range(base: word, top: word)

  /** A thread with what it called, and a thread with the result it got. */
  datatype Call = Call(thread: nat, op: BumpOp)

  datatype Reply = Reply(thread: nat, result: Result)

  /** Threads by number, with the calls in the order the lock was acquired and the replies in the
      order it was released. Calls of get_unused that return without the lock are the quits. */
  datatype World = World(sh: Shared, pcs: map<nat, Pc>, calls: seq<Call>, replies: seq<Reply>, quits: seq<Reply>)

  function Begin(op: BumpOp): Pc {
    match op
    case Alloc(r) => Acquire(r)
    case GetUnused => LookBase
  }

  /** Thread t moves: it begins the given call, or makes its next access. */
  function Move(w: World, t: nat, op: BumpOp): World
    requires t in w.pcs
  {
    var pc := w.pcs[t];
    if pc.Outside? then w.(pcs := w.pcs[t := Begin(op)])
    else
      var (sh, pc') := Access(w.sh, pc);
      World(sh, w.pcs[t := pc'],
            if pc.Acquire? && w.sh.lock == 0 then w.calls + [Call(t, Alloc(pc.r))]
            else if pc.AcquireRest? && w.sh.lock == 0 then w.calls + [Call(t, GetUnused)]
            else w.calls,
            if pc.Release? then w.replies + [Reply(t, Pointer(pc.result))]
            else if pc.RestRelease? then w.replies + [Reply(t, Range(pc.pBase, pc.pTop))]
            else w.replies,
            if pc.TestTop? && pc'.Outside? then w.quits + [Reply(t, Range(pc.pBase, pc.pTop))] else w.quits)
  }

  // ----- one call after the other -----

  /** What a call does to the allocator once it has the lock. */
  function Commit(s: BumpState, op: BumpOp): BumpState {
    match op
    case Alloc(r) => AllocSpec(s, r).0
    case GetUnused => BumpState(s.top, s.top, s.log + [Region(s.base, Wrap(s.top - s.base))])
  }

  /** The calls one after the other, without threads. */
  function After(s: BumpState, calls: seq<Call>): BumpState {
    if calls == [] then s else Commit(After(s, calls[..|calls| - 1]), calls[|calls| - 1].op)
  }

  lemma AfterOneMore(s: BumpState, calls: seq<Call>, n: nat)
    requires n < |calls|
    ensures After(s, calls[..n + 1]) == Commit(After(s, calls[..n]), calls[n].op)
  {
    hide Commit;
    assert calls[..n + 1][..n] == calls[..n];
  }

  lemma {:induction false} TopFixed(s: BumpState, calls: seq<Call>)
    ensures After(s, calls).top == s.top
    decreases |calls|
  {
    if calls != [] {
      TopFixed(s, calls[..|calls| - 1]);
    }
  }

  /** The address b was base after some of the first n calls. */
  ghost predicate Seen(init: BumpState, calls: seq<Call>, n: nat, b: word) {
    n <= |calls| && exists j: nat :: j <= n && BaseAfter(init, calls, j, b)
  }

  ghost predicate BaseAfter(init: BumpState, calls: seq<Call>, j: nat, b: word) {
    j <= |calls| && b == After(init, calls[..j]).base
  }

  lemma SeenLater(init: BumpState, calls: seq<Call>, more: seq<Call>, n: nat, b: word)
    requires Seen(init, calls, n, b)
    ensures forall m: nat :: n <= m <= |calls + more| ==> Seen(init, calls + more, m, b)
  {
    hide After;
    var j: nat :| j <= n && BaseAfter(init, calls, j, b);
    assert (calls + more)[..j] == calls[..j];
    assert BaseAfter(init, calls + more, j, b);
  }

  /** A reply is right for call number i: a pointer is that of the serial run; a range ends at top
      and starts at what was base then or after some earlier call. */
  ghost predicate Answered(init: BumpState, calls: seq<Call>, i: nat, reply: Reply) {
    && i < |calls| && reply.thread == calls[i].thread
    && match calls[i].op
       case Alloc(r) => reply.result == Pointer(AllocSpec(After(init, calls[..i]), r).1)
       case GetUnused =>
         reply.result.Range? && reply.result.top == init.top && Seen(init, calls, i, reply.result.base)
  }

  // ----- the invariant -----

  ghost predicate LogIs(sh: Shared, s: BumpState) {
    |sh.regions| == LOG_SIZE && |s.log| <= LOG_SIZE && sh.count == |s.log| && sh.regions[..sh.count] == s.log
  }

  ghost predicate Matches(sh: Shared, s: BumpState) {
    sh.base == s.base && sh.top == s.top && LogIs(sh, s)
  }

  /** Shared memory while the thread that holds the lock is at pc, serving request r, and all
      earlier calls led to state s. */
  ghost predicate AllocProgress(s: BumpState, sh: Shared, r: Request, pc: Pc) {
    var (s', addr') := AllocSpec(s, r);
    var need' := Wrap(r.size + Padding(s.base, r.align));
    match pc
    case ReadTop(q) => q == r && Matches(sh, s)
    case ReadBase(q, top) => q == r && Matches(sh, s) && top == s.top
    case ReadPad(q, top, addr) => q == r && Matches(sh, s) && top == s.top && addr == Align(s.base, r.align)
    case ReadFree(q, top, addr, need) =>
      q == r && Matches(sh, s) && top == s.top && addr == Align(s.base, r.align) && need == need'
    case ReadOld(q, addr, need) => q == r && Matches(sh, s) && Granted(s, r) && addr == addr' && need == need'
    case WriteBase(q, addr, sum) => q == r && Matches(sh, s) && Granted(s, r) && addr == addr' && sum == s'.base
    case TestCount(q, addr) => q == r && Moved(s, sh, r, addr)
    case IndexBase(q, addr) => q == r && Moved(s, sh, r, addr) && sh.count < LOG_SIZE
    case StoreBase(q, addr, i) => q == r && Moved(s, sh, r, addr) && i == sh.count < LOG_SIZE
    case IndexSize(q, addr) =>
      q == r && Moved(s, sh, r, addr) && sh.count < LOG_SIZE && sh.regions[sh.count].base == addr
    case StoreSize(q, addr, i) =>
      q == r && Moved(s, sh, r, addr) && i == sh.count < LOG_SIZE && sh.regions[i].base == addr
    case ReadCount(q, addr) =>
      q == r && Moved(s, sh, r, addr) && sh.count < LOG_SIZE && sh.regions[sh.count] == Region(addr, r.size)
    case WriteCount(q, addr, n) =>
      q == r && Moved(s, sh, r, addr) && sh.count < LOG_SIZE && sh.regions[sh.count] == Region(addr, r.size)
      && n == sh.count + 1
    case Release(result) => Matches(sh, s') && result == addr'
    case _ => false
  }

  /** The pointer has moved for the request and the log has not changed yet. */
  ghost predicate Moved(s: BumpState, sh: Shared, r: Request, addr: word) {
    && Granted(s, r) && addr == AllocSpec(s, r).1
    && sh.base == AllocSpec(s, r).0.base && sh.top == s.top && LogIs(sh, s)
  }

  /** The same while it is serving get_unused. */
  ghost predicate RestProgress(s: BumpState, sh: Shared, pc: Pc) {
    var s', size' := Commit(s, GetUnused), Wrap(s.top - s.base);
    match pc
    case RestIndexBase(_, _) => Matches(sh, s)
    case RestReadBase(_, _, i) => Matches(sh, s) && i == sh.count
    case RestStoreBase(_, _, i, base) => Matches(sh, s) && i == sh.count && base == s.base
    case RestReadTop(_, _) => HalfLogged(s, sh)
    case RestReadSize(_, _, top) => HalfLogged(s, sh) && top == s.top
    case RestIndexSize(_, _, size) => HalfLogged(s, sh) && size == size'
    case RestStoreSize(_, _, i, size) => HalfLogged(s, sh) && size == size' && i == sh.count
    case RestReadCount(_, _) => HalfLogged(s, sh) && sh.regions[sh.count].size == size'
    case RestWriteCount(_, _, n) => HalfLogged(s, sh) && sh.regions[sh.count].size == size' && n == sh.count + 1
    case RestLastTop(_, _) => sh.base == s.base && sh.top == s.top && LogIs(sh, s')
    case RestWriteBase(_, _, top) => sh.base == s.base && sh.top == s.top && LogIs(sh, s') && top == s.top
    case RestRelease(_, _) => Matches(sh, s')
    case _ => false
  }

  ghost predicate HalfLogged(s: BumpState, sh: Shared) {
    Matches(sh, s) && sh.count < LOG_SIZE && sh.regions[sh.count].base == s.base
  }

  ghost predicate Progress(s: BumpState, sh: Shared, op: BumpOp, pc: Pc) {
    match op
    case Alloc(r) => AllocProgress(s, sh, r, pc)
    case GetUnused => RestProgress(s, sh, pc)
  }

  /** What get_unused has read so far was there after some of the first n calls. */
  ghost predicate SeenBy(init: BumpState, calls: seq<Call>, n: nat, pc: Pc) {
    && (pc.LookTop? || HasRange(pc) ==> Seen(init, calls, n, pc.pBase))
    && (HasRange(pc) ==> pc.pTop == init.top)
    && (pc.TestTop? ==> Seen(init, calls, n, pc.base))
  }

  predicate HasRange(pc: Pc) {
    || pc.TestBase? || pc.TestTop? || pc.AcquireRest? || pc.RestIndexBase? || pc.RestReadBase? || pc.RestStoreBase?
    || pc.RestReadTop? || pc.RestReadSize? || pc.RestIndexSize? || pc.RestStoreSize? || pc.RestReadCount?
    || pc.RestWriteCount? || pc.RestLastTop? || pc.RestWriteBase? || pc.RestRelease?
  }

  ghost predicate Holds(w: World, t: nat) {
    t in w.pcs && Critical(w.pcs[t]) && forall u :: u in w.pcs && Critical(w.pcs[u]) ==> u == t
  }

  /** Thread t alone is in the critical section, on its way through its own call. */
  ghost predicate Serves(w: World, t: nat, s: BumpState, c: Call) {
    Holds(w, t) && t == c.thread && Progress(s, w.sh, c.op, w.pcs[t])
  }

  ghost predicate Records(w: World, init: BumpState) {
    && |w.replies| <= |w.calls|
    && (forall i :: 0 <= i < |w.replies| ==> Answered(init, w.calls, i, w.replies[i]))
    && (forall t :: t in w.pcs ==>
          SeenBy(init, w.calls, if Critical(w.pcs[t]) then |w.replies| else |w.calls|, w.pcs[t]))
    && (forall i :: 0 <= i < |w.quits| ==> Quit(init, w.calls, w.quits[i]))
  }

  /** A call that returned without the lock had seen base at top. */
  ghost predicate Quit(init: BumpState, calls: seq<Call>, reply: Reply) {
    && reply.result.Range? && reply.result.top == init.top
    && Seen(init, calls, |calls|, reply.result.base) && Seen(init, calls, |calls|, init.top)
  }

  /** With the lock free nobody is in the critical section and memory is what the calls so far
      make one after the other; with the lock taken exactly one thread is in it, and it is
      serving the latest call. */
  ghost predicate Protocol(w: World, init: BumpState) {
    && w.sh.lock <= 1 && |w.replies| <= |w.calls|
    && var s := After(init, w.calls[..|w.replies|]);
       if w.sh.lock == 0
       then (forall t :: t in w.pcs ==> !Critical(w.pcs[t])) && |w.calls| == |w.replies| && Matches(w.sh, s)
       else |w.calls| == |w.replies| + 1 && exists t :: Serves(w, t, s, w.calls[|w.replies|])
  }

  /** get_unused got the lock as call number k when the log was full. */
  ghost predicate RestOnFullLog(init: BumpState, calls: seq<Call>, k: nat) {
    k < |calls| && calls[k].op.GetUnused? && |After(init, calls[..k]).log| >= LOG_SIZE
  }

  ghost predicate LogOverrun(init: BumpState, calls: seq<Call>) {
    exists k: nat :: RestOnFullLog(init, calls, k)
  }

  ghost predicate Inv(w: World, init: BumpState) {
    if w.sh.wild then LogOverrun(init, w.calls) else Protocol(w, init) && Records(w, init)
  }

  // ----- accesses inside the lock -----

  /** What an access inside the lock leaves alone. */
  lemma AccessShape(sh: Shared, pc: Pc)
    requires Critical(pc) && !pc.Release? && !pc.RestRelease?
    ensures var (sh', pc') := Access(sh, pc);
            && Critical(pc') && sh'.lock == sh.lock && (sh.wild ==> sh'.wild)
            && !pc.TestTop? && !pc'.TestTop? && !pc.LookTop? && !pc'.LookTop?
            && (HasRange(pc) <==> HasRange(pc'))
            && (HasRange(pc) ==> pc'.pBase == pc.pBase && pc'.pTop == pc.pTop)
  {
    hide Align, Wrap;
  }

  lemma ProgressIsCritical(s: BumpState, sh: Shared, op: BumpOp, pc: Pc)
    requires Progress(s, sh, op, pc)
    ensures Critical(pc)
  {
    hide Align, Wrap, Padding, Matches, Moved, HalfLogged, LogIs, Commit, AllocSpec;
  }

  predicate InPointerPart(pc: Pc) {
    pc.ReadTop? || pc.ReadBase? || pc.ReadPad? || pc.ReadFree? || pc.ReadOld? || pc.WriteBase? || pc.TestCount?
  }

  predicate InLogPart(pc: Pc) {
    pc.IndexBase? || pc.StoreBase? || pc.IndexSize? || pc.StoreSize? || pc.ReadCount? || pc.WriteCount?
  }

  predicate InRestLog(pc: Pc) {
    pc.RestIndexBase? || pc.RestReadBase? || pc.RestStoreBase? || pc.RestReadTop? || pc.RestReadSize?
  }

  /** Every access of the lock holder continues the serial step it is in, or is a store past the
      end of the log. */
  lemma AccessProgress(s: BumpState, sh: Shared, op: BumpOp, pc: Pc)
    requires Progress(s, sh, op, pc) && !pc.Release? && !pc.RestRelease?
    ensures Critical(pc)
    ensures !Access(sh, pc).0.wild ==> Progress(s, Access(sh, pc).0, op, Access(sh, pc).1)
  {
    ProgressIsCritical(s, sh, op, pc);
    match op
    case Alloc(r) =>
      assert InPointerPart(pc) || InLogPart(pc);
      hide Access, AllocProgress, InPointerPart, InLogPart;
      if InPointerPart(pc) {
        PointerProgress(s, sh, r, pc);
      } else {
        LogProgress(s, sh, r, pc);
      }
    case GetUnused =>
      hide Access, RestProgress, InRestLog;
      if InRestLog(pc) {
        RestLogStarts(s, sh, pc);
      } else {
        RestLogEnds(s, sh, pc);
      }
  }

  lemma PointerProgress(s: BumpState, sh: Shared, r: Request, pc: Pc)
    requires AllocProgress(s, sh, r, pc) && InPointerPart(pc)
    ensures AllocProgress(s, Access(sh, pc).0, r, Access(sh, pc).1)
  {
    hide Align;
  }

  lemma LogProgress(s: BumpState, sh: Shared, r: Request, pc: Pc)
    requires AllocProgress(s, sh, r, pc) && InLogPart(pc)
    ensures AllocProgress(s, Access(sh, pc).0, r, Access(sh, pc).1)
  {
    hide Align, Padding, Wrap;
    if pc.WriteCount? {
      CountProgress(s, sh, r, pc);
    } else {
      match pc
      case StoreBase(_, addr, i) =>
        assert sh.regions[i := sh.regions[i].(base := addr)][..i] == sh.regions[..i];
      case StoreSize(_, addr, i) =>
        assert sh.regions[i := sh.regions[i].(size := r.size)][..i] == sh.regions[..i];
      case _ =>
    }
  }

  lemma CountProgress(s: BumpState, sh: Shared, r: Request, pc: Pc)
    requires AllocProgress(s, sh, r, pc) && pc.WriteCount?
    ensures AllocProgress(s, Access(sh, pc).0, r, Access(sh, pc).1)
  {
    hide Align, Padding, Wrap;
    assert sh.regions[..pc.n] == sh.regions[..sh.count] + [Region(pc.addr, r.size)];
  }

  lemma RestLogStarts(s: BumpState, sh: Shared, pc: Pc)
    requires RestProgress(s, sh, pc) && InRestLog(pc)
    ensures !Access(sh, pc).0.wild ==> RestProgress(s, Access(sh, pc).0, Access(sh, pc).1)
  {
    hide Wrap, Commit;
    match pc
    case RestStoreBase(_, _, i, base) =>
      if i < LOG_SIZE {
        assert sh.regions[i := sh.regions[i].(base := base)][..i] == sh.regions[..i];
      }
    case _ =>
  }

  lemma RestLogEnds(s: BumpState, sh: Shared, pc: Pc)
    requires RestProgress(s, sh, pc) && !InRestLog(pc) && !pc.RestRelease?
    ensures !Access(sh, pc).0.wild ==> RestProgress(s, Access(sh, pc).0, Access(sh, pc).1)
  {
    hide Wrap;
    match pc
    case RestStoreSize(_, _, i, size) =>
      assert sh.regions[i := sh.regions[i].(size := size)][..i] == sh.regions[..i];
    case RestWriteCount(_, _, n) =>
      assert sh.regions[..n] == sh.regions[..sh.count] + [sh.regions[sh.count]];
    case _ =>
  }

  /** Inside the lock base is what it was before the call or what it is after it. */
  lemma ProgressBase(s: BumpState, sh: Shared, op: BumpOp, pc: Pc)
    requires Progress(s, sh, op, pc)
    ensures sh.base == s.base || sh.base == Commit(s, op).base
    ensures sh.top == s.top
  {
    hide Align, Padding, Wrap, LogIs;
  }

  /** Whenever a thread reads them, base is that of some serial state so far, and top never changes. */
  lemma BaseIsSeen(w: World, init: BumpState)
    requires Protocol(w, init)
    ensures Seen(init, w.calls, |w.calls|, w.sh.base) && w.sh.top == init.top
  {
    hide Progress, After, Commit, LogIs;
    var n := |w.replies|;
    var s := After(init, w.calls[..n]);
    TopFixed(init, w.calls[..n]);
    assert BaseAfter(init, w.calls, n, s.base);
    if w.sh.lock != 0 {
      var t :| Serves(w, t, s, w.calls[n]);
      ProgressBase(s, w.sh, w.calls[n].op, w.pcs[t]);
      AfterOneMore(init, w.calls, n);
      assert BaseAfter(init, w.calls, n + 1, Commit(s, w.calls[n].op).base);
    }
  }

  // ----- records stay right -----

  lemma SeenByLater(init: BumpState, calls: seq<Call>, more: seq<Call>, n: nat, m: nat, pc: Pc)
    requires SeenBy(init, calls, n, pc) && n <= m <= |calls + more|
    ensures SeenBy(init, calls + more, m, pc)
  {
    hide Seen;
    if pc.LookTop? || HasRange(pc) {
      SeenLater(init, calls, more, n, pc.pBase);
    }
    if pc.TestTop? {
      SeenLater(init, calls, more, n, pc.base);
    }
  }

  lemma AnsweredLater(init: BumpState, calls: seq<Call>, more: seq<Call>, i: nat, reply: Reply)
    requires Answered(init, calls, i, reply)
    ensures Answered(init, calls + more, i, reply)
  {
    hide Seen, After, AllocSpec;
    assert (calls + more)[..i] == calls[..i];
    if calls[i].op.GetUnused? {
      SeenLater(init, calls, more, i, reply.result.base);
    }
  }

  lemma QuitLater(init: BumpState, calls: seq<Call>, more: seq<Call>, reply: Reply)
    requires Quit(init, calls, reply)
    ensures Quit(init, calls + more, reply)
  {
    hide Seen;
    SeenLater(init, calls, more, |calls|, reply.result.base);
    SeenLater(init, calls, more, |calls|, init.top);
  }

  /** How far into the calls a thread's readings may reach. */
  function Horizon(w: World, pc: Pc): nat {
    if Critical(pc) then |w.replies| else |w.calls|
  }

  /** One thread moved and the records grew by entries that are right. */
  lemma RecordsGrow(w: World, init: BumpState, w': World, t: nat, more: seq<Call>)
    requires Records(w, init) && t in w'.pcs && w'.pcs == w.pcs[t := w'.pcs[t]]
    requires w'.calls == w.calls + more && |w'.replies| <= |w'.calls|
    requires w.replies <= w'.replies && w.quits <= w'.quits
    requires forall i :: |w.replies| <= i < |w'.replies| ==> Answered(init, w'.calls, i, w'.replies[i])
    requires forall i :: |w.quits| <= i < |w'.quits| ==> Quit(init, w'.calls, w'.quits[i])
    requires SeenBy(init, w'.calls, Horizon(w', w'.pcs[t]), w'.pcs[t])
    ensures Records(w', init)
  {
    hide Answered, Quit, SeenBy, Critical;
    forall i | 0 <= i < |w'.replies|
      ensures Answered(init, w'.calls, i, w'.replies[i])
    {
      if i < |w.replies| {
        AnsweredLater(init, w.calls, more, i, w.replies[i]);
      }
    }
    forall i | 0 <= i < |w'.quits|
      ensures Quit(init, w'.calls, w'.quits[i])
    {
      if i < |w.quits| {
        QuitLater(init, w.calls, more, w.quits[i]);
      }
    }
    forall u | u in w'.pcs
      ensures SeenBy(init, w'.calls, Horizon(w', w'.pcs[u]), w'.pcs[u])
    {
      if u != t {
        SeenByLater(init, w.calls, more, Horizon(w, w.pcs[u]), Horizon(w', w.pcs[u]), w.pcs[u]);
      }
    }
  }

  // ----- every move keeps the invariant -----

  predicate Acquiring(sh: Shared, pc: Pc) {
    (pc.Acquire? || pc.AcquireRest?) && sh.lock == 0
  }

  /** An access outside the critical section that does not get the lock. */
  lemma OutsideAccess(w: World, init: BumpState, pc: Pc)
    requires Protocol(w, init) && !Critical(pc) && !pc.Outside? && !Acquiring(w.sh, pc)
    requires SeenBy(init, w.calls, |w.calls|, pc)
    ensures var (sh, pc') := Access(w.sh, pc);
            && sh == w.sh && !Critical(pc') && SeenBy(init, w.calls, |w.calls|, pc')
            && (pc.TestTop? && pc'.Outside? ==>
                  forall t: nat :: Quit(init, w.calls, Reply(t, Range(pc.pBase, pc.pTop))))
  {
    hide Seen, Align, Wrap;
    BaseIsSeen(w, init);
    hide Protocol;
  }

  lemma OutsideMove(w: World, init: BumpState, t: nat, op: BumpOp)
    requires Protocol(w, init) && Records(w, init) && t in w.pcs && !Critical(w.pcs[t])
    requires !Acquiring(w.sh, w.pcs[t])
    ensures Protocol(Move(w, t, op), init) && Records(Move(w, t, op), init)
  {
    hide Seen, Quit, Protocol, Answered;
    var pc, w' := w.pcs[t], Move(w, t, op);
    assert w.calls + [] == w.calls;
    if !pc.Outside? {
      OutsideAccess(w, init, pc);
      hide Access;
    }
    RecordsGrow(w, init, w', t, []);
    OthersMove(w, init, w', t);
  }

  /** A thread that stays outside the critical section does not disturb the holder. */
  lemma OthersMove(w: World, init: BumpState, w': World, t: nat)
    requires Protocol(w, init) && t in w.pcs && !Critical(w.pcs[t])
    requires w'.sh == w.sh && w'.calls == w.calls && w'.replies == w.replies
    requires t in w'.pcs && !Critical(w'.pcs[t]) && w'.pcs == w.pcs[t := w'.pcs[t]]
    ensures Protocol(w', init)
  {
    hide Progress, Matches, After, Critical;
    if w.sh.lock == 1 {
      var s := After(init, w.calls[..|w.replies|]);
      var u :| Serves(w, u, s, w.calls[|w.replies|]);
      assert Serves(w', u, s, w.calls[|w.replies|]);
    }
  }

  /** Getting the lock starts the serial step of the call. */
  lemma EnterMove(w: World, init: BumpState, t: nat, op: BumpOp)
    requires Protocol(w, init) && Records(w, init) && t in w.pcs && Acquiring(w.sh, w.pcs[t])
    ensures Protocol(Move(w, t, op), init) && Records(Move(w, t, op), init)
  {
    hide After, Answered, Quit, Matches, Progress;
    var pc, w' := w.pcs[t], Move(w, t, op);
    var n := |w.replies|;
    var s := After(init, w.calls[..n]);
    var c := Call(t, if pc.Acquire? then Alloc(pc.r) else GetUnused);
    assert w'.calls == w.calls + [c] && w'.calls[..n] == w.calls[..n] && w'.calls[n] == c;
    assert w'.replies == w.replies && w'.sh.lock == 1;
    Entered(s, w.sh, c.op, w'.pcs[t]);
    assert Serves(w', t, s, c);
    SeenByLater(init, w.calls, [c], n, n, pc);
    RecordsGrow(w, init, w', t, [c]);
  }

  lemma Entered(s: BumpState, sh: Shared, op: BumpOp, pc: Pc)
    requires Matches(sh, s)
    requires op.Alloc? ==> pc == ReadTop(op.r)
    requires op.GetUnused? ==> pc.RestIndexBase?
    ensures Progress(s, sh.(lock := 1), op, pc) && Critical(pc)
  {
  }

  /** Releasing the lock completes it. */
  lemma LeaveMove(w: World, init: BumpState, t: nat, op: BumpOp)
    requires Protocol(w, init) && Records(w, init) && t in w.pcs
    requires w.pcs[t].Release? || w.pcs[t].RestRelease?
    ensures Protocol(Move(w, t, op), init) && Records(Move(w, t, op), init)
  {
    hide After, Matches, Progress, Seen, Commit, AllocSpec, Quit;
    var pc, w' := w.pcs[t], Move(w, t, op);
    var n := |w.replies|;
    var s := After(init, w.calls[..n]);
    assert Critical(pc);
    var u :| Serves(w, u, s, w.calls[n]);
    Completed(s, w.sh, w.calls[n].op, pc);
    AfterOneMore(init, w.calls, n);
    assert w.calls[..n + 1] == w.calls && w.calls + [] == w.calls;
    assert Answered(init, w.calls, n, w'.replies[n]);
    RecordsGrow(w, init, w', t, []);
  }

  lemma Completed(s: BumpState, sh: Shared, op: BumpOp, pc: Pc)
    requires Progress(s, sh, op, pc) && (pc.Release? || pc.RestRelease?)
    ensures Matches(sh.(lock := 0), Commit(s, op))
    ensures pc.Release? ==> op.Alloc? && pc.result == AllocSpec(s, op.r).1
    ensures pc.RestRelease? ==> op.GetUnused?
  {
    hide AllocSpec;
  }

  /** An access of the holder leads on inside the lock. */
  lemma InsideMove(w: World, init: BumpState, t: nat, op: BumpOp)
    requires Protocol(w, init) && Records(w, init) && t in w.pcs && Critical(w.pcs[t])
    requires !w.pcs[t].Release? && !w.pcs[t].RestRelease?
    ensures !w.sh.wild ==> Inv(Move(w, t, op), init)
  {
    hide After, Matches, Progress, Seen, Access, Quit, Answered;
    var pc, w' := w.pcs[t], Move(w, t, op);
    var s, c := After(init, w.calls[..|w.replies|]), w.calls[|w.replies|];
    var u :| Serves(w, u, s, c);
    AccessProgress(s, w.sh, c.op, pc);
    AccessShape(w.sh, pc);
    assert w.calls + [] == w.calls;
    RecordsGrow(w, init, w', t, []);
    if !w'.sh.wild {
      assert Serves(w', t, s, c);
    } else if !w.sh.wild {
      StoreIntoTheWild(s, w.sh, c.op, pc);
      assert RestOnFullLog(init, w.calls, |w.replies|);
    }
  }

  /** Only get_unused can store past the end of the log, and only when the log is full. */
  lemma StoreIntoTheWild(s: BumpState, sh: Shared, op: BumpOp, pc: Pc)
    requires Progress(s, sh, op, pc) && !sh.wild && !pc.Outside?
    ensures Access(sh, pc).0.wild ==> op.GetUnused? && |s.log| >= LOG_SIZE
  {
    hide Align, Wrap, Padding;
  }

  lemma WildStays(w: World, init: BumpState, t: nat, op: BumpOp)
    requires w.sh.wild && t in w.pcs && LogOverrun(init, w.calls)
    ensures Move(w, t, op).sh.wild && LogOverrun(init, Move(w, t, op).calls)
  {
    hide Align, Wrap, After;
    var k: nat :| RestOnFullLog(init, w.calls, k);
    var w' := Move(w, t, op);
    assert w.calls <= w'.calls;
    assert w'.calls[..k] == w.calls[..k];
    assert RestOnFullLog(init, w'.calls, k);
  }

  /** One step of any thread keeps the invariant. */
  lemma MoveKeepsInv(w: World, init: BumpState, t: nat, op: BumpOp)
    requires Inv(w, init) && t in w.pcs
    ensures Inv(Move(w, t, op), init)
  {
    hide Protocol, Records, LogOverrun;
    var pc := w.pcs[t];
    if w.sh.wild {
      WildStays(w, init, t, op);
    } else if Acquiring(w.sh, pc) {
      EnterMove(w, init, t, op);
    } else if !Critical(pc) {
      OutsideMove(w, init, t, op);
    } else if pc.Release? || pc.RestRelease? {
      LeaveMove(w, init, t, op);
    } else {
      InsideMove(w, init, t, op);
    }
  }

  /** A schedule: which thread moves, and with which call if it begins one. */
  ghost predicate Run(w: World, schedule: seq<(nat, BumpOp)>, w': World)
    decreases |schedule|
  {
    if schedule == [] then w' == w
    else schedule[0].0 in w.pcs && Run(Move(w, schedule[0].0, schedule[0].1), schedule[1..], w')
  }

  lemma {:induction false} RunKeepsInv(w: World, init: BumpState, schedule: seq<(nat, BumpOp)>, w': World)
    requires Inv(w, init) && Run(w, schedule, w')
    ensures Inv(w', init)
    decreases |schedule|
  {
    hide Inv, Move;
    if schedule != [] {
      MoveKeepsInv(w, init, schedule[0].0, schedule[0].1);
      RunKeepsInv(Move(w, schedule[0].0, schedule[0].1), init, schedule[1..], w');
    }
  }

  // ----- what holds for every schedule -----

  /** The world in which no thread has called yet. */
  ghost predicate Initial(w: World, init: BumpState) {
    && w.sh.lock == 0 && !w.sh.wild && Matches(w.sh, init) && w.calls == [] && w.replies == [] && w.quits == []
    && forall t :: t in w.pcs ==> w.pcs[t].Outside?
  }

  lemma InitialInv(w: World, init: BumpState)
    requires Initial(w, init)
    ensures Inv(w, init)
  {
  }

  /** For any number of threads and any schedule in which get_unused does not meet a full log: at
      most one thread is in the critical section; every allocation gets the pointer of a serial
      run in lock order, for its own request; every range that get_unused returns ends at top
      and starts where base once was; and when the lock is free memory is that of the serial
      run. */
  lemma Linearizable(w: World, init: BumpState, schedule: seq<(nat, BumpOp)>, w': World)
    requires Initial(w, init) && Run(w, schedule, w') && !LogOverrun(init, w'.calls)
    ensures forall t, u :: t in w'.pcs && u in w'.pcs && Critical(w'.pcs[t]) && Critical(w'.pcs[u]) ==> t == u
    ensures |w'.calls| - 1 <= |w'.replies| <= |w'.calls|
    ensures forall i :: 0 <= i < |w'.replies| ==> Answered(init, w'.calls, i, w'.replies[i])
    ensures forall i :: 0 <= i < |w'.quits| ==> Quit(init, w'.calls, w'.quits[i])
    ensures w'.sh.lock == 0 ==> |w'.replies| == |w'.calls| && Matches(w'.sh, After(init, w'.calls))
  {
    InitialInv(w, init);
    RunKeepsInv(w, init, schedule, w');
    hide Progress, Matches, Answered, Quit, After, LogOverrun;
    if w'.sh.lock == 0 {
      assert w'.calls[..|w'.replies|] == w'.calls;
    }
  }

  // ----- who gets which bytes -----

  /** What a caller checks so that nothing wraps. */
  ghost predicate ModestCall(c: Call) {
    c.op.Alloc? ==> Modest(c.op.r)
  }

  /** The region a call takes when it is served in state s; empty when it is not granted. */
  function Taken(s: BumpState, op: BumpOp): (word, nat) {
    match op
    case Alloc(r) => if Granted(s, r) then (AllocSpec(s, r).1, AllocSpec(s, r).1 + r.size) else (s.base, s.base)
    case GetUnused => (s.base, s.top)
  }

  /** A call takes its region from what lies between the old base and the new one. */
  lemma TakenAbove(s: BumpState, c: Call)
    requires s.base <= s.top && ModestCall(c)
    ensures var s', (lo, hi) := Commit(s, c.op), Taken(s, c.op);
            && s.base <= lo <= hi <= s'.base <= s'.top == s.top
            && (c.op.Alloc? && 0 < c.op.r.size && s.base < s'.base ==> lo < hi)
  {
    hide Modest, Padding, AllocSpec, Granted;
    if c.op.Alloc? {
      AllocMeaning(s, c.op.r);
    }
  }

  lemma {:induction false} BaseGrows(init: BumpState, calls: seq<Call>, i: nat, j: nat)
    requires init.base <= init.top && (forall k :: 0 <= k < |calls| ==> ModestCall(calls[k])) && i <= j <= |calls|
    ensures var s, s' := After(init, calls[..i]), After(init, calls[..j]);
            s.base <= s'.base <= s'.top == init.top
    decreases j
  {
    hide After, Commit, ModestCall;
    if j == 0 {
      StartOf(init, calls);
    } else if i < j {
      BaseGrows(init, calls, i, j - 1);
      AfterOneMore(init, calls, j - 1);
      TakenAbove(After(init, calls[..j - 1]), calls[j - 1]);
    } else {
      BaseGrows(init, calls, i - 1, j - 1);
      AfterOneMore(init, calls, j - 1);
      TakenAbove(After(init, calls[..j - 1]), calls[j - 1]);
    }
  }

  lemma StartOf(init: BumpState, calls: seq<Call>)
    ensures After(init, calls[..0]) == init
  {
  }

  /** Regions are taken in ascending order, whatever calls took them. */
  lemma TakenInOrder(init: BumpState, calls: seq<Call>, i: nat, j: nat)
    requires init.base <= init.top && (forall k :: 0 <= k < |calls| ==> ModestCall(calls[k])) && i < j < |calls|
    ensures init.base <= Taken(After(init, calls[..i]), calls[i].op).0
    ensures Taken(After(init, calls[..i]), calls[i].op).1 <= After(init, calls[..i + 1]).base
    ensures After(init, calls[..i + 1]).base <= Taken(After(init, calls[..j]), calls[j].op).0
    ensures Taken(After(init, calls[..j]), calls[j].op).1 <= init.top
  {
    hide After, Commit, ModestCall, Taken;
    StartOf(init, calls);
    BaseGrows(init, calls, 0, i);
    BaseGrows(init, calls, i + 1, j);
    AfterOneMore(init, calls, i);
    TakenAbove(After(init, calls[..i]), calls[i]);
    TakenAbove(After(init, calls[..j]), calls[j]);
  }

  /** Whatever the interleaving, two regions that were granted do not overlap. */
  lemma GrantsDisjoint(w: World, init: BumpState, schedule: seq<(nat, BumpOp)>, w': World, i: nat, j: nat)
    requires Initial(w, init) && Run(w, schedule, w') && init.base <= init.top && !LogOverrun(init, w'.calls)
    requires forall k :: 0 <= k < |w'.calls| ==> ModestCall(w'.calls[k])
    requires i < j < |w'.replies| && w'.replies[i].result.Pointer? && w'.replies[j].result.Pointer?
    requires w'.replies[i].result.addr != INVALID && w'.replies[j].result.addr != INVALID
    ensures j < |w'.calls| && w'.calls[i].op.Alloc? && w'.calls[j].op.Alloc?
    ensures init.base <= w'.replies[i].result.addr
    ensures w'.replies[i].result.addr + w'.calls[i].op.r.size <= w'.replies[j].result.addr
    ensures w'.replies[j].result.addr + w'.calls[j].op.r.size <= init.top
  {
    hide Run, Initial, LogOverrun, After, Commit, ModestCall, AllocSpec, Granted;
    Linearizable(w, init, schedule, w');
    assert Answered(init, w'.calls, i, w'.replies[i]) && Answered(init, w'.calls, j, w'.replies[j]);
    TakenInOrder(init, w'.calls, i, j);
    GrantedPointer(After(init, w'.calls[..i]), w'.calls[i].op.r);
    GrantedPointer(After(init, w'.calls[..j]), w'.calls[j].op.r);
  }

  lemma GrantedPointer(s: BumpState, r: Request)
    ensures AllocSpec(s, r).1 != INVALID ==> Granted(s, r)
  {
  }

  /** Byte ranges [b, t) and [lo, hi) have a byte in common. */
  predicate Meets(region: (word, nat), b: word, t: word) {
    var (lo, hi) := region;
    lo < hi && b < t && lo < t && b < hi
  }

  /** Between two states with different bases some call took bytes, if no request was empty. */
  lemma {:induction false} SomethingTaken(init: BumpState, calls: seq<Call>, j: nat, i: nat) returns (k: nat)
    requires init.base <= init.top && forall k :: 0 <= k < |calls| ==> ModestCall(calls[k])
    requires forall k :: 0 <= k < |calls| && calls[k].op.Alloc? ==> 0 < calls[k].op.r.size
    requires j <= i <= |calls| && After(init, calls[..j]).base < After(init, calls[..i]).base
    ensures j <= k < i
    ensures var (lo, hi) := Taken(After(init, calls[..k]), calls[k].op);
            After(init, calls[..j]).base <= lo < hi <= init.top
    decreases i
  {
    hide After, Commit, ModestCall, Taken;
    BaseGrows(init, calls, j, i - 1);
    BaseGrows(init, calls, j, i);
    AfterOneMore(init, calls, i - 1);
    TakenAbove(After(init, calls[..i - 1]), calls[i - 1]);
    if After(init, calls[..i - 1]).base < After(init, calls[..i]).base {
      k := i - 1;
      RestTakes(After(init, calls[..k]), calls[k].op);
    } else {
      k := SomethingTaken(init, calls, j, i - 1);
    }
  }

  lemma RestTakes(s: BumpState, op: BumpOp)
    ensures op.GetUnused? ==> Taken(s, op) == (s.base, s.top) && Commit(s, op).base == s.top
  {
  }

  /** The range that get_unused returns is out of date exactly when base moved between its first
      reading and the moment it got the lock: with no empty request around, the range has no byte
      in common with what any other call takes if and only if the base it read is still the base
      then. */
  lemma UnusedExactly(w: World, init: BumpState, schedule: seq<(nat, BumpOp)>, w': World, i: nat)
    requires Initial(w, init) && Run(w, schedule, w') && init.base <= init.top && !LogOverrun(init, w'.calls)
    requires forall k :: 0 <= k < |w'.calls| ==> ModestCall(w'.calls[k])
    requires forall k :: 0 <= k < |w'.calls| && w'.calls[k].op.Alloc? ==> 0 < w'.calls[k].op.r.size
    requires i < |w'.replies| && w'.replies[i].result.Range?
    ensures i < |w'.calls|
    ensures var range, calls := w'.replies[i].result, w'.calls;
            && range.top == init.top && range.base <= After(init, calls[..i]).base
            && ((forall k: nat :: k < |calls| && k != i ==>
                   !Meets(Taken(After(init, calls[..k]), calls[k].op), range.base, range.top))
                <==> range.base == After(init, calls[..i]).base)
  {
    hide Run, Initial, LogOverrun, After, Commit, ModestCall, AllocSpec, Granted, Taken;
    Linearizable(w, init, schedule, w');
    assert Answered(init, w'.calls, i, w'.replies[i]);
    var calls, b := w'.calls, w'.replies[i].result.base;
    assert Seen(init, calls, i, b);
    var j: nat :| j <= i && BaseAfter(init, calls, j, b);
    BaseGrows(init, calls, j, i);
    if b < After(init, calls[..i]).base {
      var k := SomethingTaken(init, calls, j, i);
      assert Meets(Taken(After(init, calls[..k]), calls[k].op), b, init.top);
    } else {
      forall k: nat | k < |calls| && k != i
        ensures !Meets(Taken(After(init, calls[..k]), calls[k].op), b, init.top)
      {
        OnTimeIsApart(init, calls, i, k);
      }
    }
  }

  /** What lies above base when get_unused gets the lock is taken by nobody else. */
  lemma OnTimeIsApart(init: BumpState, calls: seq<Call>, i: nat, k: nat)
    requires init.base <= init.top && forall k :: 0 <= k < |calls| ==> ModestCall(calls[k])
    requires i < |calls| && k < |calls| && k != i && calls[i].op.GetUnused?
    ensures !Meets(Taken(After(init, calls[..k]), calls[k].op), After(init, calls[..i]).base, init.top)
  {
    hide After, Commit, ModestCall, Taken;
    if k < i {
      TakenInOrder(init, calls, k, i);
      BaseGrows(init, calls, k + 1, i);
    } else {
      TakenInOrder(init, calls, i, k);
      AfterOneMore(init, calls, i);
      BaseGrows(init, calls, 0, i);
      RestTakes(After(init, calls[..i]), GetUnused);
    }
  }

  /** A call that returns without the lock because nothing was left has a range of bytes that were
      taken by others, unless the range is empty. */
  lemma QuitExactly(w: World, init: BumpState, schedule: seq<(nat, BumpOp)>, w': World, i: nat)
    requires Initial(w, init) && Run(w, schedule, w') && init.base <= init.top && !LogOverrun(init, w'.calls)
    requires forall k :: 0 <= k < |w'.calls| ==> ModestCall(w'.calls[k])
    requires forall k :: 0 <= k < |w'.calls| && w'.calls[k].op.Alloc? ==> 0 < w'.calls[k].op.r.size
    requires i < |w'.quits|
    ensures w'.quits[i].result.Range?
    ensures var range, calls := w'.quits[i].result, w'.calls;
            && range.base <= range.top == init.top == After(init, calls).base
            && ((forall k: nat :: k < |calls| ==>
                   !Meets(Taken(After(init, calls[..k]), calls[k].op), range.base, range.top))
                <==> range.base == range.top)
  {
    hide Run, Initial, LogOverrun, After, Commit, ModestCall, AllocSpec, Granted, Taken;
    Linearizable(w, init, schedule, w');
    var calls, b := w'.calls, w'.quits[i].result.base;
    assert Quit(init, calls, w'.quits[i]);
    var j: nat :| j <= |calls| && BaseAfter(init, calls, j, b);
    var full: nat :| full <= |calls| && BaseAfter(init, calls, full, init.top);
    assert calls[..|calls|] == calls;
    BaseGrows(init, calls, full, |calls|);
    BaseGrows(init, calls, j, |calls|);
    if b < init.top {
      var k := SomethingTaken(init, calls, j, |calls|);
      assert Meets(Taken(After(init, calls[..k]), calls[k].op), b, init.top);
    }
  }
}
