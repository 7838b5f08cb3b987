/** The page allocator: a list of free pages threaded through the pages themselves.
    Every method is proved against the list operations of PageList. */
module PageAlloc {
  import opened Options
  import opened Words
  import opened PageList

  /** The mask test of the scan decides natural alignment, also for orders so large
      that the block size wraps to 0: then no page passes. */
  lemma AlignMaskTest(p: word, order: nat)
    requires order < 32 && p != 0
    ensures Pow2(order) < WORD_MOD
    ensures BitAnd(p, Wrap(Wrap(Pow2(order) * PAGE) - 1)) == 0 <==> Aligned(p, order)
  {
    hide Pow2, BitAnd;
    var n := SmallPow2(order);
    BytesOfOrder(order);
    if order < 20 {
      AndLowMask(p, order + 12);
      NoWrapMask(order);
    } else {
      HugeBlock(order);
      AllOnes(p);
      BelowDivisor(p, Pow2(order + 12));
    }
  }

  lemma NoWrapMask(order: nat)
    requires order < 20
    ensures Wrap(Wrap(Pow2(order + 12)) - 1) == Pow2(order + 12) - 1
  {
    var size := SmallPow2(order + 12);
  }

  lemma BytesOfOrder(order: nat)
    ensures Pow2(order + 12) == Pow2(order) * PAGE
  {
    Pow2At12();
    Pow2Add(order, 12);
  }

  lemma AllOnes(p: word)
    ensures BitAnd(p, 0xFFFF_FFFF) == p
  {
    Pow2At32();
    AndOnes(p, 32);
  }

  lemma HugeBlock(order: nat)
    requires 20 <= order
    ensures Pow2(order + 12) >= WORD_MOD && Wrap(Pow2(order + 12)) == 0
  {
    hide Pow2;
    Pow2Add(order - 20, 32);
    Pow2At32();
    var m := Pow2(order - 20);
    DivModUnique(m * WORD_MOD, WORD_MOD, m, 0);
  }

  /** Order for n pages: the binary logarithm of n, rounded up. */
  function OrderFor(n: word): nat
    requires n > 0
  {
    if IsPowerOf2(n) then Fls(n) else Fls(n) + 1
  }

  /** page_memalign takes the smallest power of two that holds n pages. */
  lemma OrderForIsTight(n: word)
    requires n > 0
    ensures n <= Pow2(OrderFor(n)) < 2 * n
    ensures IsPow2(n) <==> Pow2(OrderFor(n)) == n
    ensures n <= 0x10_0000 ==> OrderFor(n) <= 20
  {
    FlsBound(n);
    PowerOf2Test(n);
    if IsPowerOf2(n) {
      var k: nat :| n == Pow2(k);
      Pow2StrictlyMonotone(k, Fls(n) + 1);
      Pow2StrictlyMonotone(Fls(n), k);
      Pow2StrictlyMonotone(k, Fls(n));
    }
    assert Pow2(Fls(n)) == n ==> IsPow2(n);
    Pow2At32();
    if n <= 0x10_0000 {
      Pow2StrictlyMonotone(20, Fls(n));
    }
  }

  ghost function PageMemalignSpec(s: PageState, size: word): (PageState, word)
    requires size <= WORD_MOD - PAGE
  {
    if size == 0 then (s, 0)
    else
      PagesIn(size);
      AllocPagesSpec(s, OrderFor(PageCount(size)))
  }

  /** Number of pages page_memalign asks for. */
  function PageCount(size: word): word {
    Align(size, PAGE) / PAGE
  }

  lemma AlignToPage(x: word)
    ensures Align(x, PAGE) % PAGE == 0
    ensures x + PAGE <= WORD_MOD ==> x <= Align(x, PAGE) < x + PAGE
    ensures x + PAGE <= WORD_MOD && x % PAGE == 0 ==> Align(x, PAGE) == x
    ensures x + PAGE > WORD_MOD ==> Align(x, PAGE) == 0
  {
    hide Align;
    Pow2At12();
    AlignMultiple(x, 12);
    if x + PAGE <= WORD_MOD {
      AlignUp(x, 12);
    } else {
      AlignWraps(x, 12);
    }
  }

  /** ALIGN yields one page for 1 to 4096 bytes and for nothing else. */
  lemma OnePageSizes(x: word)
    ensures Align(x, PAGE) == PAGE <==> 0 < x <= PAGE
  {
    hide Align;
    AlignToPage(x);
  }

  lemma PagesIn(size: word)
    requires size <= WORD_MOD - PAGE
    ensures size <= PageCount(size) * PAGE < size + PAGE
    ensures size > 0 ==> 0 < PageCount(size) <= 0x10_0000
    ensures size % PAGE == 0 ==> PageCount(size) == size / PAGE
  {
    AlignToPage(size);
  }

  // ----- one step of the scan -----

  /** The scan has passed i pages without completing a run; a run of the given
      length, possibly 0, ends just before page i, and the other variables of the
      loop describe it. */
  ghost predicate Scanning(nodes: seq<word>, order: nat, i: nat, run: nat, start: word, prev: word, next: word) {
    && run <= i <= |nodes| && run <= Pow2(order)
    && (forall j: nat :: j < i - run ==> !Hit(nodes, order, j))
    && (run == 0 ==> !Open(nodes, order, i))
    && (run > 0 ==>
          && Starts(nodes, order, i - run)
          && Consecutive(nodes, i - run, i)
          && start == nodes[i - run]
          && prev == (if i == run then 0 else nodes[i - run - 1])
          && next == Wrap(nodes[i - 1] + PAGE))
  }

  lemma ScanBegins(nodes: seq<word>, order: nat)
    ensures Scanning(nodes, order, 0, 0, 0, 0, 0)
  {
  }

  lemma StartRun(nodes: seq<word>, order: nat, i: nat, start: word, prev: word, next: word, before: word)
    requires Scanning(nodes, order, i, 0, start, prev, next) && i < |nodes| && Aligned(nodes[i], order)
    requires before == (if i == 0 then 0 else nodes[i - 1])
    ensures Scanning(nodes, order, i + 1, 1, nodes[i], before, Wrap(nodes[i] + PAGE))
  {
  }

  lemma SkipPage(nodes: seq<word>, order: nat, i: nat, start: word, prev: word, next: word)
    requires Scanning(nodes, order, i, 0, start, prev, next) && i < |nodes| && !Aligned(nodes[i], order)
    ensures Scanning(nodes, order, i + 1, 0, start, prev, next)
  {
  }

  /** A page is never 0, so comparing with the wrapped successor is exact. */
  lemma SuccessorTest(q: word, p: word)
    requires IsPage(q) && IsPage(p)
    ensures p == Wrap(q + PAGE) <==> p == q + PAGE
  {
  }

  lemma ExtendRun(nodes: seq<word>, order: nat, i: nat, run: nat, start: word, prev: word, next: word)
    requires Scanning(nodes, order, i, run, start, prev, next) && i < |nodes|
    requires 0 < run < Pow2(order) && nodes[i] == next && IsPage(nodes[i - 1]) && IsPage(nodes[i])
    ensures Scanning(nodes, order, i + 1, run + 1, start, prev, Wrap(next + PAGE))
  {
    hide Wrap, Hit, Open, Starts;
    SuccessorTest(nodes[i - 1], nodes[i]);
  }

  /** Pages an open run has taken do not start runs of their own. */
  lemma OnlyOneRun(nodes: seq<word>, order: nat, s: nat, i: nat)
    requires i <= |nodes| && Starts(nodes, order, s) && Consecutive(nodes, s, i)
    ensures forall j: nat :: s < j <= i ==> Open(nodes, order, j) && !Hit(nodes, order, j)
  {
    forall j: nat | s < j <= i
      ensures Open(nodes, order, j) && !Hit(nodes, order, j)
    {
      assert Consecutive(nodes, s, j);
      assert Open(nodes, order, j);
      assert !Starts(nodes, order, j);
    }
  }

  lemma BreakRun(nodes: seq<word>, order: nat, i: nat, run: nat, start: word, prev: word, next: word)
    requires Scanning(nodes, order, i, run, start, prev, next) && i < |nodes|
    requires 0 < run < Pow2(order) && nodes[i] != next && IsPage(nodes[i - 1]) && IsPage(nodes[i])
    ensures Scanning(nodes, order, i + 1, 0, start, prev, next)
  {
    SuccessorTest(nodes[i - 1], nodes[i]);
    OnlyOneRun(nodes, order, i - run, i);
    assert !Hit(nodes, order, i - run);
    NothingOpenAfterBreak(nodes, order, i);
  }

  lemma NothingOpenAfterBreak(nodes: seq<word>, order: nat, i: nat)
    requires 0 < i < |nodes| && nodes[i] != nodes[i - 1] + PAGE && Open(nodes, order, i)
    ensures !Open(nodes, order, i + 1)
  {
  }

  /** At the end of the list a run that is still open is too short. */
  lemma ListEnds(nodes: seq<word>, order: nat, run: nat, start: word, prev: word, next: word)
    requires Scanning(nodes, order, |nodes|, run, start, prev, next) && run < Pow2(order)
    ensures FindRun(nodes, order).None?
  {
  }

  lemma RunCompletes(nodes: seq<word>, order: nat, i: nat, start: word, prev: word, next: word)
    requires Scanning(nodes, order, i, Pow2(order), start, prev, next)
    ensures FindRun(nodes, order) == Some(i - Pow2(order))
    ensures start == nodes[i - Pow2(order)]
    ensures prev == if i == Pow2(order) then 0 else nodes[i - Pow2(order) - 1]
  {
    assert Hit(nodes, order, i - Pow2(order));
  }

  /** One link written: the rest of the run is still to do. */
  lemma LinkFirst(m: Mem, p: word, n: nat, head: word)
    requires 0 < n && p + n * PAGE <= WORD_MOD
    ensures LinkRun(m, p, n, head) ==
            if n == 1 then m[p as nat := head] else LinkRun(m[p as nat := p + PAGE], p + PAGE, n - 1, head)
  {
  }

  /** The loop of free_pages stops at the last page, also when that ends at 2^32. */
  lemma LastPage(cur: word, left: nat)
    requires left > 0 && cur + left * PAGE <= WORD_MOD
    ensures Wrap(cur + PAGE) == Wrap(cur + left * PAGE) <==> left == 1
    ensures left > 1 ==> Wrap(cur + PAGE) == cur + PAGE
  {
  }

  lemma PagesAreNotNull(s: PageState)
    requires s.Valid()
    ensures forall i :: 0 <= i < |s.nodes| ==> s.nodes[i] != 0
  {
  }

  lemma RunFits(nodes: seq<word>, order: nat)
    ensures FindRun(nodes, order).Some? ==> FindRun(nodes, order).value + Pow2(order) <= |nodes|
  {
  }

  class PageAllocator {
    var mem: Mem
    var freelist: word
    ghost var nodes: seq<word>

    ghost function State(): PageState
      reads this
    {
      PageState(mem, freelist, nodes)
    }

    ghost predicate Valid()
      reads this
    {
      State().Valid()
    }

    constructor (m: Mem, head: word, ghost pages: seq<word>)
      requires IsList(m, head, pages)
      ensures Valid() && State() == PageState(m, head, pages)
    {
      mem, freelist, nodes := m, head, pages;
    }

    /** The pass over the list: where the run found starts, the page before it, and the
        page after it. */
    method ScanForRun(order: nat) returns (runStart: word, runPrev: word, next: word)
      requires Valid() && order < 32
      ensures match FindRun(nodes, order)
              case None => runStart == 0
              case Some(k) =>
                && runStart == nodes[k] != 0
                && runPrev == (if k == 0 then 0 else nodes[k - 1])
                && next == LinkTo(nodes, k + Pow2(order))
    {
      hide Scanning, BitAnd, Aligned, Segment;
      ghost var size := SmallPow2(order);
      var prev: word, curr: word := 0, 0;
      var n: word := Pow2(order);
      var run: word, runNext: word := 0, 0;
      next, runStart, runPrev := freelist, 0, 0;
      var alignMask := Wrap(Wrap(n * PAGE) - 1);
      ghost var i := 0;
      ScanBegins(nodes, order);
      while run != n
        invariant 0 <= i <= |nodes| && curr == (if i == 0 then 0 else nodes[i - 1]) && next == LinkTo(nodes, i)
        invariant run <= n && run <= i
        invariant Scanning(nodes, order, i, run, runStart, runPrev, runNext)
        decreases |nodes| - i
      {
        prev := curr;
        curr := next;
        if curr == 0 {
          ListEnds(nodes, order, run, runStart, runPrev, runNext);
          runStart := 0;
          return;
        }
        next := Load(mem, curr);
        var pa := curr;
        if run == 0 {
          AlignMaskTest(pa, order);
          if BitAnd(pa, alignMask) == 0 {
            StartRun(nodes, order, i, runStart, runPrev, runNext, prev);
            runStart, runPrev, runNext, run := curr, prev, Wrap(pa + PAGE), 1;
          } else {
            SkipPage(nodes, order, i, runStart, runPrev, runNext);
          }
        } else if pa == runNext {
          ExtendRun(nodes, order, i, run, runStart, runPrev, runNext);
          runNext, run := Wrap(runNext + PAGE), run + 1;
        } else {
          BreakRun(nodes, order, i, run, runStart, runPrev, runNext);
          run := 0;
        }
        i := i + 1;
      }
      RunCompletes(nodes, order, i, runStart, runPrev, runNext);
    }

    /** Allocates 2^order contiguous and naturally aligned pages in one pass over the list. */
    method AllocPages(order: nat) returns (p: word)
      requires Valid() && order < 32
      modifies this
      ensures Valid()
      ensures (State(), p) == AllocPagesSpec(old(State()), order)
    {
      hide IsList, FindRun;
      AllocPagesKeepsList(State(), order);
      PagesAreNotNull(State());
      RunFits(nodes, order);
      var runStart, runPrev, next := ScanForRun(order);
      if runStart != 0 {
        ghost var k := FindRun(nodes, order).value;
        if runPrev != 0 {
          mem := mem[runPrev as nat := next];
        } else {
          freelist := next;
        }
        nodes := nodes[..k] + nodes[k + Pow2(order)..];
      }
      p := runStart;
    }

    /** Puts the pages of [p, p + size) at the front of the list in ascending order.
        Size 0 and address 0 empty the list. Pages that are on the list already make a cycle. */
    method FreePages(p: word, size: word)
      requires size % PAGE == 0 && p + size <= WORD_MOD
      requires size > 0 ==> p % PAGE == 0
      modifies this
      ensures old(Valid()) && (size > 0 && p != 0 ==> forall q :: q in old(nodes) ==> !InBlock(p, size / PAGE, q)) ==>
                Valid()
      ensures State() == FreePagesSpec(old(State()), p, size)
    {
      if size == 0 {
        freelist, nodes := 0, [];
        return;
      }
      FreedIsList(State(), p, size);
      hide IsList, Pages, InBlock, LinkRun, Wrap;
      ghost var freed := FreePagesSpec(State(), p, size);
      var oldFreelist := freelist;
      freelist := p;
      nodes := freed.nodes;
      var end, cur := Wrap(p + size), p;
      ghost var left := size / PAGE;
      while Wrap(cur + PAGE) != end
        invariant left > 0 && cur + left * PAGE == p + size <= WORD_MOD
        invariant LinkRun(mem, cur, left, oldFreelist) == freed.mem
        invariant freelist == p && nodes == freed.nodes
        decreases left
      {
        LastPage(cur, left);
        LinkFirst(mem, cur, left, oldFreelist);
        mem := mem[cur as nat := Wrap(cur + PAGE)];
        cur, left := Wrap(cur + PAGE), left - 1;
      }
      LastPage(cur, left);
      LinkFirst(mem, cur, left, oldFreelist);
      mem := mem[cur as nat := oldFreelist];
    }

    /** The backend's memalign. The natural alignment of the block has to cover the
        alignment asked for, which is not looked at. */
    method PageMemalign(alignment: word, size: word) returns (p: word)
      requires Valid() && size <= WORD_MOD - PAGE
      modifies this
      ensures Valid()
      ensures (State(), p) == PageMemalignSpec(old(State()), size)
    {
      var n := PageCount(size);
      if size == 0 {
        return 0;
      }
      PagesIn(size);
      OrderForIsTight(n);
      var order := if IsPowerOf2(n) then Fls(n) else Fls(n) + 1;
      p := AllocPages(order);
    }

    /** Pushes one page. */
    method FreePage(page: word)
      requires page % PAGE == 0
      modifies this
      ensures old(Valid()) && page !in old(nodes) ==> Valid()
      ensures State() == FreePagesSpec(old(State()), page, PAGE)
    {
      OnePage(page, State());
      mem := mem[page as nat := freelist];
      freelist := page;
      nodes := if page == 0 then [] else [page] + nodes;
    }

    /** Pops the first page; the same as allocating order 0. */
    method AllocPage() returns (p: word)
      requires Valid()
      modifies this
      ensures Valid()
      ensures (State(), p) == AllocPagesSpec(old(State()), 0)
    {
      hide IsList, AllocPagesSpec;
      PopFirst(State());
      HeadIsFirst(State());
      if freelist == 0 {
        return 0;
      }
      p := freelist;
      freelist := Load(mem, freelist);
      nodes := nodes[1..];
    }
  }

  lemma HeadIsFirst(s: PageState)
    requires s.Valid()
    ensures s.freelist == 0 <==> s.nodes == []
  {
  }

  lemma PopFirst(s: PageState)
    requires s.Valid()
    ensures s.nodes == [] ==> AllocPagesSpec(s, 0) == (s, 0)
    ensures s.nodes != [] ==>
              && AllocPagesSpec(s, 0) == (PageState(s.mem, Load(s.mem, s.freelist), s.nodes[1..]), s.freelist)
              && AllocPagesSpec(s, 0).0.Valid()
  {
    SinglePageFound(s.nodes);
    AllocPagesKeepsList(s, 0);
    if s.nodes != [] {
      assert s.nodes[..0] + s.nodes[1..] == s.nodes[1..];
      assert Load(s.mem, s.nodes[0]) == LinkTo(s.nodes, 1);
    }
  }

  lemma OnePage(page: word, s: PageState)
    requires page % PAGE == 0
    ensures page + PAGE <= WORD_MOD && Pages(page, 1) == [page]
    ensures s.Valid() && page !in s.nodes ==> FreePagesSpec(s, page, PAGE).Valid()
  {
    hide LinkRun, FreePagesSpec;
    if s.Valid() && page !in s.nodes {
      forall q | q in s.nodes
        ensures !InBlock(page, 1, q)
      {
        PageIsAlone(page, q);
      }
      FreePagesKeepsList(s, page, PAGE);
    }
  }

  lemma PageIsAlone(page: word, q: word)
    requires page % PAGE == 0 && q % PAGE == 0
    ensures InBlock(page, 1, q) ==> q == page
  {
  }

  lemma FreedIsList(s: PageState, p: word, size: word)
    requires size % PAGE == 0 && p + size <= WORD_MOD && p % PAGE == 0
    ensures s.Valid() && (p != 0 ==> forall q :: q in s.nodes ==> !InBlock(p, size / PAGE, q)) ==>
              FreePagesSpec(s, p, size).Valid()
  {
    hide LinkRun, FreePagesSpec, IsList;
    if s.Valid() && (p != 0 ==> forall q :: q in s.nodes ==> !InBlock(p, size / PAGE, q)) {
      FreePagesKeepsList(s, p, size);
    }
  }
}
