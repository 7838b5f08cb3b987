/** The intrusive list of free pages, as a value: the words of memory, the list
    head, and the sequence of pages the list runs through.

    The search for a run of pages is described by which page could have been the
    first one of the run; the loop that performs the search is in PageAlloc. */
module PageList {
  import opened Options
  import opened Words

  const PAGE := 4096

  /** Memory by word address. A word nobody wrote reads as 0; any contents are allowed. */
  type Mem = map<nat, word>

  function Load(m: Mem, a: nat): word {
    if a in m then m[a] else 0
  }

  predicate IsPage(p: word) {
    p != 0 && p % PAGE == 0
  }

  /** The word that the link before position i must hold. */
  function LinkTo(nodes: seq<word>, i: nat): word {
    if i < |nodes| then nodes[i] else 0
  }

  /** Following the links from head visits exactly these pages and then reads NULL. */
  ghost predicate IsList(m: Mem, head: word, nodes: seq<word>) {
    && head == LinkTo(nodes, 0)
    && (forall i :: 0 <= i < |nodes| ==> IsPage(nodes[i]))
    && forall i {:trigger Load(m, nodes[i])} :: 0 <= i < |nodes| ==> Load(m, nodes[i]) == LinkTo(nodes, i + 1)
  }

  ghost predicate Distinct(nodes: seq<word>) {
    forall i, j :: 0 <= i < j < |nodes| ==> nodes[i] != nodes[j]
  }

  datatype PageState = PageState(mem: Mem, freelist: word, nodes: seq<word>) {
    ghost predicate Valid() {
      IsList(mem, freelist, nodes)
    }
  }

  /** Two equal pages have equal links, so they are at the same distance from NULL. */
  lemma {:induction false} SamePosition(m: Mem, head: word, nodes: seq<word>, i: nat, j: nat)
    requires IsList(m, head, nodes)
    requires i <= j < |nodes| && nodes[i] == nodes[j]
    ensures i == j
    decreases |nodes| - j
  {
    assert LinkTo(nodes, i + 1) == Load(m, nodes[i]) == Load(m, nodes[j]) == LinkTo(nodes, j + 1);
    if j + 1 < |nodes| {
      SamePosition(m, head, nodes, i + 1, j + 1);
    }
  }

  /** A list that ends in NULL has no cycle and no page twice. */
  lemma ListAcyclic(m: Mem, head: word, nodes: seq<word>)
    requires IsList(m, head, nodes)
    ensures Distinct(nodes)
  {
    forall i, j | 0 <= i < j < |nodes|
      ensures nodes[i] != nodes[j]
    {
      if nodes[i] == nodes[j] {
        SamePosition(m, head, nodes, i, j);
      }
    }
  }

  /** Memory and head determine the list. */
  lemma {:induction false} ListUnique(m: Mem, head: word, xs: seq<word>, ys: seq<word>)
    requires IsList(m, head, xs) && IsList(m, head, ys)
    ensures xs == ys
    decreases |xs|
  {
    if xs != [] && ys != [] {
      assert xs[0] == ys[0];
      var next := Load(m, head);
      ListTail(m, head, xs);
      ListTail(m, head, ys);
      ListUnique(m, next, xs[1..], ys[1..]);
      assert xs == [xs[0]] + xs[1..] && ys == [ys[0]] + ys[1..];
    }
  }

  lemma ListTail(m: Mem, head: word, xs: seq<word>)
    requires IsList(m, head, xs) && xs != []
    ensures IsList(m, Load(m, head), xs[1..])
  {
  }

  // ----- what the search looks for -----

  predicate Aligned(p: word, order: nat) {
    p % Pow2(order + 12) == 0
  }

  /** Pages i .. j - 1 of the list follow each other in memory. */
  ghost predicate Consecutive(nodes: seq<word>, i: nat, j: nat) {
    i <= j <= |nodes| && forall t :: i < t < j ==> nodes[t] == nodes[t - 1] + PAGE
  }

  /** 2^order pages at adjacent ascending addresses, the first naturally aligned. */
  ghost predicate Segment(nodes: seq<word>, order: nat, k: nat) {
    k + Pow2(order) <= |nodes| && Aligned(nodes[k], order) && Consecutive(nodes, k, k + Pow2(order))
  }

  /** The scan starts a run at page k: k is aligned, and no earlier run was still
      open when k was reached. An open run either takes k or is broken by it, and
      the page that breaks a run is not considered again. */
  ghost predicate Starts(nodes: seq<word>, order: nat, k: nat)
    decreases k
  {
    k < |nodes| && Aligned(nodes[k], order) && !Open(nodes, order, k)
  }

  /** Some run started earlier and takes every page before k. */
  ghost predicate Open(nodes: seq<word>, order: nat, k: nat)
    decreases k, 0
  {
    exists s: nat :: s < k && Starts(nodes, order, s) && Consecutive(nodes, s, k)
  }

  ghost predicate Hit(nodes: seq<word>, order: nat, k: nat) {
    Starts(nodes, order, k) && Segment(nodes, order, k)
  }

  /** The first page in list order, from position k on, where a started run completes. */
  ghost function FindFrom(nodes: seq<word>, order: nat, k: nat): (r: Option<nat>)
    requires k <= |nodes|
    ensures r.Some? ==> k <= r.value && Hit(nodes, order, r.value)
    ensures r.Some? ==> forall j: nat :: k <= j < r.value ==> !Hit(nodes, order, j)
    ensures r.None? ==> forall j: nat :: k <= j ==> !Hit(nodes, order, j)
    decreases |nodes| - k
  {
    if k == |nodes| then None
    else if Hit(nodes, order, k) then Some(k)
    else FindFrom(nodes, order, k + 1)
  }

  ghost function FindRun(nodes: seq<word>, order: nat): Option<nat> {
    FindFrom(nodes, order, 0)
  }

  lemma {:induction false} ConsecutiveAddress(nodes: seq<word>, i: nat, j: nat, t: nat)
    requires Consecutive(nodes, i, j) && i + t < j
    ensures nodes[i + t] == nodes[i] + t * PAGE
    decreases t
  {
    if t > 0 {
      ConsecutiveAddress(nodes, i, j, t - 1);
    }
  }

  lemma JoinConsecutive(nodes: seq<word>, i: nat, j: nat, k: nat)
    requires Consecutive(nodes, i, j) && Consecutive(nodes, j, k) && i < j < k
    requires nodes[j] == nodes[j - 1] + PAGE
    ensures Consecutive(nodes, i, k)
  {
  }

  /** When the scan fails, every aligned adjacent segment of the list was lost for
      one reason: its first page broke a run that had started earlier. */
  lemma ScanFailsExactly(nodes: seq<word>, order: nat)
    ensures FindRun(nodes, order).None? <==>
            forall k: nat :: Segment(nodes, order, k) ==>
              Open(nodes, order, k) && nodes[k] != nodes[k - 1] + PAGE
  {
    if FindRun(nodes, order).None? {
      forall k: nat | Segment(nodes, order, k)
        ensures Open(nodes, order, k) && nodes[k] != nodes[k - 1] + PAGE
      {
        assert !Hit(nodes, order, k);
        assert Open(nodes, order, k);
        var s: nat :| s < k && Starts(nodes, order, s) && Consecutive(nodes, s, k);
        if nodes[k] == nodes[k - 1] + PAGE {
          JoinConsecutive(nodes, s, k, k + Pow2(order));
          assert Hit(nodes, order, s);
        }
      }
    }
  }

  /** The search can miss memory that is there: with pages 2, 4 and 5 free in this
      order, page 4 breaks the run begun at page 2 and the aligned pair 4, 5 is not found. */
  lemma ScanMissesASegment()
    ensures Segment([0x2000, 0x4000, 0x5000], 1, 1)
    ensures FindRun([0x2000, 0x4000, 0x5000], 1).None?
  {
    var nodes: seq<word> := [0x2000, 0x4000, 0x5000];
    Pow2At12();
    assert Pow2(13) == 8192 && Pow2(1) == 2;
    assert Starts(nodes, 1, 0);
    assert Consecutive(nodes, 0, 1);
    assert Open(nodes, 1, 1);
    assert !Segment(nodes, 1, 0) by { assert nodes[1] != nodes[0] + PAGE; }
    forall k: nat
      ensures !Hit(nodes, 1, k)
    {
      if k == 2 {
        assert nodes[2] % 8192 != 0;
      }
    }
  }

  lemma PageAlignedAtOrder0(p: word)
    requires IsPage(p)
    ensures Aligned(p, 0)
  {
  }

  /** A single page is found exactly when the list is not empty, and it is the first one. */
  lemma SinglePageFound(nodes: seq<word>)
    requires forall i :: 0 <= i < |nodes| ==> IsPage(nodes[i])
    ensures FindRun(nodes, 0) == if nodes == [] then None else Some(0)
  {
    if nodes != [] {
      PageAlignedAtOrder0(nodes[0]);
      assert Hit(nodes, 0, 0);
    }
  }

  /** Address a lies in the n pages from p on. */
  predicate InBlock(p: nat, n: nat, a: nat) {
    p <= a < p + n * PAGE
  }

  /** The n pages from p on, as a list. */
  function Pages(p: word, n: nat): (r: seq<word>)
    requires p + n * PAGE <= WORD_MOD
    ensures |r| == n && forall i :: 0 <= i < n ==> r[i] == p + i * PAGE
  {
    seq(n, i requires 0 <= i < n => p + i * PAGE)
  }

  lemma PagesMembers(p: word, n: nat)
    requires p % PAGE == 0 && p + n * PAGE <= WORD_MOD
    ensures forall q: word :: q in Pages(p, n) <==> q % PAGE == 0 && InBlock(p, n, q)
  {
    forall q: word | q % PAGE == 0 && InBlock(p, n, q)
      ensures q in Pages(p, n)
    {
      PagePosition(p, q, (q - p) / PAGE);
      assert Pages(p, n)[(q - p) / PAGE] == q;
    }
    forall i | 0 <= i < n
      ensures Pages(p, n)[i] % PAGE == 0 && InBlock(p, n, Pages(p, n)[i])
    {
      PageAtIndex(p, i);
    }
  }

  lemma PagePosition(p: word, q: word, i: nat)
    requires p % PAGE == 0 && q % PAGE == 0 && p <= q && i == (q - p) / PAGE
    ensures q == p + i * PAGE
  {
    var a, b := p / PAGE, q / PAGE;
    DivModUnique(q - p, PAGE, b - a, 0);
  }

  lemma PageAtIndex(p: word, i: nat)
    requires p % PAGE == 0
    ensures (p + i * PAGE) % PAGE == 0
  {
    DivModUnique(p + i * PAGE, PAGE, p / PAGE + i, 0);
  }

  /** On a list that is one contiguous region the scan is complete: it succeeds
      exactly when the region contains a naturally aligned block of 2^order pages,
      and then it returns the first one. */
  lemma RegionScan(p: word, n: nat, order: nat)
    requires p + n * PAGE <= WORD_MOD
    ensures FindRun(Pages(p, n), order).Some? <==> exists k: nat :: AlignedBlock(p, n, order, k)
    ensures FindRun(Pages(p, n), order).Some? ==>
              && AlignedBlock(p, n, order, FindRun(Pages(p, n), order).value)
              && forall k: nat :: AlignedBlock(p, n, order, k) ==> FindRun(Pages(p, n), order).value <= k
  {
    var nodes := Pages(p, n);
    forall k: nat
      ensures AlignedBlock(p, n, order, k) <==> Segment(nodes, order, k)
    {
      if k < n {
        assert nodes[k] == p + k * PAGE;
      }
    }
    if k: nat :| AlignedBlock(p, n, order, k) {
      var s := FirstAligned(nodes, order, k);
      assert Consecutive(nodes, s, s + Pow2(order));
      assert Hit(nodes, order, s);
      forall j: nat | AlignedBlock(p, n, order, j)
        ensures s <= j
      {
      }
    }
  }

  /** Block of 2^order pages inside the n pages from p, at page offset k, naturally aligned. */
  ghost predicate AlignedBlock(p: word, n: nat, order: nat, k: nat) {
    k + Pow2(order) <= n && (p + k * PAGE) % Pow2(order + 12) == 0
  }

  /** The first aligned page of a list starts a run. */
  lemma {:induction false} FirstAligned(nodes: seq<word>, order: nat, k: nat) returns (s: nat)
    requires k < |nodes| && Aligned(nodes[k], order)
    ensures s <= k && Starts(nodes, order, s)
    ensures forall j: nat :: j < s ==> !Aligned(nodes[j], order)
  {
    if t: nat :| t < k && Aligned(nodes[t], order) {
      s := FirstAligned(nodes, order, t);
    } else {
      s := k;
    }
  }

  /** Orders of 4 GB and more never succeed. */
  lemma HugeOrdersFail(nodes: seq<word>, order: nat)
    requires (forall i :: 0 <= i < |nodes| ==> IsPage(nodes[i])) && order >= 20
    ensures FindRun(nodes, order).None?
  {
    hide Segment, Open;
    Pow2At32();
    Pow2Monotone(32, order + 12);
    forall k: nat | k < |nodes|
      ensures !Aligned(nodes[k], order)
    {
      BelowDivisor(nodes[k], Pow2(order + 12));
    }
  }

  // ----- the list operations -----

  /** alloc_pages: unlink the run found, or change nothing and return NULL. */
  ghost function AllocPagesSpec(s: PageState, order: nat): (PageState, word) {
    match FindRun(s.nodes, order)
    case None => (s, 0)
    case Some(k) =>
      var next := LinkTo(s.nodes, k + Pow2(order));
      var rest := s.nodes[..k] + s.nodes[k + Pow2(order)..];
      if k == 0
      then (PageState(s.mem, next, rest), s.nodes[k])
      else (PageState(s.mem[s.nodes[k - 1] := next], s.freelist, rest), s.nodes[k])
  }

  /** The links free_pages writes into the n pages from p on, the last one to head. */
  function LinkRun(m: Mem, p: word, n: nat, head: word): Mem
    requires p + n * PAGE <= WORD_MOD
    decreases n
  {
    if n == 0 then m
    else if n == 1 then m[p as nat := head]
    else LinkRun(m[p as nat := p + PAGE], p + PAGE, n - 1, head)
  }

  /** free_pages. With size 0 the source empties the list, and a head at address 0 reads as NULL. */
  ghost function FreePagesSpec(s: PageState, p: word, size: word): PageState
    requires size % PAGE == 0 && p + size <= WORD_MOD
  {
    if size == 0 then PageState(s.mem, 0, [])
    else
      var nodes := if p == 0 then [] else Pages(p, size / PAGE) + s.nodes;
      PageState(LinkRun(s.mem, p, size / PAGE, s.freelist), p, nodes)
  }

  /** A segment of the list is exactly the block of pages at its first address. */
  lemma SegmentIsBlock(nodes: seq<word>, order: nat, k: nat)
    requires Segment(nodes, order, k)
    ensures IsPage(nodes[k]) ==> nodes[k] + Pow2(order) * PAGE <= WORD_MOD
    ensures forall i :: 0 <= i < Pow2(order) ==> nodes[k + i] == nodes[k] + i * PAGE
  {
    var n := Pow2(order);
    forall i | 0 <= i < n
      ensures nodes[k + i] == nodes[k] + i * PAGE
    {
      ConsecutiveAddress(nodes, k, k + n, i);
    }
    LastPageEnds(nodes[k], n, nodes[k + (n - 1)]);
  }

  /** Whole pages whose last one starts below 2^32 end by 2^32. */
  lemma LastPageEnds(p: word, n: nat, last: word)
    requires n > 0 && last == p + (n - 1) * PAGE
    ensures IsPage(p) ==> p + n * PAGE <= WORD_MOD
  {
    if IsPage(p) {
      DivModUnique(last, PAGE, p / PAGE + n - 1, 0);
    }
  }

  /** alloc_pages returns NULL and changes nothing, or it takes out one block of
      2^order pages at a naturally aligned address, keeps every other page in order,
      and writes at most one word: the link of the page before the block. */
  lemma AllocPagesSplice(s: PageState, order: nat) returns (k: nat)
    requires s.Valid()
    ensures var (s', p) := AllocPagesSpec(s, order);
            if p == 0 then FindRun(s.nodes, order).None? && s' == s
            else
              && k <= |s'.nodes| && IsPage(p) && Aligned(p, order)
              && p + Pow2(order) * PAGE <= WORD_MOD
              && s.nodes == s'.nodes[..k] + Pages(p, Pow2(order)) + s'.nodes[k..]
              && forall a: nat :: k == 0 || a != s.nodes[k - 1] ==> Load(s'.mem, a) == Load(s.mem, a)
  {
    k := 0;
    match FindRun(s.nodes, order)
    case None =>
    case Some(j) =>
      k := j;
      SegmentIsBlock(s.nodes, order, k);
      CutBlock(s.nodes, k, s.nodes[k], Pow2(order));
  }

  lemma CutBlock(nodes: seq<word>, k: nat, p: word, n: nat)
    requires k + n <= |nodes| && p + n * PAGE <= WORD_MOD
    requires forall i :: 0 <= i < n ==> nodes[k + i] == p + i * PAGE
    ensures var rest := nodes[..k] + nodes[k + n..];
            nodes == rest[..k] + Pages(p, n) + rest[k..]
  {
  }

  lemma AllocPagesKeepsList(s: PageState, order: nat)
    requires s.Valid()
    ensures AllocPagesSpec(s, order).0.Valid()
  {
    match FindRun(s.nodes, order)
    case None =>
    case Some(k) =>
      ListAcyclic(s.mem, s.freelist, s.nodes);
      Unlink(s, k, Pow2(order), AllocPagesSpec(s, order).0);
  }

  lemma Unlink(s: PageState, k: nat, n: nat, s': PageState)
    requires s.Valid() && Distinct(s.nodes) && 0 < n && k + n <= |s.nodes|
    requires s'.nodes == s.nodes[..k] + s.nodes[k + n..]
    requires s'.freelist == if k == 0 then LinkTo(s.nodes, n) else s.freelist
    requires k == 0 ==> s'.mem == s.mem
    requires k > 0 ==> s'.mem == s.mem[s.nodes[k - 1] as nat := LinkTo(s.nodes, k + n)]
    ensures s'.Valid()
  {
    forall i | 0 <= i < |s'.nodes|
      ensures IsPage(s'.nodes[i]) && Load(s'.mem, s'.nodes[i]) == LinkTo(s'.nodes, i + 1)
    {
      var j := if i < k then i else i + n;
      assert s'.nodes[i] == s.nodes[j] && Load(s.mem, s.nodes[j]) == LinkTo(s.nodes, j + 1);
    }
  }

  /** Every page of the run links to the next one, the last to head; no other word changes. */
  lemma {:induction false} LinkRunEffect(m: Mem, p: word, n: nat, head: word)
    requires p % PAGE == 0 && p + n * PAGE <= WORD_MOD
    ensures forall q: nat :: q % PAGE == 0 && InBlock(p, n, q) ==>
              Load(LinkRun(m, p, n, head), q) == if q + PAGE == p + n * PAGE then head else q + PAGE
    ensures forall a: nat :: a % PAGE != 0 || !InBlock(p, n, a) ==>
              Load(LinkRun(m, p, n, head), a) == Load(m, a)
    decreases n
  {
    if n > 1 {
      LinkRunEffect(m[p as nat := p + PAGE], p + PAGE, n - 1, head);
    }
  }

  lemma FreePagesKeepsList(s: PageState, p: word, size: word)
    requires s.Valid()
    requires p % PAGE == 0 && size % PAGE == 0 && p + size <= WORD_MOD
    requires p != 0 ==> forall q :: q in s.nodes ==> !InBlock(p, size / PAGE, q)
    ensures FreePagesSpec(s, p, size).Valid()
  {
    if size > 0 && p != 0 {
      var n := size / PAGE;
      var s' := FreePagesSpec(s, p, size);
      LinkRunEffect(s.mem, p, n, s.freelist);
      forall i | 0 <= i < |s'.nodes|
        ensures IsPage(s'.nodes[i]) && Load(s'.mem, s'.nodes[i]) == LinkTo(s'.nodes, i + 1)
      {
        if i < n {
          FreedLink(s, p, n, i);
        } else {
          OldLink(s, p, n, i - n);
        }
      }
    }
  }

  lemma OldLink(s: PageState, p: word, n: nat, j: nat)
    requires s.Valid() && IsPage(p) && p + n * PAGE <= WORD_MOD && j < |s.nodes|
    requires forall q :: q in s.nodes ==> !InBlock(p, n, q)
    ensures var nodes := Pages(p, n) + s.nodes;
            IsPage(nodes[n + j]) && Load(LinkRun(s.mem, p, n, s.freelist), nodes[n + j]) == LinkTo(nodes, n + j + 1)
  {
    LinkRunEffect(s.mem, p, n, s.freelist);
    assert (Pages(p, n) + s.nodes)[n + j] == s.nodes[j];
    assert s.nodes[j] in s.nodes;
  }

  lemma FreedLink(s: PageState, p: word, n: nat, i: nat)
    requires IsPage(p) && p + n * PAGE <= WORD_MOD && i < n && s.freelist == LinkTo(s.nodes, 0)
    ensures var nodes := Pages(p, n) + s.nodes;
            IsPage(nodes[i]) && Load(LinkRun(s.mem, p, n, s.freelist), nodes[i]) == LinkTo(nodes, i + 1)
  {
    LinkRunEffect(s.mem, p, n, s.freelist);
    assert (Pages(p, n) + s.nodes)[i] == p + i * PAGE;
    assert InBlock(p, n, p + i * PAGE);
  }

  // ----- pages that are on the list already -----

  /** In memory after free_pages, a list from p on runs through the freed pages first. */
  lemma {:induction false} WalkBlock(m: Mem, p: word, n: nat, head: word, xs: seq<word>, i: nat)
    requires IsPage(p) && p + n * PAGE <= WORD_MOD && IsList(LinkRun(m, p, n, head), p, xs) && i < n
    ensures i < |xs| && xs[i] == p + i * PAGE
    decreases i
  {
    hide LinkRun;
    if i > 0 {
      WalkBlock(m, p, n, head, xs, i - 1);
      LinkRunEffect(m, p, n, head);
      assert InBlock(p, n, xs[i - 1]);
      assert Load(LinkRun(m, p, n, head), xs[i - 1]) == LinkTo(xs, i - 1 + 1);
    }
  }

  /** Behind them it follows the old list for as long as that stays outside the block. */
  lemma {:induction false} WalkOld(s: PageState, p: word, n: nat, xs: seq<word>, t: nat)
    requires s.Valid() && IsPage(p) && 0 < n && p + n * PAGE <= WORD_MOD
    requires IsList(LinkRun(s.mem, p, n, s.freelist), p, xs)
    requires t < |s.nodes| && forall i :: 0 <= i < t ==> !InBlock(p, n, s.nodes[i])
    ensures n + t < |xs| && xs[n + t] == s.nodes[t]
    decreases t
  {
    hide LinkRun;
    var m' := LinkRun(s.mem, p, n, s.freelist);
    LinkRunEffect(s.mem, p, n, s.freelist);
    if t == 0 {
      WalkBlock(s.mem, p, n, s.freelist, xs, n - 1);
      assert Load(m', xs[n - 1]) == LinkTo(xs, n - 1 + 1);
    } else {
      WalkOld(s, p, n, xs, t - 1);
      assert Load(m', s.nodes[t - 1]) == Load(s.mem, s.nodes[t - 1]) == LinkTo(s.nodes, t - 1 + 1);
      assert Load(m', xs[n + t - 1]) == LinkTo(xs, n + t - 1 + 1);
    }
  }

  lemma {:induction false} FirstInBlock(nodes: seq<word>, p: word, n: nat, k: nat) returns (t: nat)
    requires k < |nodes| && InBlock(p, n, nodes[k])
    ensures t <= k && InBlock(p, n, nodes[t]) && forall i :: 0 <= i < t ==> !InBlock(p, n, nodes[i])
  {
    if i: nat :| i < k && InBlock(p, n, nodes[i]) {
      t := FirstInBlock(nodes, p, n, i);
    } else {
      t := k;
    }
  }

  /** Such a list would pass the first page that was freed twice a second time. */
  lemma PassesTwice(s: PageState, p: word, n: nat, xs: seq<word>, k: nat)
    requires s.Valid() && IsPage(p) && p + n * PAGE <= WORD_MOD && k < |s.nodes| && InBlock(p, n, s.nodes[k])
    ensures IsList(LinkRun(s.mem, p, n, s.freelist), p, xs) ==> !Distinct(xs)
  {
    hide LinkRun;
    if IsList(LinkRun(s.mem, p, n, s.freelist), p, xs) {
      var t := FirstInBlock(s.nodes, p, n, k);
      WalkOld(s, p, n, xs, t);
      var i := (s.nodes[t] - p) / PAGE;
      PagePosition(p, s.nodes[t], i);
      WalkBlock(s.mem, p, n, s.freelist, xs, i);
      assert xs[i] == xs[n + t];
    }
  }

  lemma AcyclicOrNoList(m: Mem, head: word, xs: seq<word>)
    ensures IsList(m, head, xs) ==> Distinct(xs)
  {
    if IsList(m, head, xs) {
      ListAcyclic(m, head, xs);
    }
  }

  ghost predicate SomeList(m: Mem, head: word) {
    exists xs :: IsList(m, head, xs)
  }

  /** Freeing pages leaves a list in memory exactly when none of them was on it already; otherwise
      the links run in a cycle. */
  lemma FreedTwice(s: PageState, p: word, size: word)
    requires s.Valid() && IsPage(p) && 0 < size && size % PAGE == 0 && p + size <= WORD_MOD
    ensures var s' := FreePagesSpec(s, p, size);
            SomeList(s'.mem, s'.freelist) <==> forall q :: q in s.nodes ==> !InBlock(p, size / PAGE, q)
  {
    hide LinkRun, IsList;
    var n := size / PAGE;
    if forall q :: q in s.nodes ==> !InBlock(p, n, q) {
      FreePagesKeepsList(s, p, size);
    } else {
      var q :| q in s.nodes && InBlock(p, n, q);
      var k :| 0 <= k < |s.nodes| && s.nodes[k] == q;
      forall xs
        ensures !IsList(LinkRun(s.mem, p, n, s.freelist), p, xs)
      {
        PassesTwice(s, p, n, xs, k);
        AcyclicOrNoList(LinkRun(s.mem, p, n, s.freelist), p, xs);
      }
    }
  }

  /** Freeing a naturally aligned block of 2^order pages and allocating that order
      again returns the same block and leaves the list as it was. */
  lemma FreeThenAlloc(s: PageState, p: word, order: nat)
    requires s.Valid()
    requires IsPage(p) && order < 20 && Aligned(p, order) && p + Pow2(order) * PAGE <= WORD_MOD
    ensures Pow2(order) * PAGE < WORD_MOD
    ensures var freed := FreePagesSpec(s, p, Pow2(order) * PAGE);
            var (again, block) := AllocPagesSpec(freed, order);
            && block == p && again.nodes == s.nodes && again.freelist == s.freelist
            && forall a: nat :: a % PAGE != 0 || !InBlock(p, Pow2(order), a) ==>
                 Load(again.mem, a) == Load(s.mem, a)
  {
    var n := Pow2(order);
    var nodes := Pages(p, n) + s.nodes;
    assert (n * PAGE) / PAGE == n;
    LinkRunEffect(s.mem, p, n, s.freelist);
    assert Consecutive(nodes, 0, n);
    assert Hit(nodes, order, 0);
    assert nodes[n..] == s.nodes;
  }

  /** Right after one region was freed into an empty list, an allocation succeeds exactly when
      the region holds a naturally aligned block of the order, and returns the first one. */
  lemma FreedRegionAllocates(s: PageState, p: word, size: word, order: nat)
    requires s.nodes == [] && s.freelist == 0 && IsPage(p) && 0 < size && size % PAGE == 0 && p + size <= WORD_MOD
    ensures var freed := FreePagesSpec(s, p, size);
            && freed.Valid()
            && (AllocPagesSpec(freed, order).1 != 0 <==> exists k: nat :: AlignedBlock(p, size / PAGE, order, k))
            && forall k: nat :: AlignedBlock(p, size / PAGE, order, k) ==>
                 AllocPagesSpec(freed, order).1 <= p + k * PAGE
  {
    hide LinkRun, FindRun, AlignedBlock, IsList;
    var n := size / PAGE;
    EmptyList(s);
    FreePagesKeepsList(s, p, size);
    assert Pages(p, n) + s.nodes == Pages(p, n);
    RegionScan(p, n, order);
    BlocksFit(p, n, order);
  }

  lemma EmptyList(s: PageState)
    requires s.nodes == [] && s.freelist == 0
    ensures s.Valid()
  {
  }

  lemma BlocksFit(p: word, n: nat, order: nat)
    ensures forall k: nat :: AlignedBlock(p, n, order, k) ==> k < n
  {
  }
}
