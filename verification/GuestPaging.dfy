/** The guest's page tables, as built by the kernel, and what 32-bit paging makes of them. */
module GuestPaging {
  import opened Words
  import opened PageList

  const PTE_P := 0x1
  const PTE_W := 0x2
  const PTE_U := 0x4
  const PDE_PS := 0x80
  const LARGE := 0x40_0000

  /** The address whose page is made read-only, and its page number. */
  const TEST_READONLY_ADDR := 0x103b46
  const TEST_PAGE := 0x103

  // ----- building the tables -----

  function BuiltPde(table: word, i: nat): nat {
    if i == 0 then table + 7 else i * LARGE + 0x87
  }

  function BuiltPte(i: nat): nat {
    i * PAGE + if i == TEST_PAGE then 5 else 7
  }

  /** The flag constants of an entry, or-ed onto an address, are added to it. */
  lemma SmallFlags(x: nat)
    requires x % PAGE == 0
    ensures BitOr(BitOr(BitOr(x, PTE_P), PTE_W), PTE_U) == x + 7
  {
    hide BitOr;
    OrAssoc(BitOr(x, 1), 2, 4);
    OrAssoc(x, 1, BitOr(2, 4));
    SmallOrs();
    Pow2At12();
    OrDisjoint(x / PAGE, 7, 12);
    DivMod(x, PAGE);
  }

  lemma SmallOrs()
    ensures BitOr(1, BitOr(2, 4)) == 7 && BitOr(1, BitOr(2, BitOr(4, 0x80))) == 0x87
  {
    assert BitOr(2, 4) == 6;
    assert BitOr(1, 6) == 7;
    assert BitOr(4, 0x80) == 0x84;
    assert BitOr(2, 0x84) == 0x86;
    assert BitOr(1, 0x86) == 0x87;
  }

  lemma LargeFlags(x: nat)
    requires x % PAGE == 0
    ensures BitOr(BitOr(BitOr(BitOr(x, PTE_P), PTE_W), PTE_U), PDE_PS) == x + 0x87
  {
    hide BitOr;
    OrAssoc(BitOr(BitOr(x, 1), 2), 4, 0x80);
    OrAssoc(BitOr(x, 1), 2, BitOr(4, 0x80));
    OrAssoc(x, 1, BitOr(2, BitOr(4, 0x80)));
    SmallOrs();
    Pow2At12();
    OrDisjoint(x / PAGE, 0x87, 12);
    DivMod(x, PAGE);
  }

  /** Clearing the writable bit of an entry with all three flags leaves the other two. */
  lemma ClearWritable(x: word)
    requires x % PAGE == 0
    ensures x + 7 < WORD_MOD && BitAnd(x + 7, Not(PTE_W)) == x + 5
  {
    hide BitAnd;
    var hi := x / 8;
    Eighths(x);
    Flags7And5();
    AndSplit(hi, 7, 0x1FFF_FFFF, 5, 3);
    AndOnes29(hi);
  }

  lemma Eighths(x: word)
    requires x % PAGE == 0
    ensures x == x / 8 * 8 && x / 8 < 0x2000_0000 && x + 7 < WORD_MOD
  {
    var h := x / PAGE;
    assert x == h * PAGE && x / 8 == h * 512;
  }

  lemma Flags7And5()
    ensures BitAnd(7, 5) == 5 && Pow2(3) == 8
  {
  }

  lemma AndOnes29(hi: nat)
    requires hi < 0x2000_0000
    ensures BitAnd(hi, 0x1FFF_FFFF) == hi
  {
    Pow2At32();
    assert Pow2(9) == 512;
    Pow2Add(20, 9);
    AndOnes(hi, 29);
  }

  /** setup_guest_page_tables: the first 4 MB through a table of 4 KB pages with one page
      read-only, everything else as 4 MB pages, all of it at its own address. */
  method SetupGuestPageTables(dir: array<word>, table: array<word>, tableAddr: word)
    requires dir.Length == 1024 && table.Length == 1024 && dir != table && tableAddr % PAGE == 0
    modifies dir, table
    ensures forall i :: 0 <= i < 1024 ==> dir[i] == BuiltPde(tableAddr, i)
    ensures forall i :: 0 <= i < 1024 ==> table[i] == BuiltPte(i)
    ensures dir[0] == tableAddr + 7 && forall i :: 1 <= i < 1024 ==> dir[i] == i * 0x40_0000 + 0x87
    ensures forall i :: 0 <= i < 1024 ==> table[i] == i * 0x1000 + if i == 0x103 then 5 else 7
  {
    hide BitOr, BitAnd;
    var i := 0;
    while i < 1024
      invariant 0 <= i <= 1024
    {
      dir[i], table[i] := 0, 0;
      i := i + 1;
    }
    SmallFlags(tableAddr);
    dir[0] := BitOr(BitOr(BitOr(tableAddr, PTE_P), PTE_W), PTE_U);
    i := 0;
    while i < 1024
      invariant 0 <= i <= 1024 && dir[0] == tableAddr + 7
      invariant forall j :: 0 <= j < i ==> table[j] == j * PAGE + 7
    {
      SmallFlags(i * PAGE);
      table[i] := BitOr(BitOr(BitOr(i * PAGE, PTE_P), PTE_W), PTE_U);
      i := i + 1;
    }
    var testPage := TEST_READONLY_ADDR / PAGE;
    ClearWritable(testPage * PAGE);
    table[testPage] := BitAnd(table[testPage], Not(PTE_W));
    i := 1;
    while i < 1024
      invariant 1 <= i <= 1024 && dir[0] == tableAddr + 7
      invariant forall j :: 0 <= j < 1024 ==> table[j] == BuiltPte(j)
      invariant forall j :: 1 <= j < i ==> dir[j] == j * LARGE + 0x87
    {
      LargeFlags(i * LARGE);
      dir[i] := BitOr(BitOr(BitOr(BitOr(i * LARGE, PTE_P), PTE_W), PTE_U), PDE_PS);
      i := i + 1;
    }
  }

  // ----- walking them -----

  predicate Bit(e: word, k: nat)
    requires k <= 2 || k == 7
  {
    (e / (if k == 0 then 1 else if k == 1 then 2 else if k == 2 then 4 else 128)) % 2 == 1
  }

  datatype Mapping = NotPresent | Mapped(pa: nat, writable: bool, user: bool)

  /** 32-bit paging with 4 MB pages enabled, Intel SDM volume 3, section 4.3. */
  function Walk(mem: Mem, cr3: word, va: word): Mapping {
    var pde := Load(mem, (cr3 - cr3 % PAGE) + 4 * (va / LARGE));
    if !Bit(pde, 0) then NotPresent
    else if Bit(pde, 7) then Mapped(pde - pde % LARGE + va % LARGE, Bit(pde, 1), Bit(pde, 2))
    else
      var pte := Load(mem, (pde - pde % PAGE) + 4 * (va / PAGE % 1024));
      if !Bit(pte, 0) then NotPresent
      else Mapped(pte - pte % PAGE + va % PAGE, Bit(pde, 1) && Bit(pte, 1), Bit(pde, 2) && Bit(pte, 2))
  }

  datatype MemAccess = MemAccess(va: word, write: bool, user: bool)

  /** With CR0.WP set a write needs a writable mapping in supervisor mode as well. */
  predicate Permits(m: Mapping, a: MemAccess) {
    m.Mapped? && (a.write ==> m.writable) && (a.user ==> m.user)
  }

  /** The processor may set the accessed and dirty bits of an entry, bits 5 and 6. */
  predicate SameEntry(built: nat, e: word) {
    e / 128 == built / 128 && e % 32 == built % 32
  }

  /** Where the tables are in physical memory. */
  datatype Layout = Layout(guestDir: word, guestTable: word, hostDir: word) {
    predicate Valid() {
      guestDir % PAGE == 0 && guestTable % PAGE == 0 && hostDir % PAGE == 0 && guestDir != hostDir
    }
  }

  /** The host directory maps the first 4 MB to itself and nothing else. */
  function BuiltHostPde(i: nat): nat {
    if i == 0 then 0x87 else 0
  }

  /** Memory still holds the tables as built, accessed and dirty bits aside. */
  ghost predicate TablesIntact(mem: Mem, l: Layout) {
    && (forall i :: 0 <= i < 1024 ==> SameEntry(BuiltPde(l.guestTable, i), Load(mem, l.guestDir + 4 * i)))
    && (forall i :: 0 <= i < 1024 ==> SameEntry(BuiltPte(i), Load(mem, l.guestTable + 4 * i)))
    && (forall i :: 0 <= i < 1024 ==> SameEntry(BuiltHostPde(i), Load(mem, l.hostDir + 4 * i)))
  }

  /** Tables as SetupGuestPageTables leaves them, placed in memory next to the host
      directory, are intact. */
  lemma BuiltTablesIntact(mem: Mem, l: Layout, dir: seq<word>, table: seq<word>)
    requires |dir| == 1024 && |table| == 1024
    requires forall i :: 0 <= i < 1024 ==> dir[i] == BuiltPde(l.guestTable, i) && table[i] == BuiltPte(i)
    requires forall i :: 0 <= i < 1024 ==> Load(mem, l.guestDir + 4 * i) == dir[i]
    requires forall i :: 0 <= i < 1024 ==> Load(mem, l.guestTable + 4 * i) == table[i]
    requires forall i :: 0 <= i < 1024 ==> Load(mem, l.hostDir + 4 * i) == BuiltHostPde(i)
    ensures TablesIntact(mem, l)
  {
  }

  lemma LowBits(e: nat)
    ensures e % 2 == e % 32 % 2 && e / 2 % 2 == e % 32 / 2 % 2 && e / 4 % 2 == e % 32 / 4 % 2
  {
    LowBitsOf(e / 32, e % 32);
  }

  lemma LowBitsOf(h: nat, r: nat)
    requires r < 32
    ensures var e := 32 * h + r;
            e % 2 == r % 2 && e / 2 % 2 == r / 2 % 2 && e / 4 % 2 == r / 4 % 2
  {
    var e := 32 * h + r;
    EvenShift(16 * h, r);
    EvenShift(8 * h, r / 2);
    EvenShift(4 * h, r / 4);
    assert e / 2 == 16 * h + r / 2 && e / 4 == 8 * h + r / 4;
  }

  lemma EvenShift(m: nat, k: nat)
    ensures (2 * m + k) % 2 == k % 2
  {
  }

  lemma HighBits(e: nat)
    ensures e - e % PAGE == (e / 128 - e / 128 % 32) * 128
    ensures e - e % LARGE == (e / 128 - e / 128 % 0x8000) * 128
  {
    FrameFrom128(e, e / 128);
  }

  lemma FrameFrom128(e: nat, h: nat)
    requires h == e / 128
    ensures e % PAGE == h % 32 * 128 + e % 128
    ensures e % LARGE == h % 0x8000 * 128 + e % 128
  {
    Regroup(e, h, 32);
    Regroup(e, h, 0x8000);
  }

  lemma Regroup(e: nat, h: nat, n: nat)
    requires h == e / 128 && n > 0
    ensures e % (n * 128) == h % n * 128 + e % 128
  {
    var q, r, low := h / n, h % n, e % 128;
    assert e == h * 128 + low && h == q * n + r;
    MulAssoc(q, n, 128);
    MulLe(r + 1, n, 128);
    DivModUnique(e, n * 128, q, r * 128 + low);
  }

  lemma EntryBits(built: nat, e: word)
    requires SameEntry(built, e) && built < WORD_MOD
    ensures Bit(e, 0) == Bit(built, 0) && Bit(e, 1) == Bit(built, 1)
    ensures Bit(e, 2) == Bit(built, 2) && Bit(e, 7) == Bit(built, 7)
    ensures e - e % PAGE == built - built % PAGE
    ensures e - e % LARGE == built - built % LARGE
  {
    LowBits(e);
    LowBits(built);
    HighBits(e);
    HighBits(built);
  }

  /** Under the guest directory every address maps to itself, and only page 0x103 is not writable. */
  lemma GuestWalk(mem: Mem, l: Layout, va: word)
    requires l.Valid() && TablesIntact(mem, l)
    ensures Walk(mem, l.guestDir, va) == Mapped(va, va / 0x1000 != 0x103, true)
  {
    hide Bit, SameEntry;
    var i := va / LARGE;
    var pde := Load(mem, l.guestDir + 4 * i);
    assert SameEntry(BuiltPde(l.guestTable, i), pde);
    if i == 0 {
      var j := va / PAGE;
      assert va / PAGE % 1024 == j;
      assert SameEntry(BuiltPte(j), Load(mem, l.guestTable + 4 * j));
      TablePde(l.guestTable, pde);
      TablePte(j, Load(mem, l.guestTable + 4 * j));
    } else {
      LargePde(i, pde);
    }
  }

  lemma TablePde(table: word, e: word)
    requires table % PAGE == 0 && SameEntry(table + 7, e)
    ensures Bit(e, 0) && Bit(e, 1) && Bit(e, 2) && !Bit(e, 7) && e - e % PAGE == table
  {
    hide SameEntry;
    TableFlags(table);
    EntryBits(table + 7, e);
  }

  lemma TableFlags(table: word)
    requires table % PAGE == 0
    ensures table + 7 < WORD_MOD && (table + 7) - (table + 7) % PAGE == table
    ensures Bit(table + 7, 0) && Bit(table + 7, 1) && Bit(table + 7, 2) && !Bit(table + 7, 7)
  {
    var h := table / PAGE;
    LowBitsOf(h * 128, 7);
    EvenShift(h * 16, 0);
    assert (table + 7) / 128 == h * 32;
  }

  lemma TablePte(j: nat, e: word)
    requires j < 1024 && SameEntry(BuiltPte(j), e)
    ensures Bit(e, 0) && (Bit(e, 1) <==> j != TEST_PAGE) && Bit(e, 2) && e - e % PAGE == j * PAGE
  {
    PteFlags(j);
    hide Bit, SameEntry, BuiltPte;
    EntryBits(BuiltPte(j), e);
  }

  lemma PteFlags(j: nat)
    requires j < 1024
    ensures BuiltPte(j) < WORD_MOD && BuiltPte(j) - BuiltPte(j) % PAGE == j * PAGE
    ensures Bit(BuiltPte(j), 0) && (Bit(BuiltPte(j), 1) <==> j != TEST_PAGE) && Bit(BuiltPte(j), 2)
  {
    LowBitsOf(j * 128, 7);
    LowBitsOf(j * 128, 5);
  }

  lemma LargePde(i: nat, e: word)
    requires i < 1024 && SameEntry(i * LARGE + 0x87, e)
    ensures Bit(e, 0) && Bit(e, 1) && Bit(e, 2) && Bit(e, 7) && e - e % LARGE == i * LARGE
  {
    LargePdeFlags(i);
    hide Bit, SameEntry;
    EntryBits(i * LARGE + 0x87, e);
  }

  lemma LargePdeFlags(i: nat)
    requires i < 1024
    ensures var e := i * LARGE + 0x87;
            && e < WORD_MOD && e - e % LARGE == i * LARGE
            && Bit(e, 0) && Bit(e, 1) && Bit(e, 2) && Bit(e, 7)
  {
    LowBitsOf(i * 0x2_0000 + 4, 7);
    EvenShift(i * 0x4000, 1);
    assert (i * LARGE + 0x87) / 128 == i * 0x8000 + 1;
  }

  /** Under the host directory the first 4 MB map to themselves and nothing else is mapped. */
  lemma HostWalk(mem: Mem, l: Layout, va: word)
    requires l.Valid() && TablesIntact(mem, l)
    ensures Walk(mem, l.hostDir, va) == if va < 0x40_0000 then Mapped(va, true, true) else NotPresent
  {
    hide Bit, SameEntry;
    var i := va / LARGE;
    var pde := Load(mem, l.hostDir + 4 * i);
    assert SameEntry(BuiltHostPde(i), pde);
    if i == 0 {
      LargePde(0, pde);
    } else {
      AbsentPde(pde);
    }
  }

  lemma AbsentPde(e: word)
    requires SameEntry(0, e)
    ensures !Bit(e, 0)
  {
  }

  /** Whichever of the two directories is in use, a present address maps to itself, and the
      first 4 MB are always present. */
  lemma AlwaysIdentity(mem: Mem, l: Layout, cr3: word, va: word)
    requires l.Valid() && TablesIntact(mem, l) && (cr3 == l.guestDir || cr3 == l.hostDir)
    ensures Walk(mem, cr3, va).Mapped? ==> Walk(mem, cr3, va).pa == va
    ensures va < LARGE ==> Walk(mem, cr3, va).Mapped?
  {
    GuestWalk(mem, l, va);
    HostWalk(mem, l, va);
  }
}
