/** The bytes of an ELF32 executable, built from plain records in the order and byte order of the
    System V gABI (chapters 4 and 5), and what loading them does. */
module ElfImage {
  import opened Options
  import opened Strings
  import opened Words
  import opened ElfLoad

  // ----- the file format -----

  type half = x: nat | x < 0x1_0000

  function LE2(x: half): (bytes: seq<byte>)
    ensures |bytes| == 2
  {
    [x % 0x100, x / 0x100]
  }

  function LE4(x: word): (bytes: seq<byte>)
    ensures |bytes| == 4
  {
    LE2(x % 0x1_0000) + LE2(x / 0x1_0000)
  }

  type Identification = s: seq<byte> | |s| == 12 witness [0, 0, 0, 0, 0, 0, 0, 0, 0, 0, 0, 0]

  /** The fields of the file header that say nothing about the program header table. The first is the
      identification behind the magic number. */
  datatype Ehdr = Ehdr(ident: Identification, kind: half, machine: half, version: word, entry: word, shoff: word,
                       flags: word, ehsize: half, phentsize: half, shentsize: half, shnum: half, shstrndx: half)

  datatype Phdr = Phdr(kind: word, offset: word, vaddr: word, paddr: word, filesz: word, memsz: word,
                       flags: word, align: word)

  function EhdrBytes(e: Ehdr, phoff: word, phnum: half): (bytes: seq<byte>)
    ensures |bytes| == 52
  {
    [0x7F, 0x45, 0x4C, 0x46] + e.ident + LE2(e.kind) + LE2(e.machine) + LE4(e.version)
    + LE4(e.entry) + LE4(phoff) + LE4(e.shoff) + LE4(e.flags)
    + LE2(e.ehsize) + LE2(e.phentsize) + LE2(phnum) + LE2(e.shentsize) + LE2(e.shnum) + LE2(e.shstrndx)
  }

  function PhdrBytes(p: Phdr): (bytes: seq<byte>)
    ensures |bytes| == 32
  {
    LE4(p.kind) + LE4(p.offset) + LE4(p.vaddr) + LE4(p.paddr)
    + LE4(p.filesz) + LE4(p.memsz) + LE4(p.flags) + LE4(p.align)
  }

  function TableBytes(ps: seq<Phdr>): (bytes: seq<byte>)
    ensures |bytes| == 32 * |ps|
  {
    if ps == [] then [] else TableBytes(ps[..|ps| - 1]) + PhdrBytes(ps[|ps| - 1])
  }

  /** A file: its header, anything, the program header table, anything. */
  datatype Elf = Elf(ehdr: Ehdr, gap: seq<byte>, phdrs: seq<Phdr>, contents: seq<byte>) {
    predicate Valid() {
      |phdrs| < 0x1_0000 && 52 + |gap| < 0x1_0000_0000
    }

    function Bytes(): seq<byte>
      requires Valid()
    {
      EhdrBytes(ehdr, 52 + |gap|, |phdrs|) + gap + TableBytes(phdrs) + contents
    }
  }

  // ----- reading it back -----

  lemma ReadHalf(m: seq<byte>, a: nat, x: half)
    requires a + 2 <= |m| && m[a..a + 2] == LE2(x)
    ensures Half(m, a) == x
  {
    assert m[a..a + 2][0] == m[a] && m[a..a + 2][1] == m[a + 1];
  }

  lemma ReadWord(m: seq<byte>, a: nat, x: word)
    requires a + 4 <= |m| && m[a..a + 4] == LE4(x)
    ensures Word(m, a) == x
  {
    var bytes := m[a..a + 4];
    assert bytes[..2] == LE2(x % 0x1_0000) && bytes[2..] == LE2(x / 0x1_0000);
    assert m[a..a + 2] == bytes[..2] && m[a + 2..a + 4] == bytes[2..];
    ReadHalf(m, a, x % 0x1_0000);
    ReadHalf(m, a + 2, x / 0x1_0000);
  }

  /** Part of a part. */
  lemma Part(m: seq<byte>, a: nat, part: seq<byte>, i: nat, j: nat)
    requires a + |part| <= |m| && m[a..a + |part|] == part && i <= j <= |part|
    ensures m[a + i..a + j] == part[i..j]
  {
    SubSlice(m, a, a + |part|, a + i, a + j);
  }

  lemma EhdrFields(e: Ehdr, phoff: word, phnum: half)
    ensures var b := EhdrBytes(e, phoff, phnum);
            && b[..4] == [0x7F, 0x45, 0x4C, 0x46] && b[24..28] == LE4(e.entry)
            && b[28..32] == LE4(phoff) && b[44..46] == LE2(phnum)
  {
    hide LE2, LE4;
    var front := [0x7F, 0x45, 0x4C, 0x46] + e.ident + LE2(e.kind) + LE2(e.machine) + LE4(e.version);
    var middle := front + LE4(e.entry) + LE4(phoff) + LE4(e.shoff) + LE4(e.flags) + LE2(e.ehsize) + LE2(e.phentsize);
    var b := EhdrBytes(e, phoff, phnum);
    assert b == middle + LE2(phnum) + LE2(e.shentsize) + LE2(e.shnum) + LE2(e.shstrndx);
    assert |front| == 24 && |middle| == 44;
    assert middle[24..28] == LE4(e.entry) && middle[28..32] == LE4(phoff) && middle[..4] == [0x7F, 0x45, 0x4C, 0x46];
    assert b[..44] == middle;
    assert b[24..28] == b[..44][24..28] && b[28..32] == b[..44][28..32] && b[..4] == b[..44][..4];
  }

  lemma PhdrFields(p: Phdr)
    ensures var b := PhdrBytes(p);
            && b[0..4] == LE4(p.kind) && b[4..8] == LE4(p.offset) && b[12..16] == LE4(p.paddr)
            && b[16..20] == LE4(p.filesz) && b[20..24] == LE4(p.memsz)
  {
    hide LE4;
  }

  lemma {:induction false} TableRow(ps: seq<Phdr>, i: nat)
    requires i < |ps|
    ensures TableBytes(ps)[32 * i..32 * i + 32] == PhdrBytes(ps[i])
    decreases |ps|
  {
    hide PhdrBytes;
    var n := |ps| - 1;
    var front := TableBytes(ps[..n]);
    if i < n {
      TableRow(ps[..n], i);
      assert TableBytes(ps)[32 * i..32 * i + 32] == front[32 * i..32 * i + 32];
    }
  }

  /** Memory holds the file at an address. */
  predicate Holds(m: seq<byte>, file: nat, f: Elf) {
    f.Valid() && file + |f.Bytes()| <= |m| && m[file..file + |f.Bytes()|] == f.Bytes()
  }

  lemma FilePlaces(f: Elf, i: nat)
    requires f.Valid()
    ensures |f.Bytes()| == 52 + |f.gap| + 32 * |f.phdrs| + |f.contents|
    ensures f.Bytes()[0..52] == EhdrBytes(f.ehdr, 52 + |f.gap|, |f.phdrs|)
    ensures i < |f.phdrs| ==>
              52 + |f.gap| + 32 * i + 32 <= |f.Bytes()|
              && f.Bytes()[52 + |f.gap| + 32 * i..52 + |f.gap| + 32 * i + 32] == PhdrBytes(f.phdrs[i])
  {
    hide EhdrBytes, PhdrBytes, TableBytes;
    if i < |f.phdrs| {
      TableRow(f.phdrs, i);
      var front := EhdrBytes(f.ehdr, 52 + |f.gap|, |f.phdrs|) + f.gap;
      var table := TableBytes(f.phdrs);
      Part(front + table + f.contents, |front|, table, 32 * i, 32 * i + 32);
    }
  }

  lemma ReadEhdr(m: seq<byte>, file: nat, f: Elf)
    requires Holds(m, file, f)
    ensures f.Valid() && file + |f.Bytes()| <= |m|
    ensures file + 52 <= |m| && HasMagic(m, file) && EntryPoint(m, file) == f.ehdr.entry
    ensures HeaderCount(m, file) == |f.phdrs|
    ensures forall i: nat :: HeaderAt(m, file, i) == file + 52 + |f.gap| + 32 * i
  {
    hide LE2, LE4, EhdrBytes, TableBytes, Half, Word;
    FilePlaces(f, 0);
    var b := EhdrBytes(f.ehdr, 52 + |f.gap|, |f.phdrs|);
    EhdrFields(f.ehdr, 52 + |f.gap|, |f.phdrs|);
    Part(m, file, f.Bytes(), 0, 52);
    Part(m, file, b, 0, 4);
    MagicExactly(m, file);
    Part(m, file, b, 24, 28);
    Part(m, file, b, 28, 32);
    Part(m, file, b, 44, 46);
    ReadWord(m, file + 24, f.ehdr.entry);
    ReadWord(m, file + 28, 52 + |f.gap|);
    ReadHalf(m, file + 44, |f.phdrs|);
  }

  lemma ReadPhdr(m: seq<byte>, file: nat, f: Elf, i: nat)
    requires Holds(m, file, f) && i < |f.phdrs|
    ensures file + 52 <= |m| && HeaderAt(m, file, i) + 32 <= file + |f.Bytes()|
    ensures var p := f.phdrs[i];
            SegmentAt(m, HeaderAt(m, file, i)) == Segment(p.kind, p.offset, p.paddr, p.filesz, p.memsz)
  {
    hide LE4, PhdrBytes, Elf.Bytes, Word, HeaderAt, HeaderCount, HasMagic, EntryPoint;
    ReadEhdr(m, file, f);
    FilePlaces(f, i);
    var at, p := 52 + |f.gap| + 32 * i, f.phdrs[i];
    Part(m, file, f.Bytes(), at, at + 32);
    ReadPhdrAt(m, file + at, p);
  }

  lemma ReadPhdrAt(m: seq<byte>, a: nat, p: Phdr)
    requires a + 32 <= |m| && m[a..a + 32] == PhdrBytes(p)
    ensures SegmentAt(m, a) == Segment(p.kind, p.offset, p.paddr, p.filesz, p.memsz)
  {
    hide LE4, PhdrBytes, Word;
    PhdrFields(p);
    var b := PhdrBytes(p);
    Part(m, a, b, 0, 4);
    Part(m, a, b, 4, 8);
    Part(m, a, b, 12, 16);
    Part(m, a, b, 16, 20);
    Part(m, a, b, 20, 24);
    ReadWord(m, a, p.kind);
    ReadWord(m, a + 4, p.offset);
    ReadWord(m, a + 12, p.paddr);
    ReadWord(m, a + 16, p.filesz);
    ReadWord(m, a + 20, p.memsz);
  }

  // ----- loading it -----

  /** A record of a segment to load whose file bytes are in a file of the given length at file, and
      whose memory exists and lies away from the file. */
  predicate Placeable(p: Phdr, memory: nat, file: nat, length: nat) {
    p.kind == 1 ==>
      && p.filesz <= p.memsz < 0x8000_0000 && p.offset + p.filesz <= length && p.paddr + p.memsz <= memory
      && (p.paddr + p.memsz <= file || file + length <= p.paddr)
  }

  /** Record p puts something at address a. */
  predicate Fills(p: Phdr, a: nat) {
    p.kind == 1 && p.paddr <= a < p.paddr + p.memsz
  }

  lemma HeldIsLoadable(m: seq<byte>, file: nat, f: Elf)
    requires Holds(m, file, f) && forall p :: p in f.phdrs ==> Placeable(p, |m|, file, |f.Bytes()|)
    ensures Loadable(m, file, |f.Bytes()|)
  {
    hide Elf.Bytes, HeaderAt, HeaderCount, SegmentAt, HasMagic, EntryPoint;
    ReadEhdr(m, file, f);
    FilePlaces(f, 0);
    forall i | 0 <= i < HeaderCount(m, file)
      ensures HeaderAt(m, file, i) + 32 <= file + |f.Bytes()|
      ensures var p := f.phdrs[i];
              && SegmentAt(m, HeaderAt(m, file, i)) == Segment(p.kind, p.offset, p.paddr, p.filesz, p.memsz)
              && Placeable(p, |m|, file, |f.Bytes()|)
    {
      ReadPhdr(m, file, f, i);
      assert f.phdrs[i] in f.phdrs;
    }
  }

  /** Among the first n records, number i is the last that fills address a. */
  ghost predicate Decides(ps: seq<Phdr>, n: nat, i: nat, a: nat)
    requires n <= |ps|
  {
    i < n && Fills(ps[i], a) && forall j :: i < j < n ==> !Fills(ps[j], a)
  }

  /** x is what record p puts at address a: the byte of the file up to its file size, 0 behind it. */
  predicate Puts(bytes: seq<byte>, p: Phdr, a: nat, x: byte) {
    && p.paddr <= a
    && if a < p.paddr + p.filesz
       then p.offset + (a - p.paddr) < |bytes| && x == bytes[p.offset + (a - p.paddr)]
       else x == 0
  }

  lemma FileByte(m: seq<byte>, file: nat, bytes: seq<byte>, k: nat)
    requires file + |bytes| <= |m| && m[file..file + |bytes|] == bytes && k < |bytes|
    ensures m[file + k] == bytes[k]
  {
    assert m[file..file + |bytes|][k] == m[file + k];
  }

  /** x is at address a after the first n records, when was stood there before. */
  ghost predicate Decided(bytes: seq<byte>, ps: seq<Phdr>, n: nat, a: nat, was: byte, x: byte)
    requires n <= |ps|
  {
    && ((forall i :: 0 <= i < n ==> !Fills(ps[i], a)) ==> x == was)
    && forall i: nat :: Decides(ps, n, i, a) ==> i < n && Puts(bytes, ps[i], a, x)
  }

  lemma DecidedNext(bytes: seq<byte>, ps: seq<Phdr>, n: nat, a: nat, was: byte, x: byte, x': byte)
    requires 0 < n <= |ps| && Decided(bytes, ps, n - 1, a, was, x)
    requires if Fills(ps[n - 1], a) then Puts(bytes, ps[n - 1], a, x') else x' == x
    ensures Decided(bytes, ps, n, a, was, x')
  {
    hide Fills, Puts, Decides;
    forall i: nat | Decides(ps, n, i, a)
      ensures i < n && Puts(bytes, ps[i], a, x')
    {
      DecidesBefore(ps, n, i, a);
    }
  }

  lemma DecidesBefore(ps: seq<Phdr>, n: nat, i: nat, a: nat)
    requires 0 < n <= |ps| && Decides(ps, n, i, a)
    ensures i < n && if i == n - 1 then Fills(ps[i], a) else Decides(ps, n - 1, i, a) && !Fills(ps[n - 1], a)
  {
    hide Fills;
  }

  lemma NoneDecided(bytes: seq<byte>, ps: seq<Phdr>, a: nat, was: byte)
    ensures Decided(bytes, ps, 0, a, was, was)
  {
  }

  lemma {:induction false} LastFills(m: seq<byte>, file: nat, f: Elf, n: nat, a: nat)
    requires Holds(m, file, f) && (forall p :: p in f.phdrs ==> Placeable(p, |m|, file, |f.Bytes()|))
    requires Loadable(m, file, |f.Bytes()|) && file + 52 <= |m| && n <= |f.phdrs| == HeaderCount(m, file) && a < |m|
    ensures Decided(f.Bytes(), f.phdrs, n, a, m[a], LoadedByte(m, file, |f.Bytes()|, n, a))
    decreases n
  {
    hide Elf.Bytes, HeaderAt, HeaderCount, SegmentAt, Loadable, LoadedByte, Puts, Placeable, Fills, Decided;
    if n > 0 {
      LastFills(m, file, f, n - 1, a);
      assert f.phdrs[n - 1] in f.phdrs;
      OneRecord(m, file, f, n, a);
      var length := |f.Bytes()|;
      DecidedNext(f.Bytes(), f.phdrs, n, a, m[a], LoadedByte(m, file, length, n - 1, a),
                  LoadedByte(m, file, length, n, a));
    } else {
      NoRecord(m, file, |f.Bytes()|, a);
      NoneDecided(f.Bytes(), f.phdrs, a, m[a]);
    }
  }

  lemma NoRecord(m: seq<byte>, file: nat, length: nat, a: nat)
    requires Loadable(m, file, length) && a < |m|
    ensures LoadedByte(m, file, length, 0, a) == m[a]
  {
    hide Loadable;
  }

  lemma OneRecord(m: seq<byte>, file: nat, f: Elf, n: nat, a: nat)
    requires Holds(m, file, f) && file + 52 <= |m| && 0 < n <= |f.phdrs| == HeaderCount(m, file) && a < |m|
    requires Loadable(m, file, |f.Bytes()|) && Placeable(f.phdrs[n - 1], |m|, file, |f.Bytes()|)
    ensures var (p, x) := (f.phdrs[n - 1], LoadedByte(m, file, |f.Bytes()|, n, a));
            if Fills(p, a) then Puts(f.Bytes(), p, a, x) else x == LoadedByte(m, file, |f.Bytes()|, n - 1, a)
  {
    hide Elf.Bytes, HeaderAt, HeaderCount, SegmentAt, Loadable;
    LoadableBounds(m, file, |f.Bytes()|);
    ReadPhdr(m, file, f, n - 1);
    SegmentBounds(m, file, |f.Bytes()|, n - 1);
    var p := f.phdrs[n - 1];
    if Fills(p, a) && a - p.paddr < p.filesz {
      FileByte(m, file, f.Bytes(), p.offset + (a - p.paddr));
    }
  }

  /** The loader on any ELF file in memory, wherever its program header table stands: every byte
      that a record of type PT_LOAD (1) fills comes from the last such record, from the file up to
      its file size and 0 behind it; all other bytes are unchanged, and the entry point is that of the
      header. */
  lemma Loads(m: seq<byte>, file: nat, f: Elf)
    requires Holds(m, file, f) && forall p :: p in f.phdrs ==> Placeable(p, |m|, file, |f.Bytes()|)
    ensures file + 52 <= |m| && HasMagic(m, file) && LoadFrom(m, file, 0).Some?
    ensures var r := LoadFrom(m, file, 0).value;
            && EntryPoint(r, file) == f.ehdr.entry
            && (forall a :: 0 <= a < |m| && (forall p :: p in f.phdrs ==> !Fills(p, a)) ==> r[a] == m[a])
            && (forall i: nat, a: nat :: Decides(f.phdrs, |f.phdrs|, i, a) ==>
                  a < |m| && Puts(f.Bytes(), f.phdrs[i], a, r[a]))
  {
    hide Elf.Bytes, HeaderAt, HeaderCount, SegmentAt, Loadable, LoadFrom, LoadedByte, HasMagic, EntryPoint, Puts, Holds;
    ReadEhdr(m, file, f);
    HeldIsLoadable(m, file, f);
    LoadableFile(m, file, |f.Bytes()|);
    var r := LoadFrom(m, file, 0).value;
    forall a | 0 <= a < |m|
      ensures (forall p :: p in f.phdrs ==> !Fills(p, a)) ==> r[a] == m[a]
    {
      LastFills(m, file, f, |f.phdrs|, a);
      assert forall i :: 0 <= i < |f.phdrs| ==> f.phdrs[i] in f.phdrs;
    }
    forall i: nat, a: nat | Decides(f.phdrs, |f.phdrs|, i, a)
      ensures a < |m| && Puts(f.Bytes(), f.phdrs[i], a, r[a])
    {
      assert f.phdrs[i] in f.phdrs;
      LastFills(m, file, f, |f.phdrs|, a);
    }
  }

  /** Anything else in its first four bytes is no file to load. */
  lemma MagicExactly(m: seq<byte>, file: nat)
    requires file + 52 <= |m|
    ensures HasMagic(m, file) <==> m[file..file + 4] == [0x7F, 0x45, 0x4C, 0x46]
  {
    var b := m[file..file + 4];
    assert b[0] == m[file] && b[1] == m[file + 1] && b[2] == m[file + 2] && b[3] == m[file + 3];
    assert HasMagic(m, file) ==> b == [0x7F, 0x45, 0x4C, 0x46];
  }
}
