/** The loader that copies the segments of an ELF file to where they run. */
module ElfLoad {
  import opened Options
  import opened Strings
  import opened Words

  const PT_LOAD := 1
  const EHDR_SIZE := 52
  const PHDR_SIZE := 32

  function Half(m: seq<byte>, a: nat): nat
    requires a + 2 <= |m|
  {
    m[a] as nat + m[a + 1] as nat * 0x100
  }

  function Word(m: seq<byte>, a: nat): nat
    requires a + 4 <= |m|
  {
    m[a] as nat + m[a + 1] as nat * 0x100 + m[a + 2] as nat * 0x1_0000 + m[a + 3] as nat * 0x100_0000
  }

  predicate HasMagic(m: seq<byte>, file: nat)
    requires file + EHDR_SIZE <= |m|
  {
    m[file] == 0x7F && m[file + 1] == 'E' as nat && m[file + 2] == 'L' as nat && m[file + 3] == 'F' as nat
  }

  function EntryPoint(m: seq<byte>, file: nat): nat
    requires file + EHDR_SIZE <= |m|
  {
    Word(m, file + 24)
  }

  function HeaderCount(m: seq<byte>, file: nat): nat
    requires file + EHDR_SIZE <= |m|
  {
    Half(m, file + 44)
  }

  /** Address of program header i. */
  function HeaderAt(m: seq<byte>, file: nat, i: nat): nat
    requires file + EHDR_SIZE <= |m|
  {
    file + Word(m, file + 28) + PHDR_SIZE * i
  }

  datatype Segment = Segment(kind: nat, offset: nat, paddr: nat, filesz: nat, memsz: nat)

  function SegmentAt(m: seq<byte>, h: nat): Segment
    requires h + PHDR_SIZE <= |m|
  {
    Segment(Word(m, h), Word(m, h + 4), Word(m, h + 12), Word(m, h + 16), Word(m, h + 20))
  }

  predicate Covers(s: Segment, a: nat) {
    s.kind == PT_LOAD && s.paddr <= a < s.paddr + s.memsz
  }

  /** A file of the given length at address file that can be loaded: its headers and segment
      bytes lie inside it, and its segments fit in memory away from it. */
  ghost predicate Loadable(m: seq<byte>, file: nat, length: nat) {
    && EHDR_SIZE <= length && file + length <= |m|
    && forall i :: 0 <= i < HeaderCount(m, file) ==>
         && HeaderAt(m, file, i) + PHDR_SIZE <= file + length
         && var s := SegmentAt(m, HeaderAt(m, file, i));
            s.kind == PT_LOAD ==>
              && s.filesz <= s.memsz < 0x8000_0000 && s.offset + s.filesz <= length
              && s.paddr + s.memsz <= |m|
              && (s.paddr + s.memsz <= file || file + length <= s.paddr)
  }

  /** What one segment puts at an address it covers. */
  function SegmentByte(m: seq<byte>, file: nat, s: Segment, a: nat): byte
    requires Covers(s, a) && file + s.offset + s.filesz <= |m|
  {
    if a - s.paddr < s.filesz then m[file + s.offset + (a - s.paddr)] else 0
  }

  /** Memory at address a after the first n program headers: the last segment that covers the
      address decides. */
  ghost function LoadedByte(m: seq<byte>, file: nat, length: nat, n: nat, a: nat): byte
    requires Loadable(m, file, length) && n <= HeaderCount(m, file) && a < |m|
  {
    if n == 0 then m[a]
    else
      var s := SegmentAt(m, HeaderAt(m, file, n - 1));
      if Covers(s, a) then SegmentByte(m, file, s, a) else LoadedByte(m, file, length, n - 1, a)
  }

  /** The bytes of the file are the same in both memories. */
  ghost predicate SameFile(m: seq<byte>, m': seq<byte>, file: nat, length: nat) {
    |m| == |m'| && forall a :: file <= a < file + length <= |m| ==> m'[a] == m[a]
  }

  lemma SameHeaders(m: seq<byte>, m': seq<byte>, file: nat, length: nat, i: nat)
    requires Loadable(m, file, length) && SameFile(m, m', file, length)
    ensures HeaderCount(m', file) == HeaderCount(m, file) && HasMagic(m', file) == HasMagic(m, file)
    ensures EntryPoint(m', file) == EntryPoint(m, file)
    ensures HeaderAt(m', file, i) == HeaderAt(m, file, i)
    ensures i < HeaderCount(m, file) ==>
              SegmentAt(m', HeaderAt(m, file, i)) == SegmentAt(m, HeaderAt(m, file, i))
  {
  }

  /** Memory after n bytes were copied upwards, one at a time, from src to dest. */
  ghost function CopyUp(m: seq<byte>, src: nat, dest: nat, n: nat): (r: seq<byte>)
    requires src + n <= |m| && dest + n <= |m|
    ensures |r| == |m|
    ensures forall a :: 0 <= a < dest || dest + n <= a < |m| ==> r[a] == m[a]
  {
    if n == 0 then m
    else
      var before := CopyUp(m, src, dest, n - 1);
      before[dest + (n - 1) := before[src + (n - 1)]]
  }

  /** The copy is exact when the destination does not start inside the source; otherwise the first
      dest - src bytes are repeated. */
  lemma {:induction false} CopyUpBytes(m: seq<byte>, src: nat, dest: nat, n: nat, k: nat)
    requires src + n <= |m| && dest + n <= |m| && k < n
    ensures dest <= src || src + n <= dest ==> CopyUp(m, src, dest, n)[dest + k] == m[src + k]
    ensures src < dest < src + n ==> CopyUp(m, src, dest, n)[dest + k] == m[src + k % (dest - src)]
    decreases n, k
  {
    if src < dest < src + n {
      Repeated(m, src, dest, n, k);
    } else if k < n - 1 {
      CopyUpBytes(m, src, dest, n - 1, k);
    }
  }

  lemma {:induction false} Repeated(m: seq<byte>, src: nat, dest: nat, n: nat, k: nat)
    requires src + n <= |m| && dest + n <= |m| && k < n && src < dest
    ensures CopyUp(m, src, dest, n)[dest + k] == m[src + k % (dest - src)]
    decreases n, k
  {
    var d := dest - src;
    if k < n - 1 {
      Repeated(m, src, dest, n - 1, k);
    } else if k < d {
      BelowDivisor(k, d);
    } else {
      Repeated(m, src, dest, n - 1, k - d);
      OnePeriod(k, d);
    }
  }

  lemma OnePeriod(k: nat, d: nat)
    requires 0 < d <= k
    ensures k % d == (k - d) % d
  {
    DivMod(k - d, d);
    DivModUnique(k, d, (k - d) / d + 1, (k - d) % d);
  }

  /** Memory after a segment was copied and the rest of its memory cleared. */
  ghost function PutSegment(m: seq<byte>, src: nat, dest: nat, filesz: nat, memsz: nat): (r: seq<byte>)
    requires filesz <= memsz && src + filesz <= |m| && dest + memsz <= |m|
    ensures |r| == |m|
  {
    var copied := CopyUp(m, src, dest, filesz);
    seq(|m|, a requires 0 <= a < |m| => if dest + filesz <= a < dest + memsz then 0 else copied[a])
  }

  /** Copies the file bytes of a segment, then clears the rest of its memory. */
  method LoadSegment(mem: array<byte>, src: nat, dest: nat, filesz: nat, memsz: nat)
    requires filesz <= memsz < 0x8000_0000 && src + filesz <= mem.Length && dest + memsz <= mem.Length
    modifies mem
    ensures mem[..] == PutSegment(old(mem[..]), src, dest, filesz, memsz)
  {
    ghost var m := mem[..];
    var s, d, j := src, dest, 0;
    while j < filesz
      invariant 0 <= j <= filesz && s == src + j && d == dest + j
      invariant mem[..] == CopyUp(m, src, dest, j)
    {
      mem[d] := mem[s];
      s, d, j := s + 1, d + 1, j + 1;
    }
    ghost var copied := mem[..];
    d, j := dest + filesz, 0;
    while j < memsz - filesz
      invariant 0 <= j <= memsz - filesz && d == dest + filesz + j
      invariant forall a :: 0 <= a < mem.Length ==> mem[a] == if dest + filesz <= a < d then 0 else copied[a]
    {
      mem[d] := 0;
      d, j := d + 1, j + 1;
    }
  }

  /** A loadable segment whose bytes and memory exist. */
  predicate InMemory(m: seq<byte>, file: nat, s: Segment) {
    && s.filesz <= s.memsz < 0x8000_0000 && file + s.offset + s.filesz <= |m| && s.paddr + s.memsz <= |m|
  }

  /** Memory after the program headers from number i on were served, each read from memory as the
      segments before it left it; None when one of them leads outside memory. */
  ghost function LoadFrom(m: seq<byte>, file: nat, i: nat): (r: Option<seq<byte>>)
    requires file + EHDR_SIZE <= |m|
    ensures r.Some? ==> |r.value| == |m|
    decreases 0x1_0000 - i
  {
    if i >= HeaderCount(m, file) then Some(m)
    else if HeaderAt(m, file, i) + PHDR_SIZE > |m| then None
    else
      var s := SegmentAt(m, HeaderAt(m, file, i));
      if s.kind != PT_LOAD then LoadFrom(m, file, i + 1)
      else if !InMemory(m, file, s) then None
      else LoadFrom(PutSegment(m, file + s.offset, s.paddr, s.filesz, s.memsz), file, i + 1)
  }

  /** reload_elf_file: without the magic number nothing happens and 0 is returned; otherwise
      every loadable segment is put in place and the entry point is returned. The headers and
      the entry point are read from memory as it is when they are needed. */
  method ReloadElfFile(mem: array<byte>, file: nat) returns (entry: nat)
    requires file + EHDR_SIZE <= mem.Length
    requires HasMagic(mem[..], file) ==> LoadFrom(mem[..], file, 0).Some?
    modifies mem
    ensures !old(HasMagic(mem[..], file)) ==> entry == 0 && mem[..] == old(mem[..])
    ensures old(HasMagic(mem[..], file)) ==> Some(mem[..]) == LoadFrom(old(mem[..]), file, 0)
    ensures old(HasMagic(mem[..], file)) ==> entry == EntryPoint(mem[..], file)
  {
    hide Half, Word, SegmentAt, PutSegment;
    ghost var m := mem[..];
    if !HasMagic(mem[..], file) {
      return 0;
    }
    var i := 0;
    while i < HeaderCount(mem[..], file)
      invariant 0 <= i && LoadFrom(mem[..], file, i) == LoadFrom(m, file, 0)
      invariant LoadFrom(mem[..], file, i).Some?
      decreases 0x1_0000 - i
    {
      CountBound(mem[..], file);
      var s := SegmentAt(mem[..], HeaderAt(mem[..], file, i));
      i := i + 1;
      if s.kind != PT_LOAD {
        continue;
      }
      LoadSegment(mem, file + s.offset, s.paddr, s.filesz, s.memsz);
    }
    entry := EntryPoint(mem[..], file);
  }

  lemma CountBound(m: seq<byte>, file: nat)
    requires file + EHDR_SIZE <= |m|
    ensures HeaderCount(m, file) < 0x1_0000
  {
  }

  lemma LoadableBounds(m: seq<byte>, file: nat, length: nat)
    requires Loadable(m, file, length)
    ensures EHDR_SIZE <= length && file + length <= |m|
  {
  }

  lemma SegmentBounds(m: seq<byte>, file: nat, length: nat, i: nat)
    requires Loadable(m, file, length) && i < HeaderCount(m, file)
    ensures HeaderAt(m, file, i) + PHDR_SIZE <= file + length <= |m|
    ensures var s := SegmentAt(m, HeaderAt(m, file, i));
            s.kind == PT_LOAD ==>
              && s.filesz <= s.memsz < 0x8000_0000 && s.offset + s.filesz <= length
              && s.paddr + s.memsz <= |m|
              && (s.paddr + s.memsz <= file || file + length <= s.paddr)
  {
  }

  /** Memory m' has what the first n program headers of m put there. */
  ghost predicate LoadedSoFar(m: seq<byte>, m': seq<byte>, file: nat, length: nat, n: nat)
    requires Loadable(m, file, length) && n <= HeaderCount(m, file)
  {
    |m'| == |m| && forall a :: 0 <= a < |m| ==> m'[a] == LoadedByte(m, file, length, n, a)
  }

  /** A loadable file, whose segments lie away from it, is loaded, each address holds what the last
      segment covering it puts there, and the entry point is that of the file. */
  lemma LoadableFile(m: seq<byte>, file: nat, length: nat)
    requires Loadable(m, file, length)
    ensures EHDR_SIZE <= length && file + length <= |m|
    ensures LoadFrom(m, file, 0).Some?
    ensures LoadedSoFar(m, LoadFrom(m, file, 0).value, file, length, HeaderCount(m, file))
    ensures EntryPoint(LoadFrom(m, file, 0).value, file) == EntryPoint(m, file)
  {
    hide Half, Word, Loadable, SegmentAt, LoadFrom;
    LoadableBounds(m, file, length);
    LoadableFrom(m, m, file, length, 0);
  }

  lemma {:induction false} LoadableFrom(m: seq<byte>, now: seq<byte>, file: nat, length: nat, i: nat)
    requires Loadable(m, file, length) && i <= HeaderCount(m, file) && LoadedSoFar(m, now, file, length, i)
    ensures EHDR_SIZE <= length && file + length <= |m|
    ensures LoadFrom(now, file, i).Some?
    ensures LoadedSoFar(m, LoadFrom(now, file, i).value, file, length, HeaderCount(m, file))
    ensures EntryPoint(LoadFrom(now, file, i).value, file) == EntryPoint(m, file)
    decreases HeaderCount(m, file) - i
  {
    hide Half, Word, Loadable, SegmentAt, SegmentByte, PutSegment;
    LoadableBounds(m, file, length);
    FileStillThere(m, now, file, length, i);
    SameHeaders(m, now, file, length, i);
    if i < HeaderCount(m, file) {
      SegmentBounds(m, file, length, i);
      var s := SegmentAt(m, HeaderAt(m, file, i));
      if s.kind == PT_LOAD {
        SegmentPut(m, now, file, length, i);
        LoadableFrom(m, PutSegment(now, file + s.offset, s.paddr, s.filesz, s.memsz), file, length, i + 1);
      } else {
        LoadableFrom(m, now, file, length, i + 1);
      }
    }
  }

  lemma FileStillThere(m: seq<byte>, now: seq<byte>, file: nat, length: nat, n: nat)
    requires Loadable(m, file, length) && n <= HeaderCount(m, file) && LoadedSoFar(m, now, file, length, n)
    ensures SameFile(m, now, file, length)
  {
    hide LoadedByte, Loadable;
    LoadableBounds(m, file, length);
    forall a | file <= a < file + length <= |m|
      ensures now[a] == m[a]
    {
      FileUntouched(m, file, length, n, a);
    }
  }

  lemma SegmentPut(m: seq<byte>, now: seq<byte>, file: nat, length: nat, i: nat)
    requires Loadable(m, file, length) && i < HeaderCount(m, file)
    requires LoadedSoFar(m, now, file, length, i) && SameFile(m, now, file, length)
    requires SegmentAt(m, HeaderAt(m, file, i)).kind == PT_LOAD
    ensures var s := SegmentAt(m, HeaderAt(m, file, i));
            && InMemory(now, file, s)
            && LoadedSoFar(m, PutSegment(now, file + s.offset, s.paddr, s.filesz, s.memsz), file, length, i + 1)
  {
    hide Half, Word, Loadable, SegmentAt, CopyUp;
    LoadableBounds(m, file, length);
    SegmentBounds(m, file, length, i);
    var s := SegmentAt(m, HeaderAt(m, file, i));
    var src, now' := file + s.offset, PutSegment(now, file + s.offset, s.paddr, s.filesz, s.memsz);
    forall a | 0 <= a < |m|
      ensures now'[a] == LoadedByte(m, file, length, i + 1, a)
    {
      if s.paddr <= a < s.paddr + s.filesz {
        CopyUpBytes(now, src, s.paddr, s.filesz, a - s.paddr);
      }
    }
  }

  /** When no two loadable segments share an address, every one of them ends up in place
      whatever their order, and addresses outside all of them are unchanged. */
  lemma {:induction false} DisjointSegmentsLoaded(m: seq<byte>, file: nat, length: nat, n: nat, a: nat)
    requires Loadable(m, file, length) && n <= HeaderCount(m, file) && a < |m|
    requires forall i, j :: 0 <= i < j < n ==>
               !(Covers(SegmentAt(m, HeaderAt(m, file, i)), a) && Covers(SegmentAt(m, HeaderAt(m, file, j)), a))
    ensures forall i :: 0 <= i < n && Covers(SegmentAt(m, HeaderAt(m, file, i)), a) ==>
              LoadedByte(m, file, length, n, a) == SegmentByte(m, file, SegmentAt(m, HeaderAt(m, file, i)), a)
    ensures (forall i :: 0 <= i < n ==> !Covers(SegmentAt(m, HeaderAt(m, file, i)), a)) ==>
              LoadedByte(m, file, length, n, a) == m[a]
    decreases n
  {
    hide Word, Half;
    if n > 0 {
      DisjointSegmentsLoaded(m, file, length, n - 1, a);
    }
  }

  /** Loading leaves the file itself alone. */
  lemma {:induction false} FileUntouched(m: seq<byte>, file: nat, length: nat, n: nat, a: nat)
    requires Loadable(m, file, length) && n <= HeaderCount(m, file) && file <= a < file + length
    ensures LoadedByte(m, file, length, n, a) == m[a]
    decreases n
  {
    hide Word, Half, SegmentAt;
    if n > 0 {
      SegmentBounds(m, file, length, n - 1);
      FileUntouched(m, file, length, n - 1, a);
    }
  }
}
