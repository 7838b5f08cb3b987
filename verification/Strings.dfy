/** The byte-level routines of string.c over a memory of bytes. */
module Strings {

  type byte = x: nat | x < 0x100

  // ----- moving -----

  /** memmove: for every overlap the destination ends up with what the source held, and
      nothing else changes. */
  method Memmove(mem: array<byte>, dest: nat, src: nat, n: nat)
    requires dest + n <= mem.Length && src + n <= mem.Length
    modifies mem
    ensures mem[..] == old(mem[..dest]) + old(mem[src..src + n]) + old(mem[dest + n..])
  {
    ghost var was := mem[..];
    if dest <= src {
      var d, s, left := dest, src, n;
      while left != 0
        invariant 0 <= left <= n && d == dest + (n - left) && s == src + (n - left)
        invariant forall k :: dest <= k < d ==> mem[k] == was[src + (k - dest)]
        invariant forall k :: 0 <= k < dest || d <= k < mem.Length ==> mem[k] == was[k]
      {
        mem[d] := mem[s];
        d, s, left := d + 1, s + 1, left - 1;
      }
    } else {
      var d, s, left := dest + n, src + n, n;
      while left != 0
        invariant 0 <= left <= n && d == dest + left && s == src + left
        invariant forall k :: d <= k < dest + n ==> mem[k] == was[src + (k - dest)]
        invariant forall k :: 0 <= k < d || dest + n <= k < mem.Length ==> mem[k] == was[k]
      {
        d, s, left := d - 1, s - 1, left - 1;
        mem[d] := mem[s];
      }
    }
    Spliced(was, mem[..], dest, src, n);
  }

  lemma Spliced(was: seq<byte>, now: seq<byte>, dest: nat, src: nat, n: nat)
    requires |now| == |was| && dest + n <= |was| && src + n <= |was|
    requires forall k :: dest <= k < dest + n ==> now[k] == was[src + (k - dest)]
    requires forall k :: 0 <= k < dest || dest + n <= k < |was| ==> now[k] == was[k]
    ensures now == was[..dest] + was[src..src + n] + was[dest + n..]
  {
  }

  // ----- comparing -----

  lemma SubSlice(m: seq<byte>, s: nat, e: nat, i: nat, j: nat)
    requires s <= i <= j <= e <= |m|
    ensures m[s..e][i - s..j - s] == m[i..j]
  {
    var x, y := m[s..e][i - s..j - s], m[i..j];
    assert |x| == |y| && forall t :: 0 <= t < |x| ==> x[t] == m[i + t] == y[t];
  }

  ghost predicate FirstDifference(a: seq<byte>, b: seq<byte>, k: nat, diff: int) {
    k < |a| == |b| && a[..k] == b[..k] && diff == a[k] as int - b[k] as int
  }

  ghost predicate Differ(a: seq<byte>, b: seq<byte>, diff: int) {
    exists k: nat :: FirstDifference(a, b, k, diff)
  }

  lemma FoundDifference(m: seq<byte>, s1: nat, s2: nat, n: nat, k: nat)
    requires s1 + n <= |m| && s2 + n <= |m| && k < n
    requires m[s1..s1 + k] == m[s2..s2 + k] && m[s1 + k] != m[s2 + k]
    ensures m[s1..s1 + n] != m[s2..s2 + n]
    ensures Differ(m[s1..s1 + n], m[s2..s2 + n], m[s1 + k] as int - m[s2 + k] as int)
  {
    var a, b := m[s1..s1 + n], m[s2..s2 + n];
    SubSlice(m, s1, s1 + n, s1, s1 + k);
    SubSlice(m, s2, s2 + n, s2, s2 + k);
    assert a[k] == m[s1 + k] && b[k] == m[s2 + k];
    assert FirstDifference(a, b, k, a[k] as int - b[k] as int);
  }

  lemma OneMoreEqual(m: seq<byte>, s1: nat, s2: nat, k: nat)
    requires s1 + k < |m| && s2 + k < |m| && m[s1..s1 + k] == m[s2..s2 + k] && m[s1 + k] == m[s2 + k]
    ensures m[s1..s1 + (k + 1)] == m[s2..s2 + (k + 1)]
  {
    assert m[s1..s1 + (k + 1)] == m[s1..s1 + k] + [m[s1 + k]];
    assert m[s2..s2 + (k + 1)] == m[s2..s2 + k] + [m[s2 + k]];
  }

  lemma SliceOfArray(mem: array<byte>, s: nat, n: nat)
    requires s + n <= mem.Length
    ensures mem[s..s + n] == mem[..][s..s + n]
  {
  }

  /** memcmp: zero exactly for equal blocks, otherwise the difference at the first place
      where they differ. */
  method Memcmp(mem: array<byte>, s1: nat, s2: nat, n: nat) returns (ret: int)
    requires s1 + n <= mem.Length && s2 + n <= mem.Length
    ensures ret == 0 <==> mem[s1..s1 + n] == mem[s2..s2 + n]
    ensures ret != 0 ==> Differ(mem[s1..s1 + n], mem[s2..s2 + n], ret)
  {
    hide Differ;
    ghost var m := mem[..];
    SliceOfArray(mem, s1, n);
    SliceOfArray(mem, s2, n);
    var k, left := 0, n;
    ret := 0;
    while left != 0
      invariant 0 <= left <= n && k == n - left && ret == 0
      invariant m[s1..s1 + k] == m[s2..s2 + k]
    {
      left := left - 1;
      ret := mem[s1 + k] as int - mem[s2 + k] as int;
      if ret != 0 {
        FoundDifference(m, s1, s2, n, k);
        return;
      }
      OneMoreEqual(m, s1, s2, k);
      k := k + 1;
    }
  }

  // ----- strings -----

  /** A NUL is found from p on. */
  ghost predicate Terminated(m: seq<byte>, p: nat) {
    exists e :: p <= e < |m| && m[e] == 0
  }

  ghost function Length(m: seq<byte>, p: nat): (n: nat)
    requires Terminated(m, p)
    ensures p + n < |m| && m[p + n] == 0 && forall i :: p <= i < p + n ==> m[i] != 0
    decreases |m| - p
  {
    if m[p] == 0 then 0 else 1 + Length(m, p + 1)
  }

  /** The characters of the string at p, without its NUL. */
  ghost function Text(m: seq<byte>, p: nat): seq<byte>
    requires Terminated(m, p)
  {
    m[p..p + Length(m, p)]
  }

  method Strlen(mem: array<byte>, buf: nat) returns (len: nat)
    requires Terminated(mem[..], buf)
    ensures len == Length(mem[..], buf)
  {
    len := 0;
    var p := buf;
    while mem[p] != 0
      invariant len <= Length(mem[..], buf) && p == buf + len
      decreases mem.Length - p
    {
      p := p + 1;
      len := len + 1;
    }
  }

  ghost predicate OccursAt(t: seq<byte>, u: seq<byte>, k: nat) {
    k + |u| <= |t| && t[k..k + |u|] == u
  }

  lemma OccurrenceTest(m: seq<byte>, s1: nat, n1: nat, s2: nat, n2: nat, p: nat)
    requires s1 <= p && p + n2 <= s1 + n1 <= |m| && s2 + n2 <= |m|
    ensures OccursAt(m[s1..s1 + n1], m[s2..s2 + n2], p - s1) <==> m[p..p + n2] == m[s2..s2 + n2]
  {
    SubSlice(m, s1, s1 + n1, p, p + n2);
  }

  /** The empty string occurs at 0, and nothing occurs where the rest is too short. */
  lemma Boundaries(t: seq<byte>, u: seq<byte>)
    ensures u == [] ==> OccursAt(t, u, 0)
    ensures forall k: nat :: k + |u| > |t| ==> !OccursAt(t, u, k)
  {
  }

  datatype Pointer = Null | To(address: nat)

  /** strstr: the first occurrence, and NULL exactly when there is none. */
  method Strstr(mem: array<byte>, s1: nat, s2: nat) returns (r: Pointer)
    requires Terminated(mem[..], s1) && Terminated(mem[..], s2)
    ensures var t, u := Text(mem[..], s1), Text(mem[..], s2);
            match r
            case Null => forall k: nat :: !OccursAt(t, u, k)
            case To(a) => s1 <= a && OccursAt(t, u, a - s1) && forall k: nat :: k < a - s1 ==> !OccursAt(t, u, k)
  {
    hide Terminated, Length, OccursAt;
    ghost var m := mem[..];
    ghost var t, u := Text(m, s1), Text(m, s2);
    Boundaries(t, u);
    var l2 := Strlen(mem, s2);
    if l2 == 0 {
      return To(s1);
    }
    var l1 := Strlen(mem, s1);
    ghost var n1 := l1;
    assert t == m[s1..s1 + n1] && u == m[s2..s2 + l2];
    hide Text;
    var p := s1;
    while l1 >= l2
      invariant s1 <= p && 0 <= l1 && p + l1 == s1 + n1
      invariant forall k: nat :: k < p - s1 ==> !OccursAt(t, u, k)
      decreases l1
    {
      l1 := l1 - 1;
      var c := Memcmp(mem, p, s2, l2);
      OccurrenceTest(m, s1, n1, s2, l2, p);
      if c == 0 {
        return To(p);
      }
      p := p + 1;
    }
    r := Null;
  }
}
