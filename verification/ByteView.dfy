/** The bytes of word-addressed memory, and memset over them. */
module ByteView {
  import opened Words
  import opened PageList

  function Weight(k: nat): nat
    requires k < 4
  {
    if k == 0 then 0x1 else if k == 1 then 0x100 else if k == 2 then 0x1_0000 else 0x100_0000
  }

  /** Byte k of a little-endian word. */
  function GetByte(w: word, k: nat): nat
    requires k < 4
  {
    (w / Weight(k)) % 0x100
  }

  function PutByte(w: word, k: nat, v: nat): (r: word)
    requires k < 4 && v < 0x100
    ensures GetByte(r, k) == v
    ensures forall j: nat :: j < 4 && j != k ==> GetByte(r, j) == GetByte(w, j)
  {
    PutByteInRange(w, k, v);
    w - GetByte(w, k) * Weight(k) + v * Weight(k)
  }

  lemma PutByteInRange(w: word, k: nat, v: nat)
    requires k < 4 && v < 0x100
    ensures var r := w - GetByte(w, k) * Weight(k) + v * Weight(k);
            && 0 <= r < 0x1_0000_0000
            && GetByte(r, k) == v
            && forall j: nat :: j < 4 && j != k ==> GetByte(r, j) == GetByte(w, j)
  {
    hide GetByte;
    var b0, b1, b2, b3 := GetByte(w, 0), GetByte(w, 1), GetByte(w, 2), GetByte(w, 3);
    Disassembled(w);
    Assembled(b0, b1, b2, b3);
    if k == 0 { Assembled(v, b1, b2, b3); }
    if k == 1 { Assembled(b0, v, b2, b3); }
    if k == 2 { Assembled(b0, b1, v, b3); }
    if k == 3 { Assembled(b0, b1, b2, v); }
  }

  lemma Assembled(b0: nat, b1: nat, b2: nat, b3: nat)
    requires b0 < 0x100 && b1 < 0x100 && b2 < 0x100 && b3 < 0x100
    ensures var w := b0 + b1 * 0x100 + b2 * 0x1_0000 + b3 * 0x100_0000;
            && w < 0x1_0000_0000 && GetByte(w, 0) == b0 && GetByte(w, 1) == b1
            && GetByte(w, 2) == b2 && GetByte(w, 3) == b3
  {
    var w := b0 + b1 * 0x100 + b2 * 0x1_0000 + b3 * 0x100_0000;
    Digit(b0, b1 + b2 * 0x100 + b3 * 0x1_0000);
    Digit(b1, b2 + b3 * 0x100);
    Digit(b2, b3);
    assert w / 0x1_0000 == b2 + b3 * 0x100 && w / 0x100_0000 == b3;
  }

  lemma Disassembled(w: word)
    ensures w == GetByte(w, 0) + GetByte(w, 1) * 0x100 + GetByte(w, 2) * 0x1_0000 + GetByte(w, 3) * 0x100_0000
    ensures forall k: nat :: k < 4 ==> GetByte(w, k) < 0x100
  {
    assert w / 0x1_0000 == w / 0x100 / 0x100 && w / 0x100_0000 == w / 0x1_0000 / 0x100;
  }

  lemma Digit(b: nat, rest: nat)
    requires b < 0x100
    ensures (b + rest * 0x100) / 0x100 == rest && (b + rest * 0x100) % 0x100 == b
  {
  }

  function LoadByte(m: Mem, a: nat): nat {
    GetByte(Load(m, a - a % 4), a % 4)
  }

  function StoreByte(m: Mem, a: nat, v: nat): Mem
    requires v < 0x100
  {
    m[a - a % 4 := PutByte(Load(m, a - a % 4), a % 4, v)]
  }

  /** memset: n bytes from s on, in ascending order, with addresses that wrap around. */
  function FillBytes(m: Mem, s: word, v: nat, n: nat): Mem
    requires v < 0x100
  {
    if n == 0 then m else StoreByte(FillBytes(m, s, v, n - 1), Wrap(s + (n - 1)), v)
  }

  lemma StoreByteEffect(m: Mem, a: nat, v: nat)
    requires v < 0x100
    ensures LoadByte(StoreByte(m, a, v), a) == v
    ensures forall b: nat :: b != a ==> LoadByte(StoreByte(m, a, v), b) == LoadByte(m, b)
    ensures forall b: nat :: b != a - a % 4 ==> Load(StoreByte(m, a, v), b) == Load(m, b)
  {
  }

  /** Address a is one of the n bytes from s on, counted with wrap-around. */
  predicate Covers(s: word, n: nat, a: nat) {
    a < WORD_MOD && Wrap(a - s) < n
  }

  lemma CoversOneMore(s: word, n: nat)
    requires n < WORD_MOD
    ensures forall a: nat :: Covers(s, n + 1, a) <==> Covers(s, n, a) || a == Wrap(s + n)
  {
    forall a: nat
      ensures Covers(s, n + 1, a) <==> Covers(s, n, a) || a == Wrap(s + n)
    {
      OffsetOf(s, n, a);
    }
  }

  lemma OffsetOf(s: word, n: nat, a: nat)
    requires n < WORD_MOD
    ensures a < WORD_MOD ==> (Wrap(a - s) == n <==> a == Wrap(s + n))
  {
  }

  /** The word of a covered byte starts at a covered byte when s is itself a word address. */
  lemma CoversWord(s: word, n: nat)
    requires s % 4 == 0 && n < WORD_MOD
    ensures var a := Wrap(s + n); Covers(s, n + 1, a - a % 4)
  {
  }

  lemma CoversRange(s: word, n: nat)
    requires s + n <= WORD_MOD
    ensures forall a: nat :: Covers(s, n, a) <==> s <= a < s + n
  {
  }

  /** memset sets exactly its bytes, and touches no word outside its range. */
  lemma {:induction false} FillBytesEffect(m: Mem, s: word, v: nat, n: nat)
    requires v < 0x100 && s % 4 == 0 && n <= WORD_MOD
    ensures forall a: nat :: LoadByte(FillBytes(m, s, v, n), a) == if Covers(s, n, a) then v else LoadByte(m, a)
    ensures forall a: nat :: !Covers(s, n, a) ==> Load(FillBytes(m, s, v, n), a) == Load(m, a)
  {
    hide LoadByte, StoreByte, Covers, Wrap;
    if n > 0 {
      FillBytesEffect(m, s, v, n - 1);
      CoversOneMore(s, n - 1);
      CoversWord(s, n - 1);
      StoreByteEffect(FillBytes(m, s, v, n - 1), Wrap(s + (n - 1)), v);
    } else {
      NothingCovered(s);
    }
  }

  lemma NothingCovered(s: word)
    ensures forall a: nat :: !Covers(s, 0, a)
  {
  }
}
