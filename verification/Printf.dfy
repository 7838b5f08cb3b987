/** vsnprintf and its helpers in the form of the source, proved against Format. */
module Printf {
  import opened Options
  import opened Words
  import opened Format

  type int32 = x: int | -0x8000_0000 <= x < 0x8000_0000

  const MAX_INT := 0x7FFF_FFFF

  function Reverse(s: string): (r: string)
    ensures |r| == |s| && forall i :: 0 <= i < |s| ==> r[i] == s[|s| - 1 - i]
  {
    seq(|s|, i requires 0 <= i < |s| => s[|s| - 1 - i])
  }

  /** Swaps the first n characters end for end, in place. */
  method ReversePrefix(a: array<char>, n: nat)
    requires n <= a.Length
    modifies a
    ensures a[..n] == Reverse(old(a[..n])) && a[n..] == old(a[n..])
  {
    var i := 0;
    while i < n / 2
      invariant 0 <= i <= n / 2
      invariant forall k :: 0 <= k < i ==> a[k] == old(a[n - 1 - k]) && a[n - 1 - k] == old(a[k])
      invariant forall k :: i <= k < n - i ==> a[k] == old(a[k])
      invariant forall k :: n <= k < a.Length ==> a[k] == old(a[k])
    {
      var tmp := a[i];
      a[i] := a[n - 1 - i];
      a[n - 1 - i] := tmp;
      i := i + 1;
    }
  }

  lemma RepeatMore(c: char, n: nat)
    ensures Repeat(c, n) + [c] == Repeat(c, n + 1)
  {
  }

  /** The digits as they are produced, least significant first. */
  function LeastFirst(n: nat, base: nat): string
    requires 2 <= base <= 16
  {
    Reverse(Digits(n, base))
  }

  /** Turned round, digits with their suffix are the suffix turned round and the number. */
  lemma Turned(n: nat, base: nat, suffix: string)
    requires 2 <= base <= 16
    ensures Reverse(LeastFirst(n, base) + suffix) == Reverse(suffix) + Digits(n, base)
    ensures Reverse(LeastFirst(n, base) + "") == Digits(n, base)
  {
    hide Digits;
  }

  lemma TurnedInt(n: int, m: nat, written: string)
    requires m == if n < 0 then -n else n
    requires written == if n == 0 then "0" else if n < 0 then LeastFirst(m, 10) + "-" else LeastFirst(m, 10)
    ensures Reverse(written) == IntText(n)
  {
    hide Digits, LeastFirst;
    Turned(m, 10, "-");
    assert LeastFirst(m, 10) + "" == LeastFirst(m, 10);
    assert Reverse("-") == "-" && Reverse("0") == "0";
  }

  lemma NextDigit(n: nat, base: nat)
    requires 2 <= base <= 16 && n > 0
    ensures LeastFirst(n, base) == [Digit(n % base)] + LeastFirst(n / base, base)
    ensures n / base < n
  {
    QuotientSmaller(n, base);
  }

  lemma DigitsAreText(n: nat, base: nat)
    requires 2 <= base <= 16
    ensures IsText(Digits(n, base)) && (n > 0 ==> Digits(n, base) != "")
    decreases n
  {
    if n > 0 {
      QuotientSmaller(n, base);
      DigitsAreText(n / base, base);
      DigitRoundTrip(n % base);
    }
  }

  lemma IntParts(n: int)
    ensures IntText(n) == if n == 0 then "0" else if n < 0 then "-" + Digits(-n, 10) else Digits(n, 10)
  {
  }

  lemma LeastFirstFacts(n: nat, base: nat)
    requires 2 <= base <= 16
    ensures |LeastFirst(n, base)| == |Digits(n, base)| && (n == 0 <==> LeastFirst(n, base) == "")
  {
    hide Digits;
    DigitsAreText(n, base);
    NoDigits(base);
  }

  lemma OneMoved(done: string, d: char, rest: string)
    ensures done + ([d] + rest) == done + [d] + rest
  {
  }

  /** Writes the digits of n into the buffer, least significant first. */
  method WriteDigits(buf: array<char>, n: nat, base: nat) returns (p: nat)
    requires 2 <= base <= 16 && |Digits(n, base)| <= buf.Length
    modifies buf
    ensures p == |Digits(n, base)| <= buf.Length && buf[..p] == LeastFirst(n, base)
    ensures (p == 0 <==> n == 0)
  {
    hide Digits, LeastFirst, Digit;
    LeastFirstFacts(n, base);
    var m: nat := n;
    p := 0;
    while m != 0
      invariant p + |LeastFirst(m, base)| == |Digits(n, base)| <= buf.Length
      invariant buf[..p] + LeastFirst(m, base) == LeastFirst(n, base)
      decreases m
    {
      NextDigit(m, base);
      ghost var done := buf[..p];
      buf[p] := Digit(m % base);
      assert buf[..p + 1] == done + [Digit(m % base)];
      OneMoved(done, Digit(m % base), LeastFirst(m / base, base));
      m := m / base;
      p := p + 1;
    }
    LeastFirstFacts(0, base);
  }

  /** The text of an integer in a local buffer. */
  method WriteInt(buf: array<char>, n: int32, base: nat) returns (p: nat)
    requires base == 10 && Fits(n) && buf.Length == 14
    modifies buf
    ensures p <= buf.Length && buf[..p] == IntText(n) && IsText(buf[..p])
  {
    hide Digits, IntText, LeastFirst;
    var m: nat := if n < 0 then -n else n;
    WordDigits(m);
    DigitsAreText(m, 10);
    IntParts(n);
    p := WriteDigits(buf, m, base);
    if n < 0 {
      buf[p] := '-';
      p := p + 1;
      assert buf[..p] == LeastFirst(m, 10) + "-";
    }
    if p == 0 {
      buf[p] := '0';
      p := p + 1;
      assert buf[..p] == "0";
    }
    TurnedInt(n, m, buf[..p]);
    ReversePrefix(buf, p);
    buf[p] := NUL;
  }

  /** The text of an unsigned number in a local buffer, with its 0x if that counts as text. */
  method WriteUnsigned(buf: array<char>, n: word, base: nat, prefix: bool) returns (p: nat)
    requires (base == 10 || base == 16) && buf.Length == 15 && (prefix ==> base == 16)
    modifies buf
    ensures p <= buf.Length && IsText(buf[..p]) && buf[..p] == UnsignedBody(n, base, prefix)
  {
    hide Digits, LeastFirst, UnsignedBody;
    WordDigits(n);
    p := WriteDigits(buf, n, base);
    if p == 0 {
      buf[p] := '0';
      p := p + 1;
      assert buf[..p] == "0";
    } else if prefix {
      buf[p] := 'x';
      buf[p + 1] := '0';
      p := p + 2;
      assert buf[..p] == LeastFirst(n, base) + "x0";
    }
    TurnedUnsigned(n, base, prefix, buf[..p]);
    ReversePrefix(buf, p);
    buf[p] := NUL;
  }

  /** The text of an unsigned number before padding. */
  function UnsignedBody(n: nat, base: nat, prefix: bool): string
    requires base == 10 || base == 16
  {
    if n == 0 then "0" else if prefix then "0x" + Digits(n, 16) else Digits(n, base)
  }

  lemma TurnedUnsigned(n: nat, base: nat, prefix: bool, written: string)
    requires (base == 10 || base == 16) && (prefix ==> base == 16)
    requires written ==
             if n == 0 then "0" else if prefix then LeastFirst(n, base) + "x0" else LeastFirst(n, base)
    ensures Reverse(written) == UnsignedBody(n, base, prefix) && IsText(Reverse(written))
  {
    hide Digits, LeastFirst;
    DigitsAreText(n, base);
    Turned(n, base, "x0");
    assert LeastFirst(n, base) + "" == LeastFirst(n, base);
    assert Reverse("x0") == "0x" && Reverse("0") == "0";
  }

  lemma NoDigits(base: nat)
    requires 2 <= base <= 16
    ensures Digits(0, base) == ""
  {
  }

  /** How many of n characters the buffer keeps. A size below 1 makes a counter that never reaches 0,
      so that all of them are kept. */
  function Kept(size: int, n: nat): nat {
    if 1 <= size <= n then size - 1 else n
  }

  /** Output of n characters stays inside the buffer, its NUL included, and no counter overflows. */
  predicate Room(size: int, length: nat, n: nat) {
    && n <= MAX_INT && Kept(size, n) < length
    && -0x8000_0000 <= size - 1 - Kept(size, n)
  }

  /** The same in full: with a size of 1 or more there is room if and only if the buffer has that size
      or the output with its NUL fits, and min(n, size - 1) characters are kept; with a size below 1
      all of the output has to fit, and the counter must not pass the least int. */
  lemma RoomExactly(size: int32, length: nat, n: nat)
    ensures size >= 1 ==> (Room(size, length, n) <==> n <= 0x7FFF_FFFF && (size <= length || n + 1 <= length))
    ensures size < 1 ==> (Room(size, length, n) <==> n < length && n - size <= 0x7FFF_FFFF)
    ensures size >= 1 ==> Kept(size, n) == if n <= size - 1 then n else size - 1
    ensures size < 1 ==> Kept(size, n) == n
  {
  }

  /** The output stream: everything added so far, of which the buffer keeps what fits. */
  class PStream {
    const buffer: array<char>
    const size: int32
    var next: nat
    var remain: int32
    var added: int32
    ghost var text: string
    ghost const start: string

    ghost predicate Valid()
      reads this, buffer
    {
      && |start| == buffer.Length && Room(size, buffer.Length, |text|)
      && added == |text| && remain == size - 1 - next
      && next == Kept(size, |text|)
      && buffer[..next] == text[..next] && buffer[next..] == start[next..]
    }

    constructor (buf: array<char>, n: int32)
      requires Room(n, buf.Length, 0)
      ensures Valid() && buffer == buf && size == n && text == "" && start == buf[..]
    {
      buffer, size := buf, n;
      next, remain, added := 0, n - 1, 0;
      text, start := "", buf[..];
    }

    method AddChar(c: char)
      requires Valid() && Room(size, buffer.Length, |text| + 1)
      modifies this, buffer
      ensures Valid() && text == old(text) + [c]
    {
      if remain != 0 {
        buffer[next] := c;
        next := next + 1;
        remain := remain - 1;
      }
      added := added + 1;
      text := text + [c];
    }

    /** The loop of print_str over the text itself. */
    method AddAll(s: string)
      requires Valid() && IsText(s) && Room(size, buffer.Length, |text| + |s|)
      modifies this, buffer
      ensures Valid() && text == old(text) + s
    {
      hide Valid;
      var i := 0;
      while At(s, i) != NUL
        invariant Valid() && i <= |s| && text == old(text) + s[..i]
        decreases |s| - i
      {
        AddChar(s[i]);
        i := i + 1;
      }
      assert s[..i] == s;
    }

    /** Here |s| stands for a call of strlen, whose loop is Strings.Strlen. */
    method PrintStr(s: string, props: Props)
      requires Valid() && IsText(s) && Fits(props.npad)
      requires Room(size, buffer.Length, |text| + |Padded(s, props)|)
      modifies this, buffer
      ensures Valid() && text == old(text) + Padded(s, props)
    {
      hide Repeat, Valid;
      var npad: int32 := props.npad;
      ghost var was := text;
      PaddedLength(s, props);
      if npad > 0 {
        npad := npad - |s|;
        npad := PadLeft(npad, props.pad);
      }
      AddAll(s);
      if npad < 0 {
        npad := npad + |s|;
        PadRight(npad);
      }
    }

    method PrintInt(n: int32, base: int32, props: Props)
      requires Valid() && base == 10 && Fits(n) && Fits(props.npad)
      requires Room(size, buffer.Length, |text| + |Padded(IntText(n), props)|)
      modifies this, buffer
      ensures Valid() && text == old(text) + Padded(IntText(n), props)
    {
      hide Digits, Padded, IntText, Valid;
      var buf := new char[14];
      var p := WriteInt(buf, n, base);
      PrintStr(buf[..p], props);
    }

    method PrintUnsigned(n: word, base: int32, props: Props)
      requires Valid() && (base == 10 || base == 16) && Fits(props.npad)
      requires Room(size, buffer.Length, |text| + |UnsignedText(n, base, props)|)
      modifies this, buffer
      ensures Valid() && text == old(text) + UnsignedText(n, base, props)
    {
      hide Padded, Valid, Digits;
      var props' := props;
      if n != 0 && props.alternate && base == 16 && props.pad == '0' {
        AddChar('0');
        AddChar('x');
        if props.npad > 0 {
          props' := props.(npad := if props.npad - 2 > 0 then props.npad - 2 else 0);
        }
      }
      var buf := new char[15];
      var p := WriteUnsigned(buf, n, base, props.alternate && base == 16 && props.pad != '0');
      PrintStr(buf[..p], props');
    }

    /** Writes the closing NUL behind what the buffer keeps. */
    method Finish() returns (length: int32)
      requires Valid()
      modifies buffer
      ensures length == |text|
      ensures var kept := Kept(size, |text|);
              && kept < buffer.Length == |start|
              && buffer[..kept] == text[..kept] && buffer[kept] == NUL && buffer[kept + 1..] == start[kept + 1..]
    {
      buffer[next] := NUL;
      length := added;
    }

    method PadLeft(n: int32, c: char) returns (npad: int32)
      requires Valid() && Room(size, buffer.Length, if n > 0 then |text| + n else |text|)
      modifies this, buffer
      ensures Valid() && npad == if n > 0 then 0 else n
      ensures text == old(text) + if n > 0 then Repeat(c, n) else ""
    {
      hide Repeat, Valid;
      npad := n;
      while npad > 0
        invariant Valid() && (n > 0 ==> 0 <= npad) && npad <= n && (n <= 0 ==> npad == n)
        invariant text == old(text) + Repeat(c, n - npad)
      {
        RepeatMore(c, n - npad);
        AddChar(c);
        npad := npad - 1;
      }
    }

    method PadRight(n: int32)
      requires Valid() && Room(size, buffer.Length, if n < 0 then |text| - n else |text|)
      modifies this, buffer
      ensures Valid() && text == old(text) + if n < 0 then Repeat(' ', -n) else ""
    {
      hide Repeat, Valid;
      var npad := n;
      while npad < 0
        invariant Valid() && (n < 0 ==> npad <= 0) && n <= npad && (n >= 0 ==> npad == n)
        invariant text == old(text) + Repeat(' ', npad - n)
      {
        RepeatMore(' ', npad - n);
        AddChar(' ');
        npad := npad + 1;
      }
    }
  }

  lemma PaddedLength(s: string, props: Props)
    ensures |Padded(s, props)| >= |s| && |Padded(s, props)| >= props.npad && |Padded(s, props)| >= -props.npad
  {
  }

  // ----- the number parser -----

  lemma {:induction false} ValueOfPrefix(ds: string, n: nat)
    requires n <= |ds|
    ensures ValueOf(ds[..n], 10) <= ValueOf(ds, 10)
    decreases |ds|
  {
    if n < |ds| {
      ValueOfPrefix(ds[..|ds| - 1], n);
      assert ds[..|ds| - 1][..n] == ds[..n];
    } else {
      assert ds[..n] == ds;
    }
  }

  lemma ValueOfNext(s: string, start: nat, p: nat)
    requires start <= p < |s| && p < DigitsEnd(s, start)
    ensures ValueOf(s[start..p + 1], 10) == ValueOf(s[start..p], 10) * 10 + DigitValue(s[p])
    ensures ValueOf(s[start..p + 1], 10) <= NumberAt(s, start)
  {
    assert s[start..p + 1][..p - start] == s[start..p];
    var ds := s[start..DigitsEnd(s, start)];
    ValueOfPrefix(ds, p + 1 - start);
    assert ds[..p + 1 - start] == s[start..p + 1];
  }

  method AtolAt(s: string, ptr: nat) returns (acc: int32)
    requires ptr <= |s| && Fits(Atol(s, ptr))
    ensures acc == Atol(s, ptr)
  {
    hide ValueOf;
    var i := ptr;
    while At(s, i) == ' ' || At(s, i) == '\t'
      invariant ptr <= i <= |s| && SkipBlanks(s, i) == SkipBlanks(s, ptr)
      decreases |s| - i
    {
      i := i + 1;
    }
    var neg := false;
    if At(s, i) == '-' {
      neg := true;
      i := i + 1;
    } else if At(s, i) == '+' {
      i := i + 1;
    }
    ghost var start := i;
    EmptyValue(s, start);
    acc := 0;
    while At(s, i) != NUL
      invariant start <= i <= DigitsEnd(s, start) <= |s|
      invariant 0 <= acc == ValueOf(s[start..i], 10)
      decreases |s| - i
    {
      if At(s, i) < '0' || At(s, i) > '9' {
        break;
      }
      var c := s[i] as int - '0' as int;
      ValueOfNext(s, start, i);
      acc := acc * 10 + c;
      i := i + 1;
    }
    assert i == DigitsEnd(s, start);
    if neg {
      acc := -acc;
    }
  }

  lemma EmptyValue(s: string, i: nat)
    requires i <= |s|
    ensures ValueOf(s[i..i], 10) == 0
  {
  }

  /** fmtnum: the number at position i and how far to move past it. */
  method FmtNum(fmt: string, i: nat) returns (num: int32, len: nat)
    requires i <= |fmt| && Fits(Atol(fmt, i))
    ensures num == Atol(fmt, i) && len == WidthLength(fmt, i)
  {
    hide Atol;
    var f := i;
    if At(fmt, f) == '-' {
      f := f + 1;
    }
    ghost var start := f;
    while '0' <= At(fmt, f) <= '9'
      invariant start <= f <= |fmt| && DigitsEnd(fmt, f) == DigitsEnd(fmt, start)
      decreases |fmt| - f
    {
      f := f + 1;
    }
    num := AtolAt(fmt, i);
    len := f - i;
  }

  // ----- vsnprintf -----

  /** The part of the conversion switch that loops back: flags, widths, length modifiers. */
  method ReadDirective(fmt: string, start: nat) returns (props: Props, long: nat, i: nat)
    requires start <= |fmt| && IsText(fmt) && Parse(fmt, start, NoProps, 0).Some?
    ensures Parse(fmt, start, NoProps, 0) == Some((props, long, i)) && i <= |fmt|
    ensures Fits(props.npad)
  {
    hide Atol, WidthLength;
    props, long, i := NoProps, 0, start;
    while true
      invariant start <= i <= |fmt| && Fits(props.npad)
      invariant Parse(fmt, i, props, long) == Parse(fmt, start, NoProps, 0)
      decreases |fmt| - i
    {
      var f := At(fmt, i);
      if f == '#' {
        props, i := props.(alternate := true), i + 1;
      } else if f == '0' {
        props, i := props.(pad := '0'), i + 1;
        WidthMoves(fmt, i);
        var num, len := FmtNum(fmt, i);
        props, i := props.(npad := num), i + len;
      } else if '1' <= f <= '9' || f == '-' {
        WidthMoves(fmt, i);
        var num, len := FmtNum(fmt, i);
        props, i := props.(npad := num), i + len;
      } else if f == 'l' {
        long, i := long + 1, i + 1;
      } else if f == 't' || f == 'z' {
        long, i := 1, i + 1;
      } else {
        return;
      }
    }
  }

  /** The conversion itself. */
  method Emit(s: PStream, conv: char, props: Props, long: nat, args: seq<Arg>, k: nat) returns (k': nat)
    requires s.Valid() && Fits(props.npad)
    requires forall a :: a in args && a.Str? ==> IsText(a.s)
    requires Convert(conv, props, long, args, k).Some?
    requires Room(s.size, s.buffer.Length, |s.text| + |Convert(conv, props, long, args, k).value.0|)
    modifies s, s.buffer
    ensures s.Valid() && s.text == old(s.text) + Convert(conv, props, long, args, k).value.0
    ensures k' == Convert(conv, props, long, args, k).value.1
  {
    hide Padded, IntText, UnsignedText, PStream.Valid;
    k' := k;
    if conv == '%' {
      s.AddChar('%');
    } else if conv == 'c' {
      s.AddChar(CharOf(args[k].w));
      k' := k + 1;
    } else if conv == NUL {
    } else if conv == 'd' {
      s.PrintInt(Signed(args[k].w), 10, props);
      k' := if long > 1 then k + 2 else k + 1;
    } else if conv == 'u' {
      s.PrintUnsigned(args[k].w, 10, props);
      k' := k + 1;
    } else if conv == 'x' {
      s.PrintUnsigned(args[k].w, 16, props);
      k' := k + 1;
    } else if conv == 'p' {
      s.PrintUnsigned(args[k].w, 16, props.(alternate := true));
      k' := k + 1;
    } else if conv == 's' {
      assert args[k] in args;
      s.PrintStr(args[k].s, props);
      k' := k + 1;
    } else {
      s.AddChar(conv);
    }
  }

  /** The ideal output, one format character or directive at a time; text is what came before. */
  lemma NextChar(fmt: string, i: nat, args: seq<Arg>, k: nat, text: string)
    requires i < |fmt| && fmt[i] != '%' && Ideal(fmt, i, args, k).Some?
    ensures Ideal(fmt, i + 1, args, k).Some?
    ensures text + Ideal(fmt, i, args, k).value == text + [fmt[i]] + Ideal(fmt, i + 1, args, k).value
  {
    hide Parse, Convert;
  }

  lemma NextDirective(fmt: string, i: nat, args: seq<Arg>, k: nat, text: string)
    requires i < |fmt| && fmt[i] == '%' && Ideal(fmt, i, args, k).Some?
    ensures Parse(fmt, i + 1, NoProps, 0).Some?
    ensures var (props, long, j) := Parse(fmt, i + 1, NoProps, 0).value;
            i < j <= |fmt| && Convert(At(fmt, j), props, long, args, k).Some? &&
            var (out, k') := Convert(At(fmt, j), props, long, args, k).value;
            var rest := Ideal(fmt, if j < |fmt| then j + 1 else j, args, k');
            && rest.Some?
            && text + Ideal(fmt, i, args, k).value == text + out + rest.value
  {
    hide Parse, Convert;
    var (props, long, j) := Parse(fmt, i + 1, NoProps, 0).value;
    ParseAdvances(fmt, i + 1, NoProps, 0);
    var (out, k') := Convert(At(fmt, j), props, long, args, k).value;
    var rest := Ideal(fmt, if j < |fmt| then j + 1 else j, args, k').value;
    assert text + (out + rest) == text + out + rest;
  }

  lemma NothingLeft(fmt: string, args: seq<Arg>, k: nat)
    ensures Ideal(fmt, |fmt|, args, k) == Some("")
  {
  }

  /** vsnprintf refines the ideal output: the buffer holds the first size - 1 characters of it, or all
      of it when it is shorter or when size is below 1, then NUL; nothing behind the NUL is
      touched, and the full length is returned. */
  method VSnprintf(buf: array<char>, size: int32, fmt: string, args: seq<Arg>) returns (r: int32)
    requires IsText(fmt)
    requires forall a :: a in args && a.Str? ==> IsText(a.s)
    requires Ideal(fmt, 0, args, 0).Some? && Room(size, buf.Length, |Ideal(fmt, 0, args, 0).value|)
    modifies buf
    ensures var out := Ideal(fmt, 0, args, 0).value;
            var kept := if size < 1 || |out| < size then |out| else size - 1;
            && r == |out| && kept < buf.Length
            && buf[..kept] == out[..kept] && buf[kept] == NUL
            && buf[kept + 1..] == old(buf[kept + 1..])
    ensures 1 <= size <= buf.Length ==> buf[size..] == old(buf[size..])
  {
    hide Ideal, Parse, Convert, PStream.Valid;
    ghost var out := Ideal(fmt, 0, args, 0).value;
    ghost var before := buf[..];
    var s := new PStream(buf, size);
    var i, k := 0, 0;
    while At(fmt, i) != NUL
      invariant s.Valid() && s.buffer == buf && s.size == size && s.start == before && fresh(s)
      invariant i <= |fmt| && Ideal(fmt, i, args, k).Some?
      invariant s.text + Ideal(fmt, i, args, k).value == out
      decreases |fmt| - i
    {
      var f := At(fmt, i);
      if f != '%' {
        NextChar(fmt, i, args, k, s.text);
        s.AddChar(f);
        i := i + 1;
      } else {
        NextDirective(fmt, i, args, k, s.text);
        var props, long, j := ReadDirective(fmt, i + 1);
        k := Emit(s, At(fmt, j), props, long, args, k);
        i := if j < |fmt| then j + 1 else j;
      }
    }
    NothingLeft(fmt, args, k);
    assert s.text == out;
    r := s.Finish();
  }
}
