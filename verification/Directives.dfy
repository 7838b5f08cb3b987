/** Whole directives: written out from their parts, they are read back as those parts, and put out
    what the parts call for. */
module Directives {
  import opened Options
  import opened Words
  import opened Format

  // ----- writing a directive -----

  /** The length modifiers: any number of l's, or one z or t. */
  datatype Length = Ls(n: nat) | Z | T

  /** The parts of a directive, in the order in which they are written. */
  datatype Spec = Spec(alternate: bool, zero: bool, width: int, length: Length, conv: char)

  function LengthText(length: Length): string {
    match length
    case Ls(n) => Repeat('l', n)
    case Z => "z"
    case T => "t"
  }

  /** z and t count as one l. */
  function LongCount(length: Length): nat {
    if length.Ls? then length.n else 1
  }

  function WidthText(width: int): string {
    if width == 0 then "" else IntText(width)
  }

  /** The directive behind its percent sign. */
  function Written(d: Spec): string {
    (if d.alternate then "#" else "") + (if d.zero then "0" else "") + WidthText(d.width)
    + LengthText(d.length) + [d.conv]
  }

  /** The conversion character is none of the characters that may stand in front of it, nor one
      that atol would skip behind a bare 0 flag. */
  predicate Writable(d: Spec) {
    && -0x8000_0000 < d.width < 0x8000_0000
    && d.conv !in "#-0123456789ltz" && d.conv != NUL
    && (d.zero && d.width == 0 && d.length == Ls(0) ==> d.conv !in " \t+")
  }

  // ----- reading it back -----

  /** A parse of s, seen from len characters further left. */
  function Behind(len: nat, parsed: Option<(Props, nat, nat)>): Option<(Props, nat, nat)> {
    match parsed
    case None => None
    case Some((p, l, j)) => Some((p, l, len + j))
  }

  lemma ReadOne(c: char, s: string, props: Props, long: nat)
    requires c == '#' || c == 'l' || c == 'z' || c == 't'
    ensures Parse([c] + s, 0, props, long) ==
            Behind(1, Parse(s, 0, if c == '#' then props.(alternate := true) else props,
                            if c == 'l' then long + 1 else if c == '#' then long else 1))
  {
    var fmt := [c] + s;
    ShiftParse([c], s, 0, if c == '#' then props.(alternate := true) else props,
               if c == 'l' then long + 1 else if c == '#' then long else 1);
  }

  lemma {:induction false} ReadLs(n: nat, conv: char, rest: string, props: Props, long: nat)
    requires conv !in "#-0123456789ltz"
    ensures Parse(Repeat('l', n) + [conv] + rest, 0, props, long) == Some((props, long + n, n))
    decreases n
  {
    if n == 0 {
      assert Repeat('l', n) + [conv] + rest == [conv] + rest;
      ReadConv(conv, rest, props, long);
    } else {
      ReadLs(n - 1, conv, rest, props, long + 1);
      ReadOne('l', Repeat('l', n - 1) + [conv] + rest, props, long);
      assert Repeat('l', n) + [conv] + rest == ['l'] + (Repeat('l', n - 1) + [conv] + rest);
    }
  }

  lemma ReadConv(conv: char, rest: string, props: Props, long: nat)
    requires conv !in "#-0123456789ltz"
    ensures Parse([conv] + rest, 0, props, long) == Some((props, long, 0))
  {
    NotAFlag(conv);
  }

  lemma NotAFlag(c: char)
    requires c !in "#-0123456789ltz"
    ensures c != '#' && c != '-' && !('0' <= c <= '9') && c != 'l' && c != 't' && c != 'z'
  {
    var flags := "#-0123456789ltz";
    assert flags[0] == '#' && flags[1] == '-' && flags[12] == 'l' && flags[13] == 't' && flags[14] == 'z';
    DigitIsFlag(c);
  }

  lemma DigitIsFlag(c: char)
    ensures '0' <= c <= '9' ==> c in "#-0123456789ltz"
  {
    if '0' <= c <= '9' {
      assert "#-0123456789ltz"[2 + (c as int - '0' as int)] == c;
    }
  }

  lemma ReadLength(length: Length, conv: char, rest: string, props: Props)
    requires conv !in "#-0123456789ltz"
    ensures Parse(LengthText(length) + [conv] + rest, 0, props, 0) ==
            Some((props, LongCount(length), |LengthText(length)|))
  {
    hide Parse;
    match length
    case Ls(n) => ReadLs(n, conv, rest, props, 0);
    case Z =>
      ReadConv(conv, rest, props, 1);
      ReadOne('z', [conv] + rest, props, 0);
      assert "z" + [conv] + rest == ['z'] + ([conv] + rest);
    case T =>
      ReadConv(conv, rest, props, 1);
      ReadOne('t', [conv] + rest, props, 0);
      assert "t" + [conv] + rest == ['t'] + ([conv] + rest);
  }

  /** A width in front of text that cannot belong to it. */
  lemma WidthValue(width: int, tail: string)
    requires tail != "" && !IsDigit(tail[0])
    requires width == 0 ==> !IsBlank(tail[0]) && tail[0] != '+' && tail[0] != '-'
    ensures Atol(WidthText(width) + tail, 0) == width
    ensures WidthLength(WidthText(width) + tail, 0) == |WidthText(width)|
  {
    hide ValueOf, Magnitude, IntText, Atol;
    if width == 0 {
      assert "" + tail == tail;
      NoWidth(tail);
    } else {
      MagnitudeFacts(width);
      var sign := if width < 0 then "-" else "";
      assert WidthText(width) + tail == "" + sign + Magnitude(width) + tail;
      AtolOfParts("", sign, Magnitude(width), tail);
      DigitsEndAt(sign, Magnitude(width), tail);
    }
  }

  lemma NoWidth(tail: string)
    requires tail != "" && !IsDigit(tail[0]) && !IsBlank(tail[0]) && tail[0] != '+' && tail[0] != '-'
    ensures Atol(tail, 0) == 0 && WidthLength(tail, 0) == 0
  {
    assert tail[0..0] == "";
  }

  lemma DigitsEndAt(sign: string, ds: string, tail: string)
    requires (sign == "" || sign == "-") && ds != "" && (forall t :: 0 <= t < |ds| ==> IsDigit(ds[t]))
    requires tail != "" && !IsDigit(tail[0])
    ensures WidthLength("" + sign + ds + tail, 0) == |sign| + |ds|
  {
    var s := "" + sign + ds + tail;
    var e := |sign| + |ds|;
    assert s[e] == tail[0];
    assert forall t :: |sign| <= t < e ==> s[t] == ds[t - |sign|];
    assert sign == "" ==> s[0] == ds[0];
  }

  /** The width and what is in front of it. */
  lemma ReadWidth(width: int, tail: string, props: Props)
    requires width != 0 && -0x8000_0000 < width < 0x8000_0000 && tail != "" && !IsDigit(tail[0])
    ensures Parse(WidthText(width) + tail, 0, props, 0) ==
            Behind(|WidthText(width)|, Parse(tail, 0, props.(npad := width), 0))
  {
    hide Atol, WidthLength;
    WidthValue(width, tail);
    ShiftParse(WidthText(width), tail, 0, props.(npad := width), 0);
    FirstOfWidth(width);
  }

  lemma FirstOfWidth(width: int)
    requires width != 0
    ensures IntText(width) != "" && (IntText(width)[0] == '-' || '1' <= IntText(width)[0] <= '9')
  {
    hide Digits;
    FirstDigit(if width < 0 then -width else width);
  }

  lemma ReadZero(width: int, tail: string, props: Props)
    requires -0x8000_0000 < width < 0x8000_0000 && tail != "" && !IsDigit(tail[0])
    requires width == 0 ==> !IsBlank(tail[0]) && tail[0] != '+' && tail[0] != '-'
    ensures Parse("0" + WidthText(width) + tail, 0, props, 0) ==
            Behind(1 + |WidthText(width)|, Parse(tail, 0, props.(pad := '0', npad := width), 0))
  {
    hide Atol, WidthLength, Parse, WidthText;
    var fmt := "0" + WidthText(width) + tail;
    assert fmt == "0" + (WidthText(width) + tail);
    WidthValue(width, tail);
    ShiftAtol("0", WidthText(width) + tail, 0);
    ParseZero(fmt, 0, props, 0);
    ShiftParse("0" + WidthText(width), tail, 0, props.(pad := '0', npad := width), 0);
  }

  /** The properties that the parts of a directive call for. */
  function PropsOf(d: Spec): Props {
    Props(if d.zero then '0' else ' ', d.width, d.alternate)
  }

  /** A written directive is read back as exactly its parts: flags, width, number of l's, and the
      conversion character at its end. */
  lemma ReadBack(d: Spec, rest: string)
    requires Writable(d)
    ensures Written(d) != "" && Written(d)[|Written(d)| - 1] == d.conv
    ensures Parse(Written(d) + rest, 0, Props(' ', 0, false), 0) ==
            Some((PropsOf(d), LongCount(d.length), |Written(d)| - 1))
  {
    hide Parse, WidthText, LengthText;
    var tail := LengthText(d.length) + [d.conv] + rest;
    TailStart(d, rest);
    var flags := if d.alternate then "#" else "";
    var props := Props(' ', 0, d.alternate);
    ReadLength(d.length, d.conv, rest, PropsOf(d));
    var body := (if d.zero then "0" else "") + WidthText(d.width) + tail;
    if d.zero {
      ReadZero(d.width, tail, props);
      assert body == "0" + WidthText(d.width) + tail;
    } else if d.width != 0 {
      ReadWidth(d.width, tail, props);
      assert body == WidthText(d.width) + tail;
    } else {
      assert WidthText(d.width) == "" by { NoWidthText(); }
      assert body == tail;
    }
    assert Written(d) + rest == flags + body;
    if d.alternate {
      ReadOne('#', body, Props(' ', 0, false), 0);
      assert flags + body == ['#'] + body;
    } else {
      assert flags + body == body;
    }
  }

  lemma NoWidthText()
    ensures WidthText(0) == ""
  {
  }

  lemma TailStart(d: Spec, rest: string)
    requires Writable(d)
    ensures var tail := LengthText(d.length) + [d.conv] + rest;
            && tail != "" && !IsDigit(tail[0]) && tail[0] != '-'
            && (d.zero && d.width == 0 ==> !IsBlank(tail[0]) && tail[0] != '+')
  {
    NotAFlag(d.conv);
    var blanks := " \t+";
    assert blanks[0] == ' ' && blanks[1] == '\t' && blanks[2] == '+';
  }

  // ----- what a directive puts out -----

  /** Text in a field of |width| characters: at its right end behind the fill for a positive
      width, at its left end in front of spaces for a negative one. */
  function Field(text: string, fill: char, width: int): string {
    if width >= 0 then Repeat(fill, Gap(|text|, width)) + text else text + Repeat(' ', Gap(|text|, -width))
  }

  function Gap(length: nat, width: int): nat {
    if width > length then width - length else 0
  }

  lemma PaddedIsField(s: string, props: Props)
    ensures Padded(s, props) == Field(s, props.pad, props.npad)
  {
    assert Repeat(props.pad, 0) + s == s && s + Repeat(' ', 0) == s;
  }

  /** A directive with its arguments puts out what its conversion makes of them, then comes the rest
      of the format. */
  lemma Converted(d: Spec, rest: string, args: seq<Arg>, k: nat)
    requires Writable(d)
    ensures Ideal("%" + Written(d) + rest, 0, args, k) ==
            var c := Convert(d.conv, PropsOf(d), LongCount(d.length), args, k);
            if c.None? then None else Prepend(c.value.0, Ideal(rest, 0, args, c.value.1))
  {
    hide Parse, Written, PropsOf, LongCount, Convert;
    var fmt := "%" + Written(d) + rest;
    assert fmt == "%" + (Written(d) + rest);
    ReadBack(d, rest);
    ShiftParse("%", Written(d) + rest, 0, Props(' ', 0, false), 0);
    var n := |Written(d)|;
    assert fmt[n] == d.conv && At(fmt, n) == d.conv;
    var converted := Convert(d.conv, PropsOf(d), LongCount(d.length), args, k);
    if converted.Some? {
      ShiftIdeal("%" + Written(d), rest, 0, args, converted.value.1);
    }
  }

  /** %s: the string in its field, one argument used. */
  lemma StringDirective(d: Spec, s: string, rest: string, args: seq<Arg>, k: nat)
    requires Writable(d) && d.conv == 's' && k < |args| && args[k] == Str(s)
    ensures Ideal("%" + Written(d) + rest, 0, args, k) ==
            Prepend(Field(s, if d.zero then '0' else ' ', d.width), Ideal(rest, 0, args, k + 1))
  {
    hide Ideal, Written, Padded, Field;
    Converted(d, rest, args, k);
    PaddedIsField(s, PropsOf(d));
  }

  /** %c: the low byte as a character; %%: one percent sign; any character that is no conversion:
      itself. Flags and widths change nothing here. */
  lemma CharDirective(d: Spec, rest: string, args: seq<Arg>, k: nat)
    requires Writable(d) && d.conv !in "duxps"
    ensures d.conv == 'c' ==>
              Ideal("%" + Written(d) + rest, 0, args, k) ==
              if k < |args| && args[k].Word?
              then Prepend([(args[k].w % 256) as char], Ideal(rest, 0, args, k + 1)) else None
    ensures d.conv != 'c' ==> Ideal("%" + Written(d) + rest, 0, args, k) == Prepend([d.conv], Ideal(rest, 0, args, k))
  {
    hide Ideal, Written;
    Converted(d, rest, args, k);
    var convs := "cduxps";
    assert convs[0] == 'c' && forall t :: 0 <= t < 5 ==> convs[t + 1] == "duxps"[t];
  }

  /** n in two's complement. */
  function Complement(n: int): word
    requires -0x8000_0000 <= n < 0x8000_0000
  {
    if n >= 0 then n else 0x1_0000_0000 + n
  }

  /** A decimal text: an optional minus sign and the digits of the absolute value, without zeros in
      front unless it is 0 itself. */
  ghost predicate DecimalText(t: string, n: int) {
    exists digits: string ::
      && t == (if n < 0 then "-" else "") + digits
      && digits != "" && (forall i :: 0 <= i < |digits| ==> '0' <= digits[i] <= '9')
      && (digits[0] == '0' ==> digits == "0")
      && ValueOf(digits, 10) == if n < 0 then -n else n
  }

  lemma IntTextIsDecimal(n: int)
    ensures DecimalText(IntText(n), n)
  {
    hide ValueOf, Digits;
    MagnitudeFacts(n);
    if n != 0 {
      FirstDigit(if n < 0 then -n else n);
    }
    assert IntText(n) == (if n < 0 then "-" else "") + Magnitude(n);
  }

  /** %d with any number of l's, or z, or t: the number in its field. One argument is used, or two
      when there are two l's or more; then the low word is put out. */
  lemma DecimalDirective(d: Spec, n: int, rest: string, args: seq<Arg>, k: nat) returns (t: string)
    requires Writable(d) && d.conv == 'd' && -0x8000_0000 < n < 0x8000_0000
    requires k < |args| && args[k] == Word(Complement(n))
    requires d.length.Ls? && d.length.n > 1 ==> k + 1 < |args| && args[k + 1].Word?
    ensures DecimalText(t, n)
    ensures Ideal("%" + Written(d) + rest, 0, args, k) ==
            Prepend(Field(t, if d.zero then '0' else ' ', d.width),
                    Ideal(rest, 0, args, if d.length.Ls? && d.length.n > 1 then k + 2 else k + 1))
  {
    hide Ideal, Written, Padded, Field, IntText;
    Converted(d, rest, args, k);
    t := IntText(n);
    IntTextIsDecimal(n);
    PaddedIsField(t, PropsOf(d));
    assert Signed(Complement(n)) == n;
  }

  /** The digits of n in base 10 or 16, lower case, without zeros in front unless n is 0. */
  ghost predicate NumberText(t: string, n: nat, base: nat) {
    && t != "" && ValueOf(t, base) == n && (t[0] == '0' ==> t == "0")
    && forall i :: 0 <= i < |t| ==> '0' <= t[i] <= '9' || (base == 16 && 'a' <= t[i] <= 'f')
  }

  lemma {:induction false} DigitsAreNumber(n: nat, base: nat)
    requires (base == 10 || base == 16) && n > 0
    ensures NumberText(Digits(n, base), n, base) && Digits(n, base)[0] != '0'
    decreases n
  {
    hide ValueOf;
    DigitsRoundTrip(n, base);
    QuotientSmaller(n, base);
    DigitRange(n % base);
    if n >= base {
      DigitsAreNumber(n / base, base);
      QuotientPositive(n, base);
    } else {
      SmallQuotient(n, base);
      assert Digits(n, base) == Digits(0, base) + [Digit(n)];
    }
  }

  lemma QuotientPositive(n: nat, base: nat)
    requires 0 < base <= n
    ensures n / base > 0
  {
  }

  lemma SmallQuotient(n: nat, base: nat)
    requires n < base
    ensures n / base == 0 && n % base == n
  {
  }

  lemma DigitRange(d: nat)
    requires d < 16
    ensures d < 10 ==> Digit(d) as int == '0' as int + d
    ensures d >= 10 ==> Digit(d) as int == 'a' as int + d - 10
    ensures 0 < d ==> Digit(d) != '0'
  {
  }

  /** %u and %x without #: the number in its field, one argument used whatever the length. */
  lemma UnsignedDirective(d: Spec, w: word, rest: string, args: seq<Arg>, k: nat) returns (t: string)
    requires Writable(d) && (d.conv == 'u' || (d.conv == 'x' && !d.alternate)) && k < |args| && args[k] == Word(w)
    ensures NumberText(t, w, if d.conv == 'u' then 10 else 16)
    ensures Ideal("%" + Written(d) + rest, 0, args, k) ==
            Prepend(Field(t, if d.zero then '0' else ' ', d.width), Ideal(rest, 0, args, k + 1))
  {
    hide Ideal, Written, Padded, Field, Digits, ValueOf;
    Converted(d, rest, args, k);
    var base := if d.conv == 'u' then 10 else 16;
    if w == 0 {
      t := "0";
      ZeroText();
    } else {
      t := Digits(w, base);
      DigitsAreNumber(w, base);
    }
    PaddedIsField(t, PropsOf(d));
  }

  /** %#x, and %p with or without #: 0 has no 0x. Otherwise the text is 0x and the digits; with the 0
      flag and no negative width the zeros stand between the two, and with both the field is
      counted from the digits on. */
  lemma PrefixDirective(d: Spec, w: word, rest: string, args: seq<Arg>, k: nat) returns (t: string)
    requires Writable(d) && (d.conv == 'p' || (d.conv == 'x' && d.alternate)) && k < |args| && args[k] == Word(w)
    ensures NumberText(t, w, 16)
    ensures Ideal("%" + Written(d) + rest, 0, args, k) ==
            Prepend(if w == 0 then Field("0", if d.zero then '0' else ' ', d.width)
                    else if !d.zero then Field("0x" + t, ' ', d.width)
                    else if d.width >= 0 then "0x" + Repeat('0', Gap(2 + |t|, d.width)) + t
                    else "0x" + t + Repeat(' ', Gap(|t|, -d.width)),
                    Ideal(rest, 0, args, k + 1))
  {
    hide Ideal, Written, Padded, Digits, ValueOf;
    Converted(d, rest, args, k);
    var props := PropsOf(d).(alternate := true);
    if w == 0 {
      t := "0";
      ZeroText();
      PaddedIsField("0", props);
    } else {
      t := Digits(w, 16);
      DigitsAreNumber(w, 16);
      if d.zero {
        PaddedIsField(t, BehindPrefix(props));
        assert "0x" + (Repeat('0', Gap(2 + |t|, d.width)) + t) == "0x" + Repeat('0', Gap(2 + |t|, d.width)) + t;
        assert "0x" + (t + Repeat(' ', Gap(|t|, -d.width))) == "0x" + t + Repeat(' ', Gap(|t|, -d.width));
      } else {
        PaddedIsField("0x" + t, props);
      }
    }
  }

  /** Flags and length modifiers to the end of the format: they are used up, and nothing comes out. */
  lemma Unfinished(flags: string, args: seq<Arg>, k: nat)
    requires forall t :: 0 <= t < |flags| ==> flags[t] in {'#', 'l', 'z', 't'}
    ensures Ideal("%" + flags, 0, args, k) == Some("")
  {
    hide Parse;
    var fmt := "%" + flags;
    assert forall t :: 1 <= t < |fmt| ==> fmt[t] == flags[t - 1];
    ReadsToEnd(fmt, 1, Props(' ', 0, false), 0);
    assert Ideal(fmt, |fmt|, args, k) == Some("");
    PrependNothing(Some(""));
  }

  lemma {:induction false} ReadsToEnd(fmt: string, i: nat, props: Props, long: nat)
    requires i <= |fmt| && forall t :: i <= t < |fmt| ==> fmt[t] in {'#', 'l', 'z', 't'}
    ensures Parse(fmt, i, props, long).Some? && Parse(fmt, i, props, long).value.2 == |fmt|
    decreases |fmt| - i
  {
    if i < |fmt| {
      var c := fmt[i];
      ReadsToEnd(fmt, i + 1, if c == '#' then props.(alternate := true) else props,
                 if c == 'l' then long + 1 else if c == '#' then long else 1);
    }
  }

  /** The kernel's most used directive: "%#x" puts out "0" for 0, and otherwise 0x and text whose
      value in base 16 is the word. */
  lemma AlternateHex(w: word) returns (t: string)
    ensures NumberText(t, w, 16)
    ensures Ideal("%#x", 0, [Word(w)], 0) == Some(if w == 0 then "0" else "0x" + t)
  {
    var d := Spec(true, false, 0, Ls(0), 'x');
    assert Written(d) == "#x" && "%" + "#x" + "" == "%#x";
    hide ValueOf;
    t := PrefixDirective(d, w, "", [Word(w)], 0);
    var text := if w == 0 then "0" else "0x" + t;
    assert Field(text, ' ', 0) == text by { assert Repeat(' ', 0) + text == text; }
    assert Ideal("", 0, [Word(w)], 1) == Some("");
    assert text + "" == text;
  }
}
