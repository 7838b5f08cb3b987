/** What formatted output and number parsing mean, on strings without a terminating NUL.
    The code that produces them is in Printf. */
module Format {
  import opened Options
  import opened Words

  const NUL := '\0'

  /** The text of a C string holds no NUL. */
  predicate IsText(s: string) {
    NUL !in s
  }

  /** Reading a C string: one past the text is its NUL. */
  function At(s: string, i: nat): char
    requires i <= |s|
  {
    if i < |s| then s[i] else NUL
  }

  /** The conversion properties of a directive. */
  datatype Props = Props(pad: char, npad: int, alternate: bool)

  function Repeat(c: char, n: nat): (r: string)
    ensures |r| == n && forall i :: 0 <= i < n ==> r[i] == c
  {
    seq(n, _ => c)
  }

  /** Text padded to |npad| characters: on the left for a positive width, with spaces on the
      right for a negative one. */
  function Padded(s: string, props: Props): string {
    if props.npad > |s| then Repeat(props.pad, props.npad - |s|) + s
    else if -props.npad > |s| then s + Repeat(' ', -props.npad - |s|)
    else s
  }

  function Digit(d: nat): char
    requires d < 16
  {
    "0123456789abcdef"[d]
  }

  /** Digits of n, most significant first, none for 0. */
  function Digits(n: nat, base: nat): string
    requires 2 <= base <= 16
    decreases n
  {
    if n == 0 then ""
    else
      QuotientSmaller(n, base);
      Digits(n / base, base) + [Digit(n % base)]
  }

  lemma QuotientSmaller(n: nat, base: nat)
    requires 2 <= base && 0 < n
    ensures n / base < n
  {
  }

  function IntText(n: int): string {
    if n == 0 then "0" else if n < 0 then "-" + Digits(-n, 10) else Digits(n, 10)
  }

  /** The properties left for the digits when 0x goes in front of the zeros. */
  function BehindPrefix(props: Props): Props {
    if props.npad > 0 then props.(npad := if props.npad > 2 then props.npad - 2 else 0) else props
  }

  /** Unsigned output. The 0x of an alternate hexadecimal number counts as part of the text
      unless the padding is 0, in which case it goes in front of the zeros. */
  function UnsignedText(n: nat, base: nat, props: Props): string
    requires 2 <= base <= 16
  {
    if n == 0 then Padded("0", props)
    else if props.alternate && base == 16 then
      if props.pad == '0'
      then "0x" + Padded(Digits(n, 16), BehindPrefix(props))
      else Padded("0x" + Digits(n, 16), props)
    else Padded(Digits(n, base), props)
  }

  // ----- parsing numbers -----

  predicate IsBlank(c: char) {
    c == ' ' || c == '\t'
  }

  predicate IsDigit(c: char) {
    '0' <= c <= '9'
  }

  /** First position from i on that holds no blank. */
  function SkipBlanks(s: string, i: nat): (j: nat)
    requires i <= |s|
    ensures i <= j <= |s| && !IsBlank(At(s, j)) && forall t :: i <= t < j ==> IsBlank(s[t])
    decreases |s| - i
  {
    if i < |s| && IsBlank(s[i]) then SkipBlanks(s, i + 1) else i
  }

  /** First position from i on that holds no decimal digit. */
  function DigitsEnd(s: string, i: nat): (j: nat)
    requires i <= |s|
    ensures i <= j <= |s| && !IsDigit(At(s, j)) && forall t :: i <= t < j ==> IsDigit(s[t])
    decreases |s| - i
  {
    if i < |s| && IsDigit(s[i]) then DigitsEnd(s, i + 1) else i
  }

  function DigitValue(c: char): nat {
    if '0' <= c <= '9' then c as nat - '0' as nat
    else if 'a' <= c <= 'f' then c as nat - 'a' as nat + 10
    else 0
  }

  /** The number a digit string stands for. */
  function ValueOf(ds: string, base: nat): nat {
    if ds == "" then 0 else ValueOf(ds[..|ds| - 1], base) * base + DigitValue(ds[|ds| - 1])
  }

  function NumberAt(s: string, i: nat): nat
    requires i <= |s|
  {
    ValueOf(s[i..DigitsEnd(s, i)], 10)
  }

  /** atol: blanks, an optional sign, digits. */
  function Atol(s: string, i: nat): int
    requires i <= |s|
  {
    var j := SkipBlanks(s, i);
    if At(s, j) == '-' then 0 - NumberAt(s, j + 1)
    else if At(s, j) == '+' then NumberAt(s, j + 1)
    else NumberAt(s, j)
  }

  // ----- directives -----

  /** Length of the width at position i: an optional minus sign and digits. */
  function WidthLength(fmt: string, i: nat): nat
    requires i <= |fmt|
  {
    var j := if At(fmt, i) == '-' then i + 1 else i;
    DigitsEnd(fmt, j) - i
  }

  predicate Fits(n: int) {
    -0x8000_0000 < n < 0x8000_0000
  }

  /** Reads flags, widths and length modifiers from position i up to the conversion
      character, whose position is returned. A width that overflows has no meaning.
      A width that follows a 0 flag is read by atol, so blanks and a plus sign in front of
      its digits count for its value although they are not skipped. */
  function Parse(fmt: string, i: nat, props: Props, long: nat): Option<(Props, nat, nat)>
    requires i <= |fmt|
    decreases |fmt| - i
  {
    var c := At(fmt, i);
    if i == |fmt| then Some((props, long, i))
    else if c == '#' then Parse(fmt, i + 1, props.(alternate := true), long)
    else if c == '0' then
      if !Fits(Atol(fmt, i + 1)) then None
      else Parse(fmt, i + 1 + WidthLength(fmt, i + 1), props.(pad := '0', npad := Atol(fmt, i + 1)), long)
    else if '1' <= c <= '9' || c == '-' then
      if !Fits(Atol(fmt, i)) then None
      else
        assert WidthLength(fmt, i) > 0 by { if c != '-' { assert DigitsEnd(fmt, i) > i; } }
        Parse(fmt, i + WidthLength(fmt, i), props.(npad := Atol(fmt, i)), long)
    else if c == 'l' then Parse(fmt, i + 1, props, long + 1)
    else if c == 't' || c == 'z' then Parse(fmt, i + 1, props, 1)
    else Some((props, long, i))
  }

  /** An argument: a 32-bit word or a string. */
  datatype Arg = Word(w: word) | Str(s: string)

  function Signed(w: word): int {
    if w < 0x8000_0000 then w else w - 0x1_0000_0000
  }

  function CharOf(w: word): char {
    (w % 0x100) as char
  }

  predicate WordAt(args: seq<Arg>, k: nat) {
    k < |args| && args[k].Word?
  }

  /** The text a directive produces and the number of arguments used up afterwards. Missing
      or mismatched arguments and the most negative integer have no meaning. A 64-bit integer
      is two words, low word first, of which print_int gets the low one. */
  function Convert(conv: char, props: Props, long: nat, args: seq<Arg>, k: nat): Option<(string, nat)> {
    if conv == NUL then Some(("", k))
    else if conv in "cduxps" then
      if k >= |args| then None
      else if conv == 's' then
        if args[k].Str? then Some((Padded(args[k].s, props), k + 1)) else None
      else if !args[k].Word? then None
      else
        var w := args[k].w;
        if conv == 'c' then Some(([CharOf(w)], k + 1))
        else if conv == 'd' then
          if !Fits(Signed(w)) || (long > 1 && !WordAt(args, k + 1)) then None
          else Some((Padded(IntText(Signed(w)), props), if long > 1 then k + 2 else k + 1))
        else if conv == 'u' then Some((UnsignedText(w, 10, props), k + 1))
        else if conv == 'x' then Some((UnsignedText(w, 16, props), k + 1))
        else Some((UnsignedText(w, 16, props.(alternate := true)), k + 1))
    else Some(([conv], k))
  }

  const NoProps := Props(' ', 0, false)

  function Prepend(s: string, rest: Option<string>): Option<string> {
    match rest
    case None => None
    case Some(t) => Some(s + t)
  }

  lemma ParseAdvances(fmt: string, i: nat, props: Props, long: nat)
    requires i <= |fmt| && Parse(fmt, i, props, long).Some?
    ensures i <= Parse(fmt, i, props, long).value.2 <= |fmt|
    decreases |fmt| - i
  {
  }

  /** The whole output for the format from position i and the arguments from number k on,
      or None when it has no meaning. */
  function Ideal(fmt: string, i: nat, args: seq<Arg>, k: nat): Option<string>
    requires i <= |fmt|
    decreases |fmt| - i
  {
    if i == |fmt| then Some("")
    else if fmt[i] != '%' then Prepend([fmt[i]], Ideal(fmt, i + 1, args, k))
    else
      match Parse(fmt, i + 1, NoProps, 0)
      case None => None
      case Some((props, long, j)) =>
        ParseAdvances(fmt, i + 1, NoProps, 0);
        match Convert(At(fmt, j), props, long, args, k)
        case None => None
        case Some((text, k')) => Prepend(text, Ideal(fmt, if j < |fmt| then j + 1 else j, args, k'))
  }

  // ----- laws -----

  /** Padding emits exactly max(length, |width|) characters and keeps the text intact. */
  lemma PaddedShape(s: string, props: Props)
    ensures var w := if props.npad < 0 then -props.npad else props.npad;
            |Padded(s, props)| == if w > |s| then w else |s|
    ensures exists l, r :: Padded(s, props) == l + s + r &&
              (props.npad >= 0 ==> r == "") && (props.npad <= 0 ==> l == "") &&
              (forall c :: c in l ==> c == props.pad) && (forall c :: c in r ==> c == ' ')
  {
    var l := if props.npad > |s| then Repeat(props.pad, props.npad - |s|) else "";
    var r := if -props.npad > |s| then Repeat(' ', -props.npad - |s|) else "";
    assert Padded(s, props) == l + s + r;
  }

  lemma DigitRoundTrip(d: nat)
    requires d < 16
    ensures DigitValue(Digit(d)) == d && Digit(d) != NUL
    ensures d < 10 ==> IsDigit(Digit(d))
  {
  }

  /** The digits of a number evaluate back to it, in every base up to 16. */
  lemma {:induction false} DigitsRoundTrip(n: nat, base: nat)
    requires 2 <= base <= 16
    ensures ValueOf(Digits(n, base), base) == n
    decreases n
  {
    if n > 0 {
      QuotientSmaller(n, base);
      DigitsRoundTrip(n / base, base);
      DigitRoundTrip(n % base);
      var ds := Digits(n, base);
      assert ds[..|ds| - 1] == Digits(n / base, base);
      DivMod(n, base);
    }
  }

  lemma {:induction false} DigitsAreDigits(n: nat)
    ensures forall t :: 0 <= t < |Digits(n, 10)| ==> IsDigit(Digits(n, 10)[t])
    ensures n > 0 ==> Digits(n, 10) != ""
    decreases n
  {
    if n > 0 {
      QuotientSmaller(n, 10);
      DigitsAreDigits(n / 10);
      DigitRoundTrip(n % 10);
    }
  }

  lemma {:induction false} ZerosInFront(n: nat, ds: string)
    ensures ValueOf(Repeat('0', n) + ds, 10) == ValueOf(ds, 10)
    decreases |ds|, n
  {
    var s := Repeat('0', n) + ds;
    if ds != "" {
      ZerosInFront(n, ds[..|ds| - 1]);
      assert s[..|s| - 1] == Repeat('0', n) + ds[..|ds| - 1];
    } else if n > 0 {
      ZerosInFront(n - 1, ds);
      assert s[..|s| - 1] == Repeat('0', n - 1) + ds;
    }
  }

  /** Blanks up to b, a minus sign at b or none, digits up to e: atol reads those digits. */
  lemma AtolParts(s: string, b: nat, e: nat)
    requires b < |s| && (forall t :: 0 <= t < b ==> IsBlank(s[t])) && !IsBlank(s[b]) && s[b] != '+'
    requires var start := if s[b] == '-' then b + 1 else b;
             start <= e <= |s| && (forall t :: start <= t < e ==> IsDigit(s[t])) && !IsDigit(At(s, e))
    ensures Atol(s, 0) == if s[b] == '-' then 0 - ValueOf(s[b + 1..e], 10) else ValueOf(s[b..e], 10)
  {
  }

  lemma AtolOfParts(l: string, sign: string, ds: string, r: string)
    requires (forall t :: 0 <= t < |l| ==> IsBlank(l[t])) && (sign == "" || sign == "-")
    requires ds != "" && (forall t :: 0 <= t < |ds| ==> IsDigit(ds[t])) && (r == "" || !IsDigit(r[0]))
    ensures Atol(l + sign + ds + r, 0) == if sign == "-" then 0 - ValueOf(ds, 10) else ValueOf(ds, 10)
  {
    hide ValueOf, Atol;
    PartsOf(l, sign, ds, r);
    AtolParts(l + sign + ds + r, |l|, |l| + |sign| + |ds|);
  }

  lemma PartsOf(l: string, sign: string, ds: string, r: string)
    requires (sign == "" || sign == "-") && ds != ""
    ensures var s, start := l + sign + ds + r, |l| + |sign|;
            var e := start + |ds|;
            && |l| < |s| && start <= e <= |s| && s[start..e] == ds
            && (forall t :: start <= t < e ==> s[t] == ds[t - start])
            && (forall t :: 0 <= t < |l| ==> s[t] == l[t])
            && s[|l|] == (if sign == "-" then '-' else ds[0])
            && (e < |s| ==> s[e] == r[0])
  {
  }

  /** atol on any text: blanks and tabs, a sign or none, digits if any, and something that cannot
      belong to them. */
  lemma AtolReads(blanks: string, sign: string, ds: string, rest: string)
    requires forall t :: 0 <= t < |blanks| ==> blanks[t] == ' ' || blanks[t] == '\t'
    requires sign == "" || sign == "+" || sign == "-"
    requires (forall t :: 0 <= t < |ds| ==> '0' <= ds[t] <= '9') && (rest == "" || !('0' <= rest[0] <= '9'))
    requires sign == "" && ds == "" && rest != "" ==> rest[0] !in {' ', '\t', '+', '-'}
    ensures Atol(blanks + sign + ds + rest, 0) == if sign == "-" then 0 - ValueOf(ds, 10) else ValueOf(ds, 10)
  {
    hide ValueOf, SkipBlanks, DigitsEnd;
    var b := |blanks|;
    Regrouped(blanks, sign, ds, rest);
    Assembled(blanks + sign + ds + rest, b, b + |sign|, ds, rest);
  }

  lemma Assembled(s: string, b: nat, start: nat, ds: string, rest: string)
    requires b <= start <= |s| && s[start..] == ds + rest
    requires (forall t :: 0 <= t < b ==> IsBlank(s[t])) && !IsBlank(At(s, b))
    requires start == if At(s, b) == '+' || At(s, b) == '-' then b + 1 else b
    requires (forall t :: 0 <= t < |ds| ==> IsDigit(ds[t])) && (rest == "" || !IsDigit(rest[0]))
    ensures Atol(s, 0) == if At(s, b) == '-' then 0 - ValueOf(ds, 10) else ValueOf(ds, 10)
  {
    hide ValueOf, SkipBlanks, NumberAt, IsBlank, IsDigit, Atol;
    SkipTo(s, 0, b);
    NumberIs(s, start, ds, rest);
    AtolFrom(s, b);
  }

  lemma AtolFrom(s: string, b: nat)
    requires b <= |s| && SkipBlanks(s, 0) == b
    ensures At(s, b) == '-' ==> b < |s| && Atol(s, 0) == 0 - NumberAt(s, b + 1)
    ensures At(s, b) == '+' ==> b < |s| && Atol(s, 0) == NumberAt(s, b + 1)
    ensures At(s, b) != '-' && At(s, b) != '+' ==> Atol(s, 0) == NumberAt(s, b)
  {
    hide NumberAt, SkipBlanks;
  }

  lemma NumberIs(s: string, start: nat, ds: string, rest: string)
    requires start <= |s| && s[start..] == ds + rest && (forall t :: 0 <= t < |ds| ==> IsDigit(ds[t]))
    requires rest == "" || !IsDigit(rest[0])
    ensures NumberAt(s, start) == ValueOf(ds, 10)
  {
    hide ValueOf, IsDigit, DigitsEnd;
    DigitsTo(s, start, ds, rest);
  }

  lemma Regrouped(blanks: string, sign: string, ds: string, rest: string)
    requires sign == "" || sign == "+" || sign == "-"
    ensures var s, b := blanks + sign + ds + rest, |blanks|;
            && b + |sign| <= |s| && s[b + |sign|..] == ds + rest
            && (forall t :: 0 <= t < b ==> s[t] == blanks[t])
            && At(s, b) == if sign != "" then sign[0] else if ds != "" then ds[0] else At(rest, 0)
  {
    var front := blanks + sign;
    assert front + ds + rest == front + (ds + rest);
  }

  lemma {:induction false} SkipTo(s: string, i: nat, b: nat)
    requires i <= b <= |s| && (forall t :: i <= t < b ==> IsBlank(s[t])) && !IsBlank(At(s, b))
    ensures SkipBlanks(s, i) == b
    decreases b - i
  {
    if i < b {
      SkipTo(s, i + 1, b);
    }
  }

  lemma DigitsTo(s: string, start: nat, ds: string, rest: string)
    requires start <= |s| && s[start..] == ds + rest && (forall t :: 0 <= t < |ds| ==> IsDigit(ds[t]))
    requires rest == "" || !IsDigit(rest[0])
    ensures s[start..DigitsEnd(s, start)] == ds
  {
    hide DigitsEnd;
    var e := start + |ds|;
    assert s[start..][..|ds|] == ds;
    assert forall t :: start <= t < e ==> s[t] == s[start..][t - start];
    assert e < |s| ==> s[e] == s[start..][|ds|];
    assert DigitsEnd(s, start) == e;
  }

  /** What a string of digits is worth: the first one counts for the power of the base that the
      others leave to it. */
  lemma {:induction false} LeadingDigit(c: char, ds: string, base: nat)
    ensures ValueOf([c] + ds, base) == DigitValue(c) * Power(base, |ds|) + ValueOf(ds, base)
    ensures '0' <= c <= '9' ==> DigitValue(c) == c as int - '0' as int
    ensures 'a' <= c <= 'f' ==> DigitValue(c) == c as int - 'a' as int + 10
    decreases |ds|
  {
    if ds == "" {
      assert [c] + ds == [c] && [c][..0] == "";
    } else {
      hide ValueOf, DigitValue, Power;
      var front := ds[..|ds| - 1];
      LeadingDigit(c, front, base);
      assert ([c] + ds)[..|ds|] == [c] + front;
      LastDigit(ds, base);
      LastDigit([c] + ds, base);
      Horner(DigitValue(c), Power(base, |front|), ValueOf(front, base), base);
      assert Power(base, |ds|) == Power(base, |front|) * base by { NextPower(base, |front|); }
    }
    DigitValues(c);
  }

  lemma DigitValues(c: char)
    ensures '0' <= c <= '9' ==> DigitValue(c) == c as int - '0' as int
    ensures 'a' <= c <= 'f' ==> DigitValue(c) == c as int - 'a' as int + 10
  {
  }

  lemma LastDigit(ds: string, base: nat)
    requires ds != ""
    ensures ValueOf(ds, base) == ValueOf(ds[..|ds| - 1], base) * base + DigitValue(ds[|ds| - 1])
  {
  }

  lemma NextPower(base: nat, k: nat)
    ensures Power(base, k + 1) == Power(base, k) * base
  {
  }

  lemma Horner(c: nat, p: nat, v: nat, base: nat)
    ensures (c * p + v) * base == c * (p * base) + v * base
  {
  }

  /** The digits of an integer's text. */
  function Magnitude(n: int): string {
    if n == 0 then "0" else if n < 0 then Digits(-n, 10) else Digits(n, 10)
  }

  lemma MagnitudeFacts(n: int)
    ensures IntText(n) == (if n < 0 then "-" else "") + Magnitude(n)
    ensures Magnitude(n) != "" && forall t :: 0 <= t < |Magnitude(n)| ==> IsDigit(Magnitude(n)[t])
    ensures ValueOf(Magnitude(n), 10) == if n < 0 then -n else n
  {
    var m: nat := if n < 0 then -n else n;
    DigitsAreDigits(m);
    DigitsRoundTrip(m, 10);
    if n == 0 {
      assert ValueOf("0", 10) == 0;
    }
  }

  /** A number with blanks before it and blanks after it parses to itself. */
  lemma AtolOfPlain(kl: nat, n: int, kr: nat)
    ensures Atol(Repeat(' ', kl) + IntText(n) + Repeat(' ', kr), 0) == n
  {
    hide ValueOf, Magnitude, IntText, Atol;
    MagnitudeFacts(n);
    var l, r := Repeat(' ', kl), Repeat(' ', kr);
    if n < 0 {
      assert l + IntText(n) + r == l + "-" + Magnitude(n) + r;
      AtolOfParts(l, "-", Magnitude(n), r);
    } else {
      assert l + IntText(n) + r == l + "" + Magnitude(n) + r;
      AtolOfParts(l, "", Magnitude(n), r);
    }
  }

  /** Zeros in front of a number that is not negative do not change it. */
  lemma AtolOfZeros(k: nat, n: nat)
    ensures Atol(Repeat('0', k) + IntText(n), 0) == n
  {
    hide ValueOf, Magnitude, IntText, Atol;
    MagnitudeFacts(n);
    var s := Repeat('0', k) + IntText(n);
    assert "" + Magnitude(n) == Magnitude(n);
    ZerosInFront(k, Magnitude(n));
    assert forall t :: 0 <= t < |s| ==> IsDigit(s[t]);
    AtolParts(s, 0, |s|);
    assert s[0..|s|] == s;
  }

  /** Zeros in front of a minus sign hide the number. */
  lemma AtolStopsAtSign(k: nat, n: int)
    requires k > 0 && n < 0
    ensures Atol(Repeat('0', k) + IntText(n), 0) == 0
  {
    var s := Repeat('0', k) + IntText(n);
    AtolParts(s, 0, k);
    ZerosInFront(k, "");
    assert s[0..k] == Repeat('0', k) + "";
  }

  /** Printing a decimal integer and parsing it back gives the integer, for every width and
      both paddings, except exactly when zeros are put in front of a minus sign. */
  lemma PrintParse(n: int, props: Props)
    requires props.pad == ' ' || props.pad == '0'
    ensures Atol(Padded(IntText(n), props), 0) == n <==>
            !(props.pad == '0' && n < 0 && props.npad > |IntText(n)|)
  {
    var text := IntText(n);
    if props.npad > |text| {
      var k := props.npad - |text|;
      if props.pad == ' ' {
        AtolOfPlain(k, n, 0);
        assert Padded(text, props) == Repeat(' ', k) + text + Repeat(' ', 0);
      } else if n < 0 {
        AtolStopsAtSign(k, n);
      } else {
        AtolOfZeros(k, n);
      }
    } else {
      var k := if -props.npad > |text| then -props.npad - |text| else 0;
      AtolOfPlain(0, n, k);
      assert Padded(text, props) == Repeat(' ', 0) + text + Repeat(' ', k);
    }
  }

  /** Format characters other than % go out as they are. */
  lemma {:induction false} PlainFormat(fmt: string, i: nat, args: seq<Arg>, k: nat)
    requires i <= |fmt| && '%' !in fmt
    ensures Ideal(fmt, i, args, k) == Some(fmt[i..])
    decreases |fmt| - i
  {
    if i < |fmt| {
      PlainFormat(fmt, i + 1, args, k);
      assert fmt[i..] == [fmt[i]] + fmt[i + 1..];
    } else {
      assert fmt[i..] == "";
    }
  }

  predicate IsFlagOrDigit(c: char) {
    IsDigit(c) || c in "#-ltz"
  }

  /** A printed integer serves as a width: the directive parser reads back the number that
      print_int wrote. A printed 0 is a width of 0, too, and sets the 0 flag besides. */
  lemma WidthRoundTrip(w: int, conv: char, rest: string)
    requires Fits(w) && !IsFlagOrDigit(conv)
    ensures w != 0 ==>
              Parse(IntText(w) + [conv] + rest, 0, NoProps, 0) == Some((NoProps.(npad := w), 0, |IntText(w)|))
    ensures w == 0 && !IsBlank(conv) && conv != '+' ==>
              Parse(IntText(w) + [conv] + rest, 0, NoProps, 0) == Some((NoProps.(pad := '0'), 0, |IntText(w)|))
  {
    if w != 0 {
      PrintedWidth(w, conv, rest);
    } else if !IsBlank(conv) && conv != '+' {
      ZeroWidth(conv, rest);
    }
  }

  /** A printed 0 is read as the 0 flag with an empty width. */
  lemma ZeroWidth(conv: char, rest: string)
    requires !IsFlagOrDigit(conv) && !IsBlank(conv) && conv != '+'
    ensures Parse(IntText(0) + [conv] + rest, 0, NoProps, 0) == Some((NoProps.(pad := '0'), 0, 1))
  {
    var fmt := "0" + [conv] + rest;
    assert fmt[1] == conv;
    assert fmt[1..1] == "";
    assert Atol(fmt, 1) == 0 && WidthLength(fmt, 1) == 0;
  }

  lemma PrintedWidth(w: int, conv: char, rest: string)
    requires w != 0 && Fits(w) && !IsFlagOrDigit(conv)
    ensures Parse(IntText(w) + [conv] + rest, 0, NoProps, 0) == Some((NoProps.(npad := w), 0, |IntText(w)|))
  {
    hide ValueOf, Magnitude, IntText, Parse, Atol, WidthLength;
    var fmt := IntText(w) + [conv] + rest;
    var b := if w < 0 then 1 else 0;
    var e := |IntText(w)|;
    MagnitudeFacts(w);
    MagnitudeFirst(w);
    assert e == b + |Magnitude(w)|;
    assert fmt[b..e] == Magnitude(w);
    assert forall t :: b <= t < e ==> fmt[t] == Magnitude(w)[t - b];
    WidthParts(fmt, e);
  }

  lemma MagnitudeFirst(w: int)
    requires w != 0
    ensures Magnitude(w) != "" && '1' <= Magnitude(w)[0] <= '9'
  {
    FirstDigit(if w < 0 then -w else w);
  }

  lemma WidthParts(fmt: string, e: nat)
    requires e < |fmt| && !IsFlagOrDigit(fmt[e])
    requires fmt[0] == '-' || '1' <= fmt[0] <= '9'
    requires var b := if fmt[0] == '-' then 1 else 0; b < e && forall t :: b <= t < e ==> IsDigit(fmt[t])
    ensures WidthLength(fmt, 0) == e
    ensures Fits(Atol(fmt, 0)) ==> Parse(fmt, 0, NoProps, 0) == Some((NoProps.(npad := Atol(fmt, 0)), 0, e))
    ensures Atol(fmt, 0) == if fmt[0] == '-' then 0 - ValueOf(fmt[1..e], 10) else ValueOf(fmt[0..e], 10)
  {
  }

  /** A number does not start with a 0 digit. */
  lemma {:induction false} FirstDigit(n: nat)
    requires n > 0
    ensures Digits(n, 10) != "" && '1' <= Digits(n, 10)[0] <= '9'
    decreases n
  {
    QuotientSmaller(n, 10);
    if n >= 10 {
      FirstDigit(n / 10);
    } else {
      assert Digits(n, 10) == Digits(0, 10) + [Digit(n)];
    }
  }

  function Power(base: nat, k: nat): nat {
    if k == 0 then 1 else base * Power(base, k - 1)
  }

  lemma {:induction false} DigitsLength(n: nat, base: nat, k: nat)
    requires 2 <= base <= 16 && n < Power(base, k)
    ensures |Digits(n, base)| <= k
    decreases k
  {
    if n > 0 {
      QuotientSmaller(n, base);
      PowerStep(n, base, k);
      DigitsLength(n / base, base, k - 1);
    }
  }

  lemma PowerStep(n: nat, base: nat, k: nat)
    requires 0 < n < Power(base, k) && base > 0
    ensures k > 0 && n / base < Power(base, k - 1)
  {
  }

  /** 32-bit numbers need at most 10 decimal and 8 hexadecimal digits. */
  lemma WordDigits(n: nat)
    requires n < 0x1_0000_0000
    ensures |Digits(n, 10)| <= 10 && |Digits(n, 16)| <= 8
  {
    assert Power(10, 5) == 100000;
    PowerAdd(10, 5, 5);
    assert Power(16, 4) == 0x1_0000;
    PowerAdd(16, 4, 4);
    DigitsLength(n, 10, 10);
    DigitsLength(n, 16, 8);
  }

  lemma {:induction false} PowerAdd(base: nat, i: nat, j: nat)
    ensures Power(base, i + j) == Power(base, i) * Power(base, j)
  {
    if i > 0 {
      PowerAdd(base, i - 1, j);
      assert Power(base, i + j) == base * Power(base, i - 1 + j);
      MulAssoc(base, Power(base, i - 1), Power(base, j));
    }
  }

  // ----- a format means the same wherever it stands -----

  lemma {:induction false} ShiftBlanks(pre: string, s: string, i: nat)
    requires i <= |s|
    ensures SkipBlanks(pre + s, |pre| + i) == |pre| + SkipBlanks(s, i)
    decreases |s| - i
  {
    if i < |s| && IsBlank(s[i]) {
      ShiftBlanks(pre, s, i + 1);
    }
  }

  lemma {:induction false} ShiftDigits(pre: string, s: string, i: nat)
    requires i <= |s|
    ensures DigitsEnd(pre + s, |pre| + i) == |pre| + DigitsEnd(s, i)
    ensures NumberAt(pre + s, |pre| + i) == NumberAt(s, i)
    decreases |s| - i
  {
    if i < |s| && IsDigit(s[i]) {
      ShiftDigits(pre, s, i + 1);
    }
    var e := DigitsEnd(s, i);
    assert (pre + s)[|pre| + i..|pre| + e] == s[i..e];
  }

  lemma ShiftAtol(pre: string, s: string, i: nat)
    requires i <= |s|
    ensures Atol(pre + s, |pre| + i) == Atol(s, i)
    ensures WidthLength(pre + s, |pre| + i) == WidthLength(s, i)
  {
    hide NumberAt, SkipBlanks, DigitsEnd;
    ShiftAt(pre, s, i);
    ShiftDigits(pre, s, i);
    if i < |s| {
      ShiftDigits(pre, s, i + 1);
    }
    ShiftBlanks(pre, s, i);
    var j := SkipBlanks(s, i);
    ShiftAt(pre, s, j);
    ShiftDigits(pre, s, j);
    if j < |s| {
      ShiftDigits(pre, s, j + 1);
    }
  }

  lemma ShiftAt(pre: string, s: string, i: nat)
    requires i <= |s|
    ensures At(pre + s, |pre| + i) == At(s, i)
  {
  }

  lemma {:induction false} ShiftParse(pre: string, fmt: string, i: nat, props: Props, long: nat)
    requires i <= |fmt|
    ensures Parse(pre + fmt, |pre| + i, props, long) ==
            match Parse(fmt, i, props, long)
            case None => None
            case Some((p, l, j)) => Some((p, l, |pre| + j))
    decreases |fmt| - i
  {
    hide Atol, WidthLength;
    if i < |fmt| {
      var c := fmt[i];
      ShiftAtol(pre, fmt, i);
      ShiftAtol(pre, fmt, i + 1);
      WidthMoves(fmt, i);
      WidthMoves(fmt, i + 1);
      if c == '#' {
        ShiftParse(pre, fmt, i + 1, props.(alternate := true), long);
      } else if c == '0' {
        ShiftParse(pre, fmt, i + 1 + WidthLength(fmt, i + 1), props.(pad := '0', npad := Atol(fmt, i + 1)), long);
      } else if '1' <= c <= '9' || c == '-' {
        ShiftParse(pre, fmt, i + WidthLength(fmt, i), props.(npad := Atol(fmt, i)), long);
      } else if c == 'l' {
        ShiftParse(pre, fmt, i + 1, props, long + 1);
      } else if c == 't' || c == 'z' {
        ShiftParse(pre, fmt, i + 1, props, 1);
      }
    }
  }

  lemma WidthMoves(fmt: string, i: nat)
    requires i <= |fmt|
    ensures i + WidthLength(fmt, i) <= |fmt|
    ensures '1' <= At(fmt, i) <= '9' || At(fmt, i) == '-' ==> WidthLength(fmt, i) > 0
  {
  }

  lemma {:induction false} ShiftIdeal(pre: string, fmt: string, i: nat, args: seq<Arg>, k: nat)
    requires i <= |fmt|
    ensures Ideal(pre + fmt, |pre| + i, args, k) == Ideal(fmt, i, args, k)
    decreases |fmt| - i
  {
    hide Parse, Convert;
    if i < |fmt| {
      if fmt[i] != '%' {
        ShiftIdeal(pre, fmt, i + 1, args, k);
      } else {
        ShiftParse(pre, fmt, i + 1, NoProps, 0);
        if Parse(fmt, i + 1, NoProps, 0).Some? {
          var (props, long, j) := Parse(fmt, i + 1, NoProps, 0).value;
          ParseAdvances(fmt, i + 1, NoProps, 0);
          if Convert(At(fmt, j), props, long, args, k).Some? {
            var k' := Convert(At(fmt, j), props, long, args, k).value.1;
            ShiftIdeal(pre, fmt, if j < |fmt| then j + 1 else j, args, k');
          }
        }
      }
    }
  }

  /** Text without percent signs in front of a format comes out in front of its output. */
  lemma {:induction false} LiteralPrefix(pre: string, fmt: string, args: seq<Arg>, k: nat, i: nat)
    requires '%' !in pre && i <= |pre|
    ensures Ideal(pre + fmt, i, args, k) == Prepend(pre[i..], Ideal(fmt, 0, args, k))
    decreases |pre| - i
  {
    if i < |pre| {
      LiteralPrefix(pre, fmt, args, k, i + 1);
      assert pre[i..] == [pre[i]] + pre[i + 1..];
      PrependTwice([pre[i]], pre[i + 1..], Ideal(fmt, 0, args, k));
    } else {
      assert pre[i..] == "";
      assert Ideal(pre + fmt, |pre| + 0, args, k) == Ideal(fmt, 0, args, k) by { ShiftIdeal(pre, fmt, 0, args, k); }
      PrependNothing(Ideal(fmt, 0, args, k));
    }
  }

  lemma PrependTwice(a: string, b: string, rest: Option<string>)
    ensures Prepend(a, Prepend(b, rest)) == Prepend(a + b, rest)
  {
    if rest.Some? {
      assert a + (b + rest.value) == a + b + rest.value;
    }
  }

  lemma PrependNothing(rest: Option<string>)
    ensures Prepend("", rest) == rest
  {
    if rest.Some? {
      assert "" + rest.value == rest.value;
    }
  }

  lemma NoPadding(s: string)
    ensures Padded(s, NoProps.(pad := '0')) == Padded(s, NoProps.(npad := 0)) == s
  {
  }

  /** A decimal directive whose width was printed by the kernel itself, followed by any more
      format: the number padded to that width, then the rest. */
  lemma WidthDirective(width: int, w: word, rest: string, args: seq<Arg>)
    requires Fits(width) && Fits(Signed(w))
    ensures Ideal("%" + IntText(width) + "d" + rest, 0, [Word(w)] + args, 0) ==
            Prepend(Padded(IntText(Signed(w)), NoProps.(npad := width)), Ideal(rest, 0, [Word(w)] + args, 1))
  {
    hide Parse, Padded, IntText, ValueOf, Atol;
    var tail := IntText(width) + ['d'] + rest;
    var fmt := "%" + IntText(width) + "d" + rest;
    assert fmt == "%" + tail;
    WidthRoundTrip(width, 'd', rest);
    NoPadding(IntText(Signed(w)));
    ShiftParse("%", tail, 0, NoProps, 0);
    var head := "%" + IntText(width) + "d";
    assert fmt == head + rest;
    assert fmt[|head| - 1] == 'd';
    ShiftIdeal(head, rest, 0, [Word(w)] + args, 1);
  }

  // ----- formats one after the other -----

  /** The output of a format whose directives all end inside it, from position i on, and the
      number of arguments used up at its end. */
  function Piece(fmt: string, i: nat, args: seq<Arg>, k: nat): Option<(string, nat)>
    requires i <= |fmt|
    decreases |fmt| - i
  {
    if i == |fmt| then Some(("", k))
    else if fmt[i] != '%' then Before([fmt[i]], Piece(fmt, i + 1, args, k))
    else
      match Parse(fmt, i + 1, NoProps, 0)
      case None => None
      case Some((props, long, j)) =>
        ParseAdvances(fmt, i + 1, NoProps, 0);
        if j == |fmt| then None
        else
          match Convert(fmt[j], props, long, args, k)
          case None => None
          case Some((text, k')) => Before(text, Piece(fmt, j + 1, args, k'))
  }

  function Before(s: string, rest: Option<(string, nat)>): Option<(string, nat)> {
    match rest
    case None => None
    case Some((t, k)) => Some((s + t, k))
  }

  /** The directive at position i has its 0 flag right in front of a blank or a plus sign. That is
      its conversion character, but atol skips it and reads a number behind it. */
  predicate ZeroBeforeBlank(fmt: string, i: nat)
    requires i <= |fmt|
    decreases |fmt| - i
  {
    var c := At(fmt, i);
    if i == |fmt| then false
    else if c == '#' || c == 'l' || c == 't' || c == 'z' then ZeroBeforeBlank(fmt, i + 1)
    else if c == '0' then
      IsBlank(At(fmt, i + 1)) || At(fmt, i + 1) == '+' || ZeroBeforeBlank(fmt, i + 1 + WidthLength(fmt, i + 1))
    else if '1' <= c <= '9' || c == '-' then
      WidthMoves(fmt, i);
      ZeroBeforeBlank(fmt, i + WidthLength(fmt, i))
    else false
  }

  /** In front of b, some such directive of a reads on into b a number that does not fit. */
  ghost predicate Overreads(a: string, b: string, i: nat)
    requires i <= |a|
    decreases |a| - i
  {
    if i == |a| then false
    else if a[i] != '%' then Overreads(a, b, i + 1)
    else
      match Parse(a, i + 1, NoProps, 0)
      case None => false
      case Some((_, _, j)) =>
        ParseAdvances(a, i + 1, NoProps, 0);
        j < |a| && ((ZeroBeforeBlank(a, i + 1) && !Fits(Atol(a + b, j))) || Overreads(a, b, j + 1))
  }

  lemma {:induction false} DigitsExtend(a: string, b: string, i: nat)
    requires i <= |a| && DigitsEnd(a, i) < |a|
    ensures DigitsEnd(a + b, i) == DigitsEnd(a, i) && NumberAt(a + b, i) == NumberAt(a, i)
    decreases |a| - i
  {
    if IsDigit(a[i]) {
      DigitsExtend(a, b, i + 1);
    }
    var e := DigitsEnd(a, i);
    assert (a + b)[i..e] == a[i..e];
  }

  /** A width that ends inside a means the same in front of b. */
  lemma WidthExtends(a: string, b: string, i: nat)
    requires i < |a| && i + WidthLength(a, i) < |a|
    ensures WidthLength(a + b, i) == WidthLength(a, i)
    ensures !IsBlank(a[i]) && a[i] != '+' ==> Atol(a + b, i) == Atol(a, i)
  {
    hide NumberAt, DigitsEnd;
    assert At(a + b, i) == At(a, i) == a[i];
    DigitsExtend(a, b, if a[i] == '-' then i + 1 else i);
  }

  lemma {:induction false} ParseExtends(a: string, b: string, i: nat, props: Props, long: nat)
    requires i <= |a| && Parse(a, i, props, long).Some? && Parse(a, i, props, long).value.2 < |a|
    ensures var (p, l, j) := Parse(a, i, props, long).value;
            && (ZeroBeforeBlank(a, i) ==> IsBlank(a[j]) || a[j] == '+')
            && Parse(a + b, i, props, long) ==
               if ZeroBeforeBlank(a, i) && !Fits(Atol(a + b, j)) then None
               else Some((if ZeroBeforeBlank(a, i) then p.(npad := Atol(a + b, j)) else p, l, j))
    decreases |a| - i
  {
    hide Atol, WidthLength;
    ParseAdvances(a, i, props, long);
    var c := a[i];
    assert (a + b)[i] == c;
    if c == '#' {
      ParseExtends(a, b, i + 1, props.(alternate := true), long);
    } else if c == '0' {
      ZeroFlagExtends(a, b, i, props, long);
    } else if '1' <= c <= '9' || c == '-' {
      WidthMoves(a, i);
      ParseAdvances(a, i + WidthLength(a, i), props.(npad := Atol(a, i)), long);
      WidthExtends(a, b, i);
      ParseExtends(a, b, i + WidthLength(a, i), props.(npad := Atol(a, i)), long);
    } else if c == 'l' {
      ParseExtends(a, b, i + 1, props, long + 1);
    } else if c == 't' || c == 'z' {
      ParseExtends(a, b, i + 1, props, 1);
    }
  }

  /** What the parser does at a 0 flag, and at a blank or a plus sign. */
  lemma ParseZero(fmt: string, i: nat, props: Props, long: nat)
    requires i < |fmt| && fmt[i] == '0'
    ensures i + 1 + WidthLength(fmt, i + 1) <= |fmt|
    ensures Parse(fmt, i, props, long) ==
            if !Fits(Atol(fmt, i + 1)) then None
            else Parse(fmt, i + 1 + WidthLength(fmt, i + 1), props.(pad := '0', npad := Atol(fmt, i + 1)), long)
    ensures ZeroBeforeBlank(fmt, i) <==>
            || IsBlank(At(fmt, i + 1)) || At(fmt, i + 1) == '+'
            || ZeroBeforeBlank(fmt, i + 1 + WidthLength(fmt, i + 1))
  {
    hide Atol;
    WidthMoves(fmt, i + 1);
  }

  lemma ParseStops(fmt: string, i: nat, props: Props, long: nat)
    requires i < |fmt| && (IsBlank(fmt[i]) || fmt[i] == '+')
    ensures Parse(fmt, i, props, long) == Some((props, long, i)) && WidthLength(fmt, i) == 0
  {
  }

  lemma ZeroFlagExtends(a: string, b: string, i: nat, props: Props, long: nat)
    requires i < |a| && a[i] == '0'
    requires Parse(a, i, props, long).Some? && Parse(a, i, props, long).value.2 < |a|
    ensures var (p, l, j) := Parse(a, i, props, long).value;
            && (ZeroBeforeBlank(a, i) ==> IsBlank(a[j]) || a[j] == '+')
            && Parse(a + b, i, props, long) ==
               if ZeroBeforeBlank(a, i) && !Fits(Atol(a + b, j)) then None
               else Some((if ZeroBeforeBlank(a, i) then p.(npad := Atol(a + b, j)) else p, l, j))
    decreases |a| - i, 0
  {
    hide Atol, Parse, ZeroBeforeBlank, WidthLength;
    ParseZero(a, i, props, long);
    var n := i + 1 + WidthLength(a, i + 1);
    var props' := props.(pad := '0', npad := Atol(a, i + 1));
    ParseAdvances(a, n, props', long);
    assert (a + b)[i] == '0' && (a + b)[i + 1] == a[i + 1];
    ParseZero(a + b, i, props, long);
    if IsBlank(a[i + 1]) || a[i + 1] == '+' {
      ParseStops(a, i + 1, props', long);
      ParseStops(a + b, i + 1, props.(pad := '0', npad := Atol(a + b, i + 1)), long);
    } else {
      WidthExtends(a, b, i + 1);
      ParseExtends(a, b, n, props', long);
    }
  }

  /** Formats compose: when all directives of a end inside it, the output of a followed by b is the
      output of a and then that of b, from the argument a stopped at. The one exception is a 0
      flag in front of a blank or a plus sign behind which atol finds, reaching into b, a
      number that does not fit; then the whole has no meaning. */
  lemma {:induction false} Joined(a: string, b: string, i: nat, args: seq<Arg>, k: nat)
    requires i <= |a| && Piece(a, i, args, k).Some?
    ensures var (text, k') := Piece(a, i, args, k).value;
            Ideal(a + b, i, args, k) == if Overreads(a, b, i) then None else Prepend(text, Ideal(b, 0, args, k'))
    decreases |a| - i
  {
    hide Parse, Convert, Atol;
    if i == |a| {
      assert Ideal(a + b, |a| + 0, args, k) == Ideal(b, 0, args, k) by { ShiftIdeal(a, b, 0, args, k); }
      PrependNothing(Ideal(b, 0, args, k));
    } else if a[i] != '%' {
      Joined(a, b, i + 1, args, k);
      var (text, k') := Piece(a, i + 1, args, k).value;
      PrependTwice([a[i]], text, Ideal(b, 0, args, k'));
    } else {
      JoinedDirective(a, b, i, args, k);
    }
  }

  lemma JoinedDirective(a: string, b: string, i: nat, args: seq<Arg>, k: nat)
    requires i < |a| && a[i] == '%' && Piece(a, i, args, k).Some?
    ensures var (text, k') := Piece(a, i, args, k).value;
            Ideal(a + b, i, args, k) == if Overreads(a, b, i) then None else Prepend(text, Ideal(b, 0, args, k'))
    decreases |a| - i, 0
  {
    hide Parse, Convert, Atol;
    var (props, long, j) := Parse(a, i + 1, NoProps, 0).value;
    ParseAdvances(a, i + 1, NoProps, 0);
    ParseExtends(a, b, i + 1, NoProps, 0);
    SameText(a[j], props, props.(npad := Atol(a + b, j)), long, args, k);
    assert (a + b)[i] == '%' && At(a + b, j) == a[j];
    var (text, k1) := Convert(a[j], props, long, args, k).value;
    Joined(a, b, j + 1, args, k1);
    var (rest, k') := Piece(a, j + 1, args, k1).value;
    PrependTwice(text, rest, Ideal(b, 0, args, k'));
  }

  /** What a conversion character puts out that is no conversion does not depend on the padding. */
  lemma SameText(conv: char, props: Props, props': Props, long: nat, args: seq<Arg>, k: nat)
    ensures IsBlank(conv) || conv == '+' ==>
              Convert(conv, props, long, args, k) == Convert(conv, props', long, args, k) == Some(([conv], k))
  {
  }

  /** The exception occurs: "%0 " puts out a blank, but in front of a number it does so only when
      the number fits an int. */
  lemma BlankBeforeNumber(n: nat)
    ensures Piece("%0 ", 0, [], 0) == Some((" ", 0)) && Ideal(IntText(n), 0, [], 0) == Some(IntText(n))
    ensures Ideal("%0 " + IntText(n), 0, [], 0) == if Fits(n) then Some(" " + IntText(n)) else None
  {
    hide ValueOf, IntText, Convert;
    var a, b := "%0 ", IntText(n);
    MagnitudeFacts(n);
    assert b == Magnitude(n) by { assert "" + Magnitude(n) == Magnitude(n); }
    PlainFormat(b, 0, [], 0);
    assert b[0..] == b;
    assert a[3..3] == "";
    assert Atol(a, 2) == 0 by { EmptyNumber(); }
    assert Parse(a, 1, NoProps, 0) == Some((NoProps.(pad := '0'), 0, 2));
    SameText(' ', NoProps.(pad := '0'), NoProps, 0, [], 0);
    assert Piece(a, 3, [], 0) == Some(("", 0));
    assert [' '] + "" == " ";
    assert Piece(a, 0, [], 0) == Before([' '], Piece(a, 3, [], 0));
    NumberBehindBlank(a, b);
    assert Overreads(a, b, 0) <==> !Fits(n);
    Joined(a, b, 0, [], 0);
  }

  lemma EmptyNumber()
    ensures ValueOf("", 10) == 0
  {
  }

  lemma NumberBehindBlank(a: string, b: string)
    requires a == "%0 " && b != "" && forall t :: 0 <= t < |b| ==> IsDigit(b[t])
    ensures Atol(a + b, 2) == ValueOf(b, 10)
  {
    hide ValueOf;
    ShiftDigits(a, b, 0);
    assert DigitsEnd(b, 0) == |b|;
    assert b[0..|b|] == b;
    assert (a + b)[2] == ' ' && (a + b)[3] == b[0];
    assert SkipBlanks(a + b, 2) == 3;
  }

  /** What a directive without flags puts out for one word. */
  function Output(conv: char, w: word): Option<string> {
    Ideal(['%', conv], 0, [Word(w)], 0)
  }

  /** What the plain directives put out can be read back as the argument, for every word; d has
      no meaning for the most negative integer only. The output of p is that of x behind 0x
      except for 0, where there is no 0x. */
  lemma PlainDirectives(w: word)
    ensures Output('d', w).Some? <==> Fits(Signed(w))
    ensures Output('d', w).Some? ==> Atol(Output('d', w).value, 0) == Signed(w)
    ensures Output('u', w).Some? && ValueOf(Output('u', w).value, 10) == w
    ensures Output('x', w).Some? && ValueOf(Output('x', w).value, 16) == w
    ensures Output('p', w) == Prepend("0x", Output('x', w)) <==> w != 0
    ensures Output('p', 0) == Output('x', 0) == Some("0")
  {
    hide ValueOf, Atol, Digits, IntText, Output, Padded;
    Directive('d', w);
    Directive('u', w);
    Directive('x', w);
    Directive('p', w);
    Directive('x', 0);
    Directive('p', 0);
    Unpadded("0");
    Unpadded(IntText(Signed(w)));
    PrintParse(Signed(w), NoProps);
    ZeroText();
    DigitsRoundTrip(w, 10);
    DigitsRoundTrip(w, 16);
    Unpadded(Digits(w, 10));
    Unpadded(Digits(w, 16));
    Unpadded("0x" + Digits(w, 16));
    assert Prepend("0x", Some("0")) == Some("0x" + "0") != Some("0");
  }

  /** The 64-bit number of two words, low word first. */
  function Signed64(low: word, high: word): int {
    Signed(high) * 0x1_0000_0000 + low
  }

  /** %lld puts out the low word alone: the number is right exactly when the high word only
      repeats its sign. */
  lemma LongLong(low: word, high: word)
    requires Fits(Signed(low))
    ensures Ideal("%lld", 0, [Word(low), Word(high)], 0) == Output('d', low)
    ensures Output('d', low).Some?
    ensures Atol(Output('d', low).value, 0) == Signed64(low, high) <==>
            high == if Signed(low) < 0 then 0xFFFF_FFFF else 0
  {
    hide ValueOf, Atol, IntText, Output, Padded;
    PlainDirectives(low);
    Directive('d', low);
    var fmt, args := "%lld", [Word(low), Word(high)];
    assert Parse(fmt, 3, NoProps, 2) == Some((NoProps, 2, 3));
    assert Parse(fmt, 2, NoProps, 1) == Some((NoProps, 2, 3));
    assert Parse(fmt, 1, NoProps, 0) == Some((NoProps, 2, 3));
    assert Ideal(fmt, 4, args, 2) == Some("");
    var text := Padded(IntText(Signed(low)), NoProps);
    assert text + "" == text;
  }

  lemma ZeroText()
    ensures ValueOf("0", 10) == 0 && ValueOf("0", 16) == 0
  {
  }

  lemma Unpadded(s: string)
    ensures Padded(s, NoProps) == s && Padded(s, NoProps.(alternate := true)) == s
  {
  }

  lemma Directive(c: char, w: word)
    requires c in "dupx"
    ensures Output(c, w) ==
            match Convert(c, NoProps, 0, [Word(w)], 0)
            case None => None
            case Some((text, _)) => Some(text)
  {
    hide Padded, IntText, UnsignedText;
    var fmt := ['%', c];
    assert Parse(fmt, 1, NoProps, 0) == Some((NoProps, 0, 1));
    if Convert(c, NoProps, 0, [Word(w)], 0).Some? {
      var text := Convert(c, NoProps, 0, [Word(w)], 0).value.0;
      assert Ideal(fmt, 2, [Word(w)], 1) == Some("");
      assert text + "" == text;
    }
  }
}
