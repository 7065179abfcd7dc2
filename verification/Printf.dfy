/**
 What lib/libc/printf.c prints: the digit generator, a field with its padding, and the
 character-driven format machine, as functions.
 */
module Printf {
  import opened Wrappers

  const NUMERALS := "0123456789abcdef"

  function Repeat(c: char, n: nat): (s: string)
    ensures |s| == n && forall i :: 0 <= i < n ==> s[i] == c
  {
    seq(n, _ => c)
  }

  // ----- digits ----------------------------------------------------------------------------

  /** pr->base is only ever set to these. */
  predicate IsBase(base: nat) { base == 10 || base == 16 }

  function Numeral(d: nat): char
    requires d < 16
  {
    NUMERALS[d]
  }

  /** The digits the loop of printf_do_uint produces; none for 0. */
  function Digits(value: nat, base: nat): string
    requires IsBase(base)
  {
    if value == 0 then "" else Digits(value / base, base) + [Numeral(value % base)]
  }

  function DigitValue(c: char): nat {
    if '0' <= c <= '9' then (c as int) - ('0' as int) else if 'a' <= c <= 'f' then (c as int) - ('a' as int) + 10 else 0
  }

  /** Reading a numeral: most significant digit first. */
  function Parse(s: string, base: nat): nat {
    if s == "" then 0 else Parse(s[..|s| - 1], base) * base + DigitValue(s[|s| - 1])
  }

  /** The text reads back as the value. */
  lemma {:induction false} ParseDigits(value: nat, base: nat)
    requires IsBase(base)
    ensures Parse(Digits(value, base), base) == value
  {
    hide DigitValue, Numeral;
    if value > 0 {
      ParseDigits(value / base, base);
      ParseAppend(Digits(value / base, base), Numeral(value % base), base);
      LastDigit(value, base);
    }
  }

  lemma ParseAppend(s: string, c: char, base: nat)
    ensures Parse(s + [c], base) == Parse(s, base) * base + DigitValue(c)
  {
    assert (s + [c])[..|s|] == s;
  }

  lemma LastDigit(value: nat, base: nat)
    requires IsBase(base)
    ensures value / base * base + DigitValue(Numeral(value % base)) == value
  {
    NumeralValue(value % base);
    if base == 10 {
      assert value / 10 * 10 + value % 10 == value;
    } else {
      assert value / 16 * 16 + value % 16 == value;
    }
  }

  lemma NumeralValue(d: nat)
    requires d < 16
    ensures DigitValue(Numeral(d)) == d
  {
  }

  predicate IsNumeral(c: char) { '0' <= c <= '9' || 'a' <= c <= 'f' }

  /** No leading zero, and only numerals: no NUL, sign or space. */
  lemma {:induction false} DigitsAreNumerals(value: nat, base: nat)
    requires IsBase(base)
    ensures var s := Digits(value, base);
            (value == 0 <==> s == "") && (s != "" ==> s[0] != '0') && forall i :: 0 <= i < |s| ==> IsNumeral(s[i])
  {
    hide Numeral, IsNumeral;
    if value > 0 {
      DigitsAreNumerals(value / base, base);
      NumeralIsNumeral(value % base);
      SmallValue(value, base);
    }
  }

  lemma NumeralIsNumeral(d: nat)
    requires d < 16
    ensures IsNumeral(Numeral(d)) && (Numeral(d) == '0' <==> d == 0)
  {
  }

  lemma SmallValue(value: nat, base: nat)
    requires IsBase(base)
    ensures value / base == 0 ==> value % base == value
  {
    if base == 10 {
      assert value / 10 == 0 ==> value % 10 == value;
    } else {
      assert value / 16 == 0 ==> value % 16 == value;
    }
  }

  function Power(base: nat, n: nat): nat { if n == 0 then 1 else base * Power(base, n - 1) }

  /** At most n digits exactly below base to the n. */
  lemma {:induction false} DigitsLength(value: nat, base: nat, n: nat)
    requires IsBase(base)
    ensures |Digits(value, base)| <= n <==> value < Power(base, n)
  {
    PowerPositive(base, n);
    if value > 0 && n > 0 {
      QuotientBound(value, base, Power(base, n - 1));
      DigitsLength(value / base, base, n - 1);
    }
  }

  lemma {:induction false} PowerPositive(base: nat, n: nat)
    requires IsBase(base)
    ensures Power(base, n) > 0
  {
    if n > 0 {
      PowerPositive(base, n - 1);
    }
  }

  lemma QuotientBound(value: nat, base: nat, p: nat)
    requires IsBase(base)
    ensures value / base < p <==> value < base * p
  {
    if base == 10 {
      assert value / 10 < p <==> value < 10 * p;
    } else {
      assert value / 16 < p <==> value < 16 * p;
    }
  }

  /** 20 decimal digits and a NUL fill the 21 bytes of printf_do_uint exactly: the largest
      64-bit value has 20. */
  lemma DigitsFit(value: nat, base: nat)
    requires value < WORD && IsBase(base)
    ensures |Digits(value, base)| <= 20 && (base == 10 && value == WORD - 1 ==> |Digits(value, base)| == 20)
  {
    if base == 10 {
      assert Power(10, 5) == 100000 && Power(10, 4) == 10000;
      PowerAdd(10, 5, 5);
      PowerAdd(10, 10, 10);
      PowerAdd(10, 5, 4);
      PowerAdd(10, 10, 9);
      DigitsLength(value, 10, 19);
    } else {
      assert Power(16, 4) == 65536;
      PowerAdd(16, 4, 4);
      PowerAdd(16, 8, 8);
      PowerAdd(16, 4, 16);
    }
    DigitsLength(value, base, 20);
  }

  lemma {:induction false} PowerAdd(base: nat, m: nat, n: nat)
    ensures Power(base, m + n) == Power(base, m) * Power(base, n)
  {
    if m > 0 {
      PowerAdd(base, m - 1, n);
      Associates(base, Power(base, m - 1), Power(base, n));
    }
  }

  lemma Associates(a: nat, b: nat, c: nat)
    ensures a * (b * c) == a * b * c
  {
  }

  /** Printing loses nothing: different values print differently. */
  lemma DigitsInjective(a: nat, b: nat, base: nat)
    requires IsBase(base) && Digits(a, base) == Digits(b, base)
    ensures a == b
  {
    ParseDigits(a, base);
    ParseDigits(b, base);
  }

  /** The value with its last i digits dropped. */
  function Dropped(value: nat, base: nat, i: nat): nat
    requires IsBase(base)
  {
    if i == 0 then value else Dropped(value / base, base, i - 1)
  }

  /** The i-th digit from the right is the remainder of what is left of the value: the characters
      0 to 9, which are 48 to 57, and a to f, which are 97 to 102. */
  lemma {:induction false} DigitAt(value: nat, base: nat, i: nat)
    requires IsBase(base) && i < |Digits(value, base)|
    ensures var d := Dropped(value, base, i) % base;
            Digits(value, base)[|Digits(value, base)| - 1 - i] as int == if d < 10 then 48 + d else 87 + d
  {
    hide Numeral, Dropped, Digits;
    LastOf(value, base);
    DropOne(value, base, i);
    if i == 0 {
      NumeralIs(value % base);
    } else {
      DigitAt(value / base, base, i - 1);
    }
  }

  lemma LastOf(value: nat, base: nat)
    requires IsBase(base)
    ensures Digits(value, base) == if value == 0 then "" else Digits(value / base, base) + [Numeral(value % base)]
  {
  }

  lemma DropOne(value: nat, base: nat, i: nat)
    requires IsBase(base)
    ensures Dropped(value, base, i) == if i == 0 then value else Dropped(value / base, base, i - 1)
  {
  }

  lemma NumeralIs(d: nat)
    requires d < 16
    ensures Numeral(d) as int == if d < 10 then 48 + d else 87 + d
  {
  }

  // ----- fields ----------------------------------------------------------------------------

  datatype Format = Format(
    inFmt: bool,
    basePrefix: bool,
    base: nat,
    width: nat,
    precision: nat,
    inPrecision: bool,
    zeroPad: bool,
    rightPad: bool)

  predicate IsFormat(f: Format) { f.width < WORD && f.precision < WORD }

  function Fill(f: Format, what: string): nat {
    if |what| < f.precision then f.precision - |what| else 0
  }

  function TotalLength(f: Format, prefix1: string, prefix2: string, what: string): nat {
    (|prefix1| + |prefix2| + |what| + Fill(f, what)) % WORD
  }

  function LeftPad(f: Format, total: nat): string {
    Repeat(if f.zeroPad then '0' else ' ', if total < f.width && !f.rightPad then f.width - total else 0)
  }

  /** The subtraction is unsigned and unguarded. */
  function RightPad(f: Format, total: nat): string
    requires total < WORD
  {
    Repeat(' ', if f.rightPad then (f.width + WORD - total) % WORD else 0)
  }

  /** printf_do_print. */
  function Field(f: Format, prefix1: string, prefix2: string, what: string): string {
    var total := TotalLength(f, prefix1, prefix2, what);
    LeftPad(f, total) + prefix1 + prefix2 + Repeat('0', Fill(f, what)) + what + RightPad(f, total)
  }

  /** Any field: at most one side is padded.  On the left it is made up to the width; on the right
      its length is the width modulo 2^64, so that a field longer than its width is padded too. */
  lemma FieldShape(f: Format, prefix1: string, prefix2: string, what: string) returns (left: nat, right: nat)
    requires f.width < 0x1_0000_0000_0000_0000
    ensures var zeros := if |what| < f.precision then f.precision - |what| else 0;
            var length := |prefix1| + |prefix2| + zeros + |what|;
            && Field(f, prefix1, prefix2, what) ==
               Repeat(if f.zeroPad then '0' else ' ', left) + prefix1 + prefix2 + Repeat('0', zeros) + what
               + Repeat(' ', right)
            && (f.rightPad ==> left == 0 && right < 0x1_0000_0000_0000_0000
                               && (length + right) % 0x1_0000_0000_0000_0000 == f.width)
            && (!f.rightPad ==> right == 0 && var n := length % 0x1_0000_0000_0000_0000;
                                              left == if n < f.width then f.width - n else 0)
  {
    var total := TotalLength(f, prefix1, prefix2, what);
    left := |LeftPad(f, total)|;
    right := |RightPad(f, total)|;
    assert RightPad(f, total) == Repeat(' ', right);
    assert LeftPad(f, total) == Repeat(if f.zeroPad then '0' else ' ', left);
    WrapsAround(|prefix1| + |prefix2| + |what| + Fill(f, what), f.width);
    hide Repeat;
  }

  lemma WrapsAround(length: nat, width: nat)
    requires width < WORD
    ensures (length + (width + WORD - length % WORD) % WORD) % WORD == width
  {
    var k, n := length / WORD, length % WORD;
    var d := width + WORD - n;
    var r := if d < WORD then d else d - WORD;
    assert d % WORD == r;
    assert length + r == (if d < WORD then k + 1 else k) * WORD + width;
  }

  function UintField(f: Format, value: nat, sign: string): string
    requires IsBase(f.base)
  {
    Field(f, sign, if f.basePrefix && f.base == 16 then "0x" else "", Digits(value, f.base))
  }

  /** Negation wraps for the least long long, and the cast makes it 2^63. */
  function IntField(f: Format, v: int): string
    requires IsBase(f.base)
  {
    if v < 0 then UintField(f, -v, "-") else UintField(f, v, "")
  }

  // ----- the format machine ---------------------------------------------------------------

  datatype Arg = Int(v: int) | Pointer(p: nat) | Text(s: string)

  predicate IsArg(a: Arg) {
    match a
    case Int(v) => -0x8000_0000_0000_0000 <= v < 0x8000_0000_0000_0000
    case Pointer(p) => p < WORD
    case Text(s) => '\0' !in s && |s| < WORD
  }

  /** How generic_printf starts: everything it does not name is zero. */
  const IDLE := Format(false, false, 0, 0, 0, false, false, false)

  /** printf_begin_fmt. */
  const BEGIN := Format(true, false, 10, 0, 1, false, false, false)

  /** The state after a character, what it printed, and how many arguments it took; Undefined
      where va_arg has no argument of the right type to read. */
  datatype Stepped = Stepped(state: Format, out: string, used: nat) | Undefined

  function Digit(f: Format, c: char): Format
    requires '0' <= c <= '9'
  {
    if f.inPrecision then f.(precision := (f.precision * 10 + DigitValue(c)) % WORD)
    else if f.width == 0 && c == '0' then f.(zeroPad := true)
    else f.(width := (f.width * 10 + DigitValue(c)) % WORD)
  }

  /** printf_step. */
  function Step(f: Format, c: char, args: seq<Arg>): Stepped {
    if !f.inFmt then
      if c == '%' then Stepped(BEGIN, "", 0) else Stepped(f, [c], 0)
    else if c == '#' then Stepped(f.(basePrefix := true), "", 0)
    else if c == '-' then Stepped(f.(rightPad := true), "", 0)
    else if '0' <= c <= '9' then Stepped(Digit(f, c), "", 0)
    else if c == '.' then Stepped(f.(precision := 0, inPrecision := true), "", 0)
    else if c == 'd' then
      var g := f.(base := 10);
      if args != [] && args[0].Int? then Stepped(g.(inFmt := false), IntField(g, args[0].v), 1) else Undefined
    else if c == 'p' then
      if args == [] || !args[0].Pointer? then Undefined
      else if args[0].p == 0 then Stepped(f.(inFmt := false), Field(f, "", "", "(null)"), 1)
      else
        var g := f.(basePrefix := true, base := 16);
        Stepped(g.(inFmt := false), UintField(g, args[0].p, ""), 1)
    else if c == 'x' then
      var g := f.(base := 16);
      if args != [] && args[0].Int? then Stepped(g.(inFmt := false), IntField(g, args[0].v), 1) else Undefined
    else if c == 's' then
      if args != [] && args[0].Text? then Stepped(f.(inFmt := false), Field(f, "", "", args[0].s), 1) else Undefined
    else Stepped(f, [c], 0)
  }

  datatype Printed = Printed(state: Format, out: string, rest: seq<Arg>) | NotDefined

  /** The loop of generic_printf. */
  function Run(f: Format, fmt: string, args: seq<Arg>): Printed
    decreases |fmt|
  {
    if fmt == "" then Printed(f, "", args)
    else
      match Step(f, fmt[0], args)
      case Undefined => NotDefined
      case Stepped(f', out, used) =>
        if used > |args| then NotDefined
        else
          match Run(f', fmt[1..], args[used..])
          case NotDefined => NotDefined
          case Printed(f'', out', rest) => Printed(f'', out + out', rest)
  }

  lemma StepKeepsFormat(f: Format, c: char, args: seq<Arg>)
    requires IsFormat(f)
    ensures var r := Step(f, c, args); r.Stepped? ==> IsFormat(r.state) && r.used <= |args|
  {
  }

  // ----- what is printed holds no NUL ------------------------------------------------------

  lemma FieldHasNoNul(f: Format, prefix1: string, prefix2: string, what: string)
    requires '\0' !in prefix1 && '\0' !in prefix2 && '\0' !in what
    ensures '\0' !in Field(f, prefix1, prefix2, what)
  {
  }

  lemma UintFieldHasNoNul(f: Format, value: nat, sign: string)
    requires IsBase(f.base) && '\0' !in sign
    ensures '\0' !in UintField(f, value, sign)
  {
    hide Field;
    DigitsAreNumerals(value, f.base);
    FieldHasNoNul(f, sign, if f.basePrefix && f.base == 16 then "0x" else "", Digits(value, f.base));
  }

  lemma StepHasNoNul(f: Format, c: char, args: seq<Arg>)
    requires c != '\0' && forall i :: 0 <= i < |args| ==> IsArg(args[i])
    ensures Step(f, c, args).Stepped? ==> '\0' !in Step(f, c, args).out
  {
    hide Field, UintField;
    if f.inFmt && args != [] {
      var a := args[0];
      match a
      case Int(v) =>
        UintFieldHasNoNul(f.(base := if c == 'd' then 10 else 16), if v < 0 then -v else v, if v < 0 then "-" else "");
      case Pointer(p) =>
        FieldHasNoNul(f, "", "", "(null)");
        UintFieldHasNoNul(f.(basePrefix := true, base := 16), p, "");
      case Text(s) =>
        FieldHasNoNul(f, "", "", s);
    }
  }

  lemma {:induction false} RunHasNoNul(f: Format, fmt: string, args: seq<Arg>)
    requires '\0' !in fmt && forall i :: 0 <= i < |args| ==> IsArg(args[i])
    ensures Run(f, fmt, args).Printed? ==> '\0' !in Run(f, fmt, args).out
    decreases |fmt|
  {
    hide Step;
    if fmt != "" {
      StepHasNoNul(f, fmt[0], args);
      var r := Step(f, fmt[0], args);
      if r.Stepped? && r.used <= |args| {
        RunHasNoNul(r.state, fmt[1..], args[r.used..]);
      }
    }
  }

  /** Running over a concatenation is running over the parts. */
  lemma {:induction false} RunConcat(f: Format, a: string, b: string, args: seq<Arg>)
    ensures Run(f, a + b, args) ==
            match Run(f, a, args)
            case NotDefined => NotDefined
            case Printed(g, out, rest) =>
              match Run(g, b, rest)
              case NotDefined => NotDefined
              case Printed(h, out', rest') => Printed(h, out + out', rest')
    decreases |a|
  {
    hide Step;
    if a == "" {
      assert a + b == b;
    } else {
      assert (a + b)[0] == a[0] && (a + b)[1..] == a[1..] + b;
      var r := Step(f, a[0], args);
      if r.Stepped? && r.used <= |args| {
        RunConcat(r.state, a[1..], b, args[r.used..]);
        if Run(f, a, args).Printed? {
          var m := Run(r.state, a[1..], args[r.used..]);
          var e := Run(m.state, b, m.rest);
          assert e.Printed? ==> r.out + (m.out + e.out) == (r.out + m.out) + e.out;
        }
      }
    }
  }

  // ----- reading a printed integer back ----------------------------------------------------

  function Trimmed(s: string): string {
    if s != "" && s[|s| - 1] == ' ' then Trimmed(s[..|s| - 1]) else s
  }

  predicate IsLeading(s: string) { forall i :: 0 <= i < |s| ==> DigitValue(s[i]) == 0 }

  /** Padding, signs and `0x` in front count for nothing. */
  lemma {:induction false} ParseLeading(z: string, s: string, base: nat)
    requires IsLeading(z)
    ensures Parse(z + s, base) == Parse(s, base)
  {
    hide DigitValue;
    if s != "" {
      var n := |s| - 1;
      ParseLeading(z, s[..n], base);
      assert z + s == (z + s[..n]) + [s[n]];
      ParseAppend(z + s[..n], s[n], base);
    } else if z != "" {
      var n := |z| - 1;
      ParseLeading(z[..n], "", base);
      assert z == z[..n] + [z[n]] && z + s == z && z[..n] + "" == z[..n];
      ParseAppend(z[..n], z[n], base);
    } else {
      assert z + s == s;
    }
  }

  lemma {:induction false} TrimmedBody(body: string, n: nat)
    requires body != "" ==> body[|body| - 1] != ' '
    ensures Trimmed(body + Repeat(' ', n)) == body
  {
    if n == 0 {
      assert body + Repeat(' ', n) == body;
    } else {
      TrimmedBody(body, n - 1);
      assert (body + Repeat(' ', n))[..|body| + n - 1] == body + Repeat(' ', n - 1);
    }
  }

  lemma {:induction false} TrimmedIsPrefix(s: string)
    ensures Trimmed(s) <= s
  {
    if s != "" {
      TrimmedIsPrefix(s[..|s| - 1]);
    }
  }

  /** Without its trailing spaces a field of digits reads as the number they stand for. */
  lemma FieldReadsBack(f: Format, prefix1: string, prefix2: string, value: nat)
    requires IsBase(f.base) && IsLeading(prefix1) && IsLeading(prefix2)
    ensures Parse(Trimmed(Field(f, prefix1, prefix2, Digits(value, f.base))), f.base) == value
  {
    hide Field, Digits, DigitValue;
    var what := Digits(value, f.base);
    var front, n := FieldParts(f, prefix1, prefix2, what);
    var right := Repeat(' ', n);
    DigitsAreNumerals(value, f.base);
    ParseDigits(value, f.base);
    if what == "" {
      assert front + what + right == front + right;
      TrimmedIsPrefix(front + right);
      ParseLeading(Trimmed(front + right), "", f.base);
      assert Trimmed(front + right) + "" == Trimmed(front + right);
    } else {
      assert IsNumeral(what[|what| - 1]);
      TrimmedBody(front + what, n);
      ParseLeading(front, what, f.base);
    }
  }

  lemma FieldParts(f: Format, prefix1: string, prefix2: string, what: string) returns (front: string, n: nat)
    requires IsLeading(prefix1) && IsLeading(prefix2)
    ensures Field(f, prefix1, prefix2, what) == front + what + Repeat(' ', n) && IsLeading(front + Repeat(' ', n))
            && IsLeading(front)
  {
    var total := TotalLength(f, prefix1, prefix2, what);
    front := LeftPad(f, total) + prefix1 + prefix2 + Repeat('0', Fill(f, what));
    n := |RightPad(f, total)|;
    assert RightPad(f, total) == Repeat(' ', n);
  }

  lemma FieldHasMinus(f: Format, prefix1: string, prefix2: string, what: string)
    requires '-' !in prefix2 && '-' !in what
    ensures '-' in Field(f, prefix1, prefix2, what) <==> '-' in prefix1
  {
  }

  /** Under every format a printed integer tells its sign and its magnitude: also the least
      one, whose negation wraps. */
  lemma SignedReadsBack(f: Format, v: int)
    requires IsBase(f.base)
    ensures Parse(Trimmed(IntField(f, v)), f.base) == if v < 0 then -v else v
    ensures '-' in IntField(f, v) <==> v < 0
  {
    hide Field, Parse, Trimmed, Digits;
    var value, sign := if v < 0 then -v else v, if v < 0 then "-" else "";
    FieldReadsBack(f, sign, if f.basePrefix && f.base == 16 then "0x" else "", value);
    DigitsAreNumerals(value, f.base);
    FieldHasMinus(f, sign, if f.basePrefix && f.base == 16 then "0x" else "", Digits(value, f.base));
  }

  lemma SignedInjective(f: Format, v: int, w: int)
    requires IsBase(f.base) && IntField(f, v) == IntField(f, w)
    ensures v == w
  {
    hide IntField;
    SignedReadsBack(f, v);
    SignedReadsBack(f, w);
  }
}
