/**
 The printer against the standard: section 7.21.6.1 of ISO C11, for the integer conversions.
 For every directive and every argument, when the text is the standard's.
 */
module PrintfStandard {
  import opened Wrappers
  import opened Printf
  import opened PrintfDirectives

  /** The standard's field: at least `precision` digits (1 if none is given); then, up to the
      width, spaces on the right with '-', zeros between prefix and digits with '0' and no
      precision, spaces on the left otherwise. */
  function StandardField(width: nat, precision: Option<nat>, zero: bool, left: bool, prefix: string, digits: string)
    : string
  {
    var body := prefix + Repeat('0', StandardZeros(precision, digits)) + digits;
    var pad := if |body| < width then width - |body| else 0;
    if left then body + Repeat(' ', pad)
    else if zero && precision.None? then
      prefix + Repeat('0', pad) + Repeat('0', StandardZeros(precision, digits)) + digits
    else Repeat(' ', pad) + body
  }

  function StandardZeros(precision: Option<nat>, digits: string): nat {
    var least := if precision.Some? then precision.value else 1;
    if |digits| < least then least - |digits| else 0
  }

  function PrecisionOf(s: Segment): Option<nat>
    requires s.Directive?
  {
    if s.precision.Some? then Some(Parse(s.precision.value, 10)) else None
  }

  function Magnitude(v: int): nat { if v < 0 then -v else v }

  /** `%d`: the sign is the prefix. */
  function StandardSigned(s: Segment, v: int): string
    requires s.Directive?
  {
    StandardField(Parse(s.width, 10), PrecisionOf(s), '0' in s.flags, '-' in s.flags,
                  if v < 0 then "-" else "", Digits(Magnitude(v), 10))
  }

  /** `%x`: the argument is unsigned, and '#' prefixes a nonzero value with 0x. */
  function StandardHex(s: Segment, v: int): string
    requires s.Directive? && IsArg(Int(v))
  {
    var u := if v < 0 then v + WORD else v;
    StandardField(Parse(s.width, 10), PrecisionOf(s), '0' in s.flags, '-' in s.flags,
                  if '#' in s.flags && u != 0 then "0x" else "", Digits(u, 16))
  }

  function BodyLength(precision: Option<nat>, prefix: string, digits: string): nat {
    |prefix| + StandardZeros(precision, digits) + |digits|
  }

  /** Left-justified output must not overflow its width; zero padding that takes place must
      meet neither a prefix nor a precision. */
  predicate PadsAsStandard(width: nat, precision: Option<nat>, zero: bool, left: bool, prefix: string, digits: string) {
    var body := BodyLength(precision, prefix, digits);
    if left then body <= width else zero && body < width ==> precision.None? && prefix == ""
  }

  predicate Agrees(f: Format, width: nat, precision: Option<nat>, zero: bool, left: bool) {
    f.width == width < WORD && f.zeroPad == zero && f.rightPad == left
    && f.precision == if precision.Some? then precision.value else 1
  }

  /** A field printed by printf_do_print is the standard's exactly under that condition. */
  lemma FieldConformsIff(f: Format, p1: string, p2: string, digits: string,
                         width: nat, precision: Option<nat>, zero: bool, left: bool)
    requires Agrees(f, width, precision, zero, left)
    requires p1 + p2 in {"", "-", "0x", "-0x"} && BodyLength(precision, p1 + p2, digits) < WORD
    ensures Field(f, p1, p2, digits) == StandardField(width, precision, zero, left, p1 + p2, digits)
            <==> PadsAsStandard(width, precision, zero, left, p1 + p2, digits)
  {
    var prefix := p1 + p2;
    var body := BodyLength(precision, prefix, digits);
    OurField(f, p1, p2, digits);
    assert Fill(f, digits) == StandardZeros(precision, digits);
    var zeros := Repeat('0', StandardZeros(precision, digits));
    hide Field, Repeat;
    if left {
      LeftJustified(width, prefix + zeros + digits);
    } else if body < width {
      RightJustified(zero, precision.None?, width - body, prefix, zeros, digits);
    }
  }

  /** The field of printf_do_print, its lengths worked out. */
  lemma OurField(f: Format, p1: string, p2: string, digits: string)
    requires f.width < WORD && |p1| + |p2| + Fill(f, digits) + |digits| < WORD
    ensures var body := (p1 + p2) + Repeat('0', Fill(f, digits)) + digits;
            Field(f, p1, p2, digits) ==
            if f.rightPad then
              body + Repeat(' ', if |body| <= f.width then f.width - |body| else f.width + WORD - |body|)
            else if |body| < f.width then Repeat(if f.zeroPad then '0' else ' ', f.width - |body|) + body
            else body
  {
    var zeros := Repeat('0', Fill(f, digits));
    var body := (p1 + p2) + zeros + digits;
    SmallMod(|body|);
    UnsignedPadding(f.width, |body|);
    var right := if |body| <= f.width then f.width - |body| else f.width + WORD - |body|;
    if f.rightPad {
      Pieces("", p1, p2, zeros, digits, Repeat(' ', right));
    } else {
      var left := Repeat(if f.zeroPad then '0' else ' ', if |body| < f.width then f.width - |body| else 0);
      Pieces(left, p1, p2, zeros, digits, "");
      assert |body| >= f.width ==> left + body == body;
    }
    hide Repeat;
  }

  lemma Pieces(left: string, p1: string, p2: string, zeros: string, digits: string, right: string)
    ensures left + p1 + p2 + zeros + digits + right == left + ((p1 + p2) + zeros + digits) + right
    ensures "" + p1 + p2 + zeros + digits + right == ((p1 + p2) + zeros + digits) + right
    ensures left + p1 + p2 + zeros + digits + "" == left + ((p1 + p2) + zeros + digits)
  {
  }

  lemma LeftJustified(width: nat, body: string)
    requires width < WORD && |body| < WORD
    ensures body + Repeat(' ', if |body| <= width then width - |body| else width + WORD - |body|)
            == body + Repeat(' ', if |body| < width then width - |body| else 0)
            <==> |body| <= width
  {
    if |body| > width {
      assert |body + Repeat(' ', width + WORD - |body|)| != |body + Repeat(' ', 0)|;
    }
  }

  lemma RightJustified(zero: bool, noPrecision: bool, pad: nat, prefix: string, zeros: string, digits: string)
    requires pad > 0 && prefix in {"", "-", "0x", "-0x"}
    ensures Repeat(if zero then '0' else ' ', pad) + (prefix + zeros + digits)
            == (if zero && noPrecision then prefix + Repeat('0', pad) + zeros + digits
                else Repeat(' ', pad) + (prefix + zeros + digits))
            <==> (zero ==> noPrecision && prefix == "")
  {
    var ours := Repeat(if zero then '0' else ' ', pad) + (prefix + zeros + digits);
    var theirs := if zero && noPrecision then prefix + Repeat('0', pad) + zeros + digits
                  else Repeat(' ', pad) + (prefix + zeros + digits);
    if zero && !noPrecision {
      assert ours[0] == '0' && theirs[0] == ' ';
    } else if zero && (prefix == "-" || prefix == "-0x") {
      assert ours[0] == '0' && theirs[0] == '-';
    } else if zero && prefix == "0x" {
      assert ours[1] == '0' && theirs[1] == 'x';
    }
  }

  lemma SmallMod(n: nat)
    requires n < WORD
    ensures n % WORD == n
  {
  }

  /** The unsigned difference of printf_do_print: right when it should be, else enormous. */
  lemma UnsignedPadding(width: nat, body: nat)
    requires width < WORD && body < WORD
    ensures (width + WORD - body) % WORD == if body <= width then width - body else width + WORD - body
    ensures body > width ==> (width + WORD - body) % WORD > 0
  {
  }

  /** `%d` prints what the standard says exactly when its padding does. */
  lemma SignedConformsIff(s: Segment, v: int)
    requires IsSegment(s) && s.Directive? && s.conversion == 'd' && IsArg(Int(v))
    requires PrecisionOf(s).Some? ==> PrecisionOf(s).value + 3 < WORD
    ensures Render(s, Int(v)) == StandardSigned(s, v)
            <==> PadsAsStandard(Parse(s.width, 10), PrecisionOf(s), '0' in s.flags, '-' in s.flags,
                                if v < 0 then "-" else "", Digits(Magnitude(v), 10))
  {
    hide Field, StandardField, PadsAsStandard, Parse, Digits, Meaning, StandardZeros;
    var n := Magnitude(v);
    var sign := if v < 0 then "-" else "";
    DigitsFit(n, 10);
    MeaningAgrees(s);
    assert sign + "" == sign;
    ZerosBound(PrecisionOf(s), Digits(n, 10));
    FieldConformsIff(Meaning(s), sign, "", Digits(n, 10), Parse(s.width, 10), PrecisionOf(s), '0' in s.flags,
      '-' in s.flags);
  }

  lemma MeaningAgrees(s: Segment)
    requires IsSegment(s) && s.Directive? && (PrecisionOf(s).Some? ==> PrecisionOf(s).value < WORD)
    ensures Agrees(Meaning(s), Parse(s.width, 10), PrecisionOf(s), '0' in s.flags, '-' in s.flags)
    ensures Meaning(s).base == 10 && Meaning(s).basePrefix == ('#' in s.flags)
  {
    if s.precision.Some? {
      SmallMod(Parse(s.precision.value, 10));
    }
  }

  lemma ZerosBound(precision: Option<nat>, digits: string)
    requires |digits| <= 20 && (precision.Some? ==> precision.value + 3 < WORD)
    ensures StandardZeros(precision, digits) + |digits| + 3 < WORD
  {
  }

  /** `%x` prints what the standard says exactly when the argument is not negative, is not a
      prefixed zero, and its padding is right. */
  lemma HexConformsIff(s: Segment, v: int)
    requires IsSegment(s) && s.Directive? && s.conversion == 'x' && IsArg(Int(v))
    requires PrecisionOf(s).Some? ==> PrecisionOf(s).value + 3 < WORD
    ensures Render(s, Int(v)) == StandardHex(s, v)
            <==> v >= 0 && !('#' in s.flags && v == 0)
                 && PadsAsStandard(Parse(s.width, 10), PrecisionOf(s), '0' in s.flags, '-' in s.flags,
                                   if '#' in s.flags then "0x" else "", Digits(Magnitude(v), 16))
  {
    hide Field, StandardField, PadsAsStandard, Parse, Digits, Meaning, StandardZeros;
    var u := if v < 0 then v + WORD else v;
    var n := Magnitude(v);
    var hash := '#' in s.flags;
    var f := Meaning(s).(base := 16);
    var width, precision, zero, left := Parse(s.width, 10), PrecisionOf(s), '0' in s.flags, '-' in s.flags;
    MeaningAgrees(s);
    DigitsFit(n, 16);
    if v >= 0 && !(hash && v == 0) {
      var p := if hash then "0x" else "";
      assert "" + p == p;
      ZerosBound(precision, Digits(n, 16));
      FieldConformsIff(f, "", p, Digits(n, 16), width, precision, zero, left);
    } else {
      var odd := if v < 0 then '-' else 'x';
      var theirs := if hash && u != 0 then "0x" else "";
      FieldShowsPrefix(f, if v < 0 then "-" else "", if hash then "0x" else "", Digits(n, 16), odd);
      StandardFieldCharacters(width, precision, zero, left, theirs, u, odd);
    }
  }

  /** `%x` of any argument, as it is meant here: a signed magnitude, with 0x between sign and digits
      if '#' is given.  So it is printed, exactly when the padding is right. */
  lemma SignedHexConformsIff(s: Segment, v: int)
    requires IsSegment(s) && s.Directive? && s.conversion == 'x' && IsArg(Int(v))
    requires PrecisionOf(s).Some? ==> PrecisionOf(s).value + 3 < WORD
    ensures var prefix := if '#' in s.flags then (if v < 0 then "-0x" else "0x") else if v < 0 then "-" else "";
            var width, precision, zero, left := Parse(s.width, 10), PrecisionOf(s), '0' in s.flags, '-' in s.flags;
            Render(s, Int(v)) == StandardField(width, precision, zero, left, prefix, Digits(Magnitude(v), 16))
            <==> PadsAsStandard(width, precision, zero, left, prefix, Digits(Magnitude(v), 16))
  {
    hide Field, StandardField, PadsAsStandard, Parse, Digits, Meaning, StandardZeros;
    MeaningAgrees(s);
    DigitsFit(Magnitude(v), 16);
    ZerosBound(PrecisionOf(s), Digits(Magnitude(v), 16));
    var sign, base := if v < 0 then "-" else "", if '#' in s.flags then "0x" else "";
    assert sign + base == if '#' in s.flags then (if v < 0 then "-0x" else "0x") else if v < 0 then "-" else "";
    FieldConformsIff(Meaning(s).(base := 16), sign, base, Digits(Magnitude(v), 16), Parse(s.width, 10), PrecisionOf(s),
      '0' in s.flags, '-' in s.flags);
  }

  /** `%p`: every address but the null pointer in hexadecimal with 0x in front, flag or not. */
  lemma PointerConformsIff(s: Segment, p: nat)
    requires IsSegment(s) && s.Directive? && s.conversion == 'p' && 0 < p < WORD
    requires PrecisionOf(s).Some? ==> PrecisionOf(s).value + 3 < WORD
    ensures var width, precision, zero, left := Parse(s.width, 10), PrecisionOf(s), '0' in s.flags, '-' in s.flags;
            Render(s, Pointer(p)) == StandardField(width, precision, zero, left, "0x", Digits(p, 16))
            <==> PadsAsStandard(width, precision, zero, left, "0x", Digits(p, 16))
  {
    hide Field, StandardField, PadsAsStandard, Parse, Digits, Meaning, StandardZeros;
    MeaningAgrees(s);
    DigitsFit(p, 16);
    ZerosBound(PrecisionOf(s), Digits(p, 16));
    assert "" + "0x" == "0x";
    FieldConformsIff(Meaning(s).(basePrefix := true, base := 16), "", "0x", Digits(p, 16), Parse(s.width, 10),
      PrecisionOf(s), '0' in s.flags, '-' in s.flags);
  }

  /** The null pointer is a word. */
  lemma NullConformsIff(s: Segment)
    requires IsSegment(s) && s.Directive? && s.conversion == 'p'
    requires PrecisionOf(s).Some? ==> PrecisionOf(s).value + 3 < WORD
    ensures var width, precision, zero, left := Parse(s.width, 10), PrecisionOf(s), '0' in s.flags, '-' in s.flags;
            Render(s, Pointer(0)) == StandardField(width, precision, zero, left, "", "(null)")
            <==> PadsAsStandard(width, precision, zero, left, "", "(null)")
  {
    hide Field, StandardField, PadsAsStandard, Parse, Meaning, StandardZeros;
    MeaningAgrees(s);
    ZerosBound(PrecisionOf(s), "(null)");
    assert "" + "" == "";
    FieldConformsIff(Meaning(s), "", "", "(null)", Parse(s.width, 10), PrecisionOf(s), '0' in s.flags, '-' in s.flags);
  }

  /** Whatever the padding: what any directive prints of any argument.  At most one side is padded;
      on the right the length is made up to the width modulo 2^64. */
  lemma RenderShape(s: Segment, a: Arg) returns (left: nat, right: nat)
    requires s.Directive? && IsSegment(s) && Fits(s, a)
    ensures var width, precision := Parse(s.width, 10), if PrecisionOf(s).Some? then PrecisionOf(s).value % WORD else 1;
            var hex := s.conversion == 'x' || s.conversion == 'p';
            var prefix := match a
                          case Int(v) => (if v < 0 then "-" else "") + (if hex && '#' in s.flags then "0x" else "")
                          case Pointer(p) => if p == 0 then "" else "0x"
                          case Text(_) => "";
            var what := match a
                        case Int(v) => Digits(if v < 0 then -v else v, if hex then 16 else 10)
                        case Pointer(p) => if p == 0 then "(null)" else Digits(p, 16)
                        case Text(text) => text;
            var zeros := if |what| < precision then precision - |what| else 0;
            var length := |prefix| + zeros + |what|;
            && Render(s, a) ==
               Repeat(if '0' in s.flags then '0' else ' ', left) + prefix + Repeat('0', zeros) + what
               + Repeat(' ', right)
            && (if '-' in s.flags then left == 0 && right < WORD && (length + right) % WORD == width
                else right == 0 && left == if length % WORD < width then width - length % WORD else 0)
  {
    hide Field, Digits, Repeat, Parse, Render, Meaning;
    MeaningParts(s);
    var sign, base, what := RenderIsField(s, a);
    left, right := PrefixedShape(Meaning(s), sign, base, what);
  }

  /** The two prefixes as one. */
  lemma PrefixedShape(f: Format, p1: string, p2: string, what: string) returns (left: nat, right: nat)
    requires f.width < WORD
    ensures var prefix := p1 + p2;
            var zeros := if |what| < f.precision then f.precision - |what| else 0;
            var length := |prefix| + zeros + |what|;
            && Field(f, p1, p2, what) ==
               Repeat(if f.zeroPad then '0' else ' ', left) + prefix + Repeat('0', zeros) + what + Repeat(' ', right)
            && (if f.rightPad then left == 0 && right < WORD && (length + right) % WORD == f.width
                else right == 0 && left == if length % WORD < f.width then f.width - length % WORD else 0)
  {
    hide Field, Repeat;
    left, right := FieldShape(f, p1, p2, what);
    Regroup(Repeat(if f.zeroPad then '0' else ' ', left), p1, p2,
            Repeat('0', if |what| < f.precision then f.precision - |what| else 0), what, Repeat(' ', right));
  }

  lemma Regroup(pad: string, p1: string, p2: string, zeros: string, what: string, right: string)
    ensures pad + p1 + p2 + zeros + what + right == pad + (p1 + p2) + zeros + what + right
  {
  }

  lemma MeaningParts(s: Segment)
    requires s.Directive? && IsSegment(s)
    ensures var f := Meaning(s);
            f.width == Parse(s.width, 10) < WORD && f.zeroPad == ('0' in s.flags) && f.rightPad == ('-' in s.flags)
            && f.precision == if PrecisionOf(s).Some? then PrecisionOf(s).value % WORD else 1
  {
    hide Parse;
  }

  /** The base counts for the text only, not for the padding. */
  lemma RenderIsField(s: Segment, a: Arg) returns (sign: string, base: string, what: string)
    requires s.Directive? && IsSegment(s) && Fits(s, a)
    ensures Render(s, a) == Field(Meaning(s), sign, base, what)
    ensures var hex := s.conversion == 'x' || s.conversion == 'p';
            match a
            case Int(v) =>
              && sign + base == (if v < 0 then "-" else "") + (if hex && '#' in s.flags then "0x" else "")
              && what == Digits(if v < 0 then -v else v, if hex then 16 else 10)
            case Pointer(p) =>
              && sign + base == (if p == 0 then "" else "0x") && what == if p == 0 then "(null)" else Digits(p, 16)
            case Text(text) => sign + base == "" && what == text
  {
    hide Digits, Parse, Field, Meaning;
    var f := Meaning(s);
    MeaningBase(s);
    SameField(f, f.(base := 16));
    SameField(f, f.(basePrefix := true, base := 16));
    match a
    case Int(v) =>
      sign, base := if v < 0 then "-" else "", if s.conversion == 'x' && '#' in s.flags then "0x" else "";
      what := Digits(Magnitude(v), if s.conversion == 'x' then 16 else 10);
    case Pointer(p) =>
      sign, base, what := "", if p == 0 then "" else "0x", if p == 0 then "(null)" else Digits(p, 16);
    case Text(text) =>
      sign, base, what := "", "", text;
  }

  lemma MeaningBase(s: Segment)
    requires s.Directive? && IsSegment(s)
    ensures Meaning(s).base == 10 && Meaning(s).basePrefix == ('#' in s.flags)
  {
    hide Parse;
  }

  lemma SameField(f: Format, g: Format)
    requires f.width == g.width && f.precision == g.precision && f.zeroPad == g.zeroPad && f.rightPad == g.rightPad
    ensures forall sign, base, what :: Field(f, sign, base, what) == Field(g, sign, base, what)
  {
  }

  lemma FieldShowsPrefix(f: Format, p1: string, p2: string, digits: string, c: char)
    requires c in p1 || c in p2
    ensures c in Field(f, p1, p2, digits)
  {
  }

  /** A standard field holds no minus sign but its prefix's, and no x but its prefix's. */
  lemma StandardFieldCharacters(width: nat, precision: Option<nat>, zero: bool, left: bool, prefix: string,
                                u: nat, c: char)
    requires c in {'-', 'x'} && c !in prefix
    ensures c !in StandardField(width, precision, zero, left, prefix, Digits(u, 16))
  {
    DigitsAreNumerals(u, 16);
    var digits := Digits(u, 16);
    assert forall i :: 0 <= i < |digits| ==> digits[i] != c;
  }

  // ----- where they differ -----------------------------------------------------------------

  lemma OneDigit(c: char)
    requires IsDigit(c)
    ensures Parse([c], 10) == DigitValue(c)
  {
    ParseAppend("", c, 10);
    assert "" + [c] == [c];
  }

  lemma TenAndFive()
    ensures Digits(10, 10) == "10" && Digits(5, 10) == "5"
  {
    assert Digits(1, 10) == "1";
  }

  /** `%-1d` of 10: the width less the length wraps to 2^64 - 1 spaces. */
  lemma LeftExample()
    ensures var s := Directive("-", "1", None, 'd');
            IsSegment(s) && StandardSigned(s, 10) == "10" && |Render(s, Int(10))| == WORD + 1
  {
    hide Digits, Parse, Field;
    var s := Directive("-", "1", None, 'd');
    TenAndFive();
    OneDigit('1');
    MeaningAgrees(s);
    OurField(Meaning(s), "", "", "10");
    assert ("" + "") + Repeat('0', Fill(Meaning(s), "10")) + "10" == "10";
  }

  /** `%03d` of -5. */
  lemma ZeroPadExample()
    ensures var s := Directive("0", "3", None, 'd');
            IsSegment(s) && StandardSigned(s, -5) == "-05" && Render(s, Int(-5)) == "0-5"
  {
    hide Digits, Parse, Field;
    var s := Directive("0", "3", None, 'd');
    TenAndFive();
    OneDigit('3');
    MeaningAgrees(s);
    OurField(Meaning(s), "-", "", "5");
    assert ("-" + "") + Repeat('0', Fill(Meaning(s), "5")) + "5" == "-5";
    assert Repeat('0', 1) == "0";
  }

  /** `%x` of -1 prints "-1", where the standard has sixteen f. */
  lemma HexExample()
    ensures var s := Directive("", "", None, 'x');
            IsSegment(s) && Render(s, Int(-1)) == "-1" && '-' !in StandardHex(s, -1)
  {
    var s := Directive("", "", None, 'x');
    MeaningAgrees(s);
    assert Digits(1, 16) == "1";
    var f := Meaning(s).(base := 16);
    OurField(f, "-", "", "1");
    assert ("-" + "") + Repeat('0', Fill(f, "1")) + "1" == "-1";
    StandardFieldCharacters(0, None, false, false, "", WORD - 1, '-');
  }

  /** `%s` of the empty string prints "0". */
  lemma EmptyStringExample()
    ensures var s := Directive("", "", None, 's');
            IsSegment(s) && Render(s, Arg.Text("")) == "0" && StandardText(0, None, false, "") == ""
  {
    var s := Directive("", "", None, 's');
    MeaningAgrees(s);
    OurText(Meaning(s), None, "");
    assert Repeat('0', 1) + "" == "0";
  }

  /** `%s`: at most `precision` characters, and spaces up to the width. */
  function StandardText(width: nat, precision: Option<nat>, left: bool, s: string): string {
    var body := if precision.Some? && precision.value < |s| then s[..precision.value] else s;
    var pad := if |body| < width then width - |body| else 0;
    if left then body + Repeat(' ', pad) else Repeat(' ', pad) + body
  }

  predicate IsBlank(s: string) { forall i :: 0 <= i < |s| ==> s[i] == ' ' }

  /** The precision is a least number of characters here, made up with zeros and 1 by default:
      a shorter string is never printed right.  A left-justified one must fit its width.  One
      longer than its precision is right only by accident: within the width, if what should
      have been cut off, or on the right all of it, is blank. */
  predicate TextConforms(width: nat, precision: Option<nat>, left: bool, s: string) {
    && (if precision.Some? then precision.value <= |s| else s != "")
    && (left ==> |s| <= width)
    && (precision.Some? && precision.value < |s| ==> |s| <= width && IsBlank(if left then s[precision.value..] else s))
  }

  /** `%s` prints what the standard says exactly then; with the flag '0' the standard says
      nothing. */
  lemma StringConformsIff(s: Segment, text: string)
    requires IsSegment(s) && s.Directive? && s.conversion == 's' && IsArg(Arg.Text(text))
    requires '0' !in s.flags && (PrecisionOf(s).Some? ==> PrecisionOf(s).value < WORD)
    ensures Render(s, Arg.Text(text)) == StandardText(Parse(s.width, 10), PrecisionOf(s), '-' in s.flags, text)
            <==> TextConforms(Parse(s.width, 10), PrecisionOf(s), '-' in s.flags, text)
  {
    hide Parse, Field, Repeat, StandardText, TextConforms;
    MeaningAgrees(s);
    var width, precision, left := Parse(s.width, 10), PrecisionOf(s), '-' in s.flags;
    OurText(Meaning(s), precision, text);
    TextIff(width, precision, left, text);
  }

  /** What printf_do_print makes of a string. */
  function PrintedText(width: nat, precision: Option<nat>, left: bool, s: string): string
    requires |s| < WORD && (precision.Some? ==> precision.value < WORD)
  {
    var body := Repeat('0', StandardZeros(precision, s)) + s;
    if left then body + Repeat(' ', if |body| <= width then width - |body| else width + WORD - |body|)
    else if |body| < width then Repeat(' ', width - |body|) + body
    else body
  }

  lemma OurText(f: Format, precision: Option<nat>, s: string)
    requires IsFormat(f) && |s| < WORD && !f.zeroPad
    requires f.precision == if precision.Some? then precision.value else 1
    ensures Field(f, "", "", s) == PrintedText(f.width, precision, f.rightPad, s)
  {
    OurField(f, "", "", s);
    assert ("" + "") + Repeat('0', Fill(f, s)) + s == Repeat('0', Fill(f, s)) + s;
    hide Field, Repeat;
  }

  lemma TextIff(width: nat, precision: Option<nat>, left: bool, s: string)
    requires width < WORD && |s| < WORD && (precision.Some? ==> precision.value < WORD)
    ensures PrintedText(width, precision, left, s) == StandardText(width, precision, left, s)
            <==> TextConforms(width, precision, left, s)
  {
    var zeros := StandardZeros(precision, s);
    if zeros > 0 {
      TooShort(width, zeros, left, s);
    } else {
      assert Repeat('0', 0) + s == s;
      if precision.Some? && precision.value < |s| {
        TooLong(width, precision.value, left, s);
      } else if left {
        LeftJustified(width, s);
      } else {
        assert Repeat(' ', 0) + s == s;
      }
    }
    hide Repeat, IsBlank;
  }

  lemma {:induction false} CountOf(c: char, n: nat)
    ensures multiset(Repeat(c, n))[c] == n && forall d :: d != c ==> multiset(Repeat(c, n))[d] == 0
  {
    if n > 0 {
      CountOf(c, n - 1);
      assert Repeat(c, n) == Repeat(c, n - 1) + [c];
    }
  }

  /** Zeros in front of a string that should have none. */
  lemma TooShort(width: nat, zeros: nat, left: bool, s: string)
    requires width < WORD && zeros > 0 && |s| + zeros < WORD
    ensures var body := Repeat('0', zeros) + s; var pad := if |s| < width then width - |s| else 0;
            if left then
              body + Repeat(' ', if |body| <= width then width - |body| else width + WORD - |body|)
              != s + Repeat(' ', pad)
            else (if |body| < width then Repeat(' ', width - |body|) + body else body) != Repeat(' ', pad) + s
  {
    var body := Repeat('0', zeros) + s;
    var pad := if |s| < width then width - |s| else 0;
    if left {
      var right := if |body| <= width then width - |body| else width + WORD - |body|;
      var ours, theirs := body + Repeat(' ', right), s + Repeat(' ', pad);
      assert multiset(ours) == multiset(Repeat('0', zeros)) + multiset(s) + multiset(Repeat(' ', right));
      assert multiset(theirs) == multiset(s) + multiset(Repeat(' ', pad));
      CountOf('0', zeros);
      CountOf(' ', right);
      CountOf(' ', pad);
      assert multiset(ours)['0'] > multiset(theirs)['0'];
    } else if |body| <= width {
      var ours, theirs := Repeat(' ', width - |body|) + body, Repeat(' ', pad) + s;
      assert ours[width - |s| - 1] == '0' && theirs[width - |s| - 1] == ' ';
      assert |body| == width ==> ours == body;
    } else {
      assert |body| > |Repeat(' ', pad) + s|;
    }
  }

  /** A string that should have been cut to `most` characters. */
  lemma TooLong(width: nat, most: nat, left: bool, s: string)
    requires width < WORD && most < |s| < WORD
    ensures var pad := if most < width then width - most else 0;
            (if left then
               s + Repeat(' ', if |s| <= width then width - |s| else width + WORD - |s|)
               == s[..most] + Repeat(' ', pad)
             else (if |s| < width then Repeat(' ', width - |s|) + s else s) == Repeat(' ', pad) + s[..most])
            <==> |s| <= width && IsBlank(if left then s[most..] else s)
  {
    var pad := if most < width then width - most else 0;
    if |s| > width {
      assert |s| > |s[..most] + Repeat(' ', pad)|;
      assert |s| > |Repeat(' ', pad) + s[..most]|;
    } else if left {
      var ours, theirs := s + Repeat(' ', width - |s|), s[..most] + Repeat(' ', pad);
      assert forall i :: most <= i < width ==> theirs[i] == ' ';
      assert forall i :: 0 <= i < |s| - most ==> s[most..][i] == ours[most + i];
      if IsBlank(s[most..]) {
        assert forall i :: most <= i < |s| ==> s[i] == s[most..][i - most];
        assert ours == theirs;
      }
    } else {
      var ours, theirs := Repeat(' ', width - |s|) + s, Repeat(' ', pad) + s[..most];
      assert |s| == width ==> ours == s;
      if IsBlank(s) {
        assert ours == theirs;
      }
      if ours == theirs {
        BlankFromShift(s, most, ours, width, |s|);
        assert s[..|s|] == s;
      }
    }
  }

  lemma {:induction false} BlankFromShift(s: string, most: nat, text: string, width: nat, n: nat)
    requires most < |s| <= width && n <= |s|
    requires text == Repeat(' ', width - |s|) + s == Repeat(' ', width - most) + s[..most]
    ensures IsBlank(s[..n])
  {
    if n > 0 {
      BlankFromShift(s, most, text, width, n - 1);
      var k := n - 1;
      assert s[k] == text[width - |s| + k];
      if k >= |s| - most {
        assert s[k] == s[k - (|s| - most)] == s[..n - 1][k - (|s| - most)];
      }
    }
  }

  /** A second '%' is printed as itself but does not end the directive: the next character is
      still taken as part of one. */
  lemma PercentStaysInFormat(args: seq<Arg>, v: int)
    ensures Run(IDLE, "%%", args) == Printed(BEGIN, "%", args)
    ensures Run(IDLE, "%%d", [Int(v)]) == Printed(BEGIN.(inFmt := false), "%" + IntField(BEGIN, v), [])
  {
    hide Run, Step, IntField;
    TwoPercents(args);
    TwoPercents([Int(v)]);
    RunConcat(IDLE, "%%", "d", [Int(v)]);
    StepD(v);
    RunOne(BEGIN, 'd', [Int(v)]);
    assert "%%" + "d" == "%%d";
  }

  lemma StepD(v: int)
    ensures Step(BEGIN, 'd', [Int(v)]) == Stepped(BEGIN.(inFmt := false), IntField(BEGIN, v), 1)
  {
    hide IntField;
  }

  lemma TwoPercents(args: seq<Arg>)
    ensures Run(IDLE, "%%", args) == Printed(BEGIN, "%", args)
  {
    RunPercent(IDLE, args);
    RunConcat(IDLE, "%", "%", args);
    RunOne(BEGIN, '%', args);
    assert "%" + "%" == "%%";
  }

  /** Characters that mean something inside a directive. */
  predicate IsSpecial(c: char) {
    c == '#' || c == '-' || c == '.' || IsDigit(c) || c in {'d', 'x', 'p', 's'}
  }

  /** In format mode and without arguments, special characters vanish or have nothing to print. */
  lemma {:induction false} InsideDirective(f: Format, text: string)
    requires f.inFmt
    ensures var r := Run(f, text, []);
            if exists i :: 0 <= i < |text| && IsSpecial(text[i]) then r == NotDefined || |r.out| < |text|
            else r == Printed(f, text, [])
    decreases |text|
  {
    hide Field, UintField, IntField;
    if text != "" {
      var r := Step(f, text[0], []);
      if r.Stepped? {
        InsideDirective(r.state, text[1..]);
        assert forall i :: 0 < i < |text| ==> text[i] == text[1..][i - 1];
        assert !IsSpecial(text[0]) ==> [text[0]] + text[1..] == text;
        assert forall i :: 0 <= i < |text[1..]| && IsSpecial(text[1..][i]) ==> IsSpecial(text[i + 1]);
      }
    }
  }

  /** `%%` and then a literal: printed as the standard says exactly when the literal holds no
      special character. */
  lemma PercentConformsIff(text: string)
    requires '%' !in text
    ensures var r := Run(IDLE, "%%" + text, []);
            r.Printed? && r.out == "%" + text <==> forall i :: 0 <= i < |text| ==> !IsSpecial(text[i])
  {
    hide Step, Run, IsSpecial;
    TwoPercents([]);
    RunConcat(IDLE, "%%", text, []);
    InsideDirective(BEGIN, text);
  }
}
