/**
 Format strings as lists of literals and directives: the format machine prints the
 concatenation of their renderings and takes exactly their arguments, in order.
 */
module PrintfDirectives {
  import opened Printf
  import opened Wrappers

  datatype Segment =
    | Literal(text: string)
    | Directive(flags: string, width: string, precision: Option<string>, conversion: char)

  predicate IsDigit(c: char) { '0' <= c <= '9' }

  predicate AllDigits(s: string) { forall i :: 0 <= i < |s| ==> IsDigit(s[i]) }

  predicate IsFlag(c: char) { c == '#' || c == '-' || c == '0' }

  /** Flags in any order and number; a width does not start with '0', which would be a flag,
      and fits in a size_t; digits of a precision may be anything, also none. */
  predicate IsSegment(s: Segment) {
    match s
    case Literal(text) => '%' !in text
    case Directive(flags, width, precision, conversion) =>
      && (forall i :: 0 <= i < |flags| ==> IsFlag(flags[i]))
      && AllDigits(width) && (width != "" ==> width[0] != '0') && Parse(width, 10) < WORD
      && (precision.Some? ==> AllDigits(precision.value))
      && IsConversion(conversion)
  }

  function Text(s: Segment): string {
    match s
    case Literal(text) => text
    case Directive(flags, width, precision, conversion) =>
      "%" + flags + width + (if precision.Some? then "." + precision.value else "") + [conversion]
  }

  function AllText(segments: seq<Segment>): string {
    if segments == [] then "" else Text(segments[0]) + AllText(segments[1..])
  }

  /** What the written directive means: '0' counts as a flag only before the width, and the
      default precision is 1. */
  function Meaning(s: Segment): Format
    requires s.Directive? && IsSegment(s)
  {
    Format(true, '#' in s.flags, 10, Parse(s.width, 10),
           if s.precision.Some? then Parse(s.precision.value, 10) % WORD else 1,
           s.precision.Some?, '0' in s.flags, '-' in s.flags)
  }

  predicate IsConversion(c: char) { c in {'d', 'x', 'p', 's'} }

  /** The argument a conversion takes. */
  predicate FitsConversion(conversion: char, a: Arg) {
    match conversion
    case 'd' => a.Int?
    case 'x' => a.Int?
    case 'p' => a.Pointer?
    case _ => a.Text?
  }

  predicate Fits(s: Segment, a: Arg)
    requires s.Directive?
  {
    FitsConversion(s.conversion, a)
  }

  /** What a conversion prints, whatever the options before it have left in the state. */
  function Converted(f: Format, conversion: char, a: Arg): string
    requires IsConversion(conversion) && FitsConversion(conversion, a)
  {
    match conversion
    case 'd' => IntField(f.(base := 10), a.v)
    case 'x' => IntField(f.(base := 16), a.v)
    case 'p' => if a.p == 0 then Field(f, "", "", "(null)") else UintField(f.(basePrefix := true, base := 16), a.p, "")
    case _ => Field(f, "", "", a.s)
  }

  function Render(s: Segment, a: Arg): string
    requires s.Directive? && IsSegment(s) && Fits(s, a)
  {
    Converted(Meaning(s), s.conversion, a)
  }

  /** Each directive with its own argument, in order. */
  predicate Matches(segments: seq<Segment>, args: seq<Arg>) {
    if segments == [] then true
    else if segments[0].Literal? then Matches(segments[1..], args)
    else args != [] && Fits(segments[0], args[0]) && Matches(segments[1..], args[1..])
  }

  function Directives(segments: seq<Segment>): nat {
    if segments == [] then 0 else (if segments[0].Directive? then 1 else 0) + Directives(segments[1..])
  }

  function RenderAll(segments: seq<Segment>, args: seq<Arg>): string
    requires (forall i :: 0 <= i < |segments| ==> IsSegment(segments[i])) && Matches(segments, args)
  {
    if segments == [] then ""
    else if segments[0].Literal? then segments[0].text + RenderAll(segments[1..], args)
    else Render(segments[0], args[0]) + RenderAll(segments[1..], args[1..])
  }

  // ----- running over the parts of a directive --------------------------------------------

  lemma {:induction false} RunLiteral(f: Format, text: string, args: seq<Arg>)
    requires !f.inFmt && '%' !in text
    ensures Run(f, text, args) == Printed(f, text, args)
    decreases |text|
  {
    hide Run, Step;
    if text == "" {
      RunNothing(f, args);
    } else {
      RunPlain(f, text[0], args);
      assert [text[0]] + text[1..] == text;
      RunConcat(f, [text[0]], text[1..], args);
      RunLiteral(f, text[1..], args);
    }
  }

  lemma RunPlain(f: Format, c: char, args: seq<Arg>)
    requires !f.inFmt && c != '%'
    ensures Run(f, [c], args) == Printed(f, [c], args)
  {
    RunOne(f, c, args);
  }

  lemma {:induction false} RunFlags(f: Format, flags: string, args: seq<Arg>)
    requires f.inFmt && f.width == 0 && !f.inPrecision && forall i :: 0 <= i < |flags| ==> IsFlag(flags[i])
    ensures Run(f, flags, args) ==
            Printed(f.(basePrefix := f.basePrefix || '#' in flags, zeroPad := f.zeroPad || '0' in flags,
                       rightPad := f.rightPad || '-' in flags), "", args)
    decreases |flags|
  {
    hide Step, Run;
    if flags == "" {
      RunNothing(f, args);
    } else {
      var c := flags[0];
      var g := f.(basePrefix := f.basePrefix || c == '#', zeroPad := f.zeroPad || c == '0',
                  rightPad := f.rightPad || c == '-');
      OneFlag(f, c, args);
      assert flags == [c] + flags[1..];
      RunConcat(f, [c], flags[1..], args);
      RunFlags(g, flags[1..], args);
    }
  }

  lemma OneFlag(f: Format, c: char, args: seq<Arg>)
    requires f.inFmt && f.width == 0 && !f.inPrecision && IsFlag(c)
    ensures Run(f, [c], args) ==
            Printed(f.(basePrefix := f.basePrefix || c == '#', zeroPad := f.zeroPad || c == '0',
                       rightPad := f.rightPad || c == '-'), "", args)
  {
    RunOne(f, c, args);
    hide Run;
  }

  /** Width digits read as the number they write. */
  lemma {:induction false} RunWidth(f: Format, width: string, args: seq<Arg>)
    requires f.inFmt && f.width == 0 && !f.inPrecision && IsFormat(f)
    requires AllDigits(width) && (width != "" ==> width[0] != '0') && Parse(width, 10) < WORD
    ensures Run(f, width, args) == Printed(f.(width := Parse(width, 10)), "", args)
    ensures width != "" ==> Parse(width, 10) > 0
    decreases |width|
  {
    hide Step, Run, DigitValue;
    if width == "" {
      RunNothing(f, args);
    } else {
      var n := |width| - 1;
      var before, c := width[..n], width[n];
      assert width == before + [c];
      ParseAppend(before, c, 10);
      DigitBounds(c);
      RunWidth(f, before, args);
      RunConcat(f, before, [c], args);
      WidthDigit(f.(width := Parse(before, 10)), c, args);
    }
  }

  lemma WidthDigit(f: Format, c: char, args: seq<Arg>)
    requires f.inFmt && !f.inPrecision && IsDigit(c)
    requires (f.width == 0 ==> c != '0') && f.width * 10 + DigitValue(c) < WORD
    ensures Run(f, [c], args) == Printed(f.(width := f.width * 10 + DigitValue(c)), "", args)
  {
    RunOne(f, c, args);
    hide Run;
  }

  lemma PrecisionDigit(f: Format, c: char, args: seq<Arg>)
    requires f.inFmt && f.inPrecision && IsDigit(c)
    ensures Run(f, [c], args) == Printed(f.(precision := (f.precision * 10 + DigitValue(c)) % WORD), "", args)
  {
    RunOne(f, c, args);
    hide Run;
  }

  lemma DigitBounds(c: char)
    requires IsDigit(c)
    ensures DigitValue(c) < 10 && (c != '0' ==> DigitValue(c) > 0)
  {
  }

  lemma RunOne(f: Format, c: char, args: seq<Arg>)
    ensures var r := Step(f, c, args);
            r.Stepped? && r.used <= |args| ==> Run(f, [c], args) == Printed(r.state, r.out, args[r.used..])
  {
    var r := Step(f, c, args);
    if r.Stepped? && r.used <= |args| {
      assert [c][1..] == "" && r.out + "" == r.out;
    }
  }

  lemma {:induction false} RunPrecisionDigits(f: Format, digits: string, args: seq<Arg>)
    requires f.inFmt && f.inPrecision && f.precision == 0 && AllDigits(digits)
    ensures Run(f, digits, args) == Printed(f.(precision := Parse(digits, 10) % WORD), "", args)
    decreases |digits|
  {
    hide Step, Run, DigitValue;
    if digits == "" {
      RunNothing(f, args);
    } else {
      var n := |digits| - 1;
      var before, c := digits[..n], digits[n];
      assert digits == before + [c];
      ParseAppend(before, c, 10);
      RunPrecisionDigits(f, before, args);
      RunConcat(f, before, [c], args);
      TimesTenModWord(Parse(before, 10), DigitValue(c));
      PrecisionDigit(f.(precision := Parse(before, 10) % WORD), c, args);
    }
  }

  lemma TimesTenModWord(p: nat, d: nat)
    ensures (p % WORD * 10 + d) % WORD == (p * 10 + d) % WORD
  {
    var q := p / WORD;
    assert p * 10 + d == (p % WORD * 10 + d) + (q * 10) * WORD;
  }

  /** From '%' to just before the conversion character. */
  lemma RunOptions(f: Format, s: Segment, args: seq<Arg>)
    requires !f.inFmt && s.Directive? && IsSegment(s)
    ensures var text := Text(s); Run(f, text[..|text| - 1], args) == Printed(Meaning(s), "", args)
  {
    hide Step, Run;
    var tail := if s.precision.Some? then "." + s.precision.value else "";
    var text := Text(s);
    assert text[..|text| - 1] == "%" + (s.flags + (s.width + tail));
    RunPercent(f, args);
    RunConcat(f, "%", s.flags + (s.width + tail), args);
    RunFlags(BEGIN, s.flags, args);
    RunConcat(BEGIN, s.flags, s.width + tail, args);
    var g := BEGIN.(basePrefix := '#' in s.flags, zeroPad := '0' in s.flags, rightPad := '-' in s.flags);
    RunWidth(g, s.width, args);
    RunConcat(g, s.width, tail, args);
    var h := g.(width := Parse(s.width, 10));
    RunTail(h, s.precision, args);
  }

  lemma RunPercent(f: Format, args: seq<Arg>)
    requires !f.inFmt
    ensures Run(f, "%", args) == Printed(BEGIN, "", args)
  {
    RunOne(f, '%', args);
  }

  lemma RunTail(f: Format, precision: Option<string>, args: seq<Arg>)
    requires f.inFmt && !f.inPrecision && f.precision == 1 && (precision.Some? ==> AllDigits(precision.value))
    ensures Run(f, if precision.Some? then "." + precision.value else "", args) ==
            Printed(if precision.None? then f
                    else f.(precision := Parse(precision.value, 10) % WORD, inPrecision := true), "", args)
  {
    if precision.Some? {
      var g := f.(precision := 0, inPrecision := true);
      RunOne(f, '.', args);
      RunConcat(f, ".", precision.value, args);
      RunPrecisionDigits(g, precision.value, args);
    }
  }

  /** One directive: prints its rendering and takes one argument, and literal mode resumes. */
  lemma RunDirective(f: Format, s: Segment, args: seq<Arg>)
    requires !f.inFmt && s.Directive? && IsSegment(s) && args != [] && Fits(s, args[0])
    ensures var r := Run(f, Text(s), args);
            r.Printed? && !r.state.inFmt && r.out == Render(s, args[0]) && r.rest == args[1..]
  {
    var text := Text(s);
    var n := |text| - 1;
    assert text == text[..n] + [s.conversion];
    RunOptions(f, s, args);
    RunConcat(f, text[..n], [s.conversion], args);
    RunOne(Meaning(s), s.conversion, args);
    RunConversion(Meaning(s), s.conversion, args);
    hide Step, Run, Meaning, Render, Text;
  }

  lemma RunConversion(f: Format, conversion: char, args: seq<Arg>)
    requires f.inFmt && IsConversion(conversion) && args != [] && FitsConversion(conversion, args[0])
    ensures var r := Step(f, conversion, args);
            r.Stepped? && !r.state.inFmt && r.out == Converted(f, conversion, args[0]) && r.used == 1
  {
    hide Field, IntField, UintField;
  }

  /** The whole format: renderings in order, and the arguments of its directives taken. */
  lemma {:induction false} RunSegments(f: Format, segments: seq<Segment>, args: seq<Arg>)
    requires !f.inFmt && (forall i :: 0 <= i < |segments| ==> IsSegment(segments[i])) && Matches(segments, args)
    ensures var r := Run(f, AllText(segments), args);
            Directives(segments) <= |args| && r.Printed? && !r.state.inFmt
            && r.out == RenderAll(segments, args) && r.rest == args[Directives(segments)..]
    decreases |segments|
  {
    hide Step, Run, Render, Text, Fits;
    if segments == [] {
      RunNothing(f, args);
    } else {
      var s, rest := segments[0], segments[1..];
      RunConcat(f, Text(s), AllText(rest), args);
      if s.Literal? {
        LiteralText(s);
        RunLiteral(f, s.text, args);
        RunSegments(f, rest, args);
      } else {
        RunDirective(f, s, args);
        var g := Run(f, Text(s), args).state;
        RunSegments(g, rest, args[1..]);
        assert args[1..][Directives(rest)..] == args[Directives(segments)..];
      }
    }
  }

  lemma LiteralText(s: Segment)
    requires s.Literal?
    ensures Text(s) == s.text
  {
  }

  // ----- options in any order ---------------------------------------------------------------

  predicate IsOption(c: char) { IsDigit(c) || c == '#' || c == '-' || c == '.' }

  /** The characters that mean nothing in a directive. */
  function Others(o: string): string {
    if o == "" then ""
    else var n := |o| - 1; Others(o[..n]) + if IsOption(o[n]) then "" else [o[n]]
  }

  /** The digits before the first point. */
  function BeforePoint(o: string): string {
    if o == "" then ""
    else var n := |o| - 1; BeforePoint(o[..n]) + if IsDigit(o[n]) && '.' !in o[..n] then [o[n]] else ""
  }

  /** The digits after the last point. */
  function AfterPoint(o: string): string {
    if o == "" || o[|o| - 1] == '.' then ""
    else var n := |o| - 1; AfterPoint(o[..n]) + if IsDigit(o[n]) && '.' in o[..n] then [o[n]] else ""
  }

  /** A zero among the width digits is the flag as long as the width is 0. */
  ghost predicate HasZeroFlag(digits: string) {
    exists k :: 0 <= k < |digits| && digits[k] == '0' && Parse(digits[..k], 10) % WORD == 0
  }

  /** Between '%' and the conversion, whatever the characters and their order: '#' and '-' count
      wherever they are, the digits before the first point are the width and those after the last
      one the precision, both modulo 2 to the 64, and what means nothing is printed at once. */
  lemma {:induction false} RunAnyOptions(o: string, args: seq<Arg>)
    requires forall i :: 0 <= i < |o| ==> !IsConversion(o[i])
    ensures Run(BEGIN, o, args) ==
            Printed(Format(true, '#' in o, 10, Parse(BeforePoint(o), 10) % WORD,
                           if '.' in o then Parse(AfterPoint(o), 10) % WORD else 1,
                           '.' in o, HasZeroFlag(BeforePoint(o)), '-' in o), Others(o), args)
    decreases |o|
  {
    hide Run, Step, Others, BeforePoint, AfterPoint, Parse, HasZeroFlag, DigitValue, IsOption, IsDigit;
    if o == "" {
      RunNothing(BEGIN, args);
      NoOptions();
    } else {
      var n := |o| - 1;
      var before, c := o[..n], o[n];
      assert o == before + [c];
      RunAnyOptions(before, args);
      RunConcat(BEGIN, before, [c], args);
      var f := Run(BEGIN, before, args).state;
      OptionMore(before, c);
      if IsDigit(c) {
        DigitMore(f, BeforePoint(before), AfterPoint(before), c, args);
      } else {
        OtherMore(f, c, args);
      }
      assert Others(before) + "" == Others(before) && BeforePoint(before) + "" == BeforePoint(before);
      assert AfterPoint(before) + "" == AfterPoint(before);
    }
  }

  /** So a directive with any options prints what means nothing in it and then its conversion. */
  lemma RunAnyDirective(f: Format, o: string, conversion: char, args: seq<Arg>)
    requires !f.inFmt && (forall i :: 0 <= i < |o| ==> !IsConversion(o[i]))
    requires IsConversion(conversion) && args != [] && FitsConversion(conversion, args[0])
    ensures var g := Format(true, '#' in o, 10, Parse(BeforePoint(o), 10) % WORD,
                            if '.' in o then Parse(AfterPoint(o), 10) % WORD else 1,
                            '.' in o, HasZeroFlag(BeforePoint(o)), '-' in o);
            var r := Run(f, "%" + (o + [conversion]), args);
            r.Printed? && !r.state.inFmt && r.rest == args[1..]
            && r.out == Others(o) + Converted(g, conversion, args[0])
  {
    hide Run, Step, Others, BeforePoint, AfterPoint, Parse, HasZeroFlag, Converted, IsConversion, FitsConversion;
    RunPercent(f, args);
    RunConcat(f, "%", o + [conversion], args);
    RunAnyOptions(o, args);
    RunConcat(BEGIN, o, [conversion], args);
    var g := Run(BEGIN, o, args).state;
    RunConversion(g, conversion, args);
    RunOne(g, conversion, args);
  }

  lemma NoOptions()
    ensures Others("") == BeforePoint("") == AfterPoint("") == "" && Parse("", 10) == 0 && !HasZeroFlag("")
  {
  }

  /** A character that is no digit. */
  lemma OtherMore(f: Format, c: char, args: seq<Arg>)
    requires f.inFmt && !IsDigit(c) && !IsConversion(c)
    ensures Run(f, [c], args) ==
            Printed(f.(basePrefix := f.basePrefix || c == '#', rightPad := f.rightPad || c == '-',
                       precision := if c == '.' then 0 else f.precision, inPrecision := f.inPrecision || c == '.'),
                    if IsOption(c) then "" else [c], args)
    ensures Parse("", 10) == 0
  {
    RunOne(f, c, args);
    hide Run;
  }

  /** A digit, of the width or of the precision. */
  lemma DigitMore(f: Format, width: string, precision: string, c: char, args: seq<Arg>)
    requires f.inFmt && IsDigit(c) && f.width == Parse(width, 10) % WORD
    requires f.inPrecision ==> f.precision == Parse(precision, 10) % WORD
    ensures IsOption(c) && c != '#' && c != '-' && c != '.'
    ensures Run(f, [c], args) ==
            Printed(if f.inPrecision then f.(precision := Parse(precision + [c], 10) % WORD)
                    else f.(width := Parse(width + [c], 10) % WORD,
                            zeroPad := f.zeroPad || (c == '0' && f.width == 0)), "", args)
    ensures HasZeroFlag(width + [c]) <==> HasZeroFlag(width) || (c == '0' && f.width == 0)
  {
    hide Run, Parse, HasZeroFlag;
    DigitBounds(c);
    ParseAppend(width, c, 10);
    ParseAppend(precision, c, 10);
    TimesTenModWord(Parse(width, 10), DigitValue(c));
    TimesTenModWord(Parse(precision, 10), DigitValue(c));
    ZeroFlagMore(width, c);
    RunOne(f, c, args);
  }

  lemma ZeroFlagMore(digits: string, c: char)
    ensures HasZeroFlag(digits + [c]) <==> HasZeroFlag(digits) || (c == '0' && Parse(digits, 10) % WORD == 0)
  {
    var more := digits + [c];
    assert forall k :: 0 <= k <= |digits| ==> more[..k] == digits[..k];
    assert digits[..|digits|] == digits;
    if HasZeroFlag(digits) {
      var k :| 0 <= k < |digits| && digits[k] == '0' && Parse(digits[..k], 10) % WORD == 0;
      assert more[k] == '0' && more[..k] == digits[..k];
    }
    if c == '0' && Parse(digits, 10) % WORD == 0 {
      assert more[|digits|] == '0';
    }
    hide Parse;
  }

  /** One more option character. */
  lemma OptionMore(o: string, c: char)
    ensures var o' := o + [c];
            && ('#' in o' <==> '#' in o || c == '#') && ('-' in o' <==> '-' in o || c == '-')
            && ('.' in o' <==> '.' in o || c == '.')
            && Others(o') == Others(o) + (if IsOption(c) then "" else [c])
            && BeforePoint(o') == BeforePoint(o) + (if IsDigit(c) && '.' !in o then [c] else "")
            && AfterPoint(o') == if c == '.' then "" else AfterPoint(o) + if IsDigit(c) && '.' in o then [c] else ""
  {
    assert (o + [c])[..|o|] == o;
  }

  lemma RunNothing(f: Format, args: seq<Arg>)
    ensures Run(f, "", args) == Printed(f, "", args)
  {
  }
}
