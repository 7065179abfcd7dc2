/**
 struct printf_runner of lib/libc/printf.c, with its output buffer, and the console writer of
 kern/lib/printk.c that ignores the length it is given and stops at the terminator.
 */
module PrintfRunner {
  import opened Printf
  import opened Wrappers

  const BUFSIZE := 32
  const INT_BUF_SIZE := 21   // 64 / 3

  class Console {
    var text: string

    method Putc(c: char)
      modifies this
      ensures text == old(text) + [c]
    {
      text := text + [c];
    }
  }

  /** A C string in a longer block: everything before the first NUL. */
  function UpToNul(s: string): string {
    if s == "" || s[0] == '\0' then "" else [s[0]] + UpToNul(s[1..])
  }

  lemma {:induction false} NoNul(s: string, rest: string)
    requires '\0' !in s && rest != "" && rest[0] == '\0'
    ensures UpToNul(s + rest) == s
  {
    if s != "" {
      NoNul(s[1..], rest);
      assert (s + rest)[0] == s[0] && (s + rest)[1..] == s[1..] + rest;
    } else {
      assert s + rest == rest;
    }
  }

  /** printk_writefn. */
  method PrintkWritefn(console: Console, data: array<char>, len: nat)
    requires '\0' in data[..]
    modifies console
    ensures console.text == old(console.text) + UpToNul(data[..])
  {
    var i := 0;
    while data[i] != '\0'
      invariant i < data.Length && '\0' in data[i..]
      invariant console.text + UpToNul(data[i..]) == old(console.text) + UpToNul(data[..])
      decreases data.Length - i
    {
      console.Putc(data[i]);
      assert data[i..][1..] == data[i + 1..];
      i := i + 1;
    }
  }

  /** What the writer was given, and what it shows of it. */
  ghost function Concat(chunks: seq<string>): string {
    if chunks == [] then "" else Concat(chunks[..|chunks| - 1]) + chunks[|chunks| - 1]
  }

  ghost function Shown(chunks: seq<string>): string {
    if chunks == [] then "" else Shown(chunks[..|chunks| - 1]) + UpToNul(chunks[|chunks| - 1] + "\0")
  }

  /** Nothing is lost on the way when there is no NUL in it. */
  lemma {:induction false} ShownIsConcat(chunks: seq<string>)
    requires '\0' !in Concat(chunks)
    ensures Shown(chunks) == Concat(chunks)
  {
    if chunks != [] {
      var n := |chunks| - 1;
      assert forall c :: c in Concat(chunks[..n]) ==> c in Concat(chunks);
      assert forall c :: c in chunks[n] ==> c in Concat(chunks);
      ShownIsConcat(chunks[..n]);
      NoNul(chunks[n], "\0");
    }
  }

  lemma ChunkAppended(chunks: seq<string>, s: string)
    ensures Concat(chunks + [s]) == Concat(chunks) + s
    ensures Shown(chunks + [s]) == Shown(chunks) + UpToNul(s + "\0")
  {
    assert (chunks + [s])[..|chunks|] == chunks;
  }

  lemma {:induction false} UpToNulTerminated(s: string, rest: string)
    requires rest != "" && rest[0] == '\0'
    ensures UpToNul(s + rest) == UpToNul(s + "\0")
  {
    if s == "" {
      assert s + rest == rest && s + "\0" == "\0";
    } else {
      UpToNulTerminated(s[1..], rest);
      assert (s + rest)[1..] == s[1..] + rest && (s + "\0")[1..] == s[1..] + "\0";
    }
  }

  class Runner {
    const console: Console
    var va: seq<Arg>
    var inFmt: bool
    var enableBasePrefix: bool
    var base: nat
    var fieldWidth: nat
    var precision: nat
    var inPrecision: bool
    var zeroPad: bool
    var rightPad: bool
    var written: nat
    const buf: array<char>
    var buflen: nat
    ghost const before: string         // what the console showed already
    ghost var chunks: seq<string>      // given to the writer so far

    /** The flags, as the format machine has them. */
    function Options(): Format
      reads this`inFmt, this`enableBasePrefix, this`base, this`fieldWidth, this`precision, this`inPrecision,
            this`zeroPad, this`rightPad
    {
      Format(inFmt, enableBasePrefix, base, fieldWidth, precision, inPrecision, zeroPad, rightPad)
    }

    /** Everything pushed: given to the writer, or still in the buffer. */
    ghost function Pushed(): string
      requires buflen <= buf.Length
      reads this`chunks, this`buflen, buf
    {
      Concat(chunks) + buf[..buflen]
    }

    /** There is always room for one more character and the terminator. */
    ghost predicate Valid()
      reads this`chunks, this`buflen, this`written, buf, console
    {
      && buf.Length == BUFSIZE && buflen + 1 < BUFSIZE
      && written == |Concat(chunks)| % WORD
      && console.text == before + Shown(chunks)
    }

    constructor (console: Console, va: seq<Arg>)
      ensures Valid() && fresh(buf) && this.console == console && this.va == va && before == console.text
      ensures chunks == [] && buflen == 0 && Options() == IDLE
    {
      this.console, this.va := console, va;
      inFmt, enableBasePrefix, base, fieldWidth, precision := false, false, 0, 0, 0;
      inPrecision, zeroPad, rightPad := false, false, false;
      written, buflen := 0, 0;
      buf := new char[BUFSIZE];
      before, chunks := console.text, [];
    }

    method Flush()
      requires buf.Length == BUFSIZE && buflen < BUFSIZE
      requires written == |Concat(chunks)| % WORD && console.text == before + Shown(chunks)
      modifies this`written, this`buflen, this`chunks, buf, console
      ensures Valid() && buflen == 0 && Pushed() == old(Pushed())
    {
      hide Concat, Shown, UpToNul;
      ghost var s := buf[..buflen];
      buf[buflen] := '\0';
      assert buf[..] == s + buf[buflen..];
      UpToNulTerminated(s, buf[buflen..]);
      PrintkWritefn(console, buf, buflen);
      ChunkAppended(chunks, s);
      chunks := chunks + [s];
      AddModWord(|Concat(chunks)| - buflen, buflen);
      written := (written + buflen) % WORD;
      buflen := 0;
    }

    method PushChar(c: char)
      requires Valid()
      modifies this`written, this`buflen, this`chunks, buf, console
      ensures Valid() && Pushed() == old(Pushed()) + [c]
    {
      buf[buflen] := c;
      buflen := buflen + 1;
      assert buf[..buflen] == old(buf[..buflen]) + [c];
      assert Pushed() == old(Pushed()) + [c];
      if buflen + 1 >= BUFSIZE {
        Flush();
      }
    }

    /** The padding loops of printf_do_print. */
    method PushRepeated(c: char, n: nat)
      requires Valid()
      modifies this`written, this`buflen, this`chunks, buf, console
      ensures Valid() && Pushed() == old(Pushed()) + Repeat(c, n)
    {
      for i := 0 to n
        invariant Valid() && Pushed() == old(Pushed()) + Repeat(c, i)
      {
        PushChar(c);
        assert Repeat(c, i + 1) == Repeat(c, i) + [c];
      }
    }

    /** The copying loops of printf_do_print. */
    method PushAll(s: string)
      requires Valid()
      modifies this`written, this`buflen, this`chunks, buf, console
      ensures Valid() && Options() == old(Options()) && Pushed() == old(Pushed()) + s
    {
      for i := 0 to |s|
        invariant Valid() && Pushed() == old(Pushed()) + s[..i]
      {
        PushChar(s[i]);
        assert s[..i + 1] == s[..i] + [s[i]];
      }
      assert s[..|s|] == s;
    }

    /** The three padding steps of printf_do_print. */
    method PadLeft(totalLen: nat)
      requires Valid()
      modifies this`written, this`buflen, this`chunks, buf, console
      ensures Valid() && Options() == old(Options()) && Pushed() == old(Pushed()) + LeftPad(Options(), totalLen)
    {
      if totalLen < fieldWidth && !rightPad {
        PushRepeated(if zeroPad then '0' else ' ', fieldWidth - totalLen);
      } else {
        assert old(Pushed()) == old(Pushed()) + LeftPad(Options(), totalLen);
      }
    }

    method PadPrecision(what: string)
      requires Valid()
      modifies this`written, this`buflen, this`chunks, buf, console
      ensures Valid() && Options() == old(Options()) && Pushed() == old(Pushed()) + Repeat('0', Fill(Options(), what))
    {
      if |what| < precision {
        PushRepeated('0', precision - |what|);
      } else {
        assert old(Pushed()) == old(Pushed()) + Repeat('0', 0);
      }
    }

    method PadRight(totalLen: nat)
      requires Valid() && totalLen < WORD
      modifies this`written, this`buflen, this`chunks, buf, console
      ensures Valid() && Options() == old(Options()) && Pushed() == old(Pushed()) + RightPad(Options(), totalLen)
    {
      if rightPad {
        PushRepeated(' ', (fieldWidth + WORD - totalLen) % WORD);
      } else {
        assert old(Pushed()) == old(Pushed()) + RightPad(Options(), totalLen);
      }
    }

    lemma BufferInRange()
      requires Valid()
      ensures buflen <= buf.Length
    {
    }

    method DoPrint(prefix1: string, prefix2: string, what: string)
      requires Valid() && IsFormat(Options())
      modifies this`inFmt, this`written, this`buflen, this`chunks, buf, console
      ensures Valid() && Pushed() == old(Pushed()) + old(Field(Options(), prefix1, prefix2, what))
      ensures Options() == old(Options()).(inFmt := false)
    {
      hide Valid, Pushed, Field, Repeat, LeftPad, RightPad, Fill, Options, TotalLength;
      BufferInRange();
      PiecesOfField(Pushed(), Options(), prefix1, prefix2, what);
      var totalLen := TotalOf(prefix1, prefix2, what);
      PadLeft(totalLen);
      PushAll(prefix1);
      PushAll(prefix2);
      PadPrecision(what);
      PushAll(what);
      PadRight(totalLen);
      EndFormat();
    }

    method EndFormat()
      modifies this`inFmt
      ensures Options() == old(Options()).(inFmt := false)
    {
      inFmt := false;
    }

    method DoUint(value: nat, signPrefix: string)
      requires Valid() && IsFormat(Options()) && IsBase(base) && value < WORD
      modifies this`inFmt, this`written, this`buflen, this`chunks, buf, console
      ensures Valid() && Pushed() == old(Pushed()) + old(UintField(Options(), value, signPrefix))
      ensures Options() == old(Options()).(inFmt := false)
    {
      hide Valid, Pushed, Field, Digits;
      var at := GenerateDigits(value, base);
      var basePrefix := "";
      if enableBasePrefix {
        if base == 16 {
          basePrefix := "0x";
        }
      }
      DoPrint(signPrefix, basePrefix, at);
    }

    /** The negation wraps at the least long long; the cast then reads it as 2^63. */
    method DoInt(value: int)
      requires Valid() && IsFormat(Options()) && IsBase(base) && IsArg(Int(value))
      modifies this`inFmt, this`written, this`buflen, this`chunks, buf, console
      ensures Valid() && Pushed() == old(Pushed()) + old(IntField(Options(), value))
      ensures Options() == old(Options()).(inFmt := false)
    {
      hide Valid, Pushed, UintField;
      var prefix, v := "", value;
      if v < 0 {
        prefix := "-";
        v := if v == -0x8000_0000_0000_0000 then v else -v;
      }
      DoUint(if v < 0 then v + WORD else v, prefix);
    }

    method BeginFmt()
      modifies this`inFmt, this`enableBasePrefix, this`base, this`fieldWidth, this`precision, this`inPrecision,
               this`zeroPad, this`rightPad
      ensures Options() == BEGIN
    {
      inFmt := true;
      enableBasePrefix := false;
      base := 10;
      fieldWidth := 0;
      precision := 1;
      inPrecision := false;
      zeroPad := false;
      rightPad := false;
    }

    /** A character's worth of the format machine. */
    method StepChar(next: char)
      requires Valid() && IsFormat(Options())
      requires Step(Options(), next, va).Stepped? && forall i :: 0 <= i < |va| ==> IsArg(va[i])
      modifies this, buf, console
      ensures Valid() && IsFormat(Options())
      ensures var r := old(Step(Options(), next, va));
              Options() == r.state && Pushed() == old(Pushed()) + r.out && r.used <= old(|va|)
                && va == old(va)[r.used..]
    {
      hide Valid, Pushed, Field, UintField, IntField;
      BufferInRange();
      ghost var p := Pushed();
      assert p + "" == p;
      StepKeepsFormat(Options(), next, va);
      if !inFmt {
        if next == '%' {
          BeginFmt();
        } else {
          PushChar(next);
        }
        return;
      }
      match next
      case '#' => enableBasePrefix := true;
      case '-' => rightPad := true;
      case '.' =>
        precision := 0;
        inPrecision := true;
      case _ =>
        if next in {'d', 'p', 'x', 's'} {
          Convert(next);
        } else if '0' <= next <= '9' {
          DigitChar(next);
        } else {
          PushChar(next);
        }
    }

    /** The conversion cases of printf_step. */
    method Convert(next: char)
      requires Valid() && IsFormat(Options()) && inFmt && next in {'d', 'p', 'x', 's'}
      requires Step(Options(), next, va).Stepped? && forall i :: 0 <= i < |va| ==> IsArg(va[i])
      modifies this, buf, console
      ensures Valid()
      ensures var r := old(Step(Options(), next, va));
              Options() == r.state && Pushed() == old(Pushed()) + r.out && va == old(va)[1..] && r.used == 1
    {
      hide Valid, Pushed, Field, UintField, IntField;
      var arg := va[0];
      va := va[1..];
      match next
      case 'd' =>
        base := 10;
        DoInt(arg.v);
      case 'p' =>
        if arg.p == 0 {
          DoPrint("", "", "(null)");
        } else {
          enableBasePrefix := true;
          base := 16;
          DoUint(arg.p, "");
        }
      case 'x' =>
        base := 16;
        DoInt(arg.v);
      case _ =>
        DoPrint("", "", arg.s);
    }

    /** The digit cases of printf_step. */
    method DigitChar(next: char)
      requires '0' <= next <= '9'
      modifies this`precision, this`zeroPad, this`fieldWidth
      ensures Options() == old(Digit(Options(), next))
    {
      if inPrecision {
        precision := precision * 10 % WORD;
        precision := (precision + DigitValue(next)) % WORD;
        AddModWord(old(precision) * 10, DigitValue(next));
      } else if fieldWidth == 0 && next == '0' {
        zeroPad := true;
      } else {
        fieldWidth := fieldWidth * 10 % WORD;
        fieldWidth := (fieldWidth + DigitValue(next)) % WORD;
        AddModWord(old(fieldWidth) * 10, DigitValue(next));
      }
    }

    /** The size_t sum at the start of printf_do_print. */
    method TotalOf(prefix1: string, prefix2: string, what: string) returns (totalLen: nat)
      ensures totalLen == TotalLength(Options(), prefix1, prefix2, what) < WORD
    {
      totalLen := |prefix1| + |prefix2| + |what|;
      if |what| < precision {
        totalLen := totalLen + (precision - |what|);
      }
      totalLen := totalLen % WORD;
    }
  }

  /** The field, piece after piece behind what is there already. */
  lemma PiecesOfField(p: string, f: Format, prefix1: string, prefix2: string, what: string)
    ensures var total := TotalLength(f, prefix1, prefix2, what);
            p + Field(f, prefix1, prefix2, what) ==
            p + LeftPad(f, total) + prefix1 + prefix2 + Repeat('0', Fill(f, what)) + what + RightPad(f, total)
  {
    hide LeftPad, RightPad, Repeat, Fill, TotalLength;
  }

  lemma NumeralsHaveNoNul(s: string)
    requires forall i :: 0 <= i < |s| ==> IsNumeral(s[i])
    ensures '\0' !in s
  {
  }

  /** The digit loop of printf_do_uint: from the last digit back, in a buffer that the longest
      value and its terminator fill exactly.  The result is the C string at the final `at`. */
  method GenerateDigits(value: nat, base: nat) returns (what: string)
    requires IsBase(base) && value < WORD
    ensures what == Digits(value, base)
  {
    hide Numeral, Digits, UpToNul;
    var buf := new char[INT_BUF_SIZE](_ => '\0');
    var at := INT_BUF_SIZE - 1;
    var rest: nat := value;
    DigitsFit(value, base);
    while rest > 0
      invariant buf.Length == INT_BUF_SIZE && at == INT_BUF_SIZE - 1 - (|Digits(value, base)| - |Digits(rest, base)|)
      invariant |Digits(rest, base)| <= at < INT_BUF_SIZE && buf[INT_BUF_SIZE - 1] == '\0'
      invariant Digits(value, base) == Digits(rest, base) + buf[at..INT_BUF_SIZE - 1]
      decreases rest
    {
      Smaller(rest, base);
      at := at - 1;
      buf[at] := Numeral(rest % base);
      assert buf[at..INT_BUF_SIZE - 1] == [buf[at]] + buf[at + 1..INT_BUF_SIZE - 1];
      rest := rest / base;
    }
    NoDigits(base);
    what := buf[at..INT_BUF_SIZE - 1];
    assert what == Digits(value, base);
    IsWhole(buf[..], at, value, base);
  }

  lemma NoDigits(base: nat)
    requires IsBase(base)
    ensures Digits(0, base) == ""
  {
  }

  /** The digits up to the terminator are all of the C string. */
  lemma IsWhole(buf: string, at: nat, value: nat, base: nat)
    requires IsBase(base) && |buf| == INT_BUF_SIZE && at < INT_BUF_SIZE && buf[INT_BUF_SIZE - 1] == '\0'
    requires buf[at..INT_BUF_SIZE - 1] == Digits(value, base)
    ensures UpToNul(buf[at..]) == Digits(value, base)
  {
    hide Digits, UpToNul;
    var what := buf[at..INT_BUF_SIZE - 1];
    assert buf[at..] == what + buf[INT_BUF_SIZE - 1..];
    DigitsAreNumerals(value, base);
    NumeralsHaveNoNul(what);
    NoNul(what, buf[INT_BUF_SIZE - 1..]);
  }

  lemma Smaller(value: nat, base: nat)
    requires value > 0 && IsBase(base)
    ensures value / base < value
    ensures Digits(value, base) == Digits(value / base, base) + [Numeral(value % base)]
  {
    if base == 10 {
      assert value / 10 < value;
    } else {
      assert value / 16 < value;
    }
  }

  /** generic_printf on the console: it shows exactly what the format machine prints, buffered
      or not, and returns how much that was. */
  method GenericPrintf(console: Console, fmt: string, args: seq<Arg>) returns (written: nat)
    requires '\0' !in fmt && Run(IDLE, fmt, args).Printed? && forall i :: 0 <= i < |args| ==> IsArg(args[i])
    modifies console
    ensures console.text == old(console.text) + Run(IDLE, fmt, args).out
    ensures written == |Run(IDLE, fmt, args).out| % WORD
  {
    hide Run, Step, IsFormat;
    var pr := new Runner(console, args);
    ghost var all := Run(IDLE, fmt, args).out;
    RunHasNoNul(IDLE, fmt, args);
    IdleFacts();
    assert pr.Pushed() == "" && "" + all == all && fmt[0..] == fmt;
    for i := 0 to |fmt|
      invariant pr.Valid() && fresh(pr) && fresh(pr.buf) && pr.console == console && pr.before == old(console.text)
      invariant IsFormat(pr.Options())
      invariant forall k :: 0 <= k < |pr.va| ==> IsArg(pr.va[k])
      invariant Remaining(pr.Options(), fmt[i..], pr.va, pr.Pushed(), all)
    {
      RemainingStep(pr.Options(), fmt, i, pr.va, pr.Pushed(), all);
      pr.StepChar(fmt[i]);
    }
    RemainingNone(pr.Options(), fmt[|fmt|..], pr.va, pr.Pushed(), all);
    pr.Flush();
    assert all == Concat(pr.chunks);
    ShownIsConcat(pr.chunks);
    written := pr.written;
  }

  lemma IdleFacts()
    ensures IsFormat(IDLE)
  {
  }

  /** What is pushed and what is still to be printed make up the whole. */
  ghost predicate Remaining(f: Format, fmt: string, args: seq<Arg>, pushed: string, all: string) {
    Run(f, fmt, args).Printed? && all == pushed + Run(f, fmt, args).out
  }

  lemma RemainingStep(f: Format, fmt: string, i: nat, args: seq<Arg>, pushed: string, all: string)
    requires i < |fmt| && Remaining(f, fmt[i..], args, pushed, all)
    ensures var r := Step(f, fmt[i], args);
            r.Stepped? && r.used <= |args| && Remaining(r.state, fmt[i + 1..], args[r.used..], pushed + r.out, all)
  {
    RunUnfold(f, fmt[i..], args);
    assert fmt[i..][1..] == fmt[i + 1..];
    hide Run, Step;
  }

  lemma RemainingNone(f: Format, fmt: string, args: seq<Arg>, pushed: string, all: string)
    requires fmt == "" && Remaining(f, fmt, args, pushed, all)
    ensures pushed == all
  {
    assert pushed + "" == pushed;
  }

  lemma RunUnfold(f: Format, fmt: string, args: seq<Arg>)
    requires fmt != "" && Run(f, fmt, args).Printed?
    ensures var r := Step(f, fmt[0], args);
            r.Stepped? && r.used <= |args|
            && var rest := Run(r.state, fmt[1..], args[r.used..]);
               rest.Printed? && Run(f, fmt, args).out == r.out + rest.out
  {
  }

  lemma AddModWord(a: nat, b: nat)
    ensures (a % WORD + b) % WORD == (a + b) % WORD
  {
    assert a + b == (a % WORD + b) + a / WORD * WORD;
  }
}
