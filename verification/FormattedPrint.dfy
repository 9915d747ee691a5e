/**
 The table-driven print function (FormattedPrint.cpp, FormattedPrintA): literal characters, and conversions of integers,
 characters, strings and pointers.
 */
module FormattedPrint {
  import opened PrintOutput
  import opened IntegerFormat

  const NULL_STRING := "(null)"

  datatype CharType = ChOther | ChPercent | ChDot | ChStar | ChZero | ChDigit | ChFlag | ChSize | ChType

  datatype State = Normal | Percent | Flag | Width | Dot | Precis | Size | Type | Invalid

  /** GetCharType, the low half of the lookup table. */
  function GetCharType(ch: char): CharType {
    if ch == '%' then ChPercent
    else if ch == '.' then ChDot
    else if ch == '*' then ChStar
    else if ch == '0' then ChZero
    else if '1' <= ch <= '9' then ChDigit
    else if ch == ' ' || ch == '#' || ch == '+' || ch == '-' then ChFlag
    else if ch == 'F' || ch == 'I' || ch == 'L' || ch == 'N' || ch == 'h' || ch == 'l' || ch == 'w' then ChSize
    else if ch == 'C' || ch == 'E' || ch == 'G' || ch == 'S' || ch == 'X' || ch == 'Z' || 'c' <= ch <= 'g'
         || ch == 'i' || ch == 'o' || ch == 'p' || ch == 's' || ch == 'u' || ch == 'x' then ChType
    else ChOther
  }

  /** GetState, the high half of the lookup table. */
  function GetState(t: CharType, from: State): State {
    match from
    case Normal | Type => if t.ChPercent? then Percent else Normal
    case Invalid => Normal
    case Percent =>
      if t.ChOther? then Invalid else if t.ChPercent? then Normal else InConversion(t)
    case Flag => if t.ChOther? || t.ChPercent? then Invalid else InConversion(t)
    case Width =>
      if t.ChDot? then Dot else if t.ChZero? || t.ChDigit? then Width
      else if t.ChSize? then Size else if t.ChType? then Type else Invalid
    case Dot =>
      if t.ChStar? || t.ChZero? || t.ChDigit? then Precis
      else if t.ChSize? then Size else if t.ChType? then Type else Invalid
    case Precis =>
      if t.ChZero? || t.ChDigit? then Precis
      else if t.ChSize? then Size else if t.ChType? then Type else Invalid
    case Size => if t.ChSize? then Size else if t.ChType? then Type else Invalid
  }

  function InConversion(t: CharType): State {
    match t
    case ChDot => Dot
    case ChStar | ChDigit => Width
    case ChZero | ChFlag => Flag
    case ChSize => Size
    case ChType => Type
    case _ => Invalid
  }

  function WithFlag(flags: Flags, ch: char): Flags {
    if ch == '-' then flags.(left := true)
    else if ch == '+' then flags.(sign := true)
    else if ch == ' ' then flags.(signSpace := true)
    else if ch == '#' then flags.(alternate := true)
    else if ch == '0' then flags.(leadZero := true)
    else flags
  }

  function At(fmt: string, i: nat): char {
    if i < |fmt| then fmt[i] else '\0'
  }

  /** ProcessSize: the state, how many more characters belong to the size, and the flags. */
  function ProcessSize(sizeCh: char, fmt: string, i: nat, flags: Flags): (r: (State, nat, Flags))
    ensures i <= |fmt| && '\0' !in fmt ==> i + r.1 <= |fmt|
    ensures r.0 == Size || (r.0 == Normal && r.1 == 0)
  {
    var next, second := At(fmt, i), At(fmt, i + 1);
    if sizeCh == 'l' then (if next == 'l' then (Size, 1, flags.(longLong := true)) else (Size, 0, flags.(isLong := true)))
    else if sizeCh == 'I' then
      if next == '6' && second == '4' then (Size, 2, flags.(i64 := true))
      else if next == '3' && second == '2' then (Size, 2, flags.(i64 := false))
      else if next == 'd' || next == 'i' || next == 'o' || next == 'u' || next == 'x' || next == 'X' then
        (Size, 0, flags.(i64 := true))
      else (Normal, 0, flags.(i64 := true))
    else if sizeCh == 'h' then (Size, 0, flags.(isShort := true))
    else if sizeCh == 'w' then (Size, 0, flags.(wide := true))
    else (Size, 0, flags)
  }

  // ---------- what is printed ----------

  /** Overflows: behind the text a width or precision is too large for an int. Unmodelled: floating point, wide characters, and
      arguments that are not there. */
  datatype Outcome = Text(text: string) | Failed | Overflows(text: string) | Unmodelled

  const NEW_CONVERSION := Conversion(NO_FLAGS, 0, -1, ' ')

  function Truncated(s: string, precision: int): string {
    if 0 <= precision < |s| then s[..precision] else s
  }

  predicate IsWide(c: Conversion) {
    c.flags.isLong || c.flags.wide || ((c.kind == 'C' || c.kind == 'S') && !c.flags.isShort)
  }

  /** A pointer is a number of two hexadecimal digits a byte. */
  function AsPointer(c: Conversion): Conversion {
    c.(flags := c.flags.(i64 := true), precision := 16, kind := 'X')
  }

  function Justified(c: Conversion, text: string): string {
    Padded("", text, c.width, c.flags.left, c.flags.leadZero)
  }

  /** One conversion of an argument. A string argument is the address of a string in memory. */
  function Converted(c: Conversion, arg: int, memory: map<int, string>): (out: Outcome)
    ensures !out.Overflows?
  {
    if c.IsInteger() then Text(IntegerText(c, arg))
    else if c.kind == 'p' then Text(IntegerText(AsPointer(c), arg))
    else if c.kind == 'c' || c.kind == 'C' then
      if IsWide(c) then Unmodelled else Text(Justified(c, [(arg % 256) as char]))
    else if c.kind == 's' || c.kind == 'S' then
      if IsWide(c) || (arg != 0 && arg !in memory) then Unmodelled
      else Text(Justified(c, Truncated(if arg == 0 then NULL_STRING else memory[arg], c.precision)))
    else if c.kind == 'Z' then Failed
    else Unmodelled
  }

  function DigitOf(ch: char): (d: nat) {
    if '0' <= ch <= '9' then (ch - '0') as nat else 0
  }

  /** Between two characters of the format: the conversion as read so far, the arguments that are left, and the text. */
  datatype Progress = Going(i: nat, state: State, c: Conversion, args: seq<int>, done: string) | Stopped(out: Outcome)

  function Start(args: seq<int>): Progress {
    Going(0, Normal, NEW_CONVERSION, args, "")
  }

  /** A width or precision with one digit more. */
  function WithDigit(n: int, ch: char): int {
    n * 10 + DigitOf(ch)
  }

  predicate IsInt(n: int) {
    -INT_MAX - 1 <= n <= INT_MAX
  }

  /** A width from the arguments: a negative one is positive and to the left. */
  function WithStarWidth(c: Conversion, arg: int): Conversion {
    var width := Signed(arg, INT_RANGE);
    if width < 0 then c.(flags := c.flags.(left := true), width := -width) else c.(width := width)
  }

  /** A precision from the arguments: a negative one is none. */
  function WithStarPrecision(c: Conversion, arg: int): Conversion {
    var precision := Signed(arg, INT_RANGE);
    c.(precision := if precision < 0 then -1 else precision)
  }

  /** One character of the format. */
  function Step(fmt: string, p: Progress, memory: map<int, string>): (q: Progress)
    requires '\0' !in fmt && p.Going? && p.i < |fmt|
    ensures if q.Going? then p.i < q.i <= |fmt| && p.done <= q.done else !q.out.Text? && (q.out.Overflows? ==> q.out.text == p.done)
  {
    var ch := fmt[p.i];
    var state := GetState(GetCharType(ch), p.state);
    var next := p.(i := p.i + 1, state := state);
    match state
    case Invalid => Stopped(Failed)
    case Normal => next.(done := p.done + [ch])
    case Percent => next.(c := NEW_CONVERSION)
    case Flag => next.(c := p.c.(flags := WithFlag(p.c.flags, ch)))
    case Width =>
      if ch == '*' then
        if p.args == [] then Stopped(Unmodelled)
        else if IsInt(-Signed(p.args[0], INT_RANGE)) then next.(c := WithStarWidth(p.c, p.args[0]), args := p.args[1..])
        else Stopped(Overflows(p.done))
      else if !IsInt(WithDigit(p.c.width, ch)) then Stopped(Overflows(p.done))
      else next.(c := p.c.(width := WithDigit(p.c.width, ch)))
    case Dot => next.(c := p.c.(precision := 0))
    case Precis =>
      if ch == '*' then
        if p.args == [] then Stopped(Unmodelled)
        else next.(c := WithStarPrecision(p.c, p.args[0]), args := p.args[1..])
      else if !IsInt(WithDigit(p.c.precision, ch)) then Stopped(Overflows(p.done))
      else next.(c := p.c.(precision := WithDigit(p.c.precision, ch)))
    case Size =>
      var (st, advance, flags) := ProcessSize(ch, fmt, p.i + 1, p.c.flags);
      Going(p.i + 1 + advance, st, p.c.(flags := flags), p.args, if st.Normal? then p.done + [ch] else p.done)
    case Type =>
      if p.args == [] then Stopped(Unmodelled)
      else
        var out := Converted(p.c.(kind := ch), p.args[0], memory);
        if out.Text? then next.(args := p.args[1..], done := p.done + out.text) else Stopped(out)
  }

  /** What is printed: the format may not end inside a conversion. */
  function Formatted(fmt: string, p: Progress, memory: map<int, string>): Outcome
    requires '\0' !in fmt && (p.Going? ==> p.i <= |fmt|)
    decreases if p.Going? then |fmt| - p.i + 1 else 0
  {
    if p.Stopped? then p.out
    else if p.i == |fmt| then (if p.state.Normal? || p.state.Type? then Text(p.done) else Failed)
    else Formatted(fmt, Step(fmt, p, memory), memory)
  }

  lemma {:induction false} DoneComesFirst(fmt: string, p: Progress, memory: map<int, string>)
    requires '\0' !in fmt && p.Going? && p.i <= |fmt|
    ensures var out := Formatted(fmt, p, memory); out.Text? || out.Overflows? ==> p.done <= out.text
    decreases |fmt| - p.i
  {
    hide Step;
    if p.i < |fmt| && Step(fmt, p, memory).Going? {
      var q := Step(fmt, p, memory);
      DoneComesFirst(fmt, q, memory);
      PrefixOfPrefix(p.done, q.done, Formatted(fmt, q, memory));
    }
  }

  lemma PrefixOfPrefix(a: string, b: string, out: Outcome)
    requires a <= b && (out.Text? || out.Overflows? ==> b <= out.text)
    ensures out.Text? || out.Overflows? ==> a <= out.text
  {
  }

  lemma OneStep(fmt: string, p: Progress, memory: map<int, string>)
    requires '\0' !in fmt && p.Going? && p.i < |fmt|
    ensures Formatted(fmt, p, memory) == Formatted(fmt, Step(fmt, p, memory), memory)
    ensures Step(fmt, p, memory).Stopped? ==> Formatted(fmt, p, memory) == Step(fmt, p, memory).out
  {
    hide Step;
  }

  lemma AtEnd(fmt: string, p: Progress, memory: map<int, string>)
    requires '\0' !in fmt && p.Going? && p.i == |fmt|
    ensures Formatted(fmt, p, memory) == if p.state.Normal? || p.state.Type? then Text(p.done) else Failed
  {
  }

  // ---------- the print function ----------

  /** The padding, prefix and text of a conversion, in the right order. */
  method WriteJustified(output: BufferOutput, prefix: string, text: string, width: nat, left: bool, leadZero: bool, count: int)
    returns (newCount: int)
    requires output.Valid(count)
    modifies output`next, output`remaining, output`asked, output.buffer
    ensures output.Valid(newCount) && output.asked == old(output.asked) + Padded(prefix, text, width, left, leadZero)
    ensures output.OnlyInside(old(output.buffer[..]))
  {
    hide BufferOutput.Valid, SameOutside;
    Untouched(output.buffer[..], output.start, output.size);
    var padding := width - |text| - |prefix|;
    newCount := count;
    ghost var had, before := output.asked, output.buffer[..];
    ghost var here := before;
    if !(left || leadZero) {
      newCount := output.WriteMultiChar(' ', padding, newCount);
      here := output.buffer[..];
    }
    newCount := output.WriteString(prefix, newCount);
    SameOutsideAgain(output.buffer[..], here, before, output.start, output.size);
    here := output.buffer[..];
    if leadZero && !left {
      newCount := output.WriteMultiChar('0', padding, newCount);
      SameOutsideAgain(output.buffer[..], here, before, output.start, output.size);
      here := output.buffer[..];
    }
    newCount := output.WriteString(text, newCount);
    SameOutsideAgain(output.buffer[..], here, before, output.start, output.size);
    here := output.buffer[..];
    if left {
      if newCount >= 0 {
        newCount := output.WriteMultiChar(' ', padding, newCount);
        SameOutsideAgain(output.buffer[..], here, before, output.start, output.size);
      } else {
        CountIsMinusOne(output, newCount);
        output.Skip(Repeat(' ', padding));
      }
    }
    assert output.asked == had + Padded(prefix, text, width, left, leadZero);
  }

  lemma CountIsMinusOne(output: BufferOutput, count: int)
    requires output.Valid(count) && count < 0
    ensures count == -1
  {
  }

  /** A conversion that can be made: it is printed. */
  method PrintConversion(output: BufferOutput, c: Conversion, arg: int, memory: map<int, string>, count: int)
    returns (newCount: int)
    requires output.Valid(count) && Converted(c, arg, memory).Text?
    modifies output`next, output`remaining, output`asked, output.buffer
    ensures output.Valid(newCount) && output.asked == old(output.asked) + Converted(c, arg, memory).text
    ensures output.OnlyInside(old(output.buffer[..]))
  {
    hide BufferOutput.Valid, Padded, Prefix, IntegerDigits, IsWide;
    var prefix, text, flags, precision := "", "", c.flags, c.precision;
    if c.IsInteger() {
      prefix, text := ConvertInteger(c, arg);
    } else if c.kind == 'p' {
      precision := 16;
      prefix, text := ConvertInteger(AsPointer(c), arg);
    } else if c.kind == 'c' || c.kind == 'C' {
      text := [(arg % 256) as char];
    } else {
      text := if arg == 0 then NULL_STRING else memory[arg];
      if 0 <= precision < |text| {
        text := text[..precision];
      }
    }
    if (c.IsInteger() || c.kind == 'p') && precision >= 0 {
      flags := flags.(leadZero := false);
    }
    newCount := WriteJustified(output, prefix, text, c.width, flags.left, flags.leadZero, count);
  }

  /** FormattedPrintA: the number of characters that were printed, or -1 when the format is wrong or they do not fit;
      overflows when it comes to a width or precision that is too large for an int. */
  method FormattedPrintA(output: BufferOutput, fmt: string, args: seq<int>, memory: map<int, string>)
    returns (charsout: int, overflows: bool)
    requires output.Valid(0) && output.asked == "" && '\0' !in fmt
    requires Formatted(fmt, Start(args), memory) != Unmodelled
    modifies output`next, output`remaining, output`asked, output.buffer
    ensures output.OnlyInside(old(output.buffer[..]))
    ensures var out := Formatted(fmt, Start(args), memory);
            && (overflows <==> out.Overflows? && |out.text| <= output.size)
            && (!overflows ==> Prints(output, charsout, out))
  {
    hide BufferOutput.Valid, SameOutside, Converted, GetState, GetCharType, ProcessSize, WithFlag, Formatted, Prints, Signed, WithStarWidth, WithStarPrecision;
    ghost var goal, before := Formatted(fmt, Start(args), memory), output.buffer[..];
    var state, c, i, rest := Normal, NEW_CONVERSION, 0, args;
    charsout, overflows := 0, false;
    Untouched(before, output.start, output.size);
    while i < |fmt| && charsout >= 0
      invariant i <= |fmt| && output.Valid(charsout) && output.OnlyInside(before)
      invariant Formatted(fmt, Going(i, state, c, rest, output.asked), memory) == goal
      decreases |fmt| - i
    {
      ghost var p, here := Going(i, state, c, rest, output.asked), output.buffer[..];
      Untouched(here, output.start, output.size);
      OneStep(fmt, p, memory);
      var ch := fmt[i];
      i := i + 1;
      state := GetState(GetCharType(ch), state);
      match state {
        case Invalid =>
          NothingPrinted(output, goal);
          return -1, false;
        case Normal => charsout := output.WriteChar(ch, charsout);
        case Percent => c := NEW_CONVERSION;
        case Flag => c := c.(flags := WithFlag(c.flags, ch));
        case Width =>
          var fits := IsInt(if ch == '*' then -Signed(rest[0], INT_RANGE) else WithDigit(c.width, ch));
          if !fits {
            CountIsLength(output, charsout);
            return charsout, true;
          }
          if ch == '*' {
            c, rest := WithStarWidth(c, rest[0]), rest[1..];
          } else {
            c := c.(width := WithDigit(c.width, ch));
          }
        case Dot => c := c.(precision := 0);
        case Precis =>
          if ch == '*' {
            c, rest := WithStarPrecision(c, rest[0]), rest[1..];
          } else if IsInt(WithDigit(c.precision, ch)) {
            c := c.(precision := WithDigit(c.precision, ch));
          } else {
            CountIsLength(output, charsout);
            return charsout, true;
          }
        case Size =>
          var size := ProcessSize(ch, fmt, i, c.flags);
          state, i, c := size.0, i + size.1, c.(flags := size.2);
          if state.Normal? {
            charsout := output.WriteChar(ch, charsout);
          }
        case Type =>
          if Converted(c.(kind := ch), rest[0], memory).Failed? {
            NothingPrinted(output, goal);
            return -1, false;
          }
          charsout := PrintConversion(output, c.(kind := ch), rest[0], memory, charsout);
          rest := rest[1..];
      }
      SameOutsideAgain(output.buffer[..], here, before, output.start, output.size);
    }
    CountIsLength(output, charsout);
    DoneComesFirst(fmt, Going(i, state, c, rest, output.asked), memory);
    if charsout >= 0 {
      AtEnd(fmt, Going(i, state, c, rest, output.asked), memory);
    }
    if charsout >= 0 && !state.Normal? && !state.Type? {
      NothingPrinted(output, goal);
      return -1, false;
    }
    WhatWasPrinted(output, charsout, goal);
  }

  /** The result of a print: all of the text and its length, or -1. */
  ghost predicate Prints(output: BufferOutput, charsout: int, out: Outcome)
    reads output.buffer
  {
    if out.Text? && |out.text| <= output.size
    then charsout == |out.text| && output.start + |out.text| <= output.buffer.Length
         && output.buffer[output.start..output.start + |out.text|] == out.text
    else charsout == -1
  }

  lemma CountIsLength(output: BufferOutput, charsout: int)
    requires output.Valid(charsout)
    ensures charsout >= 0 <==> |output.asked| <= output.size
  {
  }

  lemma Untouched(a: seq<char>, start: nat, size: nat)
    ensures SameOutside(a, a, start, size)
  {
  }

  lemma NothingPrinted(output: BufferOutput, out: Outcome)
    requires !out.Text?
    ensures Prints(output, -1, out)
  {
  }

  lemma WhatWasPrinted(output: BufferOutput, charsout: int, out: Outcome)
    requires output.Valid(charsout)
    requires charsout >= 0 ==> out == Text(output.asked)
    requires charsout < 0 && out.Text? ==> output.asked <= out.text
    ensures Prints(output, charsout, out)
  {
  }
}
