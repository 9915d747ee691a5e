/**
 Writing a conversion down as a format, and how the table-driven reader takes it: flags, width, precision and size come
 back as they were written.
 */
module ConversionText {
  import opened Wrappers
  import opened PrintOutput
  import opened IntegerFormat
  import opened FormattedPrint

  function Optional(on: bool, s: string): string {
    if on then s else ""
  }

  /** Those of the flags that are on, and what stands behind them. */
  function FlagsAnd(flags: seq<(bool, char)>, rest: string): string {
    if flags == [] then rest else Optional(flags[0].0, [flags[0].1]) + FlagsAnd(flags[1..], rest)
  }

  function FlagList(f: Flags): seq<(bool, char)> {
    [(f.left, '-'), (f.sign, '+'), (f.signSpace, ' '), (f.alternate, '#'), (f.leadZero, '0')]
  }

  function Decimal(n: nat): string {
    Digits(n, 10, 0, false)
  }

  function PrecisionText(precision: int): string {
    if precision < 0 then "" else "." + Decimal(precision)
  }

  /** The sizes that are on, and what stands behind them. */
  function SizesAnd(f: Flags, rest: string): string {
    Optional(f.isShort, "h") + (Optional(f.longLong, "ll") + LongAnd(f, rest))
  }

  function LongAnd(f: Flags, rest: string): string {
    Optional(f.isLong, "l") + WideAnd(f, rest)
  }

  function WideAnd(f: Flags, rest: string): string {
    Optional(f.wide, "w") + (Optional(f.i64, "I64") + rest)
  }

  /** The conversion behind its percent sign. */
  function SpecText(c: Conversion): string {
    FlagsAnd(FlagList(c.flags), Decimal(c.width) + (PrecisionText(c.precision) + SizesAnd(c.flags, [c.kind])))
  }

  // ---------- numbers ----------

  function Accumulated(n: nat, digits: string): (m: nat)
    ensures m >= n
    decreases |digits|
  {
    if digits == "" then n else Accumulated(n * 10 + FormattedPrint.DigitOf(digits[0]), digits[1..])
  }

  lemma {:induction false} AccumulatedAppend(n: nat, digits: string, d: char)
    ensures Accumulated(n, digits + [d]) == Accumulated(n, digits) * 10 + FormattedPrint.DigitOf(d)
    decreases |digits|
  {
    if digits == "" {
      assert ("" + [d])[1..] == "";
    } else {
      AccumulatedAppend(n * 10 + FormattedPrint.DigitOf(digits[0]), digits[1..], d);
      assert (digits + [d])[1..] == digits[1..] + [d];
    }
  }

  predicate AllDecimal(s: string) {
    forall i :: 0 <= i < |s| ==> '0' <= s[i] <= '9'
  }

  lemma {:induction false} DecimalReadsBack(n: nat)
    ensures Accumulated(0, Decimal(n)) == n && AllDecimal(Decimal(n))
    ensures Decimal(n) != "" ==> Decimal(n)[0] != '0'
  {
    if n > 0 {
      FirstDigitNotZero(n, 10, 0, false);
      DecimalReadsBack(n / 10);
      FewerDigits(n);
      AccumulatedAppend(0, Decimal(n / 10), DigitChar(n % 10, false));
    }
  }

  lemma FewerDigits(n: nat)
    requires n > 0
    ensures Decimal(n) == Decimal(n / 10) + [DigitChar(n % 10, false)]
  {
    NoMoreDigits(n / 10, -1);
    assert Div(n, 10) == n / 10 && Mod(n, 10) == n % 10;
  }

  lemma {:induction false} NoMoreDigits(n: nat, count: int)
    requires count <= 0
    ensures Digits(n, 10, count, false) == Digits(n, 10, 0, false)
    decreases n
  {
    if n > 0 {
      NoMoreDigits(Div(n, 10), count - 1);
      NoMoreDigits(Div(n, 10), -1);
    }
  }

  // ---------- the reader, segment by segment ----------

  /** Two stages of a print that come to the same. */
  ghost predicate Same(fmt: string, p: Progress, q: Progress, memory: map<int, string>) {
    && '\0' !in fmt && p.Going? && q.Going? && p.i <= |fmt| && q.i <= |fmt|
    && Formatted(fmt, p, memory) == Formatted(fmt, q, memory)
  }

  /** What is left of the format from i on. */
  predicate Stands(fmt: string, i: nat, s: string) {
    i <= |fmt| && fmt[i..] == s
  }

  function AddFlag(flags: Flags, on: bool, ch: char): Flags {
    if on then WithFlag(flags, ch) else flags
  }

  predicate BeforeConversion(p: Progress) {
    p.Going? && (p.state == Percent || p.state == Flag)
  }

  lemma FirstOf(fmt: string, i: nat, s: string)
    requires Stands(fmt, i, s) && s != ""
    ensures i < |fmt| && fmt[i] == s[0] && Stands(fmt, i + 1, s[1..])
  {
    assert fmt[i..][0] == s[0] && fmt[i..][1..] == fmt[i + 1..];
  }

  /** Passing over a piece of the format. */
  lemma Split(fmt: string, i: nat, a: string, b: string)
    requires Stands(fmt, i, a + b)
    ensures Stands(fmt, i + |a|, b)
  {
    assert fmt[i + |a|..] == fmt[i..][|a|..];
  }

  lemma SameAgain(fmt: string, p: Progress, q: Progress, r: Progress, memory: map<int, string>)
    requires Same(fmt, p, q, memory) && Same(fmt, q, r, memory)
    ensures Same(fmt, p, r, memory)
  {
  }

  lemma SameStage(fmt: string, p: Progress, s: string, memory: map<int, string>)
    requires '\0' !in fmt && p.Going? && Stands(fmt, p.i, s)
    ensures Same(fmt, p, p, memory)
  {
  }

  lemma ReadFlag(fmt: string, p: Progress, on: bool, ch: char, rest: string, memory: map<int, string>) returns (q: Progress)
    requires '\0' !in fmt && BeforeConversion(p) && ch in "-+ #0" && Stands(fmt, p.i, Optional(on, [ch]) + rest)
    ensures BeforeConversion(q) && Stands(fmt, q.i, rest) && q.c == p.c.(flags := AddFlag(p.c.flags, on, ch))
    ensures q.args == p.args && q.done == p.done && Same(fmt, p, q, memory)
  {
    hide Formatted;
    q := p;
    Split(fmt, p.i, Optional(on, [ch]), rest);
    if on {
      FirstOf(fmt, p.i, [ch] + rest);
      OneStep(fmt, p, memory);
      q := Step(fmt, p, memory);
    } else {
      assert "" + rest == rest;
    }
  }

  lemma {:induction false} ReadWidth(fmt: string, p: Progress, digits: string, rest: string, memory: map<int, string>)
    returns (q: Progress)
    requires '\0' !in fmt && p.Going? && AllDecimal(digits) && Stands(fmt, p.i, digits + rest) && p.c.width <= INT_MAX
    requires p.state == Width || ((p.state == Percent || p.state == Flag) && (digits != "" ==> digits[0] != '0'))
    ensures Accumulated(p.c.width, digits) > INT_MAX ==> Formatted(fmt, p, memory) == Overflows(p.done)
    ensures Accumulated(p.c.width, digits) <= INT_MAX ==>
              && q.Going? && Stands(fmt, q.i, rest) && q.c == p.c.(width := Accumulated(p.c.width, digits))
              && q.args == p.args && q.done == p.done && q.state == (if digits == "" then p.state else Width) && Same(fmt, p, q, memory)
    decreases |digits|
  {
    hide Formatted;
    q := p;
    if digits == "" {
      assert "" + rest == rest;
    } else {
      FirstOf(fmt, p.i, digits + rest);
      assert (digits + rest)[1..] == digits[1..] + rest;
      OneStep(fmt, p, memory);
      if WithDigit(p.c.width, digits[0]) <= INT_MAX {
        q := ReadWidth(fmt, Step(fmt, p, memory), digits[1..], rest, memory);
      }
    }
  }

  lemma {:induction false} ReadPrecision(fmt: string, p: Progress, digits: string, rest: string, memory: map<int, string>)
    returns (q: Progress)
    requires '\0' !in fmt && p.Going? && AllDecimal(digits) && Stands(fmt, p.i, digits + rest)
    requires (p.state == Dot || p.state == Precis) && 0 <= p.c.precision <= INT_MAX
    ensures Accumulated(p.c.precision, digits) > INT_MAX ==> Formatted(fmt, p, memory) == Overflows(p.done)
    ensures Accumulated(p.c.precision, digits) <= INT_MAX ==>
              && q.Going? && Stands(fmt, q.i, rest) && q.c == p.c.(precision := Accumulated(p.c.precision, digits))
              && q.args == p.args && q.done == p.done && q.state == (if digits == "" then p.state else Precis) && Same(fmt, p, q, memory)
    decreases |digits|
  {
    hide Formatted;
    q := p;
    if digits == "" {
      assert "" + rest == rest;
    } else {
      FirstOf(fmt, p.i, digits + rest);
      assert (digits + rest)[1..] == digits[1..] + rest;
      OneStep(fmt, p, memory);
      if WithDigit(p.c.precision, digits[0]) <= INT_MAX {
        q := ReadPrecision(fmt, Step(fmt, p, memory), digits[1..], rest, memory);
      }
    }
  }

  predicate InConversion(p: Progress) {
    p.Going? && p.state != Normal && p.state != Type && p.state != Invalid
  }

  /** A size, when it is one with what stands behind it. */
  lemma ReadSize(fmt: string, p: Progress, on: bool, size: string, flags: Flags, rest: string, memory: map<int, string>)
    returns (q: Progress)
    requires '\0' !in fmt && InConversion(p) && Stands(fmt, p.i, Optional(on, size) + rest)
    requires size != "" && GetCharType(size[0]) == ChSize
    requires on ==> ProcessSize(size[0], fmt, p.i + 1, p.c.flags) == (Size, |size| - 1, flags)
    ensures InConversion(q) && Stands(fmt, q.i, rest) && q.c == p.c.(flags := if on then flags else p.c.flags)
    ensures q.args == p.args && q.done == p.done && Same(fmt, p, q, memory)
  {
    hide Formatted, GetCharType, ProcessSize;
    q := p;
    Split(fmt, p.i, Optional(on, size), rest);
    if on {
      FirstOf(fmt, p.i, size + rest);
      OneStep(fmt, p, memory);
      q := Step(fmt, p, memory);
    } else {
      assert "" + rest == rest;
    }
  }

  function AddFlags(flags: Flags, list: seq<(bool, char)>): Flags
    decreases |list|
  {
    if list == [] then flags else AddFlags(AddFlag(flags, list[0].0, list[0].1), list[1..])
  }

  lemma OneFlagAdded(flags: Flags, on: bool, ch: char, rest: seq<(bool, char)>)
    ensures AddFlags(flags, [(on, ch)] + rest) == AddFlags(AddFlag(flags, on, ch), rest) && AddFlags(flags, []) == flags
  {
    assert ([(on, ch)] + rest)[1..] == rest;
  }

  lemma FlagsCollected(f: Flags)
    ensures AddFlags(NO_FLAGS, FlagList(f)) == WithoutSizes(f)
  {
    hide AddFlags;
    var l5 := [(f.leadZero, '0')] + [];
    var l4 := [(f.alternate, '#')] + l5;
    var l3 := [(f.signSpace, ' ')] + l4;
    var l2 := [(f.sign, '+')] + l3;
    assert FlagList(f) == [(f.left, '-')] + l2;
    OneFlagAdded(NO_FLAGS, f.left, '-', l2);
    var f1 := AddFlag(NO_FLAGS, f.left, '-');
    OneFlagAdded(f1, f.sign, '+', l3);
    var f2 := AddFlag(f1, f.sign, '+');
    OneFlagAdded(f2, f.signSpace, ' ', l4);
    var f3 := AddFlag(f2, f.signSpace, ' ');
    OneFlagAdded(f3, f.alternate, '#', l5);
    var f4 := AddFlag(f3, f.alternate, '#');
    OneFlagAdded(f4, f.leadZero, '0', []);
    OneFlagAdded(AddFlag(f4, f.leadZero, '0'), false, ' ', []);
  }

  function WithoutSizes(f: Flags): Flags {
    f.(isShort := false, isLong := false, longLong := false, i64 := false, wide := false)
  }

  lemma {:induction false} ReadFlags(fmt: string, p: Progress, list: seq<(bool, char)>, rest: string, memory: map<int, string>)
    returns (q: Progress)
    requires '\0' !in fmt && BeforeConversion(p) && Stands(fmt, p.i, FlagsAnd(list, rest))
    requires forall k :: 0 <= k < |list| ==> list[k].1 in "-+ #0"
    ensures BeforeConversion(q) && Stands(fmt, q.i, rest) && q.c == p.c.(flags := AddFlags(p.c.flags, list))
    ensures q.args == p.args && q.done == p.done && Same(fmt, p, q, memory)
    decreases |list|
  {
    hide Formatted, Stands, AddFlag, Same;
    q := p;
    SameStage(fmt, p, FlagsAnd(list, rest), memory);
    if list != [] {
      var q1 := ReadFlag(fmt, p, list[0].0, list[0].1, FlagsAnd(list[1..], rest), memory);
      q := ReadFlags(fmt, q1, list[1..], rest, memory);
      SameAgain(fmt, p, q1, q, memory);
    }
  }

  /** Short and long long. */
  lemma ReadShort(fmt: string, p: Progress, f: Flags, kind: char, memory: map<int, string>) returns (q: Progress)
    requires '\0' !in fmt && InConversion(p) && Stands(fmt, p.i, SizesAnd(f, [kind])) && p.c.flags == WithoutSizes(f)
    ensures InConversion(q) && Stands(fmt, q.i, LongAnd(f, [kind]))
    ensures q.c == p.c.(flags := WithoutSizes(f).(isShort := f.isShort, longLong := f.longLong))
    ensures q.args == p.args && q.done == p.done && Same(fmt, p, q, memory)
  {
    hide Formatted, Same, Stands, LongAnd;
    var rest := LongAnd(f, [kind]);
    var q1 := ReadSize(fmt, p, f.isShort, "h", p.c.flags.(isShort := true), Optional(f.longLong, "ll") + rest, memory);
    if f.longLong {
      CharAt(fmt, q1.i, "ll" + rest, 1);
    }
    q := ReadSize(fmt, q1, f.longLong, "ll", q1.c.flags.(longLong := true), rest, memory);
    SameAgain(fmt, p, q1, q, memory);
  }

  /** Behind a single l there is no other. */
  lemma NoSecondL(f: Flags, kind: char)
    requires GetCharType(kind) == ChType
    ensures WideAnd(f, [kind]) != "" && WideAnd(f, [kind])[0] != 'l'
  {
  }

  lemma ReadLong(fmt: string, p: Progress, f: Flags, kind: char, memory: map<int, string>) returns (q: Progress)
    requires '\0' !in fmt && InConversion(p) && Stands(fmt, p.i, LongAnd(f, [kind])) && GetCharType(kind) == ChType
    requires p.c.flags == WithoutSizes(f).(isShort := f.isShort, longLong := f.longLong)
    ensures InConversion(q) && Stands(fmt, q.i, WideAnd(f, [kind])) && q.args == p.args && q.done == p.done
    ensures q.c == p.c.(flags := f.(wide := false, i64 := false)) && Same(fmt, p, q, memory)
  {
    hide Formatted, Same, Stands, WideAnd;
    if f.isLong {
      NoSecondL(f, kind);
      CharAt(fmt, p.i, "l" + WideAnd(f, [kind]), 1);
    }
    q := ReadSize(fmt, p, f.isLong, "l", p.c.flags.(isLong := true), WideAnd(f, [kind]), memory);
  }

  lemma ReadWide(fmt: string, p: Progress, f: Flags, kind: char, memory: map<int, string>) returns (q: Progress)
    requires '\0' !in fmt && InConversion(p) && Stands(fmt, p.i, WideAnd(f, [kind]))
    requires p.c.flags == f.(wide := false, i64 := false)
    ensures InConversion(q) && Stands(fmt, q.i, [kind]) && q.c == p.c.(flags := f)
    ensures q.args == p.args && q.done == p.done && Same(fmt, p, q, memory)
  {
    hide Formatted, Same, Stands, ProcessSize, GetCharType, WideAnd, WithWide;
    SizeW(fmt, p.i + 1, p.c.flags);
    WideIs(f, [kind]);
    LastSizes(f);
    q := ReadWideSizes(fmt, p, f.wide, f.i64, kind, memory);
  }

  function WithWide(g: Flags, wide: bool, i64: bool): Flags {
    g.(wide := wide, i64 := i64)
  }

  /** The two sizes, one after the other. */
  lemma ReadWideSizes(fmt: string, p: Progress, wide: bool, i64: bool, kind: char, memory: map<int, string>)
    returns (q: Progress)
    requires '\0' !in fmt && InConversion(p) && Stands(fmt, p.i, Optional(wide, "w") + (Optional(i64, "I64") + [kind]))
    requires !p.c.flags.wide && !p.c.flags.i64 && GetCharType('w') == ChSize
    requires ProcessSize('w', fmt, p.i + 1, p.c.flags) == (Size, 0, p.c.flags.(wide := true))
    ensures InConversion(q) && Stands(fmt, q.i, [kind]) && q.c == p.c.(flags := WithWide(p.c.flags, wide, i64))
    ensures q.args == p.args && q.done == p.done && Same(fmt, p, q, memory)
  {
    hide Formatted, Same, Stands, ProcessSize, GetCharType;
    var q1 := ReadSize(fmt, p, wide, "w", p.c.flags.(wide := true), Optional(i64, "I64") + [kind], memory);
    q := ReadI64(fmt, q1, i64, kind, memory);
    SameAgain(fmt, p, q1, q, memory);
  }

  lemma SizeW(fmt: string, i: nat, flags: Flags)
    ensures GetCharType('w') == ChSize && ProcessSize('w', fmt, i, flags) == (Size, 0, flags.(wide := true))
  {
  }

  lemma WideIs(f: Flags, rest: string)
    ensures WideAnd(f, rest) == Optional(f.wide, "w") + (Optional(f.i64, "I64") + rest)
  {
  }

  lemma LastSizes(f: Flags)
    ensures WithWide(f.(wide := false, i64 := false), f.wide, f.i64) == f
  {
  }

  lemma ReadI64(fmt: string, p: Progress, i64: bool, kind: char, memory: map<int, string>) returns (q: Progress)
    requires '\0' !in fmt && InConversion(p) && Stands(fmt, p.i, Optional(i64, "I64") + [kind]) && !p.c.flags.i64
    ensures InConversion(q) && Stands(fmt, q.i, [kind]) && q.c == p.c.(flags := p.c.flags.(i64 := i64))
    ensures q.args == p.args && q.done == p.done && Same(fmt, p, q, memory)
  {
    hide Formatted, Same, Stands;
    if i64 {
      CharAt(fmt, p.i, "I64" + [kind], 1);
      CharAt(fmt, p.i, "I64" + [kind], 2);
    }
    q := ReadSize(fmt, p, i64, "I64", p.c.flags.(i64 := true), [kind], memory);
  }

  lemma CharAt(fmt: string, i: nat, s: string, k: nat)
    requires Stands(fmt, i, s) && k < |s|
    ensures At(fmt, i + k) == s[k]
  {
    assert fmt[i..][k] == s[k];
  }

  lemma ReadPrecisionText(fmt: string, p: Progress, precision: int, rest: string, memory: map<int, string>) returns (q: Progress)
    requires '\0' !in fmt && p.Going? && (p.state == Percent || p.state == Flag || p.state == Width)
    requires p.c.precision == -1 <= precision && Stands(fmt, p.i, PrecisionText(precision) + rest)
    ensures precision > INT_MAX ==> Formatted(fmt, p, memory) == Overflows(p.done)
    ensures precision <= INT_MAX ==>
              && InConversion(q) && Stands(fmt, q.i, rest) && q.c == p.c.(precision := precision)
              && q.args == p.args && q.done == p.done && Same(fmt, p, q, memory)
  {
    hide Formatted, Decimal;
    q := p;
    if precision >= 0 {
      FirstOf(fmt, p.i, PrecisionText(precision) + rest);
      assert (PrecisionText(precision) + rest)[1..] == Decimal(precision) + rest;
      OneStep(fmt, p, memory);
      DecimalReadsBack(precision);
      q := ReadPrecision(fmt, Step(fmt, p, memory), Decimal(precision), rest, memory);
    } else {
      assert "" + rest == rest;
    }
  }

  lemma FirstPercent(fmt: string, args: seq<int>, memory: map<int, string>)
    requires '\0' !in fmt && fmt != "" && fmt[0] == '%'
    ensures Formatted(fmt, Start(args), memory) == Formatted(fmt, Going(1, Percent, NEW_CONVERSION, args, ""), memory)
  {
    hide Formatted;
    OneStep(fmt, Start(args), memory);
  }

  /** The kind ends the format. */
  lemma LastCharacter(fmt: string, p: Progress, c: Conversion, memory: map<int, string>)
    requires '\0' !in fmt && InConversion(p) && Stands(fmt, p.i, [c.kind]) && GetCharType(c.kind) == ChType
    requires p.c.(kind := c.kind) == c && p.args != [] && p.done == ""
    ensures Formatted(fmt, p, memory) == Converted(c, p.args[0], memory)
  {
    hide Formatted, Converted, GetCharType;
    FirstOf(fmt, p.i, [c.kind]);
    OneStep(fmt, p, memory);
    var q := Step(fmt, p, memory);
    if q.Going? {
      AtEnd(fmt, q, memory);
      assert "" + Converted(c, p.args[0], memory).text == Converted(c, p.args[0], memory).text;
    }
  }

  predicate Clean(s: string) {
    '\0' !in s
  }

  lemma CleanBoth(a: string, b: string)
    requires Clean(a) && Clean(b)
    ensures Clean(a + b)
  {
  }

  lemma CleanSizes(f: Flags, kind: char)
    requires GetCharType(kind) == ChType
    ensures Clean(SizesAnd(f, [kind]))
  {
    hide Clean;
    CleanKind(kind);
    CleanOptional(f.i64, "I64", [kind]);
    CleanOptional(f.wide, "w", Optional(f.i64, "I64") + [kind]);
    CleanOptional(f.isLong, "l", WideAnd(f, [kind]));
    CleanOptional(f.longLong, "ll", LongAnd(f, [kind]));
    CleanOptional(f.isShort, "h", Optional(f.longLong, "ll") + LongAnd(f, [kind]));
  }

  lemma CleanKind(kind: char)
    requires GetCharType(kind) == ChType
    ensures Clean([kind]) && Clean("I64") && Clean("w") && Clean("l") && Clean("ll") && Clean("h")
  {
  }

  lemma CleanOptional(on: bool, s: string, rest: string)
    requires Clean(s) && Clean(rest)
    ensures Clean(Optional(on, s) + rest)
  {
  }

  lemma {:induction false} CleanFlags(list: seq<(bool, char)>, rest: string)
    requires Clean(rest) && forall k :: 0 <= k < |list| ==> list[k].1 in "-+ #0"
    ensures Clean(FlagsAnd(list, rest))
  {
    if list != [] {
      CleanFlags(list[1..], rest);
    }
  }

  lemma CleanNumber(n: nat)
    ensures Clean(Decimal(n))
  {
    hide Decimal;
    DecimalReadsBack(n);
  }

  lemma NoTerminator(c: Conversion)
    requires GetCharType(c.kind) == ChType
    ensures Clean("%" + SpecText(c))
  {
    hide Decimal, Clean, SizesAnd, FlagsAnd, GetCharType;
    CleanSizes(c.flags, c.kind);
    CleanNumber(c.width);
    if c.precision >= 0 {
      CleanNumber(c.precision);
      CleanDot();
      CleanBoth(".", Decimal(c.precision));
    } else {
      CleanDot();
    }
    CleanBoth(PrecisionText(c.precision), SizesAnd(c.flags, [c.kind]));
    CleanBoth(Decimal(c.width), PrecisionText(c.precision) + SizesAnd(c.flags, [c.kind]));
    CleanFlags(FlagList(c.flags), Decimal(c.width) + (PrecisionText(c.precision) + SizesAnd(c.flags, [c.kind])));
    CleanBoth("%", SpecText(c));
  }

  lemma CleanDot()
    ensures Clean(".") && Clean("%") && Clean("")
  {
  }

  /** Width and precision are numbers of the code's int. */
  predicate FitsInt(c: Conversion) {
    c.width <= INT_MAX && c.precision <= INT_MAX
  }

  /** What was written down is what is converted: a format of one conversion prints that conversion of its argument, unless
      width or precision is too large for an int. */
  lemma SpecReadsBack(c: Conversion, args: seq<int>, memory: map<int, string>)
    requires GetCharType(c.kind) == ChType && c.precision >= -1 && args != []
    ensures Clean("%" + SpecText(c))
    ensures Formatted("%" + SpecText(c), Start(args), memory) == if FitsInt(c) then Converted(c, args[0], memory) else Overflows("")
  {
    hide Formatted, Same, GetCharType, GetState, Converted, Decimal, FlagsAnd, SizesAnd, PrecisionText, AddFlags, Stands;
    var fmt := "%" + SpecText(c);
    NoTerminator(c);
    FirstPercent(fmt, args, memory);
    var p1 := Going(1, Percent, NEW_CONVERSION, args, "");
    var sizes := SizesAnd(c.flags, [c.kind]);
    BehindPercent(SpecText(c));
    var p2 := ReadFlags(fmt, p1, FlagList(c.flags), Decimal(c.width) + (PrecisionText(c.precision) + sizes), memory);
    SameResult(fmt, p1, p2, memory);
    FlagsCollected(c.flags);
    DecimalReadsBack(c.width);
    var p3 := ReadWidth(fmt, p2, Decimal(c.width), PrecisionText(c.precision) + sizes, memory);
    if c.width <= INT_MAX {
      SameResult(fmt, p2, p3, memory);
      var p4 := ReadPrecisionText(fmt, p3, c.precision, sizes, memory);
      if c.precision <= INT_MAX {
        SameResult(fmt, p3, p4, memory);
        ReadSizes(fmt, p4, c, memory);
      }
    }
  }

  /** The sizes and the kind. */
  lemma ReadSizes(fmt: string, p: Progress, c: Conversion, memory: map<int, string>)
    requires '\0' !in fmt && InConversion(p) && Stands(fmt, p.i, SizesAnd(c.flags, [c.kind])) && GetCharType(c.kind) == ChType
    requires p.c.flags == WithoutSizes(c.flags) && p.c.(flags := c.flags, kind := c.kind) == c && p.args != [] && p.done == ""
    ensures p.i <= |fmt| && Formatted(fmt, p, memory) == Converted(c, p.args[0], memory)
  {
    hide Formatted, Same, GetCharType, Converted, SizesAnd, Stands;
    var p5 := ReadShort(fmt, p, c.flags, c.kind, memory);
    var p6 := ReadLong(fmt, p5, c.flags, c.kind, memory);
    var p7 := ReadWide(fmt, p6, c.flags, c.kind, memory);
    SameResult(fmt, p, p5, memory);
    SameResult(fmt, p5, p6, memory);
    SameResult(fmt, p6, p7, memory);
    LastCharacter(fmt, p7, c, memory);
  }

  /** A number printed by any integer conversion is as wide as asked for, and reads back as the argument that was meant. */
  lemma PrintedNumberReadsBack(c: Conversion, arg: int, memory: map<int, string>)
    requires c.IsInteger() && c.precision >= -1
    ensures Clean("%" + SpecText(c))
    ensures var out := Formatted("%" + SpecText(c), Start([arg]), memory);
            var total := |IntegerFormat.Prefix(c, arg)| + |IntegerDigits(c, arg)|;
            if !FitsInt(c) then out == Overflows("")
            else
              && out.Text? && |out.text| == (if c.width > total then c.width else total)
              && ReadBack(out.text, c.Radix())
                 == if Meant(c, arg) == 0 && c.precision == 0 && !(c.kind == 'o' && c.flags.alternate) then None else Some(Meant(c, arg))
  {
    hide Formatted, SpecText, Clean, Meant, ReadBack, IntegerText, IntegerFormat.Prefix, IntegerDigits;
    SpecReadsBack(c, [arg], memory);
    IntegerLength(c, arg);
    IntegerReadsBack(c, arg);
  }

  /** Text without a percent sign is printed as it stands, and two percent signs as one. */
  lemma {:induction false} PlainTextIsPrinted(fmt: string, p: Progress, memory: map<int, string>)
    requires '\0' !in fmt && p.Going? && p.i <= |fmt| && (p.state == Normal || p.state == Type) && '%' !in fmt[p.i..]
    ensures Formatted(fmt, p, memory) == Text(p.done + fmt[p.i..])
    decreases |fmt| - p.i
  {
    hide ProcessSize, Converted, WithFlag, WithStarWidth, WithStarPrecision, GetState, GetCharType, Formatted;
    if p.i < |fmt| {
      StaysNormal(fmt[p.i]);
      assert fmt[p.i] in fmt[p.i..] && fmt[p.i..][1..] == fmt[p.i + 1..];
      OneStep(fmt, p, memory);
      PlainTextIsPrinted(fmt, Step(fmt, p, memory), memory);
      assert p.done + [fmt[p.i]] + fmt[p.i + 1..] == p.done + fmt[p.i..];
    } else {
      AtEnd(fmt, p, memory);
      assert p.done + fmt[p.i..] == p.done;
    }
  }

  lemma StaysNormal(ch: char)
    ensures ch != '%' ==> GetState(GetCharType(ch), Normal) == GetState(GetCharType(ch), Type) == Normal
  {
  }

  lemma PercentIsPrinted(args: seq<int>, memory: map<int, string>)
    ensures Formatted("%%", Start(args), memory) == Text("%")
  {
    var fmt := "%%";
    OneStep(fmt, Start(args), memory);
    OneStep(fmt, Going(1, Percent, NEW_CONVERSION, args, ""), memory);
    AtEnd(fmt, Going(2, Normal, NEW_CONVERSION, args, "%"), memory);
  }

  /** How a string is printed: the one at the address, as much of it as the precision asks for, justified by its flags. */
  lemma StringIsPrinted(c: Conversion, arg: int, memory: map<int, string>)
    requires (c.kind == 's' || (c.kind == 'S' && c.flags.isShort)) && !c.flags.isLong && !c.flags.wide
    requires c.precision >= -1 && FitsInt(c) && (arg == 0 || arg in memory)
    ensures Clean("%" + SpecText(c))
    ensures var out, t := Formatted("%" + SpecText(c), Start([arg]), memory), if arg == 0 then "(null)" else memory[arg];
            var shown := if c.precision < 0 || |t| <= c.precision then t else t[..c.precision];
            out.Text? && IsField(out.text, "", shown, c.width, c.flags.left, c.flags.leadZero)
  {
    hide Formatted, SpecText, Clean, IsField;
    SpecReadsBack(c, [arg], memory);
    PaddedIsField("", Truncated(if arg == 0 then NULL_STRING else memory[arg], c.precision), c.width, c.flags.left, c.flags.leadZero);
  }

  /** How a character is printed, and how a pointer is. */
  lemma CharacterIsPrinted(c: Conversion, arg: int, memory: map<int, string>)
    requires (c.kind == 'c' || (c.kind == 'C' && c.flags.isShort)) && !c.flags.isLong && !c.flags.wide
    requires c.precision >= -1 && FitsInt(c)
    ensures Clean("%" + SpecText(c))
    ensures var out := Formatted("%" + SpecText(c), Start([arg]), memory);
            out.Text? && IsField(out.text, "", [(arg % 256) as char], c.width, c.flags.left, c.flags.leadZero)
  {
    hide Formatted, SpecText, Clean, IsField;
    SpecReadsBack(c, [arg], memory);
    PaddedIsField("", [(arg % 256) as char], c.width, c.flags.left, c.flags.leadZero);
  }

  lemma PointerIsPrinted(c: Conversion, arg: int, memory: map<int, string>)
    requires c.kind == 'p' && c.precision >= -1 && FitsInt(c)
    ensures Clean("%" + SpecText(c))
    ensures var out := Formatted("%" + SpecText(c), Start([arg]), memory);
            out.Text? && |out.text| >= 16 && ReadBack(out.text, 16) == Some(arg % 0x1_0000_0000_0000_0000)
  {
    hide Formatted, SpecText, Clean, ReadBack, IntegerText, IntegerDigits;
    SpecReadsBack(c, [arg], memory);
    var p := AsPointer(c);
    IntegerReadsBack(p, arg);
    IntegerLength(p, arg);
    IntegerDigitCount(p, arg);
  }

  /** A width of 4294967301 does not fit. */
  lemma WidthTooLarge(c: Conversion, arg: int, memory: map<int, string>)
    requires c.IsInteger() && c.precision == -1 && c.width == 4294967301
    ensures Clean("%" + SpecText(c)) && Formatted("%" + SpecText(c), Start([arg]), memory) == Overflows("")
  {
    hide Formatted, SpecText, Clean;
    SpecReadsBack(c, [arg], memory);
  }

  /** Stars take width and precision from the arguments, before the argument that is converted. */
  lemma StarsAreTaken(width: int, precision: int, kind: char, arg: int, memory: map<int, string>)
    requires GetCharType(kind) == ChType
    ensures '\0' !in "%*.*" + [kind]
    ensures var w, p := Signed(width, INT_RANGE), Signed(precision, INT_RANGE);
            Formatted("%*.*" + [kind], Start([width, precision, arg]), memory) ==
            if w == -INT_MAX - 1 then Overflows("")
            else
              var c := Conversion(NO_FLAGS.(left := w < 0), if w < 0 then -w else w, if p < 0 then -1 else p, kind);
              Converted(c, arg, memory)
  {
    hide Formatted, Converted, GetCharType, Signed;
    KindIsSomething(kind);
    SignedIsCongruent(width, INT_RANGE);
    var fmt, args := "%*.*" + [kind], [width, precision, arg];
    assert fmt[0] == '%' && fmt[1] == '*' && fmt[2] == '.' && fmt[3] == '*' && fmt[4] == kind && fmt[4..] == [kind];
    assert args[1..] == [precision, arg] && [precision, arg][1..] == [arg];
    FirstPercent(fmt, args, memory);
    WidthStar(fmt, 1, NEW_CONVERSION, args, memory);
    if IsInt(-Signed(width, INT_RANGE)) {
      var c := WithStarWidth(NEW_CONVERSION, width);
      DotAndStar(fmt, 2, c, [precision, arg], memory);
      var d := WithStarPrecision(c, precision);
      LastCharacter(fmt, Going(4, Precis, d, [arg], ""), d.(kind := kind), memory);
    }
  }

  lemma KindIsSomething(kind: char)
    ensures GetCharType(kind) == ChType ==> kind != '\0'
  {
  }

  lemma WidthStar(fmt: string, i: nat, c: Conversion, args: seq<int>, memory: map<int, string>)
    requires '\0' !in fmt && i < |fmt| && fmt[i] == '*' && args != []
    ensures Formatted(fmt, Going(i, Percent, c, args, ""), memory) ==
            if IsInt(-Signed(args[0], INT_RANGE))
            then Formatted(fmt, Going(i + 1, Width, WithStarWidth(c, args[0]), args[1..], ""), memory)
            else Overflows("")
  {
    hide Formatted, Signed, WithStarWidth;
    OneStep(fmt, Going(i, Percent, c, args, ""), memory);
  }

  lemma DotAndStar(fmt: string, i: nat, c: Conversion, args: seq<int>, memory: map<int, string>)
    requires '\0' !in fmt && i + 1 < |fmt| && fmt[i] == '.' && fmt[i + 1] == '*' && args != []
    ensures Formatted(fmt, Going(i, Width, c, args, ""), memory)
         == Formatted(fmt, Going(i + 2, Precis, WithStarPrecision(c, args[0]), args[1..], ""), memory)
  {
    hide Formatted, Signed;
    OneStep(fmt, Going(i, Width, c, args, ""), memory);
    OneStep(fmt, Going(i + 1, Dot, c.(precision := 0), args, ""), memory);
  }

  lemma SameResult(fmt: string, p: Progress, q: Progress, memory: map<int, string>)
    requires Same(fmt, p, q, memory)
    ensures p.i <= |fmt| && q.i <= |fmt| && Formatted(fmt, p, memory) == Formatted(fmt, q, memory)
  {
  }

  lemma BehindPercent(s: string)
    ensures Stands("%" + s, 1, s)
  {
  }
}
