/**
 What an integer conversion prints (FormattedPrint.cpp; section 7.21.6.1 of ISO/IEC 9899:2011), and how it is read back.
 */
module IntegerFormat {
  import opened Wrappers
  import opened PrintOutput

  const MAXPRECISION := 512
  const LONG_RANGE := 0x1_0000_0000_0000_0000
  const INT_RANGE := 0x1_0000_0000
  const SHORT_RANGE := 0x1_0000

  datatype Flags = Flags(
    sign: bool, signSpace: bool, left: bool, leadZero: bool, alternate: bool, isShort: bool, isLong: bool, longLong: bool,
    i64: bool, wide: bool)

  const NO_FLAGS := Flags(false, false, false, false, false, false, false, false, false, false)

  /** A conversion as it was read: precision is -1 when none was given. */
  datatype Conversion = Conversion(flags: Flags, width: nat, precision: int, kind: char) {
    predicate IsInteger() {
      kind == 'd' || kind == 'i' || kind == 'u' || kind == 'o' || kind == 'x' || kind == 'X'
    }

    predicate IsSigned() {
      kind == 'd' || kind == 'i'
    }

    function Radix(): (r: nat)
      ensures r == 8 || r == 10 || r == 16
    {
      if kind == 'o' then 8 else if kind == 'x' || kind == 'X' then 16 else 10
    }

    predicate Is64() {
      flags.i64 || flags.longLong
    }
  }

  // ---------- the argument ----------

  /** The low bits of a number as a signed number. */
  function Signed(x: int, range: nat): int
    requires range > 0
  {
    var low := x % range;
    if low >= range / 2 then low - range else low
  }

  /** The value that is meant: the argument in the width and signedness of the conversion. */
  function Meant(c: Conversion, arg: int): (v: int)
    ensures -LONG_RANGE / 2 <= v < LONG_RANGE
    ensures v < 0 ==> c.IsSigned()
  {
    if c.Is64() then (if c.IsSigned() then Signed(arg, LONG_RANGE) else arg % LONG_RANGE)
    else if c.flags.isShort then (if c.IsSigned() then Signed(arg, SHORT_RANGE) else arg % SHORT_RANGE)
    else if c.IsSigned() then Signed(arg, INT_RANGE)
    else arg % INT_RANGE
  }

  function Magnitude(v: int): nat {
    if v < 0 then -v else v
  }

  /** The value that is meant differs from the argument by whole ranges of its type, which it is in. */
  lemma MeantIsInRange(c: Conversion, arg: int)
    ensures var range := if c.flags.i64 || c.flags.longLong then LONG_RANGE else if c.flags.isShort then SHORT_RANGE else INT_RANGE;
            var low := if c.kind == 'd' || c.kind == 'i' then -(range / 2) else 0;
            low <= Meant(c, arg) < low + range && (Meant(c, arg) - arg) % range == 0
  {
    if c.IsSigned() {
      SignedIsCongruent(arg, LONG_RANGE);
      SignedIsCongruent(arg, SHORT_RANGE);
      SignedIsCongruent(arg, INT_RANGE);
    } else {
      LowIsCongruent(arg, LONG_RANGE);
      LowIsCongruent(arg, SHORT_RANGE);
      LowIsCongruent(arg, INT_RANGE);
    }
  }

  lemma LowIsCongruent(x: int, range: nat)
    requires range == LONG_RANGE || range == INT_RANGE || range == SHORT_RANGE
    ensures (x % range - x) % range == 0 && 0 <= x % range < range
    ensures (x % range - range - x) % range == 0
  {
    var k := -(x / range);
    assert x % range - x == k * range && x % range - range - x == (k - 1) * range;
    WholeRanges(k, range);
    WholeRanges(k - 1, range);
  }

  lemma WholeRanges(k: int, range: nat)
    requires range == LONG_RANGE || range == INT_RANGE || range == SHORT_RANGE
    ensures (k * range) % range == 0
  {
    if range == LONG_RANGE {
      assert (k * LONG_RANGE) % LONG_RANGE == 0;
    } else if range == INT_RANGE {
      assert (k * INT_RANGE) % INT_RANGE == 0;
    }
  }

  lemma SignedIsCongruent(x: int, range: nat)
    requires range == LONG_RANGE || range == INT_RANGE || range == SHORT_RANGE
    ensures (Signed(x, range) - x) % range == 0 && -(range / 2) <= Signed(x, range) < range / 2
  {
    LowIsCongruent(x, range);
  }

  // ---------- digits ----------

  function Div(n: nat, radix: nat): (q: nat)
    requires radix == 8 || radix == 10 || radix == 16
    ensures q <= n && (n > 0 ==> q < n)
  {
    if radix == 8 then n / 8 else if radix == 10 then n / 10 else n / 16
  }

  function Mod(n: nat, radix: nat): (d: nat)
    requires radix == 8 || radix == 10 || radix == 16
    ensures d < radix
  {
    if radix == 8 then n % 8 else if radix == 10 then n % 10 else n % 16
  }

  function DigitChar(d: nat, upper: bool): char
    requires d < 16
  {
    if d < 10 then '0' + d as char else (if upper then 'A' else 'a') + (d - 10) as char
  }

  function DigitValue(c: char): nat {
    if '0' <= c <= '9' then (c - '0') as nat
    else if 'a' <= c <= 'f' then (c - 'a') as nat + 10
    else if 'A' <= c <= 'F' then (c - 'A') as nat + 10
    else 99
  }

  /** At least count digits of a number, and as many as it needs. */
  function Digits(n: nat, radix: nat, count: int, upper: bool): (s: string)
    requires radix == 8 || radix == 10 || radix == 16
    ensures forall i :: 0 <= i < |s| ==> DigitValue(s[i]) < radix
    ensures |s| >= count && (n > 0 ==> s != "")
    decreases n, if count > 0 then count else 0
  {
    if count <= 0 && n == 0 then ""
    else Digits(Div(n, radix), radix, count - 1, upper) + [DigitChar(Mod(n, radix), upper)]
  }

  function Scale(n: nat, radix: nat): (m: nat)
    requires radix == 8 || radix == 10 || radix == 16
    ensures n == 0 ==> m == 0
  {
    if radix == 8 then 8 * n else if radix == 10 then 10 * n else 16 * n
  }

  function ValueOf(s: string, radix: nat): nat
    requires radix == 8 || radix == 10 || radix == 16
  {
    if s == "" then 0 else Scale(ValueOf(s[..|s| - 1], radix), radix) + DigitValue(s[|s| - 1])
  }

  lemma DivMod(n: nat, radix: nat)
    requires radix == 8 || radix == 10 || radix == 16
    ensures Scale(Div(n, radix), radix) + Mod(n, radix) == n
  {
  }

  lemma {:induction false} DigitsReadBack(n: nat, radix: nat, count: int, upper: bool)
    requires radix == 8 || radix == 10 || radix == 16
    ensures ValueOf(Digits(n, radix, count, upper), radix) == n
    decreases n, if count > 0 then count else 0
  {
    hide DigitValue, DigitChar, Div, Mod, Scale, ValueOf;
    if count <= 0 && n == 0 {
      NoDigits(radix);
    } else {
      DigitsReadBack(Div(n, radix), radix, count - 1, upper);
      DigitIsRead(Mod(n, radix), upper);
      DivMod(n, radix);
      ValueAppend(Digits(Div(n, radix), radix, count - 1, upper), DigitChar(Mod(n, radix), upper), radix);
    }
  }

  lemma NoDigits(radix: nat)
    requires radix == 8 || radix == 10 || radix == 16
    ensures ValueOf("", radix) == 0
  {
  }

  lemma ValueAppend(s: string, c: char, radix: nat)
    requires radix == 8 || radix == 10 || radix == 16
    ensures ValueOf(s + [c], radix) == Scale(ValueOf(s, radix), radix) + DigitValue(c)
  {
    assert (s + [c])[..|s|] == s;
  }

  lemma DigitIsRead(d: nat, upper: bool)
    requires d < 16
    ensures DigitValue(DigitChar(d, upper)) == d
  {
  }

  /** No digit more than the number or the precision asks for. */
  lemma {:induction false} DigitsNeeded(n: nat, radix: nat, count: int, upper: bool)
    requires radix == 8 || radix == 10 || radix == 16
    ensures var need := |Digits(n, radix, 0, upper)|;
            |Digits(n, radix, count, upper)| == if count > need then count else need
    decreases n, if count > 0 then count else 0
  {
    if count > 0 || n > 0 {
      DigitsNeeded(Div(n, radix), radix, count - 1, upper);
      if n > 0 {
        DigitsNeeded(Div(n, radix), radix, -1, upper);
      } else {
        assert Div(0, radix) == 0;
      }
    }
  }

  // ---------- prefix, digits and padding ----------

  function MinDigits(c: Conversion): int {
    if c.precision < 0 then 1 else if c.precision > MAXPRECISION then MAXPRECISION else c.precision
  }

  function IntegerDigits(c: Conversion, arg: int): (s: string)
    ensures forall i :: 0 <= i < |s| ==> DigitValue(s[i]) < c.Radix()
  {
    WithOctalZero(c, Digits(Magnitude(Meant(c, arg)), c.Radix(), MinDigits(c), c.kind == 'X'))
  }

  /** The alternate octal form starts with a zero. */
  function WithOctalZero(c: Conversion, s: string): string {
    if c.kind == 'o' && c.flags.alternate && (s == "" || s[0] != '0') then "0" + s else s
  }

  function Prefix(c: Conversion, arg: int): (p: string) {
    if c.IsSigned() then
      if Meant(c, arg) < 0 then "-" else if c.flags.sign then "+" else if c.flags.signSpace then " " else ""
    else if c.Radix() == 16 && c.flags.alternate && Meant(c, arg) != 0 then "0" + [c.kind]
    else ""
  }

  /** Justifying a text in a field. */
  function Padded(prefix: string, text: string, width: nat, left: bool, leadZero: bool): string {
    var padding := width - |text| - |prefix|;
    (if left || leadZero then "" else Repeat(' ', padding)) + prefix
    + (if leadZero && !left then Repeat('0', padding) else "") + text + (if left then Repeat(' ', padding) else "")
  }

  function IntegerText(c: Conversion, arg: int): string {
    Padded(Prefix(c, arg), IntegerDigits(c, arg), c.width, c.flags.left, c.flags.leadZero && c.precision < 0)
  }

  /** The length is the width of the field, or what prefix and digits need. */
  lemma PaddedLength(prefix: string, text: string, width: nat, left: bool, leadZero: bool)
    ensures |Padded(prefix, text, width, left, leadZero)| == if width > |prefix| + |text| then width else |prefix| + |text|
  {
  }

  predicate All(s: string, c: char) {
    forall i :: 0 <= i < |s| ==> s[i] == c
  }

  /** A field: in front and behind, or between a prefix and a text, stands padding that fills the width and no more. */
  predicate IsField(out: string, prefix: string, text: string, width: nat, left: bool, leadZero: bool) {
    var n, size := |prefix| + |text|, |out|;
    && size == (if width > n then width else n)
    && if left then out[..|prefix|] == prefix && out[|prefix|..n] == text && All(out[n..], ' ')
       else if leadZero then out[..|prefix|] == prefix && All(out[|prefix|..size - |text|], '0') && out[size - |text|..] == text
       else All(out[..size - n], ' ') && out[size - n..size - |text|] == prefix && out[size - |text|..] == text
  }

  lemma PaddedIsField(prefix: string, text: string, width: nat, left: bool, leadZero: bool)
    ensures IsField(Padded(prefix, text, width, left, leadZero), prefix, text, width, left, leadZero)
  {
    var padding := width - |text| - |prefix|;
    var n, size := |prefix| + |text|, |Padded(prefix, text, width, left, leadZero)|;
    if left {
      BesideEachOther(prefix, text, Repeat(' ', padding));
      assert Padded(prefix, text, width, left, leadZero) == prefix + text + Repeat(' ', padding);
    } else if leadZero {
      BesideEachOther(prefix, Repeat('0', padding), text);
      assert Padded(prefix, text, width, left, leadZero) == prefix + Repeat('0', padding) + text;
    } else {
      BesideEachOther(Repeat(' ', padding), prefix, text);
      assert Padded(prefix, text, width, left, leadZero) == Repeat(' ', padding) + prefix + text;
    }
  }

  lemma BesideEachOther(a: string, b: string, c: string)
    ensures var s := a + b + c; s[..|a|] == a && s[|a|..|a| + |b|] == b && s[|a| + |b|..] == c
  {
  }

  /** The sign and the mark of the radix that stand in front of the digits, and the case of the digits. */
  lemma NumberInField(c: Conversion, arg: int)
    requires c.IsInteger()
    ensures IsField(IntegerText(c, arg), Prefix(c, arg), IntegerDigits(c, arg), c.width, c.flags.left, c.flags.leadZero && c.precision < 0)
    ensures c.IsSigned() && Meant(c, arg) < 0 ==> Prefix(c, arg) == "-"
    ensures c.IsSigned() && Meant(c, arg) >= 0 ==> Prefix(c, arg) == if c.flags.sign then "+" else if c.flags.signSpace then " " else ""
    ensures (c.kind == 'x' || c.kind == 'X') && c.flags.alternate && Meant(c, arg) != 0 ==> Prefix(c, arg) == ['0', c.kind]
    ensures !c.IsSigned() && (c.kind == 'u' || c.kind == 'o' || !c.flags.alternate || Meant(c, arg) == 0) ==> Prefix(c, arg) == ""
    ensures InCase(IntegerDigits(c, arg), c.kind == 'X')
  {
    hide Meant, Padded, Digits;
    PaddedIsField(Prefix(c, arg), IntegerDigits(c, arg), c.width, c.flags.left, c.flags.leadZero && c.precision < 0);
    DigitsInCase(Magnitude(Meant(c, arg)), c.Radix(), MinDigits(c), c.kind == 'X');
  }

  /** Letters of one case only. */
  predicate InCase(s: string, upper: bool) {
    forall i :: 0 <= i < |s| ==> !(if upper then 'a' <= s[i] <= 'z' else 'A' <= s[i] <= 'Z')
  }

  lemma {:induction false} DigitsInCase(n: nat, radix: nat, count: int, upper: bool)
    requires radix == 8 || radix == 10 || radix == 16
    ensures InCase(Digits(n, radix, count, upper), upper)
    decreases n, if count > 0 then count else 0
  {
    hide Div, Mod;
    if count > 0 || n > 0 {
      DigitsInCase(Div(n, radix), radix, count - 1, upper);
    }
  }

  // ---------- reading back ----------

  function SkipBlanks(s: string, i: nat): (j: nat)
    requires i <= |s|
    ensures i <= j <= |s| && (forall k :: i <= k < j ==> s[k] == ' ') && (j < |s| ==> s[j] != ' ')
    decreases |s| - i
  {
    if i < |s| && s[i] == ' ' then SkipBlanks(s, i + 1) else i
  }

  function DigitsEnd(s: string, i: nat, radix: nat): (j: nat)
    requires i <= |s|
    ensures i <= j <= |s| && (forall k :: i <= k < j ==> DigitValue(s[k]) < radix) && (j < |s| ==> DigitValue(s[j]) >= radix)
    decreases |s| - i
  {
    if i < |s| && DigitValue(s[i]) < radix then DigitsEnd(s, i + 1, radix) else i
  }

  function WithSign(negative: bool, n: int): int {
    if negative then -n else n
  }

  /** Blanks, a sign or 0x, digits, and blanks. */
  function ReadBack(s: string, radix: nat): Option<int>
    requires radix == 8 || radix == 10 || radix == 16
  {
    var i := SkipBlanks(s, 0);
    var j := PrefixEnd(s, i, radix);
    var e := DigitsEnd(s, j, radix);
    if e == j || SkipBlanks(s, e) < |s| then None
    else Some(WithSign(i < |s| && s[i] == '-', ValueOf(s[j..e], radix)))
  }

  /** Behind a sign or 0x. */
  function PrefixEnd(s: string, i: nat, radix: nat): (j: nat)
    requires i <= |s|
    ensures i <= j <= |s|
  {
    if i < |s| && (s[i] == '-' || s[i] == '+') then i + 1
    else if radix == 16 && i + 1 < |s| && s[i] == '0' && (s[i + 1] == 'x' || s[i + 1] == 'X') then i + 2 else i
  }

  lemma {:induction false} LeadingZeros(zeros: string, s: string, radix: nat)
    requires radix == 8 || radix == 10 || radix == 16
    requires forall i :: 0 <= i < |zeros| ==> zeros[i] == '0'
    ensures ValueOf(zeros + s, radix) == ValueOf(s, radix)
    decreases |zeros| + |s|
  {
    hide Scale;
    var all := zeros + s;
    if s != "" {
      LeadingZeros(zeros, s[..|s| - 1], radix);
      assert all[..|all| - 1] == zeros + s[..|s| - 1];
    } else if zeros != "" {
      LeadingZeros(zeros[..|zeros| - 1], "", radix);
      assert all[..|all| - 1] == zeros[..|zeros| - 1] + "" && all[|all| - 1] == '0';
    }
  }

  lemma SkipTo(s: string, i: nat, j: nat)
    requires i <= j <= |s| && (forall k :: i <= k < j ==> s[k] == ' ') && (j < |s| ==> s[j] != ' ')
    ensures SkipBlanks(s, i) == j
  {
  }

  lemma DigitsTo(s: string, i: nat, j: nat, radix: nat)
    requires radix <= 16 && i <= j <= |s| && (forall k :: i <= k < j ==> DigitValue(s[k]) < radix) && (j < |s| ==> s[j] == ' ')
    ensures DigitsEnd(s, i, radix) == j
  {
  }

  /** The parts of a text, by where they end: blanks up to i, a sign or 0x up to j, digits up to e, blanks. */
  lemma ReadParts(s: string, i: nat, j: nat, e: nat, radix: nat)
    requires radix == 8 || radix == 10 || radix == 16
    requires i <= j <= e <= |s| && forall k :: 0 <= k < i ==> s[k] == ' '
    requires j == i ==> i == |s| || (DigitValue(s[i]) < radix && e > j)
    requires j != i ==> (j == i + 1 && (s[i] == '-' || s[i] == '+'))
                        || (j == i + 2 && radix == 16 && s[i] == '0' && (s[i + 1] == 'x' || s[i + 1] == 'X'))
    requires forall k :: j <= k < e ==> DigitValue(s[k]) < radix
    requires forall k :: e <= k < |s| ==> s[k] == ' '
    ensures ReadBack(s, radix) == if e == j then None else Some(WithSign(i < j && s[i] == '-', ValueOf(s[j..e], radix)))
  {
    hide ValueOf, SkipBlanks, DigitsEnd, PrefixEnd, DigitValue;
    SpaceIsNoDigit();
    SkipTo(s, 0, i);
    PrefixTo(s, i, j, e, radix);
    DigitsTo(s, j, e, radix);
    SkipTo(s, e, |s|);
  }

  lemma PrefixTo(s: string, i: nat, j: nat, e: nat, radix: nat)
    requires i <= j <= e <= |s| && (j == i ==> i == |s| || (DigitValue(s[i]) < radix && e > j)) && radix <= 16
    requires j != i ==> (j == i + 1 && (s[i] == '-' || s[i] == '+'))
                        || (j == i + 2 && radix == 16 && s[i] == '0' && (s[i + 1] == 'x' || s[i + 1] == 'X'))
    requires forall k :: j <= k < e ==> DigitValue(s[k]) < radix
    requires forall k :: e <= k < |s| ==> s[k] == ' '
    ensures PrefixEnd(s, i, radix) == j && (i < |s| && s[i] == '-' ==> i < j)
  {
    if j == i && i + 1 < |s| {
      assert s[i + 1] == ' ' || DigitValue(s[i + 1]) < radix;
    }
  }

  lemma Segments(a: string, b: string, c: string, d: string)
    ensures var s, i, j, e := a + b + c + d, |a|, |a| + |b|, |a| + |b| + |c|;
            && |s| == e + |d| && s[i..j] == b && s[j..e] == c
            && (forall k :: 0 <= k < i ==> s[k] == a[k]) && (forall k :: i <= k < j ==> s[k] == b[k - i])
            && (forall k :: j <= k < e ==> s[k] == c[k - j]) && (forall k :: e <= k < |s| ==> s[k] == d[k - e])
  {
  }

  predicate Spaces(s: string) {
    forall k :: 0 <= k < |s| ==> s[k] == ' '
  }

  predicate AllDigits(s: string, radix: nat) {
    forall k :: 0 <= k < |s| ==> DigitValue(s[k]) < radix
  }

  predicate IsPrefix(prefix: string, radix: nat) {
    prefix in {"", "-", "+", " "} || (radix == 16 && prefix in {"0x", "0X"})
  }

  lemma SpaceIsNoDigit()
    ensures DigitValue(' ') == 99
  {
  }

  lemma PartsReadBack(before: string, prefix: string, digits: string, behind: string, radix: nat)
    requires (radix == 8 || radix == 10 || radix == 16) && IsPrefix(prefix, radix)
    requires Spaces(before) && Spaces(behind) && AllDigits(digits, radix)
    requires digits == "" ==> prefix in {"", "+", " "}
    ensures ReadBack(before + prefix + digits + behind, radix)
         == if digits == "" then None else Some(WithSign(prefix == "-", ValueOf(digits, radix)))
  {
    hide ValueOf, ReadBack, DigitValue;
    Segments(before, prefix, digits, behind);
    var s, i, j := before + prefix + digits + behind, |before|, |before| + |prefix|;
    var e := j + |digits|;
    SpaceIsNoDigit();
    if prefix == "" || prefix == " " {
      if digits == "" {
        ReadParts(s, |s|, |s|, |s|, radix);
      } else {
        assert s[j] == digits[0];
        ReadParts(s, j, j, e, radix);
      }
    } else {
      assert s[i] == prefix[0];
      ReadParts(s, i, j, e, radix);
    }
  }

  /** A padded number: its digits are read with the sign of its prefix. */
  lemma PaddedReadsBack(prefix: string, text: string, width: nat, left: bool, leadZero: bool, radix: nat)
    requires (radix == 8 || radix == 10 || radix == 16) && IsPrefix(prefix, radix) && AllDigits(text, radix)
    requires text == "" ==> !leadZero && prefix in {"", "+", " "}
    ensures ReadBack(Padded(prefix, text, width, left, leadZero), radix)
         == if text == "" then None else Some(WithSign(prefix == "-", ValueOf(text, radix)))
  {
    hide ValueOf, ReadBack, IsPrefix;
    var padding := width - |text| - |prefix|;
    var before := if left || leadZero then "" else Repeat(' ', padding);
    var zeros := if leadZero && !left then Repeat('0', padding) else "";
    var behind := if left then Repeat(' ', padding) else "";
    LeadingZeros(zeros, text, radix);
    PartsReadBack(before, prefix, zeros + text, behind, radix);
    assert before + prefix + (zeros + text) + behind == Padded(prefix, text, width, left, leadZero);
  }

  /** The printed number reads back as the value that was meant, except zero printed with no digits. */
  lemma IntegerReadsBack(c: Conversion, arg: int)
    requires c.IsInteger()
    ensures ReadBack(IntegerText(c, arg), c.Radix())
         == if Meant(c, arg) == 0 && c.precision == 0 && !(c.kind == 'o' && c.flags.alternate) then None
            else Some(Meant(c, arg))
  {
    hide Meant, ReadBack, Padded, ValueOf, Digits, DigitValue;
    IntegerDigitsValue(c, arg);
    PrefixIsPrefix(c, arg);
    PaddedReadsBack(Prefix(c, arg), IntegerDigits(c, arg), c.width, c.flags.left, c.flags.leadZero && c.precision < 0, c.Radix());
  }

  lemma PrefixIsPrefix(c: Conversion, arg: int)
    requires c.IsInteger()
    ensures IsPrefix(Prefix(c, arg), c.Radix()) && (Prefix(c, arg) == "-" <==> Meant(c, arg) < 0)
    ensures Meant(c, arg) == 0 ==> Prefix(c, arg) in {"", "+", " "}
  {
    hide Meant;
    assert "0" + "x" == "0x" && "0" + "X" == "0X";
  }

  lemma IntegerDigitsValue(c: Conversion, arg: int)
    requires c.IsInteger()
    ensures ValueOf(IntegerDigits(c, arg), c.Radix()) == Magnitude(Meant(c, arg)) && AllDigits(IntegerDigits(c, arg), c.Radix())
    ensures IntegerDigits(c, arg) == "" <==> Meant(c, arg) == 0 && c.precision == 0 && !(c.kind == 'o' && c.flags.alternate)
  {
    hide Meant, ValueOf;
    var n := Magnitude(Meant(c, arg));
    var digits := Digits(n, c.Radix(), MinDigits(c), c.kind == 'X');
    DigitsReadBack(n, c.Radix(), MinDigits(c), c.kind == 'X');
    LeadingZeros("0", digits, c.Radix());
  }

  /** Without more precision than it needs, a number does not start with a zero. */
  lemma {:induction false} FirstDigitNotZero(n: nat, radix: nat, count: int, upper: bool)
    requires (radix == 8 || radix == 10 || radix == 16) && n > 0
    requires |Digits(n, radix, count, upper)| <= |Digits(n, radix, 0, upper)|
    ensures Digits(n, radix, count, upper)[0] != '0'
    decreases n, if count > 0 then count else 0
  {
    DivMod(n, radix);
    DigitsNeeded(Div(n, radix), radix, -1, upper);
    if Div(n, radix) > 0 {
      FirstDigitNotZero(Div(n, radix), radix, count - 1, upper);
    }
  }

  /** How many digits there are: as many as the precision asks for or the number needs, and in the alternate octal form
      one more when the first would not be a zero. */
  lemma IntegerDigitCount(c: Conversion, arg: int)
    requires c.IsInteger()
    ensures var need := |Digits(Magnitude(Meant(c, arg)), c.Radix(), 0, c.kind == 'X')|
                        + (if c.kind == 'o' && c.flags.alternate then 1 else 0);
            var least := if c.precision < 0 then 1 else if c.precision > 512 then 512 else c.precision;
            |IntegerDigits(c, arg)| == if least > need then least else need
  {
    hide Meant, Digits;
    var n, upper := Magnitude(Meant(c, arg)), c.kind == 'X';
    DigitsNeeded(n, c.Radix(), MinDigits(c), upper);
    if c.kind == 'o' && c.flags.alternate {
      NoneLeft(8, 0, upper);
      if |Digits(n, 8, MinDigits(c), upper)| > |Digits(n, 8, 0, upper)| {
        FirstDigitIsZero(n, 8, MinDigits(c), upper);
      } else if n > 0 {
        FirstDigitNotZero(n, 8, MinDigits(c), upper);
      }
    }
  }

  /** The text is as wide as the field, or as its prefix and digits. */
  lemma IntegerLength(c: Conversion, arg: int)
    requires c.IsInteger()
    ensures var total := |Prefix(c, arg)| + |IntegerDigits(c, arg)|;
            |IntegerText(c, arg)| == if c.width > total then c.width else total
  {
    hide Prefix, IntegerDigits;
    PaddedLength(Prefix(c, arg), IntegerDigits(c, arg), c.width, c.flags.left, c.flags.leadZero && c.precision < 0);
  }

  // ---------- in the digit buffer ----------

  function PowerOf8(k: nat): nat {
    if k == 0 then 1 else 8 * PowerOf8(k - 1)
  }

  lemma {:induction false} AtMostDigits(n: nat, radix: nat, k: nat, upper: bool)
    requires (radix == 8 || radix == 10 || radix == 16) && n < PowerOf8(k)
    ensures |Digits(n, radix, 0, upper)| <= k
    decreases k
  {
    if n > 0 {
      assert Div(n, radix) <= n / 8 < PowerOf8(k - 1);
      AtMostDigits(Div(n, radix), radix, k - 1, upper);
      DigitsNeeded(Div(n, radix), radix, -1, upper);
    }
  }

  lemma LongHasAtMost22Digits(n: nat, radix: nat, upper: bool)
    requires (radix == 8 || radix == 10 || radix == 16) && n <= LONG_RANGE
    ensures |Digits(n, radix, 0, upper)| <= 22
  {
    assert PowerOf8(4) == 4096;
    assert PowerOf8(8) == 4096 * PowerOf8(4);
    assert PowerOf8(12) == 4096 * PowerOf8(8);
    assert PowerOf8(16) == 4096 * PowerOf8(12);
    assert PowerOf8(20) == 4096 * PowerOf8(16);
    assert PowerOf8(22) == 64 * PowerOf8(20);
    AtMostDigits(n, radix, 22, upper);
  }

  /** Digits that only the precision asks for are zeros. */
  lemma {:induction false} FirstDigitIsZero(n: nat, radix: nat, count: int, upper: bool)
    requires radix == 8 || radix == 10 || radix == 16
    requires |Digits(n, radix, count, upper)| > |Digits(n, radix, 0, upper)|
    ensures Digits(n, radix, count, upper)[0] == '0'
    decreases n, if count > 0 then count else 0
  {
    var rest := Digits(Div(n, radix), radix, count - 1, upper);
    if n > 0 {
      DigitsNeeded(Div(n, radix), radix, -1, upper);
      FirstDigitIsZero(Div(n, radix), radix, count - 1, upper);
    } else if rest != "" {
      assert Div(0, radix) == 0 && Digits(0, radix, 0, upper) == "";
      FirstDigitIsZero(0, radix, count - 1, upper);
    }
  }

  /** The loop that writes digits from the end of the buffer; place is where the next one would go. */
  method FillDigits(buffer: array<char>, n: nat, radix: nat, count: int, upper: bool) returns (place: int)
    requires (radix == 8 || radix == 10 || radix == 16) && |Digits(n, radix, count, upper)| <= buffer.Length
    modifies buffer
    ensures -1 <= place < buffer.Length && buffer[place + 1..] == Digits(n, radix, count, upper)
  {
    hide Digits, DigitChar, DigitValue;
    place := buffer.Length - 1;
    var number, precision := n, count;
    while precision > 0 || number != 0
      invariant -1 <= place < buffer.Length
      invariant Digits(n, radix, count, upper) == Digits(number, radix, precision, upper) + buffer[place + 1..]
      decreases number, if precision > 0 then precision else 0
    {
      ghost var done := buffer[place + 1..];
      OneDigit(number, radix, precision, upper, done);
      buffer[place] := DigitChar(Mod(number, radix), upper);
      assert buffer[place..] == [buffer[place]] + done;
      number, precision, place := Div(number, radix), precision - 1, place - 1;
    }
    NoneLeft(radix, precision, upper);
  }

  lemma OneDigit(n: nat, radix: nat, count: int, upper: bool, done: string)
    requires (radix == 8 || radix == 10 || radix == 16) && (count > 0 || n != 0)
    ensures Digits(n, radix, count, upper) + done
         == Digits(Div(n, radix), radix, count - 1, upper) + ([DigitChar(Mod(n, radix), upper)] + done)
    ensures |Digits(n, radix, count, upper)| == |Digits(Div(n, radix), radix, count - 1, upper)| + 1
  {
    var front, digit := Digits(Div(n, radix), radix, count - 1, upper), [DigitChar(Mod(n, radix), upper)];
    assert Digits(n, radix, count, upper) == front + digit;
    assert (front + digit) + done == front + (digit + done);
  }

  lemma NoneLeft(radix: nat, count: int, upper: bool)
    requires (radix == 8 || radix == 10 || radix == 16) && count <= 0
    ensures Digits(0, radix, count, upper) == ""
  {
  }

  /** The digits fit in the buffer, and those that fill it leave nothing to put in front. */
  lemma DigitsFit(n: nat, radix: nat, count: int, upper: bool)
    requires (radix == 8 || radix == 10 || radix == 16) && n <= LONG_RANGE && count <= MAXPRECISION
    ensures var s := Digits(n, radix, count, upper); |s| < MAXPRECISION || (|s| == MAXPRECISION && s[0] == '0')
  {
    hide Digits;
    DigitsNeeded(n, radix, count, upper);
    LongHasAtMost22Digits(n, radix, upper);
    if |Digits(n, radix, count, upper)| == MAXPRECISION {
      FirstDigitIsZero(n, radix, count, upper);
    }
  }

  /** The digits of a number, written from the end of a buffer. */
  method ConvertDigits(c: Conversion, n: nat) returns (text: string)
    requires n <= LONG_RANGE
    ensures text == WithOctalZero(c, Digits(n, c.Radix(), MinDigits(c), c.kind == 'X'))
  {
    hide Digits, DigitValue;
    var buffer := new char[MAXPRECISION](_ => '\0');
    DigitsFit(n, c.Radix(), MinDigits(c), c.kind == 'X');
    var place := FillDigits(buffer, n, c.Radix(), MinDigits(c), c.kind == 'X');
    if c.kind == 'o' && c.flags.alternate && (place + 1 == buffer.Length || buffer[place + 1] != '0') {
      ghost var digits := buffer[place + 1..];
      buffer[place] := '0';
      assert buffer[place..] == "0" + digits;
      place := place - 1;
    }
    text := buffer[place + 1..];
  }

  /** COMMON_INT: the digits of an argument, and its prefix. */
  method ConvertInteger(c: Conversion, arg: int) returns (prefix: string, text: string)
    requires c.IsInteger()
    ensures prefix == Prefix(c, arg) && text == IntegerDigits(c, arg)
  {
    hide Digits, Meant, WithOctalZero, DigitValue;
    var l := Meant(c, arg);
    var negative := c.IsSigned() && l < 0;
    var number := if negative then -l else l;
    prefix := "";
    if c.Radix() == 16 && c.flags.alternate && number != 0 {
      prefix := "0" + [c.kind];
    }
    text := ConvertDigits(c, number);
    if c.IsSigned() {
      if negative {
        prefix := "-";
      } else if c.flags.sign {
        prefix := "+";
      } else if c.flags.signSpace {
        prefix := " ";
      }
    }
  }
}
