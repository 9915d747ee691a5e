/**
 Adjusting the decimals of a parameter before it is sent (core_stmt.cpp, adjustDecimalPrecision).
 The parameter is a plain or scientific literal; the code moves the point and rounds in a 50-char buffer.
 */
module DecimalParams {
  import opened Quotients
  import opened Wrappers
  import opened Numerals
  import opened DecimalFormat

  const MAXIMUM_PRECISION := 38
  const MAX_DECIMAL_STRLEN := MAXIMUM_PRECISION + 6

  // ---------- decimal literals ----------

  datatype Exponent = Exponent(mark: char, sign: string, digits: string)

  /** lead sign whole . decimals exponent, as strtold accepts it. */
  datatype Literal = Literal(lead: string, sign: string, whole: string, point: bool, decimals: string,
                             exponent: Option<Exponent>)
  {
    predicate Valid() {
      && (forall i :: 0 <= i < |lead| ==> lead[i] == ' ' || '\t' <= lead[i] <= '\r')
      && (sign == "" || sign == "+" || sign == "-")
      && AllDigits(whole) && AllDigits(decimals) && whole + decimals != ""
      && (!point ==> decimals == "")
      && match exponent
         case None => true
         case Some(e) =>
           && (e.mark == 'e' || e.mark == 'E')
           && (e.sign == "" || e.sign == "+" || e.sign == "-")
           && AllDigits(e.digits) && e.digits != ""
    }

    /** The digits and the point. */
    function Body(): string {
      if point then Pointed(whole, decimals) else whole
    }

    function Tail(): string {
      match exponent
      case None => ""
      case Some(e) => [e.mark] + (e.sign + e.digits)
    }

    function Text(): string {
      (lead + sign) + (Body() + Tail())
    }

    function Mantissa(): nat
      requires Valid()
    {
      Value(whole + decimals)
    }

    function Power(): int
      requires Valid()
    {
      match exponent
      case None => 0
      case Some(e) => if e.sign == "-" then -(Value(e.digits) as int) else Value(e.digits)
    }

    /** What the d < 0 test finds: a minus in front of something other than zero. */
    predicate IsNegative()
      requires Valid()
    {
      sign == "-" && Mantissa() != 0
    }
  }

  /** The outcome of std::stold: an exception, or the sign test and the index of the first char left over. */
  datatype StoldResult = Threw | Parsed(negative: bool, index: nat)

  /** The parameter afterwards; or the scan for a digit runs past the end of the string, or the zeros that are appended
      leave no room in the buffer for a terminator. */
  datatype Adjusted = Text(text: string) | PastTheEnd | OutsideBuffer

  /** Nothing the scan stops at. */
  predicate SkippedOver(value: string, i: nat, j: nat) {
    forall k :: i <= k < j && k < |value| ==> value[k] != DECIMAL_POINT && !IsDigit(value[k])
  }

  /** No digit and no point, as in an infinity. */
  predicate Digitless(value: string) {
    SkippedOver(value, 0, |value|)
  }

  // ---------- what the adjusted text should be worth ----------

  function Abs(n: int): nat {
    if n < 0 then -n else n
  }

  /** The literals left as they are. */
  predicate LeftAlone(lit: Literal, d: nat)
    requires lit.Valid()
  {
    if lit.exponent.None? then !lit.point || |lit.decimals| <= d
    else
      || Abs(lit.Power()) > MAXIMUM_PRECISION
      || (lit.Power() > 0 && lit.point && |lit.decimals| <= lit.Power())
  }

  /** out reads as the literal rounded half away from zero to d decimals. */
  predicate IsAdjusted(out: string, lit: Literal, d: nat)
    requires lit.Valid()
  {
    var rounded := RoundedTo(lit.Mantissa(), |lit.decimals| - lit.Power(), d);
    && Read(out).Some?
    && Read(out).value.decimals <= d
    && Read(out).value.Scaled(d) == (if lit.IsNegative() then -1 else 1) * rounded
  }

  /** The point moves to just before the first digit, and the rounding carries into it. */
  predicate CarriesIntoPoint(lit: Literal, d: nat)
    requires lit.Valid()
  {
    var digits := lit.whole + lit.decimals;
    lit.Power() < 0 && |lit.whole| + lit.Power() == 0 && d < |digits| && Cut(digits[..d], digits[d]).0
  }

  /** No digit stands before the point, none is wanted after it, and nothing is carried. */
  predicate Vanishes(lit: Literal, d: nat)
    requires lit.Valid()
  {
    lit.whole == "" && lit.Power() == 0 && d == 0 && lit.decimals[0] < '5'
  }

  // ---------- the number with its point moved ----------

  lemma {:induction false} ValueLeadingZeros(n: nat, s: string)
    requires AllDigits(s)
    ensures Value(Zeros(n) + s) == Value(s)
  {
    ValueConcat(Zeros(n), s);
    ValueZeros(n);
  }

  lemma {:induction false} Pow10Add(m: nat, n: nat)
    ensures Pow10(m + n) == Pow10(m) * Pow10(n)
  {
    if m > 0 {
      Pow10Add(m - 1, n);
      assert Pow10(m + n) == 10 * Pow10(m - 1 + n);
      MulTen(Pow10(n), Pow10(m - 1));
    }
  }

  predicate NothingLeft(whole: string, decimals: string, d: nat) {
    whole == "" && d == 0 && decimals != "" && decimals[0] < '5'
  }

  /** r is a numeral worth n / 10^m rounded to d decimals. */
  predicate StandsFor(r: string, n: nat, m: nat, d: nat) {
    && IsNumeral(r)
    && IsRounded(n, m, Value(WholePart(r) + DecimalPart(r)), |DecimalPart(r)|, Some(d))
  }

  lemma StandsByDigits(r: string, w: string, f: string, n: nat, m: nat, d: nat)
    requires AllDigits(w) && AllDigits(f) && IsNumeral(r)
    requires WholePart(r) + DecimalPart(r) == w + f && |DecimalPart(r)| == |f|
    requires IsRounded(n, m, Value(w + f), |f|, Some(d))
    ensures StandsFor(r, n, m, d)
  {
    hide IsRounded;
  }

  /** The value of a text with a point, cut to d decimals if it has more. */
  lemma RoundedTextIs(whole: string, decimals: string, d: nat)
    requires AllDigits(whole) && AllDigits(decimals) && whole + decimals != ""
    ensures var r := FormatPointed(whole, decimals, Some(d));
            if NothingLeft(whole, decimals, d) then r == ""
            else StandsFor(r, Value(whole + decimals), |decimals|, d)
  {
    hide RoundParts, RoundHalfUp, Value;
    if |decimals| <= d {
      PartsOfPointed(whole, decimals);
      UnroundedNumber(Value(whole + decimals), |decimals|, Some(d));
    } else {
      var (w, f) := RoundParts(whole, decimals, d);
      RoundsToNothing(whole, decimals, d);
      RoundPartsRounds(whole, decimals, d);
      CutTextIs(w, f, Value(whole + decimals), |decimals|, d);
    }
  }

  lemma CutTextIs(w: string, f: string, n: nat, m: nat, d: nat)
    requires AllDigits(w) && AllDigits(f) && |f| == d < m
    requires Value(w + f) == RoundHalfUp(n, m - d)
    ensures var r := if d == 0 then w else Pointed(w, f);
            if w + f == "" then r == "" else StandsFor(r, n, m, d)
  {
    hide RoundHalfUp, Value, IsRounded, StandsFor, IsNumeral;
    CutNumber(n, m, Value(w + f), d);
    TextOfParts(w, f);
    if w + f != "" {
      StandsByDigits(if |f| == 0 then w else Pointed(w, f), w, f, n, m, d);
    }
  }

  lemma TextOfParts(w: string, f: string)
    requires AllDigits(w) && AllDigits(f)
    ensures var r := if |f| == 0 then w else Pointed(w, f);
            if w + f == "" then r == ""
            else IsNumeral(r) && WholePart(r) + DecimalPart(r) == w + f && |DecimalPart(r)| == |f|
  {
    if f == "" {
      PartsOfWhole(w);
      assert w + f == w;
    } else {
      PartsOfPointed(w, f);
    }
  }

  lemma RoundsToNothing(whole: string, decimals: string, d: nat)
    requires AllDigits(whole) && AllDigits(decimals) && d < |decimals|
    ensures RoundParts(whole, decimals, d).0 + RoundParts(whole, decimals, d).1 == "" <==> NothingLeft(whole, decimals, d)
  {
    RoundPartsOf(whole, decimals, d);
    hide RoundParts;
    if whole == "" && d == 0 {
      assert whole + decimals[..d] == "";
    }
  }

  /** Reading what shows in the buffer, with its minus, reads the numeral. */
  lemma ReadShown(negative: bool, shown: string, r: string)
    requires Shows(shown, r) && (r == "" || IsNumeral(r))
    ensures Read((if negative then "-" else "") + shown)
         == if r == "" then None
            else Some(Number(negative, Value(WholePart(r) + DecimalPart(r)), |DecimalPart(r)|))
  {
    var out := (if negative then "-" else "") + shown;
    if r != "" {
      assert r[0] != ' ' && r[0] != '-' by {
        if PointAt(r) > 0 {
          assert r[0] == WholePart(r)[0];
        }
      }
    }
    assert SkipBlanks(shown) == r by {
      if shown != r {
        assert shown[1..] == r;
      }
    }
    if negative {
      assert out[1..] == shown;
    } else {
      assert out == shown;
    }
  }

  /** What can be in an adjusted text: blanks, a minus, and a numeral of at most d decimals. */
  predicate Settled(out: string, d: nat) {
    && (forall i :: 0 <= i < |out| ==> out[i] == ' ' || out[i] == '-' || IsDigit(out[i]) || out[i] == DECIMAL_POINT)
    && |DecimalPart(out)| <= d
  }

  predicate IsBlank(out: string) {
    forall i :: 0 <= i < |out| ==> out[i] == ' ' || out[i] == '-'
  }

  lemma BlankIsSettled(out: string, d: nat)
    requires IsBlank(out)
    ensures Settled(out, d)
  {
  }

  /** A point is in front of the same decimals with one more character before it. */
  lemma DecimalsBehind(c: char, s: string)
    requires c != DECIMAL_POINT
    ensures DecimalPart([c] + s) == DecimalPart(s)
  {
    var t := [c] + s;
    PointBehindOne(c, s, 0);
    if PointAt(s) < |s| {
      assert t[PointAt(t) + 1..] == s[PointAt(s) + 1..];
    }
  }

  lemma {:induction false} PointBehindOne(c: char, s: string, i: nat)
    requires c != DECIMAL_POINT && i <= |s|
    ensures PointFrom([c] + s, i + 1) == PointFrom(s, i) + 1
    decreases |s| - i
  {
    if i < |s| && s[i] != DECIMAL_POINT {
      PointBehindOne(c, s, i + 1);
    }
  }

  lemma {:induction false} BlanksBefore(s: string, d: nat)
    requires Settled(SkipBlanks(s), d)
    ensures Settled(s, d)
  {
    if s != [] && s[0] == ' ' {
      BlanksBefore(s[1..], d);
      assert s == [' '] + s[1..];
      DecimalsBehind(' ', s[1..]);
    }
  }

  lemma NumeralIsSettled(s: string, d: nat)
    requires IsNumeral(s) && |DecimalPart(s)| <= d
    ensures Settled(s, d)
  {
    forall i | 0 <= i < |s| ensures IsDigit(s[i]) || s[i] == DECIMAL_POINT {
      if i < PointAt(s) {
        assert s[i] == WholePart(s)[i];
      } else if i > PointAt(s) {
        assert s[i] == DecimalPart(s)[i - PointAt(s) - 1];
      }
    }
  }

  lemma ReadIsSettled(out: string, d: nat)
    requires Read(out).Some? && Read(out).value.decimals <= d
    ensures Settled(out, d)
  {
    hide Value;
    var negative := out != [] && out[0] == '-';
    var rest := if negative then out[1..] else out;
    NumeralIsSettled(SkipBlanks(rest), d);
    BlanksBefore(rest, d);
    if negative {
      assert out == ['-'] + rest;
      DecimalsBehind('-', rest);
    }
  }

  lemma RoundedIsSettled(out: string, negative: bool, n: nat, m: nat, d: nat)
    requires ReadsRounded(out, negative, n, m, d)
    ensures Settled(out, d)
  {
    hide Read, RoundedTo;
    ReadIsSettled(out, d);
  }

  /** The text that is written when the carry is lost. */
  lemma LostIsSettled(out: string, lit: Literal, d: nat)
    requires lit.Valid() && CarriesIntoPoint(lit, d)
    requires out == Signed(lit.IsNegative(), " " + PaddedText(0, lit.whole + lit.decimals, d))
    ensures Settled(out, d)
  {
    var r := PaddedText(0, lit.whole + lit.decimals, d);
    LostIsLost(lit, d);
    LostValue(lit.whole + lit.decimals, d);
    hide PaddedText, Value, Read;
    PartsOfWhole(r);
    NumeralIsSettled(r, d);
    DecimalsBehind(' ', r);
    assert " " + r == [' '] + r;
    if lit.IsNegative() {
      assert out == ['-'] + ([' '] + r);
      DecimalsBehind('-', [' '] + r);
    }
  }

  // ---------- literals that stay as they are ----------

  /** The literal as it was written has an exponent mark, or all its decimals behind the point. */
  lemma WrittenLiteral(lit: Literal, d: nat)
    requires lit.Valid() && Settled(lit.Text(), d)
    ensures lit.exponent.None? && |lit.decimals| <= d
  {
    hide PointAt, Value;
    var front := lit.lead + lit.sign;
    if lit.exponent.Some? {
      var mark, behind := lit.exponent.value.mark, lit.exponent.value.sign + lit.exponent.value.digits;
      MarkStands(front, lit.Body(), mark, behind);
    } else if lit.point {
      PointStands(front, lit.whole, lit.decimals);
      FrontHasNoPoint(lit.lead, lit.sign, lit.whole);
      FirstPoint(front + lit.whole, lit.decimals);
    }
  }

  lemma MarkStands(a: string, b: string, mark: char, c: string)
    ensures |a + b| < |a + (b + ([mark] + c))| && (a + (b + ([mark] + c)))[|a + b|] == mark
  {
  }

  lemma PointStands(a: string, whole: string, decimals: string)
    ensures a + (Pointed(whole, decimals) + "") == (a + whole) + ([DECIMAL_POINT] + decimals)
  {
  }

  lemma FrontHasNoPoint(lead: string, sign: string, whole: string)
    requires forall i :: 0 <= i < |lead| ==> lead[i] == ' ' || '\t' <= lead[i] <= '\r'
    requires (sign == "" || sign == "+" || sign == "-") && AllDigits(whole)
    ensures forall i :: 0 <= i < |(lead + sign) + whole| ==> ((lead + sign) + whole)[i] != DECIMAL_POINT
  {
  }

  lemma FirstPoint(a: string, f: string)
    requires forall i :: 0 <= i < |a| ==> a[i] != DECIMAL_POINT
    ensures DecimalPart(a + ([DECIMAL_POINT] + f)) == f
  {
    var s := a + ([DECIMAL_POINT] + f);
    assert s[|a|] == DECIMAL_POINT;
    assert !(PointAt(s) < |a|) by {
      assert forall i :: 0 <= i < |a| ==> s[i] == a[i];
    }
    assert !(PointAt(s) > |a|);
    assert s[|a| + 1..] == f;
  }

  /** A literal that needs no rounding: it has no more decimals than wanted, or its exponent makes it a whole number. */
  predicate NeedsNoRounding(lit: Literal, d: nat)
    requires lit.Valid()
  {
    if lit.exponent.None? then |lit.decimals| <= d else |lit.decimals| <= lit.Power()
  }

  /** A literal without exponent that needs no rounding is adjusted as it stands. */
  lemma UnroundedIsAdjusted(lit: Literal, d: nat)
    requires lit.Valid() && lit.exponent.None? && NeedsNoRounding(lit, d)
    ensures IsAdjusted(Signed(lit.IsNegative(), lit.Body()), lit, d)
  {
    hide Value, Read;
    UncutStands(lit.whole, lit.decimals, lit.point, d);
    ShowsItself(lit.Body());
    ReadsWhatShows(lit.IsNegative(), lit.Body(), lit.Body(), lit.Mantissa(), |lit.decimals|, d);
    hide RoundedTo;
    ReadsAdjusted(Signed(lit.IsNegative(), lit.Body()), lit, d, lit.Mantissa(), |lit.decimals|);
  }

  lemma ShowsItself(r: string)
    ensures Shows(r, r)
  {
  }

  /** One with an exponent that needs no rounding is a whole number, and rounding it changes nothing. */
  lemma WholeNumberIsExact(lit: Literal, d: nat)
    requires lit.Valid() && lit.exponent.Some? && NeedsNoRounding(lit, d)
    ensures RoundedTo(lit.Mantissa(), |lit.decimals| - lit.Power(), d)
         == (lit.Mantissa() * Pow10(lit.Power() - |lit.decimals|)) * Pow10(d)
  {
    hide Value;
    Pow10Add(lit.Power() - |lit.decimals|, d);
    MulAssociates(lit.Mantissa(), Pow10(lit.Power() - |lit.decimals|), Pow10(d));
  }

  // ---------- the pieces of the C code ----------

  /** The copying loop: the digits of src go to the buffer from start on, stepping over its own point
      and over the point already in the buffer, until text stands there or lastPos has been passed. */
  method CopyDigits(buffer: array<char>, src: string, start: nat, lastPos: int, ghost lit: Literal,
                    ghost dot: bool, ghost gap: nat, ghost text: string)
    returns (idx: nat)
    requires lit.Valid() && src == lit.Body() && start <= buffer.Length
    requires IsText(text, lit.whole + lit.decimals, dot, gap)
    requires dot ==> 0 < gap && start + gap < lastPos && start + gap < buffer.Length && buffer[start + gap] == DECIMAL_POINT
    requires start + |text| <= buffer.Length || lastPos < buffer.Length
    requires forall i :: start <= i < buffer.Length && !(dot && i == start + gap) ==> buffer[i] != DECIMAL_POINT
    modifies buffer
    ensures start <= idx <= buffer.Length && idx <= start + |text|
    ensures idx == start + |text| || lastPos < idx
    ensures idx == start || idx <= lastPos + 1
    ensures buffer[start..idx] == text[..idx - start]
    ensures forall i :: 0 <= i < buffer.Length && (i < start || idx <= i) ==> buffer[i] == old(buffer[i])
  {
    hide Value;
    ghost var digits, k := lit.whole + lit.decimals, 0;
    idx := start;
    var p := 0;
    while p < |src| && idx <= lastPos
      invariant 0 <= p <= |src| && k <= |digits|
      invariant k == if lit.point && p > |lit.whole| then p - 1 else p
      invariant idx == start + k + (if dot && k > gap then 1 else 0)
      invariant idx <= buffer.Length && (idx == start || idx <= lastPos + 1)
      invariant forall i :: start <= i < idx ==> buffer[i] == text[i - start]
      invariant forall i :: 0 <= i < buffer.Length && (i < start || idx <= i) ==> buffer[i] == old(buffer[i])
      decreases |src| - p
    {
      BodyAt(lit, p);
      if src[p] == DECIMAL_POINT {
        p := p + 1;
        continue;
      }
      if buffer[idx] == DECIMAL_POINT {
        idx := idx + 1;
      }
      buffer[idx] := src[p];
      idx := idx + 1;
      p := p + 1;
      k := k + 1;
    }
  }

  /** text is the digits, with a point before digit gap if dot is set. */
  predicate IsText(text: string, digits: string, dot: bool, gap: nat) {
    if dot then
      && gap < |digits| && |text| == |digits| + 1 && text[gap] == DECIMAL_POINT
      && (forall j :: 0 <= j < gap ==> text[j] == digits[j])
      && (forall j :: gap < j < |text| ==> text[j] == digits[j - 1])
    else text == digits
  }

  lemma BodyAt(lit: Literal, p: nat)
    requires lit.Valid() && p < |lit.Body()|
    ensures var k := if lit.point && p > |lit.whole| then p - 1 else p;
            if lit.point && p == |lit.whole| then lit.Body()[p] == DECIMAL_POINT
            else k < |lit.whole + lit.decimals| && lit.Body()[p] == (lit.whole + lit.decimals)[k] && IsDigit(lit.Body()[p])
  {
  }

  // ---------- what the written text reads as ----------

  /** out is worth n / 10^m, with this sign, rounded to d decimals. */
  predicate ReadsRounded(out: string, negative: bool, n: nat, m: nat, d: nat) {
    && Read(out).Some?
    && Read(out).value.negative == negative
    && IsRounded(n, m, Read(out).value.mantissa, Read(out).value.decimals, Some(d))
  }

  function Signed(negative: bool, shown: string): string {
    (if negative then "-" else "") + shown
  }

  lemma ReadsWhatShows(negative: bool, shown: string, r: string, n: nat, m: nat, d: nat)
    requires Shows(shown, r) && StandsFor(r, n, m, d)
    ensures ReadsRounded(Signed(negative, shown), negative, n, m, d)
  {
    hide Shows, IsRounded, Read;
    ReadShown(negative, shown, r);
  }

  lemma ReadsNothing(negative: bool, shown: string)
    requires Shows(shown, "")
    ensures Read(Signed(negative, shown)) == None && IsBlank(Signed(negative, shown))
  {
    hide Read;
    ReadShown(negative, shown, "");
  }

  // ---------- the branches of the C code ----------

  function Leeway(isNegative: nat): (r: string)
    requires isNegative <= 1
    ensures |r| == isNegative
  {
    if isNegative == 1 then " " else ""
  }

  method NewBuffer() returns (buffer: array<char>)
    ensures fresh(buffer) && buffer.Length == BUFFER_SIZE
    ensures forall i :: 0 <= i < BUFFER_SIZE ==> buffer[i] == if i < 2 then ' ' else '\0'
  {
    buffer := new char[BUFFER_SIZE](i => if i < 2 then ' ' else '\0');
  }

  /** The end of the C function: the sign goes in, and the text runs up to the terminator. */
  method SetSign(buffer: array<char>, isNegative: nat, ghost shown: string) returns (out: string)
    requires isNegative <= 1 && isNegative + |shown| < buffer.Length
    requires buffer[..isNegative + |shown|] == Leeway(isNegative) + shown && buffer[isNegative + |shown|] == '\0'
    requires forall i :: 0 <= i < |shown| ==> shown[i] != '\0'
    modifies buffer
    ensures out == Signed(isNegative == 1, shown)
  {
    ghost var text := Leeway(isNegative) + shown;
    assert forall i :: 0 <= i < |text| ==> buffer[i] == text[i];
    if isNegative == 1 {
      buffer[0] := '-';
    }
    assert forall i :: 0 <= i < |text| ==> buffer[i] != '\0';
    assert buffer[|text|] == '\0';
    var len := StrChr(buffer[..], '\0');
    out := buffer[..len];
  }

  lemma ShownChars(shown: string, r: string)
    requires Shows(shown, r) && Numeric(r)
    ensures forall i :: 0 <= i < |shown| ==> shown[i] != '\0'
  {
  }

  lemma FormatPointedNumeric(whole: string, decimals: string, d: nat)
    requires AllDigits(whole) && AllDigits(decimals)
    ensures Numeric(FormatPointed(whole, decimals, Some(d)))
  {
  }

  /** The numeral stands in the buffer behind one blank, whole or up to the first digit to be dropped:
      cut it if it has too many decimals, then set the sign. */
  method RoundAndSign(buffer: array<char>, isNegative: nat, d: nat, point: nat, last: nat,
                      ghost whole: string, ghost copied: string, ghost decimals: string)
    returns (out: string)
    requires AllDigits(whole) && AllDigits(decimals) && whole + decimals != "" && isNegative <= 1
    requires copied <= decimals && (copied == decimals || |copied| > d)
    requires point == isNegative + 1 + |whole| && last == point + 1 + |copied| < buffer.Length
    requires buffer[..last] == Leeway(isNegative) + [' '] + Pointed(whole, copied) && buffer[last] == '\0'
    modifies buffer
    ensures if NothingLeft(whole, decimals, d) then Read(out) == None && IsBlank(out)
            else ReadsRounded(out, isNegative == 1, Value(whole + decimals), |decimals|, d)
  {
    hide Read, StandsFor, Shows, RoundParts, FormatPointed, Value, ReadsRounded;
    ghost var r := CutOrWhole(whole, decimals, d);
    var newLast, shown := CutExcess(buffer, isNegative, d, point, isNegative + 1, last, whole, copied, decimals);
    ReadsOutcome(isNegative == 1, shown, r, NothingLeft(whole, decimals, d), Value(whole + decimals), |decimals|, d);
    out := SetSign(buffer, isNegative, shown);
  }

  /** Rounds if there are more than d decimals. */
  method CutExcess(buffer: array<char>, ghost isNegative: nat, d: nat, point: nat, offset: nat, last: nat,
                   ghost whole: string, ghost copied: string, ghost decimals: string)
    returns (newLast: nat, ghost shown: string)
    requires AllDigits(whole) && AllDigits(decimals) && isNegative <= 1
    requires copied <= decimals && (copied == decimals || |copied| > d)
    requires offset == isNegative + 1 && point == offset + |whole| && last == point + 1 + |copied| < buffer.Length
    requires buffer[..last] == Leeway(isNegative) + [' '] + Pointed(whole, copied) && buffer[last] == '\0'
    modifies buffer
    ensures newLast == isNegative + |shown| < buffer.Length
    ensures buffer[..newLast] == Leeway(isNegative) + shown && buffer[newLast] == '\0'
    ensures Shows(shown, if |decimals| <= d then Pointed(whole, decimals) else FormatPointed(whole, decimals, Some(d)))
  {
    hide Cut, AfterCut, Shows, RoundParts, FormatPointed;
    newLast := last;
    if last - point - 1 > d {
      assert copied[..d] == decimals[..d] && copied[d] == decimals[d];
      newLast := CutNumeral(buffer, Leeway(isNegative), ' ', whole, copied, point, d, offset, last);
      CutShows(whole, decimals, d);
      ghost var (carry, kept) := Cut(whole + decimals[..d], decimals[d]);
      shown := AfterCut(' ', carry, kept[..|whole|], kept[|whole|..]);
    } else {
      shown := [' '] + Pointed(whole, decimals);
      BlankShows(Pointed(whole, decimals));
      assert Leeway(isNegative) + [' '] + Pointed(whole, decimals) == Leeway(isNegative) + shown;
    }
  }

  lemma ReadsOutcome(negative: bool, shown: string, r: string, nothing: bool, n: nat, m: nat, d: nat)
    requires Shows(shown, r) && Numeric(r)
    requires if nothing then r == "" else StandsFor(r, n, m, d)
    ensures forall i :: 0 <= i < |shown| ==> shown[i] != '\0'
    ensures if nothing then Read(Signed(negative, shown)) == None && IsBlank(Signed(negative, shown)) else ReadsRounded(Signed(negative, shown), negative, n, m, d)
  {
    hide Read, StandsFor, ReadsRounded;
    ShownChars(shown, r);
    if nothing {
      ReadsNothing(negative, shown);
    } else {
      ReadsWhatShows(negative, shown, r, n, m, d);
    }
  }

  /** The numeral with at most d decimals, and what it stands for. */
  lemma CutOrWhole(whole: string, decimals: string, d: nat) returns (r: string)
    requires AllDigits(whole) && AllDigits(decimals) && whole + decimals != ""
    ensures r == if |decimals| <= d then Pointed(whole, decimals) else FormatPointed(whole, decimals, Some(d))
    ensures Numeric(r)
    ensures if NothingLeft(whole, decimals, d) then r == "" else StandsFor(r, Value(whole + decimals), |decimals|, d)
  {
    hide StandsFor, RoundParts, Value;
    RoundedTextIs(whole, decimals, d);
    FormatPointedNumeric(whole, decimals, d);
    r := FormatPointed(whole, decimals, Some(d));
  }

  /** No exponent, or exponent zero: the numeral is copied as it is and cut. */
  method CutAsWritten(text: string, hasPoint: bool, pt: nat, isNegative: nat, d: nat, ghost whole: string, ghost decimals: string)
    returns (out: string)
    requires isNegative <= 1 && |text| <= MAX_DECIMAL_STRLEN
    requires AllDigits(whole) && AllDigits(decimals) && whole + decimals != ""
    requires if hasPoint then pt == |whole| && text == Pointed(whole, decimals) else text == whole && decimals == ""
    ensures if NothingLeft(whole, decimals, d) then Read(out) == None && IsBlank(out)
            else ReadsRounded(out, isNegative == 1, Value(whole + decimals), |decimals|, d)
  {
    hide Read, StandsFor, Shows, Value, ReadsRounded;
    var buffer := NewBuffer();
    var offset := 1 + isNegative;
    forall i | 0 <= i < |text| {
      buffer[offset + i] := text[i];
    }
    var last := offset + |text|;
    assert buffer[..last] == Leeway(isNegative) + [' '] + text;
    if hasPoint {
      out := RoundAndSign(buffer, isNegative, d, pt + offset, last, whole, decimals, decimals);
    } else {
      UncutStands(whole, decimals, false, d);
      BlankShows(text);
      ghost var shown := [' '] + text;
      assert buffer[..last] == Leeway(isNegative) + shown;
      ReadsWhatShows(isNegative == 1, shown, text, Value(whole + decimals), |decimals|, d);
      out := SetSign(buffer, isNegative, shown);
    }
  }

  lemma BlankShows(r: string)
    ensures Shows([' '] + r, r)
  {
  }

  lemma UncutStands(whole: string, decimals: string, point: bool, d: nat)
    requires AllDigits(whole) && AllDigits(decimals) && whole + decimals != "" && |decimals| <= d
    requires !point ==> decimals == ""
    ensures var r := if point then Pointed(whole, decimals) else whole;
            Numeric(r) && StandsFor(r, Value(whole + decimals), |decimals|, d)
  {
    UnroundedNumber(Value(whole + decimals), |decimals|, Some(d));
    if point {
      PartsOfPointed(whole, decimals);
    } else {
      PartsOfWhole(whole);
    }
  }

  lemma InThreeParts(buf: seq<char>, i: nat, j: nat, k: nat, base: string, whole: string, zeros: string)
    requires i <= j <= k <= |buf| && buf[..i] == base + [' '] && buf[i..j] == whole && buf[j..k] == zeros
    ensures buf[..k] == base + ([' '] + (whole + zeros))
  {
    assert buf[..k] == buf[..i] + buf[i..j] + buf[j..k];
  }

  /** A positive exponent and no point: zeros are appended. */
  method AppendZeros(body: string, power: nat, isNegative: nat, d: nat, ghost lit: Literal) returns (out: string)
    requires lit.Valid() && !lit.point && body == lit.Body() && 0 < power
    requires isNegative <= 1 && isNegative + 1 + |body| + power < BUFFER_SIZE
    ensures ReadsRounded(out, isNegative == 1, Value(lit.whole + Zeros(power)), 0, d)
  {
    hide Read, IsRounded, StandsFor, Shows, Value;
    var buffer := NewBuffer();
    var offset := 1 + isNegative;
    var newpos := |body| + power + offset;
    forall i | 0 <= i < power {
      buffer[offset + |body| + i] := '0';
    }
    var idx := CopyDigits(buffer, body, offset, newpos + d + 1, lit, false, 0, body);
    assert idx - newpos - 1 <= d;
    StandsAt(buffer[..], idx, Zeros(power));
    StandsAt(buffer[..], 0, Leeway(isNegative) + [' ']);
    InThreeParts(buffer[..], offset, idx, idx + power, Leeway(isNegative), lit.whole, Zeros(power));
    out := SignWhole(buffer, isNegative, d, lit.whole + Zeros(power));
  }

  /** The sign of a whole number that stands behind a blank. */
  method SignWhole(buffer: array<char>, isNegative: nat, d: nat, ghost r: string) returns (out: string)
    requires isNegative <= 1 && AllDigits(r) && r != "" && isNegative + 1 + |r| < buffer.Length
    requires buffer[..isNegative + 1 + |r|] == Leeway(isNegative) + ([' '] + r) && buffer[isNegative + 1 + |r|] == '\0'
    modifies buffer
    ensures ReadsRounded(out, isNegative == 1, Value(r), 0, d)
  {
    hide Read, IsRounded, StandsFor, Shows, Value;
    ghost var shown := [' '] + r;
    UncutStands(r, "", false, d);
    assert r + "" == r;
    BlankShows(r);
    ReadsWhatShows(isNegative == 1, shown, r, Value(r), 0, d);
    out := SetSign(buffer, isNegative, shown);
  }

  /** The point moves to a place behind the first digit. */
  method MovePoint(body: string, newpos: nat, isNegative: nat, d: nat, ghost lit: Literal) returns (out: string)
    requires lit.Valid() && body == lit.Body() && |body| <= MAX_DECIMAL_STRLEN && isNegative <= 1
    requires 0 < newpos < |lit.whole + lit.decimals|
    ensures ReadsRounded(out, isNegative == 1, lit.Mantissa(), |lit.whole + lit.decimals| - newpos, d)
  {
    hide Read, Value, ReadsRounded;
    ghost var digits := lit.whole + lit.decimals;
    ghost var whole, decimals := digits[..newpos], digits[newpos..];
    assert digits == whole + decimals;
    var buffer := NewBuffer();
    var offset := 1 + isNegative;
    var point := newpos + offset;
    buffer[point] := DECIMAL_POINT;
    var idx := CopyDigits(buffer, body, offset, point + d + 1, lit, true, newpos, Pointed(whole, decimals));
    ghost var copied := decimals[..idx - point - 1];
    assert Pointed(whole, decimals)[..idx - offset] == Pointed(whole, copied);
    assert buffer[..offset] == Leeway(isNegative) + [' '];
    InTwoParts(buffer[..], offset, idx, Leeway(isNegative) + [' '], Pointed(whole, copied));
    out := RoundAndSign(buffer, isNegative, d, point, idx, whole, copied, decimals);
  }

  // ---------- the point moves before the first digit ----------

  lemma {:induction false} NoCarryBehindZero(a: string, b: string)
    requires AllDigits(a) && AllDigits(b)
    ensures AllDigits("0" + b) && AllDigits(a + ("0" + b))
    ensures Bump(a + ("0" + b)) == (false, a + ((if Bump(b).0 then "1" else "0") + Bump(b).1))
  {
    assert "0"[..0] == "" && "0"[0] == '0';
    assert Bump("0") == (false, "" + [('0' as int + 1) as char]);
    assert Bump("0").1 == "1";
    BumpConcat("0", b);
    hide Bump;
    BumpConcat(a, "0" + b);
  }

  /** The cut falls on one of the zeros. */
  lemma CutOnZero(z: nat, digits: string, d: nat)
    requires AllDigits(digits) && d < z
    ensures FormatPointed("0", Zeros(z) + digits, Some(d)) == if d == 0 then "0" else Pointed("0", Zeros(d))
  {
    var decimals := Zeros(z) + digits;
    assert decimals[..d] == Zeros(d) && decimals[d] == '0';
    var all := "0" + Zeros(d);
    assert Rounded("0" + decimals[..d], decimals[d]) == all;
    assert all[..|all| - d] == "0" && all[|all| - d..] == Zeros(d);
  }

  /** The cut falls on a digit behind at least one zero: the zero takes the carry. */
  lemma CutBehindZero(z: nat, digits: string, d: nat)
    requires AllDigits(digits) && 0 < z <= d < z + |digits|
    ensures var (carry, cut) := Cut(digits[..d - z], digits[d - z]);
            FormatPointed("0", Zeros(z) + digits, Some(d)) == Pointed("0", Zeros(z - 1)) + (Pad('0', carry) + cut)
  {
    var decimals := Zeros(z) + digits;
    var b, next := digits[..d - z], digits[d - z];
    var (carry, cut) := Cut(b, next);
    var tail := Zeros(z - 1) + (Pad('0', carry) + cut);
    assert decimals[d] == next;
    assert "0" + decimals[..d] == ("0" + Zeros(z - 1)) + ("0" + b);
    NoCarryBehindZero("0" + Zeros(z - 1), b);
    hide Bump;
    var all := Rounded("0" + decimals[..d], next);
    assert all == "0" + tail;
    assert all[..|all| - d] == "0" && all[|all| - d..] == tail;
    assert Pointed("0", tail) == Pointed("0", Zeros(z - 1)) + (Pad('0', carry) + cut);
  }

  /** The cut falls on a digit right behind the point, and nothing is carried. */
  lemma CutBehindPoint(digits: string, d: nat)
    requires AllDigits(digits) && d < |digits| && !Cut(digits[..d], digits[d]).0
    ensures FormatPointed("0", digits, Some(d)) == if d == 0 then "0" else Pointed("0", Cut(digits[..d], digits[d]).1)
  {
    RoundPartsOfZero(digits, d);
  }

  /** The carry falls on the point. */
  predicate PointLost(z: nat, digits: string, d: nat)
    requires AllDigits(digits)
  {
    z == 0 && d < |digits| && Cut(digits[..d], digits[d]).0
  }

  /** What shows once "0." and zeros have been put before the digits. */
  function PaddedText(z: nat, digits: string, d: nat): string
    requires AllDigits(digits)
  {
    if PointLost(z, digits, d) then "0" + if d == 0 then "" else "1" + Cut(digits[..d], digits[d]).1
    else FormatPointed("0", Zeros(z) + digits, Some(d))
  }

  lemma PaddedNumeric(z: nat, digits: string, d: nat)
    requires AllDigits(digits)
    ensures Numeric(PaddedText(z, digits, d))
  {
    hide FormatPointed;
    FormatPointedNumeric("0", Zeros(z) + digits, d);
  }

  lemma PaddedStands(z: nat, digits: string, d: nat)
    requires AllDigits(digits) && digits != ""
    ensures StandsFor(FormatPointed("0", Zeros(z) + digits, Some(d)), Value(digits), z + |digits|, d)
  {
    var decimals := Zeros(z) + digits;
    hide FormatPointed, StandsFor, Value;
    RoundedTextIs("0", decimals, d);
    assert "0" + decimals == Zeros(z + 1) + digits;
    ValueLeadingZeros(z + 1, digits);
  }

  method ZerosBehindPoint(z: nat, isNegative: nat) returns (buffer: array<char>, point: nat, start: nat)
    requires isNegative <= 1 && z <= MAXIMUM_PRECISION
    ensures fresh(buffer) && buffer.Length == BUFFER_SIZE
    ensures point == isNegative + 2 && start == point + 1 + z
    ensures buffer[..start] == Leeway(isNegative) + " " + "0." + Zeros(z)
    ensures forall i :: start <= i < BUFFER_SIZE ==> buffer[i] == '\0'
  {
    buffer := NewBuffer();
    var offset := 1 + isNegative;
    point := offset + 1;
    start := offset + 2 + z;
    forall i | offset <= i < start {
      buffer[i] := '0';
    }
    buffer[point] := DECIMAL_POINT;
  }

  /** Copies the digits behind "0." and zeros. */
  method PadZeros(body: string, z: nat, isNegative: nat, d: nat, ghost lit: Literal) returns (out: string)
    requires lit.Valid() && body == lit.Body() && |body| <= MAX_DECIMAL_STRLEN && isNegative <= 1
    requires z <= MAXIMUM_PRECISION && d <= MAXIMUM_PRECISION
    ensures var digits := lit.whole + lit.decimals;
            if PointLost(z, digits, d) then out == Signed(isNegative == 1, " " + PaddedText(z, digits, d))
            else ReadsRounded(out, isNegative == 1, lit.Mantissa(), z + |digits|, d)
  {
    hide Read, Value, PointLost, PaddedText, ReadsRounded, Numeric, Cut;
    ghost var digits := lit.whole + lit.decimals;
    var buffer, point, start := ZerosBehindPoint(z, isNegative);
    var idx := CopyDigits(buffer, body, start, point + d + 1, lit, false, 0, digits);
    InTwoParts(buffer[..], start, idx, buffer[..start], digits[..idx - start]);
    idx := CutPadded(buffer, Leeway(isNegative) + " ", z, d, point, start, idx, digits);
    out := SignPadded(buffer, isNegative, z, d, idx, digits);
  }

  method SignPadded(buffer: array<char>, isNegative: nat, z: nat, d: nat, last: nat, ghost digits: string) returns (out: string)
    requires AllDigits(digits) && digits != "" && isNegative <= 1 && last < buffer.Length && buffer[last] == '\0'
    requires buffer[..last] == Leeway(isNegative) + " " + PaddedText(z, digits, d)
    modifies buffer
    ensures if PointLost(z, digits, d) then out == Signed(isNegative == 1, " " + PaddedText(z, digits, d))
            else ReadsRounded(out, isNegative == 1, Value(digits), z + |digits|, d)
  {
    hide Read, Value, PointLost, PaddedText, ReadsRounded, Numeric;
    ghost var shown := " " + PaddedText(z, digits, d);
    assert Leeway(isNegative) + shown == Leeway(isNegative) + " " + PaddedText(z, digits, d);
    PaddedReads(isNegative == 1, z, digits, d);
    out := SetSign(buffer, isNegative, shown);
  }

  lemma PaddedReads(negative: bool, z: nat, digits: string, d: nat)
    requires AllDigits(digits) && digits != ""
    ensures var shown := " " + PaddedText(z, digits, d);
            && (forall i :: 0 <= i < |shown| ==> shown[i] != '\0')
            && (!PointLost(z, digits, d) ==> ReadsRounded(Signed(negative, shown), negative, Value(digits), z + |digits|, d))
  {
    hide Read, PointLost, StandsFor, PaddedText, ReadsRounded, FormatPointed, Value;
    var text := PaddedText(z, digits, d);
    PaddedNumeric(z, digits, d);
    BlankShows(text);
    ShownChars([' '] + text, text);
    if !PointLost(z, digits, d) {
      PaddedStands(z, digits, d);
      PaddedKept(z, digits, d);
      ReadsWhatShows(negative, [' '] + text, text, Value(digits), z + |digits|, d);
    }
  }

  lemma PaddedKept(z: nat, digits: string, d: nat)
    requires AllDigits(digits) && !PointLost(z, digits, d)
    ensures PaddedText(z, digits, d) == FormatPointed("0", Zeros(z) + digits, Some(d))
  {
  }

  /** The rounding step behind the zeros. */
  method CutPadded(buffer: array<char>, ghost base: string, z: nat, d: nat, point: nat, start: nat, idx: nat, ghost digits: string)
    returns (newLast: nat)
    requires AllDigits(digits) && point == |base| + 1 && start == point + 1 + z
    requires start <= idx <= start + |digits| && idx < buffer.Length
    requires idx == start + |digits| || point + d + 1 < idx
    requires idx == start || idx <= point + d + 2
    requires buffer[..idx] == base + "0." + Zeros(z) + digits[..idx - start]
    requires buffer[idx] == '\0'
    modifies buffer
    ensures newLast < buffer.Length && buffer[newLast] == '\0'
    ensures buffer[..newLast] == base + PaddedText(z, digits, d)
  {
    hide PaddedText, Cut;
    if idx - point - 1 > d {
      ghost var kept, before := if start <= point + d + 1 then digits[..point + d + 1 - start] else "", buffer[..];
      BeforeCut(before, base, z, d, start, idx, digits, kept);
      newLast := RoundUpDecimalNumbers(buffer, point, d, start, idx, kept);
      ShownAfterCut(before, base, z, d, start, idx, digits, kept, buffer[..newLast]);
    } else {
      newLast := idx;
      PaddedUncut(base, z, digits, d, buffer[..newLast]);
    }
  }

  /** The digit to be dropped, and the digits before it. */
  lemma BeforeCut(before: seq<char>, base: string, z: nat, d: nat, start: nat, idx: nat, digits: string, kept: string)
    requires AllDigits(digits) && start == |base| + 2 + z && start <= idx <= start + |digits| && idx <= |before|
    requires before[..idx] == base + "0." + Zeros(z) + digits[..idx - start] && |base| + d + 2 < idx
    requires start <= |base| + d + 2 ==> kept == digits[..|base| + d + 2 - start]
    ensures var pos := |base| + d + 2;
            && IsDigit(before[pos])
            && if start <= pos then kept == before[start..pos] && Numeric(kept) else before[pos] < '5'
  {
    var pos, copied := |base| + d + 2, digits[..idx - start];
    PaddedBuffer(before, base, z, copied, start, idx);
    if start <= pos {
      assert before[start + (pos - start)] == copied[pos - start] == digits[pos - start];
      assert before[start..start + (pos - start)] == copied[..pos - start] == kept;
    }
  }

  /** What shows after the cut, in terms of the buffer before it. */
  lemma ShownAfterCut(before: seq<char>, base: string, z: nat, d: nat, start: nat, idx: nat, digits: string, kept: string,
                      shown: string)
    requires AllDigits(digits) && start == |base| + 2 + z && start <= idx <= start + |digits| && idx <= |before|
    requires before[..idx] == base + "0." + Zeros(z) + digits[..idx - start] && |base| + d + 2 < idx
    requires start <= |base| + d + 2 ==> kept == digits[..|base| + d + 2 - start]
    requires var pos := |base| + d + 2;
             var newLast := if d == 0 then pos - 1 else pos;
             shown == if start <= pos then
                        var (carry, cut) := Cut(kept, before[pos]);
                        (before[..start - 1] + Pad(before[start - 1], carry) + cut)[..newLast]
                      else before[..newLast]
    ensures shown == base + PaddedText(z, digits, d)
  {
    hide PaddedText, Cut;
    var copied, pos := digits[..idx - start], |base| + d + 2;
    PaddedBuffer(before, base, z, copied, start, idx);
    if start <= pos {
      assert before[pos] == copied[pos - start] == digits[d - z];
    } else {
      var newLast := if d == 0 then pos - 1 else pos;
      assert before[..newLast] == before[..start][..newLast];
    }
    PaddedCut(base, z, digits, d, kept, shown);
  }

  lemma PaddedBuffer(buf: seq<char>, base: string, z: nat, copied: string, start: nat, idx: nat)
    requires start == |base| + 2 + z && idx == start + |copied| <= |buf|
    requires buf[..idx] == base + "0." + Zeros(z) + copied
    ensures forall i :: 0 <= i < |copied| ==> buf[start + i] == copied[i]
    ensures forall i :: 0 <= i < |copied| ==> buf[start..start + i] == copied[..i]
    ensures forall i :: |base| + 2 <= i < start ==> buf[i] == '0'
    ensures buf[..start - 1] == base + if z == 0 then "0" else Pointed("0", Zeros(z - 1))
    ensures buf[start - 1] == if z == 0 then '.' else '0'
    ensures buf[..start] == base + Pointed("0", Zeros(z))
  {
    var text := base + "0." + Zeros(z) + copied;
    assert forall i :: 0 <= i < |text| ==> buf[i] == text[i];
  }

  lemma PaddedUncut(base: string, z: nat, digits: string, d: nat, shown: string)
    requires AllDigits(digits) && z + |digits| <= d
    requires shown == base + "0." + Zeros(z) + digits
    ensures shown == base + PaddedText(z, digits, d)
  {
    hide Cut, RoundParts;
    assert base + "0." + Zeros(z) + digits == base + Pointed("0", Zeros(z) + digits);
  }

  lemma PaddedCut(base: string, z: nat, digits: string, d: nat, kept: string, shown: string)
    requires AllDigits(digits) && d < z + |digits|
    requires z <= d ==> kept == digits[..d - z]
    requires shown ==
               if z <= d then
                 var (carry, cut) := Cut(kept, digits[d - z]);
                 (base + (if z == 0 then "0" else Pointed("0", Zeros(z - 1)))
                       + Pad(if z == 0 then '.' else '0', carry) + cut)[..|base| + 1 + if d == 0 then 0 else 1 + d]
               else (base + Pointed("0", Zeros(z)))[..|base| + 1 + if d == 0 then 0 else 1 + d]
    ensures shown == base + PaddedText(z, digits, d)
  {
    hide PaddedText, Cut;
    if d < z {
      PaddedCutEarly(base, z, digits, d);
    } else if z > 0 {
      PaddedCutBehindZero(base, z, digits, d);
    } else {
      PaddedCutAtPoint(base, digits, d);
    }
  }

  lemma PaddedCutEarly(base: string, z: nat, digits: string, d: nat)
    requires AllDigits(digits) && d < z
    ensures (base + Pointed("0", Zeros(z)))[..|base| + 1 + if d == 0 then 0 else 1 + d] == base + PaddedText(z, digits, d)
  {
    hide FormatPointed;
    CutOnZero(z, digits, d);
    assert Pointed("0", Zeros(z))[..1] == "0";
    assert Pointed("0", Zeros(z))[..2 + d] == Pointed("0", Zeros(d));
  }

  lemma PaddedCutBehindZero(base: string, z: nat, digits: string, d: nat)
    requires AllDigits(digits) && 0 < z <= d < z + |digits|
    ensures var (carry, cut) := Cut(digits[..d - z], digits[d - z]);
            (base + Pointed("0", Zeros(z - 1)) + Pad('0', carry) + cut)[..|base| + 1 + (1 + d)] == base + PaddedText(z, digits, d)
  {
    hide FormatPointed, Cut;
    CutBehindZero(z, digits, d);
    var (carry, cut) := Cut(digits[..d - z], digits[d - z]);
    var text := base + Pointed("0", Zeros(z - 1)) + Pad('0', carry) + cut;
    assert text == base + (Pointed("0", Zeros(z - 1)) + (Pad('0', carry) + cut));
    assert text[..|base| + 1 + (1 + d)] == text;
  }

  lemma PaddedCutAtPoint(base: string, digits: string, d: nat)
    requires AllDigits(digits) && d < |digits|
    ensures var (carry, cut) := Cut(digits[..d], digits[d]);
            (base + "0" + Pad('.', carry) + cut)[..|base| + 1 + if d == 0 then 0 else 1 + d] == base + PaddedText(0, digits, d)
  {
    hide FormatPointed, Cut;
    var (carry, cut) := Cut(digits[..d], digits[d]);
    if carry {
      assert base + "0" + Pad('.', carry) + cut == base + ("0" + ("1" + cut));
      assert (base + ("0" + ("1" + cut)))[..|base| + 1] == base + "0";
    } else {
      CutBehindPoint(digits, d);
      assert Zeros(0) + digits == digits;
      assert base + "0" + Pad('.', carry) + cut == base + Pointed("0", cut);
      assert (base + Pointed("0", cut))[..|base| + 1] == base + "0";
    }
  }

  // ---------- finding the parts of the literal ----------

  /** The point and the exponent mark are where the C code's searches find them. */
  lemma PartsOfBody(lit: Literal)
    requires lit.Valid()
    ensures var s := lit.Body() + lit.Tail();
            && (forall j :: 0 <= j < |lit.Body()| ==> s[j] != 'e' && s[j] != 'E')
            && (lit.exponent.Some? ==> s[|lit.Body()|] == lit.exponent.value.mark)
            && (forall j :: |lit.Body()| < j < |s| ==> s[j] != 'e' && s[j] != 'E')
            && (forall j :: 0 <= j < |s| ==> (s[j] == DECIMAL_POINT <==> lit.point && j == |lit.whole|))
  {
  }

  /** Skips blanks and sign, in search of a digit or the point. */
  method FirstDigit(value: string, isNegative: nat) returns (src: nat)
    requires isNegative <= |value|
    ensures isNegative <= src <= |value| && SkippedOver(value, isNegative, src)
    ensures src < |value| ==> value[src] == DECIMAL_POINT || IsDigit(value[src])
  {
    src := isNegative;
    while src < |value| && value[src] != DECIMAL_POINT && !IsDigit(value[src])
      invariant isNegative <= src <= |value| && SkippedOver(value, isNegative, src)
    {
      src := src + 1;
    }
  }

  /** In a literal the search ends where its digits start. */
  lemma LiteralStarts(lit: Literal, isNegative: nat, src: nat)
    requires lit.Valid() && isNegative <= |lit.sign| && isNegative <= src <= |lit.Text()| && SkippedOver(lit.Text(), isNegative, src)
    requires src < |lit.Text()| ==> lit.Text()[src] == DECIMAL_POINT || IsDigit(lit.Text()[src])
    ensures src == |lit.lead + lit.sign| < |lit.Text()| && lit.Text()[src..] == lit.Body() + lit.Tail()
    ensures !Digitless(lit.Text())
  {
    var value, skipped, rest := lit.Text(), lit.lead + lit.sign, lit.Body() + lit.Tail();
    assert value[|skipped|] == rest[0] == lit.Body()[0];
    assert IsDigit(lit.Body()[0]) || lit.Body()[0] == DECIMAL_POINT;
    assert forall i :: 0 <= i < |skipped| ==> value[i] == skipped[i];
    assert forall i :: 0 <= i < |skipped| ==> skipped[i] != DECIMAL_POINT && !IsDigit(skipped[i]);
    Behind(skipped, rest);
  }

  lemma Behind(a: string, b: string)
    ensures (a + b)[|a|..] == b
  {
  }

  /** atoi on the exponent. */
  method Atoi(s: string, ghost e: Exponent) returns (n: int)
    requires s == e.sign + e.digits && AllDigits(e.digits) && e.digits != ""
    requires e.sign == "" || e.sign == "+" || e.sign == "-"
    ensures n == if e.sign == "-" then -(Value(e.digits) as int) else Value(e.digits)
  {
    var i, negative := 0, false;
    if s[0] == '-' || s[0] == '+' {
      negative := s[0] == '-';
      i := 1;
    }
    assert s[i..] == e.digits;
    n := DigitsOf(s[i..]);
    if negative {
      n := -n;
    }
  }

  /** The digit loop of atoi. */
  method DigitsOf(s: string) returns (n: nat)
    requires AllDigits(s)
    ensures n == Value(s)
  {
    n := 0;
    var i := 0;
    assert s[..0] == "";
    while i < |s| && IsDigit(s[i])
      invariant i <= |s| && n == Value(s[..i])
    {
      assert s[..i + 1] == s[..i] + [s[i]];
      ValueAppend(s[..i], s[i]);
      n := 10 * n + DigitOf(s[i]);
      i := i + 1;
    }
    assert s[..i] == s;
  }

  // ---------- adjustDecimalPrecision ----------

  /** The text with its zeros appended, and a terminator, fits the buffer. */
  predicate Fits(lit: Literal)
    requires lit.Valid()
  {
    lit.Power() > 0 && !lit.point ==> (if lit.IsNegative() then 2 else 1) + |lit.whole| + lit.Power() < BUFFER_SIZE
  }

  /** adjustDecimalPrecision. The parse result is std::stold's: it accepted the decimal literal lit, or an infinity. */
  method AdjustDecimalPrecision(value: string, parsed: StoldResult, d: nat, ghost lit: Literal) returns (res: Adjusted)
    requires lit.Valid() && d <= MAXIMUM_PRECISION
    requires parsed.Parsed? ==> parsed.index <= |value|
    requires parsed.Parsed? && parsed.index == |value| && !Digitless(value) ==> value == lit.Text() && parsed.negative == lit.IsNegative()
    requires parsed.Parsed? && parsed.negative ==> value != ""
    ensures if |value| > MAX_DECIMAL_STRLEN || parsed.Threw? || parsed.index < |value| then res == Text(value)
            else if Digitless(value) then res == PastTheEnd
            else if LeftAlone(lit, d) then res == Text(value)
            else if !Fits(lit) then res == OutsideBuffer
            else res.Text? && (IsAdjusted(res.text, lit, d) <==> !CarriesIntoPoint(lit, d) && !Vanishes(lit, d))
    ensures |value| <= MAX_DECIMAL_STRLEN && parsed.Parsed? && parsed.index == |value| && !Digitless(value) && res == Text(value) ==>
              NeedsNoRounding(lit, d) || Abs(lit.Power()) > MAXIMUM_PRECISION
    ensures res == OutsideBuffer ==> !lit.point && |if lit.IsNegative() then "-" else ""| + 1 + |lit.whole| + lit.Power() >= 50
    ensures !Digitless(value) && (Abs(lit.Power()) > MAXIMUM_PRECISION || (lit.exponent.None? && NeedsNoRounding(lit, d))) ==>
              res == Text(value)
  {
    hide Settled;
    if |value| > MAX_DECIMAL_STRLEN || parsed.Threw? || parsed.index < |value| {
      return Text(value);
    }
    var isNegative := if parsed.negative then 1 else 0;
    var src := FirstDigit(value, isNegative);
    if src == |value| {
      if !Digitless(value) {
        LiteralStarts(lit, isNegative, src);
      }
      return PastTheEnd;
    }
    LiteralStarts(lit, isNegative, src);
    res := AdjustFrom(value, value[src..], isNegative, d, lit);
    if res == Text(value) && !LeftAlone(lit, d) {
      WrittenLiteral(lit, d);
    }
  }

  /** The rest, from the first digit or the point on. */
  method AdjustFrom(value: string, body: string, isNegative: nat, d: nat, ghost lit: Literal) returns (res: Adjusted)
    requires lit.Valid() && d <= MAXIMUM_PRECISION && |value| <= MAX_DECIMAL_STRLEN
    requires body == lit.Body() + lit.Tail() && |body| <= |value| && isNegative == if lit.IsNegative() then 1 else 0
    ensures if LeftAlone(lit, d) then res == Text(value)
            else if !Fits(lit) then res == OutsideBuffer
            else res.Text? && Settled(res.text, d) && (IsAdjusted(res.text, lit, d) <==> !CarriesIntoPoint(lit, d) && !Vanishes(lit, d))
  {
    hide Settled, IsAdjusted, CarriesIntoPoint, Vanishes, Value, Literal.Tail, IsRounded, Read;
    var exp, pt := FindParts(body, lit);
    if exp == |body| {
      if pt == |body| {
        return Text(value);
      }
      var numDecimals := |body| - pt - 1;
      if numDecimals <= d {
        return Text(value);
      }
      var out := CutAsWritten(body, true, pt, isNegative, d, lit.whole, lit.decimals);
      AsWrittenIs(out, lit, d);
      res := Text(out);
    } else {
      var power := Atoi(body[exp + 1..], lit.exponent.value);
      if Abs(power) > MAXIMUM_PRECISION {
        return Text(value);
      }
      res := AdjustScientific(body[..exp], pt < |body|, pt, power, isNegative, d, value, lit);
    }
  }

  /** The searches for the exponent mark and the point. */
  method FindParts(body: string, ghost lit: Literal) returns (exp: nat, pt: nat)
    requires lit.Valid() && body == lit.Body() + lit.Tail()
    ensures exp == |lit.Body()| <= |body| && body[..exp] == lit.Body() && pt == (if lit.point then |lit.whole| else |body|)
    ensures |lit.Body()| == |lit.whole| + (if lit.point then 1 + |lit.decimals| else 0)
    ensures lit.point ==> lit.Body() == Pointed(lit.whole, lit.decimals)
    ensures exp == |body| <==> lit.exponent.None?
    ensures lit.exponent.None? ==> body == lit.Body()
    ensures lit.exponent.Some? ==> body[exp + 1..] == lit.exponent.value.sign + lit.exponent.value.digits
  {
    PartsOfBody(lit);
    Behind(lit.Body(), lit.Tail());
    assert body[..|lit.Body()|] == lit.Body();
    exp := StrChr(body, 'E');
    if exp == |body| {
      exp := StrChr(body, 'e');
    }
    assert lit.point ==> body[|lit.whole|] == DECIMAL_POINT;
    pt := StrChr(body, DECIMAL_POINT);
    if lit.exponent.Some? {
      BehindMark(lit.Body(), lit.exponent.value.mark, lit.exponent.value.sign + lit.exponent.value.digits);
    }
  }

  lemma BehindMark(a: string, mark: char, b: string)
    ensures (a + ([mark] + b))[|a| + 1..] == b
  {
  }

  lemma ReadsAdjusted(out: string, lit: Literal, d: nat, n: nat, m: nat)
    requires lit.Valid() && ReadsRounded(out, lit.IsNegative(), n, m, d)
    requires RoundedTo(n, m, d) == RoundedTo(lit.Mantissa(), |lit.decimals| - lit.Power(), d)
    ensures IsAdjusted(out, lit, d)
  {
    hide Read, RoundedTo;
  }

  lemma AsWrittenIs(out: string, lit: Literal, d: nat)
    requires lit.Valid() && lit.Power() == 0
    requires if NothingLeft(lit.whole, lit.decimals, d) then Read(out) == None && IsBlank(out)
             else ReadsRounded(out, lit.IsNegative(), lit.Mantissa(), |lit.decimals|, d)
    ensures Settled(out, d)
    ensures IsAdjusted(out, lit, d) <==> !CarriesIntoPoint(lit, d) && !Vanishes(lit, d)
  {
    hide Read, RoundedTo, ReadsRounded, Settled, IsBlank;
    if NothingLeft(lit.whole, lit.decimals, d) {
      BlankIsSettled(out, d);
    } else {
      RoundedIsSettled(out, lit.IsNegative(), lit.Mantissa(), |lit.decimals|, d);
      ReadsAdjusted(out, lit, d, lit.Mantissa(), |lit.decimals|);
    }
  }

  /** Appending the zeros is the same as moving the point. */
  lemma AppendedValue(lit: Literal, d: nat)
    requires lit.Valid() && !lit.point && lit.Power() > 0
    ensures RoundedTo(Value(lit.whole + Zeros(lit.Power())), 0, d) == RoundedTo(lit.Mantissa(), |lit.decimals| - lit.Power(), d)
  {
    var p: nat := lit.Power();
    assert lit.whole + lit.decimals == lit.whole;
    ValueConcat(lit.whole, Zeros(p));
    ValueZeros(p);
    Pow10Add(p, d);
    MulAssociates(lit.Mantissa(), Pow10(p), Pow10(d));
  }

  lemma MulAssociates(x: nat, y: nat, z: nat)
    ensures (x * y) * z == x * (y * z)
  {
  }

  /** When the carry falls on the point the text is worth something else. */
  lemma LostIsWrong(out: string, lit: Literal, d: nat)
    requires lit.Valid() && CarriesIntoPoint(lit, d)
    requires out == Signed(lit.IsNegative(), " " + PaddedText(0, lit.whole + lit.decimals, d))
    ensures !IsAdjusted(out, lit, d)
  {
    hide PaddedText, PointLost, Read, RoundHalfUp, Value, IsNumeral;
    var digits := lit.whole + lit.decimals;
    var r := PaddedText(0, digits, d);
    LostIsLost(lit, d);
    LostValue(digits, d);
    LostRounded(digits, d);
    BlankShows(r);
    NumeralOfDigits(r);
    ReadShown(lit.IsNegative(), [' '] + r, r);
    SquareGrows(d);
  }

  lemma LostIsLost(lit: Literal, d: nat)
    requires lit.Valid() && CarriesIntoPoint(lit, d)
    ensures PointLost(0, lit.whole + lit.decimals, d)
    ensures RoundedTo(lit.Mantissa(), |lit.decimals| - lit.Power(), d)
         == RoundHalfUp(Value(lit.whole + lit.decimals), |lit.whole + lit.decimals| - d)
  {
    hide Cut, RoundHalfUp;
  }

  lemma NumeralOfDigits(r: string)
    requires AllDigits(r) && r != ""
    ensures IsNumeral(r) && WholePart(r) + DecimalPart(r) == r && |DecimalPart(r)| == 0
  {
    PartsOfWhole(r);
    assert r + "" == r;
  }

  lemma SquareGrows(d: nat)
    ensures d > 0 ==> Pow10(d) * Pow10(d) > Pow10(d)
    ensures 0 * Pow10(d) == 0
  {
    if d > 0 {
      assert Pow10(d) == 10 * Pow10(d - 1);
      MulGap(1, Pow10(d), Pow10(d));
    }
  }

  /** The digits written are 0, or 01 and d zeros. */
  lemma LostValue(digits: string, d: nat)
    requires AllDigits(digits) && PointLost(0, digits, d)
    ensures var r := PaddedText(0, digits, d);
            AllDigits(r) && r != "" && Value(r) == if d == 0 then 0 else Pow10(d)
  {
    var cut := Cut(digits[..d], digits[d]).1;
    BumpAddsOne(digits[..d]);
    ValueBound(digits[..d]);
    assert Value(cut) == 0;
    hide Cut;
    assert "0"[..0] == "" && Value("0") == 0;
    assert "1"[..0] == "" && Value("1") == 1;
    ValueConcat("1", cut);
    ValueConcat("0", "1" + cut);
  }

  /** The number rounds to one. */
  lemma LostRounded(digits: string, d: nat)
    requires AllDigits(digits) && PointLost(0, digits, d)
    ensures RoundHalfUp(Value(digits), |digits| - d) == Pow10(d)
  {
    hide Value, RoundHalfUp, Pow10, Bump;
    var high, low := digits[..d], digits[d + 1..];
    assert digits == (high + [digits[d]]) + low;
    RoundedValue(high, digits[d], low);
    CutCarries(high, digits[d]);
    BumpAddsOne(high);
    ValueBound(high);
  }

  lemma CutCarries(kept: string, next: char)
    requires AllDigits(kept)
    ensures Cut(kept, next).0 ==> next >= '5' && Bump(kept).0
  {
  }

  /** The branches for a literal with an exponent. */
  method AdjustScientific(body: string, hasPoint: bool, pt: nat, power: int, isNegative: nat, d: nat, value: string, ghost lit: Literal)
    returns (res: Adjusted)
    requires lit.Valid() && d <= MAXIMUM_PRECISION && lit.exponent.Some?
    requires body == lit.Body() && hasPoint == lit.point && (hasPoint ==> pt == |lit.whole|)
    requires power == lit.Power() && Abs(power) <= MAXIMUM_PRECISION
    requires isNegative == if lit.IsNegative() then 1 else 0
    requires |body| <= MAX_DECIMAL_STRLEN
    ensures if LeftAlone(lit, d) then res == Text(value)
            else if !Fits(lit) then res == OutsideBuffer
            else res.Text? && Settled(res.text, d) && (IsAdjusted(res.text, lit, d) <==> !CarriesIntoPoint(lit, d) && !Vanishes(lit, d))
  {
    hide Settled, IsAdjusted, ReadsRounded, Read, Value, RoundedTo;
    var out;
    if power == 0 {
      out := CutAsWritten(body, hasPoint, pt, isNegative, d, lit.whole, lit.decimals);
      AsWrittenIs(out, lit, d);
    } else {
      var oldpos := if hasPoint then pt else |body|;
      var numDecimals := if hasPoint then |body| - pt - 1 else 0;
      if hasPoint && power > 0 && numDecimals <= power {
        return Text(value);
      }
      var newpos := oldpos + power;
      if power > 0 && numDecimals == 0 {
        if isNegative + 1 + |body| + power >= BUFFER_SIZE {
          return OutsideBuffer;
        }
        out := AppendZeros(body, power, isNegative, d, lit);
        AppendedValue(lit, d);
        ReadsAdjusted(out, lit, d, Value(lit.whole + Zeros(power)), 0);
        RoundedIsSettled(out, isNegative == 1, Value(lit.whole + Zeros(power)), 0, d);
      } else if power < 0 && newpos <= 0 {
        out := PadZeros(body, -newpos, isNegative, d, lit);
        if PointLost(-newpos, lit.whole + lit.decimals, d) {
          LostIsWrong(out, lit, d);
          LostIsSettled(out, lit, d);
        } else {
          RoundedIsSettled(out, isNegative == 1, lit.Mantissa(), -newpos + |lit.whole + lit.decimals|, d);
          ReadsAdjusted(out, lit, d, lit.Mantissa(), -newpos + |lit.whole + lit.decimals|);
        }
      } else {
        out := MovePoint(body, newpos, isNegative, d, lit);
        RoundedIsSettled(out, isNegative == 1, lit.Mantissa(), |lit.whole + lit.decimals| - newpos, d);
        ReadsAdjusted(out, lit, d, lit.Mantissa(), |lit.whole + lit.decimals| - newpos);
      }
    }
    res := Text(out);
  }

  // ---------- literals that go wrong ----------

  /** 9.9e-1 at one decimal becomes " 010". */
  lemma CarryOntoPoint()
    ensures var lit := Literal("", "", "9", true, "9", Some(Exponent('e', "-", "1")));
            && lit.Valid() && lit.Text() == "9.9e-1" && CarriesIntoPoint(lit, 1) && !LeftAlone(lit, 1)
            && Signed(false, " " + PaddedText(0, "99", 1)) == " 010" && !IsAdjusted(" 010", lit, 1)
  {
    var lit := Literal("", "", "9", true, "9", Some(Exponent('e', "-", "1")));
    OneDigit();
    assert "9" + "9" == "99" && "99"[..1] == "9" && "" + "1" == "1" && "-" + "1" == "-1";
    assert Pointed("9", "9") == "9.9" && ['e'] + "-1" == "e-1" && "9.9" + "e-1" == "9.9e-1" && "" + "9.9e-1" == "9.9e-1";
    assert " " + ("0" + ("1" + "0")) == " 010";
    LostIsWrong(" 010", lit, 1);
  }

  lemma OneDigit()
    ensures Value("1") == 1 && Value("9") == 9 && Bump("9") == (true, "0") && Cut("9", '9') == (true, "0")
  {
    assert Value("") == 0 && "1"[..0] == "" && "9"[..0] == "";
    assert Bump("") == (true, "") && "" + "0" == "0";
  }

  /** .4 at no decimals leaves a blank. */
  lemma NothingIsLeft()
    ensures var lit := Literal("", "", "", true, "4", None);
            lit.Valid() && lit.Text() == ".4" && Vanishes(lit, 0) && !LeftAlone(lit, 0) && !IsAdjusted(" ", lit, 0)
  {
    assert Pointed("", "4") == ".4" && "" + "4" == "4";
  }

  /** 39 digits and e38 write zeros outside the buffer; inf is searched past its end. */
  lemma OutOfBounds()
    ensures var lit := Literal("", "", Zeros(39), false, "", Some(Exponent('e', "", "38")));
            lit.Valid() && |lit.Text()| <= MAX_DECIMAL_STRLEN && !LeftAlone(lit, 0) && !Fits(lit)
    ensures Digitless("inf") && Digitless("-infinity")
  {
    var lit := Literal("", "", Zeros(39), false, "", Some(Exponent('e', "", "38")));
    assert "38"[..1] == "3" && "3"[..0] == "" && Value("3") == 3 && Value("38") == 38;
  }
}
