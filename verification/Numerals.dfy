/**
 Decimal numerals: what a string of digits with at most one decimal point is worth,
 and what rounding such a number half away from zero means.
 Numbers are kept exact, as a mantissa and a number of decimals.
 */
module Numerals {
  import opened Quotients
  import opened Wrappers

  const DECIMAL_POINT := '.'

  predicate IsDigit(c: char) {
    '0' <= c <= '9'
  }

  function DigitOf(c: char): (n: nat)
    requires IsDigit(c)
    ensures n <= 9
  {
    c as int - '0' as int
  }

  predicate AllDigits(s: string) {
    forall i :: 0 <= i < |s| ==> IsDigit(s[i])
  }

  /** The digits of s read as one number. */
  function Value(s: string): nat
    requires AllDigits(s)
  {
    if s == [] then 0 else 10 * Value(s[..|s| - 1]) + DigitOf(s[|s| - 1])
  }

  function Pow10(e: nat): (p: nat)
    ensures p > 0
  {
    if e == 0 then 1 else 10 * Pow10(e - 1)
  }

  lemma MulTen(x: nat, y: nat)
    ensures x * (10 * y) == 10 * (x * y)
  {
  }

  lemma {:induction false} ValueConcat(a: string, b: string)
    requires AllDigits(a) && AllDigits(b)
    ensures AllDigits(a + b)
    ensures Value(a + b) == Value(a) * Pow10(|b|) + Value(b)
  {
    if b == [] {
      assert a + b == a;
    } else {
      var c := b[..|b| - 1];
      assert (a + b)[..|a + b| - 1] == a + c;
      ValueConcat(a, c);
      MulTen(Value(a), Pow10(|c|));
    }
  }

  lemma {:induction false} ValueBound(s: string)
    requires AllDigits(s)
    ensures Value(s) < Pow10(|s|)
  {
    if s != [] {
      ValueBound(s[..|s| - 1]);
    }
  }

  function Zeros(n: nat): (s: string)
    ensures |s| == n && AllDigits(s)
    ensures forall i :: 0 <= i < n ==> s[i] == '0'
  {
    seq(n, _ => '0')
  }

  lemma {:induction false} ValueZeros(n: nat)
    ensures Value(Zeros(n)) == 0
  {
    if n > 0 {
      assert Zeros(n)[..n - 1] == Zeros(n - 1);
      ValueZeros(n - 1);
    }
  }

  /** Index of the first point at or after i, or |s|. */
  function PointFrom(s: string, i: nat): (p: nat)
    requires i <= |s|
    ensures i <= p <= |s|
    ensures p < |s| ==> s[p] == DECIMAL_POINT
    ensures forall j :: i <= j < p ==> s[j] != DECIMAL_POINT
    decreases |s| - i
  {
    if i == |s| || s[i] == DECIMAL_POINT then i else PointFrom(s, i + 1)
  }

  /** Index of the first point, or |s|. */
  function PointAt(s: string): nat {
    PointFrom(s, 0)
  }

  function WholePart(s: string): string {
    s[..PointAt(s)]
  }

  function DecimalPart(s: string): string {
    if PointAt(s) < |s| then s[PointAt(s) + 1..] else ""
  }

  /** A digit somewhere, at most one point, nothing else. */
  predicate IsNumeral(s: string) {
    AllDigits(WholePart(s)) && AllDigits(DecimalPart(s)) && WholePart(s) + DecimalPart(s) != ""
  }

  /** The numeral with these digits before and after the point. */
  function Pointed(whole: string, decimals: string): string {
    whole + [DECIMAL_POINT] + decimals
  }

  lemma PartsOfPointed(whole: string, decimals: string)
    requires AllDigits(whole)
    ensures PointAt(Pointed(whole, decimals)) == |whole|
    ensures WholePart(Pointed(whole, decimals)) == whole
    ensures DecimalPart(Pointed(whole, decimals)) == decimals
  {
    var s := Pointed(whole, decimals);
    assert s[|whole|] == DECIMAL_POINT;
    assert !(PointAt(s) < |whole|) by {
      assert forall i :: 0 <= i < |whole| ==> s[i] == whole[i];
    }
    assert !(PointAt(s) > |whole|);
  }

  lemma PartsOfWhole(whole: string)
    requires AllDigits(whole)
    ensures PointAt(whole) == |whole| && WholePart(whole) == whole && DecimalPart(whole) == ""
  {
  }

  /** The number mantissa / 10^decimals, with its sign kept apart. */
  datatype Number = Number(negative: bool, mantissa: nat, decimals: nat) {
    /** The number times 10^p, an integer when p leaves no decimal over. */
    function Scaled(p: nat): int
      requires decimals <= p
    {
      var m := mantissa * Pow10(p - decimals);
      if negative then -m else m
    }
  }

  function SkipBlanks(s: string): string {
    if s != [] && s[0] == ' ' then SkipBlanks(s[1..]) else s
  }

  /** Reads an optional minus, pad blanks and a numeral. */
  function Read(s: string): Option<Number> {
    var negative := s != [] && s[0] == '-';
    var body := SkipBlanks(if negative then s[1..] else s);
    if IsNumeral(body) then
      Some(Number(negative, Value(WholePart(body) + DecimalPart(body)), |DecimalPart(body)|))
    else None
  }

  /** n / 10^k rounded to an integer, ties upwards. */
  function RoundHalfUp(n: nat, k: nat): nat
    requires k > 0
  {
    Quotient(n + 5 * Pow10(k - 1), Pow10(k))
  }

  /** The mantissa at p decimals of mantissa / 10^decimals rounded half away from zero;
      decimals may be negative, as it is for 12e5. */
  function RoundedTo(mantissa: nat, decimals: int, p: nat): nat {
    if decimals <= p then mantissa * Pow10(p - decimals)
    else RoundHalfUp(mantissa, decimals - p)
  }

  /** RoundHalfUp is the only integer within half a unit of n / 10^k, with ties going away from zero. */
  lemma RoundHalfUpIsNearest(n: nat, k: nat, r: nat)
    requires k > 0
    ensures r == RoundHalfUp(n, k) <==> 2 * (r * Pow10(k)) - Pow10(k) <= 2 * n < 2 * (r * Pow10(k)) + Pow10(k)
  {
    hide Quotient;
    assert Pow10(k) == 10 * Pow10(k - 1);
    QuotientBounds(n + 5 * Pow10(k - 1), Pow10(k));
    var q := RoundHalfUp(n, k);
    if r < q {
      MulGap(r, q, Pow10(k));
    } else if r > q {
      MulGap(q, r, Pow10(k));
    }
  }

  /** Looking only at the first digit dropped rounds the whole of the number. */
  lemma RoundHalfUpByNextDigit(high: nat, next: nat, low: nat, k: nat)
    requires next <= 9 && low < Pow10(k)
    ensures RoundHalfUp((high * 10 + next) * Pow10(k) + low, k + 1) == high + (if next >= 5 then 1 else 0)
  {
    hide RoundHalfUp;
    var r := high + (if next >= 5 then 1 else 0);
    WithinHalfUnit(high, next, low, Pow10(k), r, Pow10(k + 1));
    RoundHalfUpIsNearest((high * 10 + next) * Pow10(k) + low, k + 1, r);
  }

  lemma WithinHalfUnit(high: nat, next: nat, low: nat, u: nat, r: nat, unit: nat)
    requires next <= 9 && low < u && r == high + (if next >= 5 then 1 else 0) && unit == 10 * u
    ensures var n := (high * 10 + next) * u + low;
            2 * (r * unit) - unit <= 2 * n < 2 * (r * unit) + unit
  {
    Distribute(high, next, u);
    MulTen(high, u);
    MulTen(r, u);
    assert (high + 1) * u == high * u + u;
    SmallProduct(next, u);
  }

  lemma Distribute(high: nat, next: nat, u: nat)
    ensures (high * 10 + next) * u == 10 * (high * u) + next * u
  {
  }

  lemma SmallProduct(next: nat, u: nat)
    requires next <= 9
    ensures next * u <= 9 * u
    ensures next >= 5 ==> next * u >= 5 * u
    ensures next < 5 ==> next * u <= 4 * u
  {
  }

  // ---------- adding one in the last place ----------

  /** Digits and points only. */
  predicate Numeric(s: string) {
    forall i :: 0 <= i < |s| ==> IsDigit(s[i]) || s[i] == DECIMAL_POINT
  }

  /** Adds one unit in the last place, carrying over nines and stepping over points;
      true means the carry ran off the front. */
  function Bump(s: string): (r: (bool, string))
    requires Numeric(s)
    ensures |r.1| == |s| && Numeric(r.1)
    ensures AllDigits(s) ==> AllDigits(r.1)
  {
    if s == [] then (true, [])
    else
      var front, last := s[..|s| - 1], s[|s| - 1];
      if last == DECIMAL_POINT then
        var (carry, t) := Bump(front);
        (carry, t + [last])
      else if last == '9' then
        var (carry, t) := Bump(front);
        (carry, t + ['0'])
      else
        (false, front + [(last as int + 1) as char])
  }

  lemma {:induction false} BumpAddsOne(s: string)
    requires AllDigits(s)
    ensures Value(Bump(s).1) + (if Bump(s).0 then Pow10(|s|) else 0) == Value(s) + 1
  {
    if s != [] {
      var front, last := s[..|s| - 1], s[|s| - 1];
      BumpAddsOne(front);
      var t := Bump(s).1;
      assert last == '9' ==> t[..|t| - 1] == Bump(front).1;
      assert last != '9' ==> t[..|t| - 1] == front;
    }
  }

  /** Bumping a concatenation bumps the right part and hands its carry to the left part. */
  lemma {:induction false} BumpConcat(a: string, b: string)
    requires Numeric(a) && Numeric(b)
    ensures Numeric(a + b)
    ensures Bump(a + b) == if Bump(b).0 then (Bump(a).0, Bump(a).1 + Bump(b).1) else (false, a + Bump(b).1)
  {
    if b == [] {
      assert a + b == a;
      assert Bump(a).1 + Bump(b).1 == Bump(a).1;
    } else {
      var front, last := b[..|b| - 1], b[|b| - 1];
      assert (a + b)[..|a + b| - 1] == a + front;
      BumpConcat(a, front);
      if last == DECIMAL_POINT || last == '9' {
        var d := if last == '9' then '0' else last;
        assert Bump(b).1 == Bump(front).1 + [d];
        assert a + (Bump(front).1 + [d]) == (a + Bump(front).1) + [d];
        assert Bump(a).1 + (Bump(front).1 + [d]) == (Bump(a).1 + Bump(front).1) + [d];
      } else {
        var d := (last as int + 1) as char;
        assert a + (front + [d]) == (a + front) + [d];
      }
    }
  }

  /** A point in the middle takes no part in the carry. */
  lemma BumpAcrossPoint(whole: string, decimals: string)
    requires AllDigits(whole) && AllDigits(decimals)
    ensures Numeric(Pointed(whole, decimals))
    ensures var (carry, t) := Bump(whole + decimals);
            Bump(Pointed(whole, decimals)) == (carry, Pointed(t[..|whole|], t[|whole|..]))
  {
    hide Bump, Pointed;
    var point := [DECIMAL_POINT];
    var (carry, t) := Bump(decimals);
    BumpPoint(decimals);
    BumpConcat(whole, decimals);
    BumpConcat(whole, point + decimals);
    var left := if carry then Bump(whole).1 else whole;
    InFront(whole, decimals);
    InFront(left, t);
    Apart(left, t);
  }

  lemma InFront(whole: string, decimals: string)
    ensures whole + ([DECIMAL_POINT] + decimals) == Pointed(whole, decimals)
  {
  }

  lemma Apart(left: string, right: string)
    ensures (left + right)[..|left|] == left && (left + right)[|left|..] == right
  {
  }

  lemma BumpPoint(decimals: string)
    requires AllDigits(decimals)
    ensures Numeric([DECIMAL_POINT] + decimals)
    ensures Bump([DECIMAL_POINT] + decimals) == (Bump(decimals).0, [DECIMAL_POINT] + Bump(decimals).1)
  {
    BumpOnlyPoint();
    BumpConcat([DECIMAL_POINT], decimals);
  }

  lemma BumpOnlyPoint()
    ensures Numeric([DECIMAL_POINT]) && Bump([DECIMAL_POINT]) == (true, [DECIMAL_POINT])
  {
    var point: string := [DECIMAL_POINT];
    assert point[..|point| - 1] == [];
    assert Bump([]) == (true, []);
    assert [] + [point[0]] == point;
  }

  // ---------- rounding the digits of a numeral ----------

  /** The kept digits once the digit next to them has been dropped and rounded away. */
  function Cut(kept: string, next: char): (r: (bool, string))
    requires Numeric(kept)
    ensures |r.1| == |kept| && Numeric(r.1)
    ensures AllDigits(kept) ==> AllDigits(r.1)
  {
    if next >= '5' then Bump(kept) else (false, kept)
  }

  /** The digits left of a dropped digit, with the carry written out. */
  function Rounded(high: string, next: char): (r: string)
    requires AllDigits(high)
    ensures AllDigits(r) && |high| <= |r| <= |high| + 1
  {
    var (carry, kept) := Cut(high, next);
    if carry then "1" + kept else kept
  }

  lemma RoundedRounds(high: string, next: char, low: string)
    requires AllDigits(high) && IsDigit(next) && AllDigits(low)
    ensures AllDigits(high + [next] + low)
    ensures Value(Rounded(high, next)) == RoundHalfUp(Value((high + [next]) + low), |low| + 1)
  {
    var (carry, kept) := Cut(high, next);
    BumpAddsOne(high);
    RoundedValue(high, next, low);
    if carry {
      assert "1"[..0] == "";
      assert Value("1") == 1;
      ValueConcat("1", kept);
    }
  }

  /** The digits before and after the point of whole.decimals cut down to d decimals. */
  function RoundParts(whole: string, decimals: string, d: nat): (r: (string, string))
    requires AllDigits(whole) && AllDigits(decimals) && d < |decimals|
    ensures AllDigits(r.0) && AllDigits(r.1) && |r.1| == d
    ensures |whole| <= |r.0| <= |whole| + 1
  {
    var digits := Rounded(whole + decimals[..d], decimals[d]);
    (digits[..|digits| - d], digits[|digits| - d..])
  }

  /** The kept digits are the number rounded half away from zero to d decimals. */
  lemma RoundPartsRounds(whole: string, decimals: string, d: nat)
    requires AllDigits(whole) && AllDigits(decimals) && d < |decimals|
    ensures var (w, f) := RoundParts(whole, decimals, d);
            Value(w + f) == RoundHalfUp(Value(whole + decimals), |decimals| - d)
  {
    var high, next, low := whole + decimals[..d], decimals[d], decimals[d + 1..];
    SplitAtDigit(whole, decimals, d);
    RoundedRounds(high, next, low);
    Rejoin(Rounded(high, next), d);
  }

  lemma SplitAtDigit(whole: string, decimals: string, d: nat)
    requires d < |decimals|
    ensures whole + decimals == (whole + decimals[..d]) + [decimals[d]] + decimals[d + 1..]
  {
  }

  lemma Rejoin(digits: string, d: nat)
    requires d <= |digits|
    ensures digits[..|digits| - d] + digits[|digits| - d..] == digits
  {
  }

  lemma ValueAppend(high: string, next: char)
    requires AllDigits(high) && IsDigit(next)
    ensures AllDigits(high + [next])
    ensures Value(high + [next]) == Value(high) * 10 + DigitOf(next)
  {
    assert (high + [next])[..|high|] == high;
  }

  lemma RoundedValue(high: string, next: char, low: string)
    requires AllDigits(high) && IsDigit(next) && AllDigits(low)
    ensures AllDigits(high + [next] + low)
    ensures RoundHalfUp(Value((high + [next]) + low), |low| + 1) == Value(high) + (if next >= '5' then 1 else 0)
  {
    hide RoundHalfUp, Value;
    var h := high + [next];
    ValueAppend(high, next);
    ValueConcat(h, low);
    ValueBound(low);
    RoundHalfUpByNextDigit(Value(high), DigitOf(next), Value(low), |low|);
  }
}

/** Quotients and products, for rounding. */
module Quotients {
  /** Integer quotient, by repeated subtraction. */
  function Quotient(a: nat, b: nat): nat
    requires b > 0
  {
    if a < b then 0 else 1 + Quotient(a - b, b)
  }

  lemma {:induction false} QuotientBounds(a: nat, b: nat)
    requires b > 0
    ensures Quotient(a, b) * b <= a < Quotient(a, b) * b + b
  {
    if a >= b {
      QuotientBounds(a - b, b);
    }
  }

  lemma {:induction false} MulGap(a: nat, b: nat, unit: nat)
    requires a < b
    ensures a * unit + unit <= b * unit
    decreases b
  {
    if a + 1 < b {
      MulGap(a, b - 1, unit);
      assert b * unit == (b - 1) * unit + unit;
    }
  }
}
