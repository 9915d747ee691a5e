/**
 Formatting of fetched decimals (core_stmt.cpp): rounding with carry, in place on a char buffer.
 */
module DecimalFormat {
  import opened Wrappers
  import opened Numerals

  const NO_CHANGE_DECIMAL_PLACES := -1
  const BUFFER_SIZE := 50

  // ---------- specification ----------

  function Unsigned(s: string): string {
    if s != [] && s[0] == '-' then s[1..] else s
  }

  /** An optional minus and a numeral. */
  predicate IsDecimalText(s: string) {
    IsNumeral(Unsigned(s))
  }

  /** The number of decimals to round to; None leaves them alone. */
  function WantedScale(places: int, fieldScale: nat): Option<nat>
    requires places >= NO_CHANGE_DECIMAL_PLACES
  {
    if places == NO_CHANGE_DECIMAL_PLACES then None
    else Some(if places > fieldScale then fieldScale else places)
  }

  /** The numeral whole.decimals cut to the scale wanted. */
  function FormatPointed(whole: string, decimals: string, scale: Option<nat>): string
    requires AllDigits(whole) && AllDigits(decimals)
  {
    if scale.None? || |decimals| <= scale.value then Pointed(whole, decimals)
    else
      var (w, f) := RoundParts(whole, decimals, scale.value);
      if scale.value == 0 then w else Pointed(w, f)
  }

  /** The digits before the point, a zero if there are none. */
  function LeadingPart(b: string): (r: string)
    requires AllDigits(WholePart(b))
    ensures AllDigits(r) && r != ""
  {
    if WholePart(b) == "" then "0" else WholePart(b)
  }

  function FormatBody(b: string, scale: Option<nat>): string
    requires IsNumeral(b)
  {
    if PointAt(b) == |b| then b else FormatPointed(LeadingPart(b), DecimalPart(b), scale)
  }

  /** What formatting makes of a decimal text. */
  function FormatText(s: string, scale: Option<nat>): string
    requires IsDecimalText(s)
  {
    (if s != [] && s[0] == '-' then "-" else "") + FormatBody(Unsigned(s), scale)
  }

  lemma ReadDecimalText(s: string)
    requires IsDecimalText(s)
    ensures Read(s) == Some(Number(s[0] == '-', Value(WholePart(Unsigned(s)) + DecimalPart(Unsigned(s))),
                                   |DecimalPart(Unsigned(s))|))
  {
    var body := Unsigned(s);
    assert body[0] != ' ' by {
      if PointAt(body) > 0 {
        assert body[0] == WholePart(body)[0];
      }
    }
  }

  lemma LeadingZero(b: string)
    requires IsNumeral(b)
    ensures Value(LeadingPart(b) + DecimalPart(b)) == Value(WholePart(b) + DecimalPart(b))
  {
    var decimals := DecimalPart(b);
    if WholePart(b) == "" {
      assert "0"[..0] == "";
      assert Value("0") == 0;
      ValueConcat("0", decimals);
      assert WholePart(b) + decimals == decimals;
    }
  }

  /** The number the digits n with m decimals stand for, against digits r with k decimals:
      unchanged, or rounded half away from zero to the smaller of the requested and the field's scale. */
  predicate IsRounded(n: nat, m: nat, r: nat, k: nat, scale: Option<nat>) {
    match scale
    case None => r == n && k == m
    case Some(p) => k <= p && r * Pow10(p - k) == RoundedTo(n, m, p)
  }

  lemma FormatPointedRounds(whole: string, decimals: string, scale: Option<nat>)
    requires AllDigits(whole) && AllDigits(decimals) && whole != ""
    ensures var r := FormatPointed(whole, decimals, scale);
            && IsNumeral(r) && WholePart(r) != "" && |r| <= |Pointed(whole, decimals)|
            && IsRounded(Value(whole + decimals), |decimals|,
                         Value(WholePart(r) + DecimalPart(r)), |DecimalPart(r)|, scale)
  {
    if scale.None? || |decimals| <= scale.value {
      UncutBody(whole, decimals, scale);
    } else {
      CutBodyRounds(whole, decimals, scale.value);
    }
  }

  lemma FormatBodyRounds(b: string, scale: Option<nat>)
    requires IsNumeral(b)
    ensures var r := FormatBody(b, scale);
            && IsNumeral(r) && WholePart(r) != "" && |r| <= |b| + 1
            && IsRounded(Value(WholePart(b) + DecimalPart(b)), |DecimalPart(b)|,
                         Value(WholePart(r) + DecimalPart(r)), |DecimalPart(r)|, scale)
  {
    if PointAt(b) < |b| {
      LeadingZero(b);
      FormatPointedRounds(LeadingPart(b), DecimalPart(b), scale);
    } else {
      UnroundedNumber(Value(WholePart(b) + DecimalPart(b)), 0, scale);
    }
  }

  lemma UnroundedNumber(n: nat, m: nat, scale: Option<nat>)
    requires scale.None? || m <= scale.value
    ensures IsRounded(n, m, n, m, scale)
  {
  }

  lemma CutNumber(n: nat, m: nat, r: nat, p: nat)
    requires p < m && r == RoundHalfUp(n, m - p)
    ensures IsRounded(n, m, r, p, Some(p))
  {
  }

  lemma UncutBody(whole: string, decimals: string, scale: Option<nat>)
    requires AllDigits(whole) && AllDigits(decimals) && whole != "" 
    requires scale.None? || |decimals| <= scale.value
    ensures var r := Pointed(whole, decimals);
            && IsNumeral(r) && WholePart(r) == whole && DecimalPart(r) == decimals
            && IsRounded(Value(whole + decimals), |decimals|, Value(whole + decimals), |decimals|, scale)
  {
    PartsOfPointed(whole, decimals);
    UnroundedNumber(Value(whole + decimals), |decimals|, scale);
  }

  lemma CutBodyRounds(whole: string, decimals: string, scale: nat)
    requires AllDigits(whole) && AllDigits(decimals) && whole != "" && scale < |decimals|
    ensures var (w, f) := RoundParts(whole, decimals, scale);
            var r := if scale == 0 then w else Pointed(w, f);
            && IsNumeral(r) && WholePart(r) == w && w != "" && |r| <= |Pointed(whole, decimals)|
            && DecimalPart(r) == f && |f| == scale
            && IsRounded(Value(whole + decimals), |decimals|, Value(w + f), scale, Some(scale))
  {
    hide RoundHalfUp, RoundParts, IsRounded, Value, PointAt, WholePart, DecimalPart;
    RoundPartsRounds(whole, decimals, scale);
    var (w, f) := RoundParts(whole, decimals, scale);
    CutNumber(Value(whole + decimals), |decimals|, Value(w + f), scale);
    if scale == 0 {
      PartsOfWhole(w);
    } else {
      PartsOfPointed(w, f);
    }
  }

  /** Formatting rounds the value, keeps the sign, puts a digit before the point and adds at most one char. */
  lemma FormatTextRounds(s: string, scale: Option<nat>)
    requires IsDecimalText(s)
    ensures var r := FormatText(s, scale);
            && IsDecimalText(r) && |r| <= |s| + 1
            && WholePart(Unsigned(r)) != ""
            && Read(s).Some? && Read(r).Some?
            && Read(r).value.negative == Read(s).value.negative
            && IsRounded(Read(s).value.mantissa, Read(s).value.decimals,
                         Read(r).value.mantissa, Read(r).value.decimals, scale)
  {
    var b := Unsigned(s);
    FormatBodyRounds(b, scale);
    var body := FormatBody(b, scale);
    var r := FormatText(s, scale);
    assert body[0] == WholePart(body)[0];
    assert Unsigned(r) == body;
    ReadDecimalText(s);
    ReadDecimalText(r);
  }

  lemma FormatBodyDecimals(b: string, scale: Option<nat>)
    requires IsNumeral(b)
    ensures var r, m := FormatBody(b, scale), |DecimalPart(b)|;
            if scale.None? || m <= scale.value
            then DecimalPart(r) == DecimalPart(b) && AllDigits(WholePart(r))
                 && Value(WholePart(r) + DecimalPart(r)) == Value(WholePart(b) + DecimalPart(b))
            else |DecimalPart(r)| == scale.value
  {
    hide RoundParts, Value, IsRounded, RoundHalfUp;
    if PointAt(b) < |b| {
      LeadingZero(b);
      if scale.None? || |DecimalPart(b)| <= scale.value {
        UncutBody(LeadingPart(b), DecimalPart(b), scale);
      } else {
        CutBodyRounds(LeadingPart(b), DecimalPart(b), scale.value);
      }
    }
  }

  /** A fetched decimal is left with the fewest decimals of its own, those asked for and those of its field, and rounded half
      away from zero to them; with none asked for it keeps its number. */
  lemma FieldIsFormatted(s: string, places: int, fieldScale: nat)
    requires IsDecimalText(s) && places >= NO_CHANGE_DECIMAL_PLACES
    ensures var r := FormatText(s, WantedScale(places, fieldScale));
            && Read(s).Some? && Read(r).Some?
            && var n, k := Read(s).value, Read(r).value;
               if places == -1 then k == n
               else
                 && k.negative == n.negative && k.mantissa == RoundedTo(n.mantissa, n.decimals, k.decimals)
                 && k.decimals <= n.decimals && k.decimals <= places && k.decimals <= fieldScale
                 && (k.decimals == n.decimals || k.decimals == places || k.decimals == fieldScale)
  {
    hide IsRounded, FormatBody, Value, RoundHalfUp;
    var scale := WantedScale(places, fieldScale);
    FormatTextRounds(s, scale);
    FormatBodyDecimals(Unsigned(s), scale);
    var r := FormatText(s, scale);
    FormatBodyRounds(Unsigned(s), scale);
    var body := FormatBody(Unsigned(s), scale);
    assert body[0] == WholePart(body)[0];
    assert Unsigned(r) == body;
    ReadDecimalText(s);
    ReadDecimalText(r);
    RoundedAtScale(Read(s).value.mantissa, Read(s).value.decimals, Read(r).value.mantissa, Read(r).value.decimals, scale);
  }

  lemma RoundedAtScale(n: nat, m: nat, r: nat, k: nat, scale: Option<nat>)
    requires IsRounded(n, m, r, k, scale) && (scale.Some? && m > scale.value ==> k == scale.value)
    requires scale.None? || m <= scale.value ==> r == n && k == m
    ensures r == RoundedTo(n, m, k)
  {
  }

  /** Formatting a formatted text again changes nothing. */
  lemma FormatTextIdempotent(s: string, scale: Option<nat>)
    requires IsDecimalText(s)
    ensures IsDecimalText(FormatText(s, scale))
    ensures FormatText(FormatText(s, scale), scale) == FormatText(s, scale)
  {
    FormatTextRounds(s, scale);
    var b := Unsigned(s);
    var body := FormatBody(b, scale);
    FormatBodyRounds(b, scale);
    assert body[0] == WholePart(body)[0];
    assert Unsigned(FormatText(s, scale)) == body;
    FormatBodyIdempotent(b, scale);
  }

  lemma FormatBodyScale(b: string, scale: Option<nat>)
    requires IsNumeral(b)
    ensures var r := FormatBody(b, scale);
            IsNumeral(r) && WholePart(r) != "" && (scale.Some? ==> |DecimalPart(r)| <= scale.value)
  {
    FormatBodyRounds(b, scale);
  }

  lemma FormatBodyIdempotent(b: string, scale: Option<nat>)
    requires IsNumeral(b)
    ensures IsNumeral(FormatBody(b, scale))
    ensures FormatBody(FormatBody(b, scale), scale) == FormatBody(b, scale)
  {
    FormatBodyScale(b, scale);
    var r := FormatBody(b, scale);
    SettledBody(r, scale);
  }

  lemma SettledBody(r: string, scale: Option<nat>)
    requires IsNumeral(r) && WholePart(r) != "" && (scale.Some? ==> |DecimalPart(r)| <= scale.value)
    ensures FormatBody(r, scale) == r
  {
    if PointAt(r) < |r| {
      PointedParts(r);
    }
  }

  // ---------- the C code ----------

  /** strchr, as an index; |s| when the char is absent. */
  method StrChr(s: string, c: char) returns (i: nat)
    ensures i <= |s|
    ensures i < |s| ==> s[i] == c
    ensures forall j :: 0 <= j < i ==> s[j] != c
  {
    i := 0;
    while i < |s| && s[i] != c
      invariant i <= |s|
      invariant forall j :: 0 <= j < i ==> s[j] != c
    {
      i := i + 1;
    }
  }

  /** Halfway through the carry loop: front is untouched, back is done, carry says whether front is still to be bumped. */
  ghost predicate Bumped(whole: string, front: string, back: string, carry: bool)
  {
    && Numeric(whole) && Numeric(front)
    && Bump(whole) == if carry then (Bump(front).0, Bump(front).1 + back) else (false, front + back)
  }

  lemma BumpStep(whole: string, front: string, c: char, back: string)
    requires Bumped(whole, front + [c], back, true)
    ensures Numeric(front) && (IsDigit(c) || c == DECIMAL_POINT)
    ensures c == DECIMAL_POINT ==> Bumped(whole, front, [c] + back, true)
    ensures c == '9' ==> Bumped(whole, front, ['0'] + back, true)
    ensures IsDigit(c) && c != '9' ==> Bumped(whole, front, [(c as int + 1) as char] + back, false)
  {
    assert (front + [c])[..|front|] == front;
    assert forall i :: 0 <= i < |front| ==> front[i] == (front + [c])[i];
    assert (front + [c])[|front|] == c;
    var d := if c == DECIMAL_POINT then c else if c == '9' then '0' else (c as int + 1) as char;
    assert Bump(front).1 + [d] + back == Bump(front).1 + ([d] + back);
    assert front + [d] + back == front + ([d] + back);
  }

  /** The carry loop of round_up_decimal_numbers, from the digit left of pos down to offset. */
  method CarryOver(buffer: array<char>, offset: nat, pos: nat) returns (carryOver: bool)
    requires offset <= pos <= buffer.Length && Numeric(buffer[offset..pos])
    modifies buffer
    ensures buffer[..offset] == old(buffer[..offset]) && buffer[pos..] == old(buffer[pos..])
    ensures buffer[offset..pos] == Bump(old(buffer[offset..pos])).1
    ensures carryOver == Bump(old(buffer[offset..pos])).0
  {
    hide Bump;
    ghost var buf, region, back := buffer[..], buffer[offset..pos], "";
    carryOver := true;
    var p: int := pos - 1;
    assert region[..p + 1 - offset] == region;
    assert Bump(region).1 + back == Bump(region).1;
    while p >= offset && carryOver
      invariant offset - 1 <= p < pos
      invariant |back| == pos - p - 1
      invariant forall i :: 0 <= i <= p || pos <= i < buffer.Length ==> buffer[i] == buf[i]
      invariant forall i :: p < i < pos ==> buffer[i] == back[i - p - 1]
      invariant Bumped(region, region[..p + 1 - offset], back, carryOver)
    {
      var c := buffer[p];
      assert region[..p + 1 - offset] == region[..p - offset] + [c];
      BumpStep(region, region[..p - offset], c, back);
      if c == DECIMAL_POINT {
      } else {
        var n := DigitOf(c);
        n := n + 1;
        carryOver := n == 10;
        if n == 10 {
          n := 0;
        }
        buffer[p] := ('0' as int + n) as char;
      }
      back := [buffer[p]] + back;
      p := p - 1;
    }
    FinishCarry(region, region[..p + 1 - offset], back, carryOver);
    assert buffer[offset..pos] == region[..p + 1 - offset] + back;
  }

  lemma FinishCarry(whole: string, front: string, back: string, carry: bool)
    requires Bumped(whole, front, back, carry) && (carry ==> front == "")
    ensures Numeric(whole) && Bump(whole) == (carry, front + back)
  {
  }

  /** The char before the numeral, once the carry is known. */
  function Pad(lead: char, carry: bool): (r: string)
    ensures |r| == 1
  {
    [if carry then '1' else lead]
  }

  /** round_up_decimal_numbers: cuts the numeral in the buffer after numDecimals decimals.
      The carry stops at offset and is then written to the char before it; kept is what the cut
      can carry into, the chars from offset up to the first digit dropped. */
  method RoundUpDecimalNumbers(buffer: array<char>, decimalPos: nat, numDecimals: nat, offset: nat, lastPos: nat,
                               ghost kept: string)
    returns (newLast: nat)
    requires 0 < offset && decimalPos < lastPos <= buffer.Length
    requires var pos := decimalPos + numDecimals + 1;
             pos < lastPos ==>
               && IsDigit(buffer[pos])
               && (if offset <= pos then kept == buffer[offset..pos] && Numeric(kept) else buffer[pos] < '5')
    modifies buffer
    ensures newLast <= lastPos
    ensures var pos := decimalPos + numDecimals + 1;
            if lastPos <= pos then newLast == lastPos && buffer[..] == old(buffer[..])
            else
              && newLast == (if numDecimals == 0 then decimalPos else pos)
              && buffer[newLast] == '\0'
              && buffer[..newLast] ==
                   if offset <= pos then
                     var (carry, cut) := Cut(kept, old(buffer[pos]));
                     (old(buffer[..offset - 1]) + Pad(old(buffer[offset - 1]), carry) + cut)[..newLast]
                   else old(buffer[..newLast])
  {
    hide Bump;
    var pos := decimalPos + numDecimals + 1;
    if pos < lastPos {
      var n := DigitOf(buffer[pos]);
      if n >= 5 {
        var carryOver := CarryOver(buffer, offset, pos);
        if carryOver {
          buffer[offset - 1] := '1';
        }
      }
      newLast := if numDecimals == 0 then decimalPos else pos;
      assert offset <= pos ==> buffer[..pos] == buffer[..offset - 1] + [buffer[offset - 1]] + buffer[offset..pos];
      assert buffer[..newLast] == buffer[..pos][..newLast];
      buffer[newLast] := '\0';
    } else {
      newLast := lastPos;
    }
  }

  // ---------- format_decimal_numbers ----------

  /** Cut on a numeral with a point, in terms of its digits. */
  lemma CutPointed(whole: string, decimals: string, next: char)
    requires AllDigits(whole) && AllDigits(decimals)
    ensures Numeric(Pointed(whole, decimals))
    ensures var (carry, kept) := Cut(whole + decimals, next);
            Cut(Pointed(whole, decimals), next) == (carry, Pointed(kept[..|whole|], kept[|whole|..]))
  {
    BumpAcrossPoint(whole, decimals);
    assert (whole + decimals)[..|whole|] == whole && (whole + decimals)[|whole|..] == decimals;
  }

  lemma RoundPartsOf(whole: string, decimals: string, d: nat)
    requires AllDigits(whole) && AllDigits(decimals) && d < |decimals|
    ensures var (carry, kept) := Cut(whole + decimals[..d], decimals[d]);
            RoundParts(whole, decimals, d) == ((if carry then "1" else "") + kept[..|whole|], kept[|whole|..])
  {
    var (carry, kept) := Cut(whole + decimals[..d], decimals[d]);
    if carry {
      assert "1" + kept == "1" + kept[..|whole|] + kept[|whole|..];
    } else {
      assert kept == "" + kept[..|whole|] + kept[|whole|..];
    }
  }

  /** A zero written before the point takes the carry. */
  lemma RoundPartsOfZero(decimals: string, d: nat)
    requires AllDigits(decimals) && d < |decimals|
    ensures AllDigits("0")
    ensures var (carry, kept) := Cut(decimals[..d], decimals[d]);
            RoundParts("0", decimals, d) == (Pad('0', carry), kept)
  {
    var high := decimals[..d];
    BumpConcat("0", high);
    assert "0"[..0] == "" && "0"[0] == '0';
    assert Bump("0").1 == "" + [('0' as int + 1) as char];
    var (carry, kept) := Cut(high, decimals[d]);
    var digits := Rounded("0" + high, decimals[d]);
    assert digits == Pad('0', carry) + kept;
    assert digits[..1] == Pad('0', carry) && digits[1..] == kept;
  }

  /** What shows from the leeway on is the formatted numeral, or a blank and the formatted numeral. */
  predicate Shows(shown: string, body: string) {
    shown == body || shown == [' '] + body
  }

  /** The chars the cut leaves, from the char before the numeral on. */
  function AfterCut(lead: char, carry: bool, w: string, f: string): (r: string)
    ensures |r| == 1 + |w| + (if f == "" then 0 else 1 + |f|)
  {
    Pad(lead, carry) + if f == "" then w else Pointed(w, f)
  }

  lemma CutPrefix(front: string, lead: char, carry: bool, w: string, f: string, end: nat)
    requires end == |front| + |AfterCut(lead, carry, w, f)|
    ensures (front + Pad(lead, carry) + Pointed(w, f))[..end] == front + AfterCut(lead, carry, w, f)
  {
    if f == "" {
      assert front + Pad(lead, carry) + Pointed(w, f) == (front + (Pad(lead, carry) + w)) + [DECIMAL_POINT];
    } else {
      assert front + Pad(lead, carry) + Pointed(w, f) == front + (Pad(lead, carry) + Pointed(w, f));
    }
  }

  /** After the cut, with a blank before the numeral: the formatted numeral shows. */
  lemma CutShows(whole: string, decimals: string, d: nat)
    requires AllDigits(whole) && AllDigits(decimals) && d < |decimals|
    ensures var (carry, kept) := Cut(whole + decimals[..d], decimals[d]);
            Shows(AfterCut(' ', carry, kept[..|whole|], kept[|whole|..]), FormatPointed(whole, decimals, Some(d)))
  {
    hide Cut, RoundParts;
    RoundPartsOf(whole, decimals, d);
    var (carry, kept) := Cut(whole + decimals[..d], decimals[d]);
    var w, f := kept[..|whole|], kept[|whole|..];
    if carry {
      assert "1" + Pointed(w, f) == Pointed("1" + w, f);
    } else {
      assert "" + w == w;
    }
  }

  lemma CutShowsZero(decimals: string, d: nat)
    requires AllDigits(decimals) && d < |decimals|
    ensures AllDigits("0")
    ensures var (carry, kept) := Cut(decimals[..d], decimals[d]);
            AfterCut('0', carry, "", kept) == FormatPointed("0", decimals, Some(d))
  {
    RoundPartsOfZero(decimals, d);
    var (carry, kept) := Cut(decimals[..d], decimals[d]);
    hide Cut, RoundParts, Rounded, Pad, Pointed;
    PointBehind(Pad('0', carry), kept);
  }

  lemma PointBehind(lead: string, decimals: string)
    ensures lead + "" == lead && lead + Pointed("", decimals) == Pointed(lead, decimals)
  {
  }

  /** The char right before the digits: a written zero when they start with the point, else a blank. */
  function Lead(src: string): char {
    if PointAt(src) == 0 then '0' else ' '
  }

  /** The blank before a written zero. */
  function Blank(src: string): (r: string)
    ensures |r| <= 1
  {
    if PointAt(src) == 0 then " " else ""
  }

  lemma PointedParts(r: string)
    requires PointAt(r) < |r|
    ensures r == Pointed(WholePart(r), DecimalPart(r))
  {
  }

  /** After the cut, what is behind base shows the formatted numeral. */
  lemma CutSource(src: string, d: nat)
    requires IsNumeral(src) && PointAt(src) + 1 + d < |src|
    ensures var (carry, kept) := Cut(WholePart(src) + DecimalPart(src)[..d], DecimalPart(src)[d]);
            var w, f := kept[..PointAt(src)], kept[PointAt(src)..];
            Shows(Blank(src) + AfterCut(Lead(src), carry, w, f), FormatBody(src, Some(d)))
  {
    var whole, decimals := WholePart(src), DecimalPart(src);
    hide Cut, FormatPointed, AfterCut;
    if PointAt(src) == 0 {
      assert whole + decimals[..d] == decimals[..d];
      CutShowsZero(decimals, d);
      var kept := Cut(decimals[..d], decimals[d]).1;
      assert kept[..0] == "" && kept[0..] == kept;
    } else {
      CutShows(whole, decimals, d);
      var (carry, kept) := Cut(whole + decimals[..d], decimals[d]);
      var after := AfterCut(' ', carry, kept[..|whole|], kept[|whole|..]);
      assert "" + after == after;
    }
  }

  lemma UncutResult(base: string, src: string, scale: Option<nat>, shown: string)
    requires IsNumeral(src) && PointAt(src) < |src|
    requires scale.None? || |DecimalPart(src)| <= scale.value
    requires shown == base + Blank(src) + [Lead(src)] + src
    ensures base <= shown && Shows(shown[|base|..], FormatBody(src, scale))
  {
    PointedParts(src);
    if PointAt(src) == 0 {
      assert "0" + src == Pointed(LeadingPart(src), DecimalPart(src));
      assert shown[|base|..] == [' '] + ("0" + src);
    } else {
      assert shown[|base|..] == [' '] + src;
    }
  }

  /** format_decimal_numbers, on the C string held in field[..fieldLen]. */
  method FormatDecimalNumbers(decimalPlaces: int, fieldScale: nat, field: array<char>, fieldLen: nat)
    returns (newLen: nat)
    requires decimalPlaces >= NO_CHANGE_DECIMAL_PLACES
    requires fieldLen + 2 <= BUFFER_SIZE && fieldLen + 1 < field.Length
    requires IsDecimalText(field[..fieldLen]) && field[fieldLen] == '\0'
    modifies field
    ensures newLen < field.Length && field[newLen] == '\0'
    ensures field[..newLen] == FormatText(old(field[..fieldLen]), WantedScale(decimalPlaces, fieldScale))
  {
    hide FormatBody, Shows, Cut;
    var isNegative := if field[0] == '-' then 1 else 0;
    var src := field[isNegative..fieldLen];
    var pt := StrChr(src, DECIMAL_POINT);
    if pt == |src| {
      NothingToFormat(field[..fieldLen], WantedScale(decimalPlaces, fieldScale));
      return fieldLen;
    }
    var scale := if decimalPlaces > fieldScale then fieldScale else decimalPlaces;
    var buffer, offset := WriteDigits(isNegative, src, pt);
    var lastPos := |src| + offset;
    ghost var base := if isNegative == 1 then " " else "";
    if decimalPlaces != NO_CHANGE_DECIMAL_PLACES && |src| - pt - 1 > scale {
      lastPos := CutInBuffer(buffer, base, src, pt, scale, offset, lastPos);
    } else {
      UncutResult(base, src, WantedScale(decimalPlaces, fieldScale), buffer[..lastPos]);
    }
    FormatBodyStarts(src, WantedScale(decimalPlaces, fieldScale));
    newLen := CopyBack(buffer, isNegative, lastPos, FormatBody(src, WantedScale(decimalPlaces, fieldScale)), field);
  }

  /** RoundUpDecimalNumbers on a numeral that stands behind front and one char of leeway. */
  method CutNumeral(buffer: array<char>, ghost front: string, ghost lead: char, ghost whole: string, ghost decimals: string,
                    decimalPos: nat, scale: nat, offset: nat, lastPos: nat)
    returns (newLast: nat)
    requires AllDigits(whole) && AllDigits(decimals) && scale < |decimals|
    requires offset == |front| + 1 && decimalPos == offset + |whole|
    requires lastPos == decimalPos + 1 + |decimals| <= buffer.Length
    requires buffer[..lastPos] == front + [lead] + Pointed(whole, decimals)
    modifies buffer
    ensures |front| < newLast <= lastPos && (newLast < buffer.Length ==> buffer[newLast] == '\0')
    ensures var (carry, kept) := Cut(whole + decimals[..scale], decimals[scale]);
            buffer[..newLast] == front + AfterCut(lead, carry, kept[..|whole|], kept[|whole|..])
  {
    hide Cut, AfterCut;
    CutPointed(whole, decimals[..scale], decimals[scale]);
    ghost var (carry, kept) := Cut(whole + decimals[..scale], decimals[scale]);
    SourceInBuffer(buffer[..], front, lead, Pointed(whole, decimals), decimalPos, decimalPos + scale + 1, offset, lastPos);
    PrefixOfPointed(whole, decimals, scale);
    newLast := RoundUpDecimalNumbers(buffer, decimalPos, scale, offset, lastPos, Pointed(whole, decimals[..scale]));
    CutPrefix(front, lead, carry, kept[..|whole|], kept[|whole|..], newLast);
  }

  lemma PrefixOfPointed(whole: string, decimals: string, d: nat)
    requires d < |decimals|
    ensures Pointed(whole, decimals)[..|whole| + 1 + d] == Pointed(whole, decimals[..d])
    ensures Pointed(whole, decimals)[|whole| + 1 + d] == decimals[d]
  {
  }

  /** The rounding step of format_decimal_numbers. */
  method CutInBuffer(buffer: array<char>, ghost base: string, src: string, pt: nat, scale: nat, offset: nat, lastPos: nat)
    returns (newLast: nat)
    requires IsNumeral(src) && pt == PointAt(src) && pt + 1 + scale < |src|
    requires offset == |base + Blank(src)| + 1 && lastPos == offset + |src| <= buffer.Length
    requires buffer[..lastPos] == base + Blank(src) + [Lead(src)] + src
    modifies buffer
    ensures |base| < newLast <= lastPos && base <= buffer[..newLast]
    ensures Shows(buffer[|base|..newLast], FormatBody(src, Some(scale)))
  {
    hide Cut, AfterCut, FormatBody, Shows;
    PointedParts(src);
    newLast := CutNumeral(buffer, base + Blank(src), Lead(src), WholePart(src), DecimalPart(src),
                          pt + offset, scale, offset, lastPos);
    CutSource(src, scale);
    ghost var (carry, kept) := Cut(WholePart(src) + DecimalPart(src)[..scale], DecimalPart(src)[scale]);
    ghost var after := AfterCut(Lead(src), carry, kept[..pt], kept[pt..]);
    BehindBase(buffer[..], base, Blank(src), after, newLast);
  }

  lemma BehindBase(buf: seq<char>, base: string, a: string, b: string, end: nat)
    requires end <= |buf| && buf[..end] == (base + a) + b
    ensures base <= buf[..end] && |base| <= end && buf[|base|..end] == a + b
  {
    var text := buf[..end];
    assert text == base + (a + b);
    assert text[..|base|] == base && text[|base|..] == a + b;
    assert buf[|base|..end] == text[|base|..];
  }

  lemma SourceInBuffer(buf: seq<char>, front: string, lead: char, src: string, decimalPos: nat, pos: nat, offset: nat, lastPos: nat)
    requires offset == |front| + 1 && lastPos == offset + |src| <= |buf| && offset <= decimalPos < pos < lastPos
    requires buf[..lastPos] == front + [lead] + src
    ensures buf[pos] == src[pos - offset] && buf[offset..pos] == src[..pos - offset]
    ensures buf[..offset - 1] == front && buf[offset - 1] == lead
  {
    var text := front + [lead] + src;
    assert forall i :: 0 <= i < |text| ==> buf[i] == buf[..|text|][i] == text[i];
  }

  lemma NothingToFormat(s: string, scale: Option<nat>)
    requires IsDecimalText(s) && PointAt(Unsigned(s)) == |Unsigned(s)|
    ensures FormatText(s, scale) == s
  {
  }

  lemma FormatBodyStarts(b: string, scale: Option<nat>)
    requires IsNumeral(b)
    ensures var r := FormatBody(b, scale); r != "" && r[0] != ' ' && |r| <= |b| + 1
  {
    FormatBodyRounds(b, scale);
    var r := FormatBody(b, scale);
    assert r[0] == WholePart(r)[0];
  }

  /** The start of format_decimal_numbers: a buffer with leeway, a leading zero if needed, the digits. */
  method WriteDigits(isNegative: nat, src: string, pt: nat) returns (buffer: array<char>, offset: nat)
    requires isNegative <= 1 && pt == PointAt(src) && isNegative + |src| + 2 <= BUFFER_SIZE
    ensures fresh(buffer) && buffer.Length == BUFFER_SIZE
    ensures offset == isNegative + |Blank(src)| + 1
    ensures buffer[..offset + |src|] == (if isNegative == 1 then " " else "") + Blank(src) + [Lead(src)] + src
  {
    buffer := new char[BUFFER_SIZE](i => if i < 2 then ' ' else '\0');
    offset := 1 + isNegative;
    if pt == 0 {
      buffer[offset] := '0';
      offset := offset + 1;
    }
    assert forall i :: 0 <= i < offset ==> buffer[i] == (if pt == 0 && i == offset - 1 then '0' else ' ');
    forall i | 0 <= i < |src| {
      buffer[offset + i] := src[i];
    }
    StandsAt(buffer[..], offset, src);
    StandsAt(buffer[..], 0, (if isNegative == 1 then " " else "") + Blank(src) + [Lead(src)]);
    InTwoParts(buffer[..], offset, offset + |src|, (if isNegative == 1 then " " else "") + Blank(src) + [Lead(src)], src);
  }

  lemma StandsAt(buf: seq<char>, i: nat, t: string)
    requires i + |t| <= |buf| && forall k :: 0 <= k < |t| ==> buf[i + k] == t[k]
    ensures buf[i..i + |t|] == t
  {
  }

  lemma InTwoParts(buf: seq<char>, i: nat, j: nat, a: string, b: string)
    requires i <= j <= |buf| && buf[..i] == a && buf[i..j] == b
    ensures buf[..j] == a + b
  {
    assert buf[..j] == buf[..i] + buf[i..j];
  }

  lemma BehindLeeway(buf: seq<char>, start: nat, i: nat, j: nat, body: string)
    requires start <= i <= j <= |buf| && if i == start then buf[start..j] == body else i == start + 1 && buf[start..j] == [' '] + body
    ensures buf[i..j] == body
  {
    var shown := buf[start..j];
    assert |buf[i..j]| == |body|;
    forall k | 0 <= k < |body| ensures buf[i..j][k] == body[k] {
      assert buf[i..j][k] == shown[k + (i - start)];
    }
  }

  /** The end of format_decimal_numbers: skip the unused leeway, put the sign in, copy back. */
  method CopyBack(buffer: array<char>, isNegative: nat, lastPos: nat, ghost body: string, field: array<char>)
    returns (newLen: nat)
    requires isNegative <= 1 && isNegative < lastPos <= buffer.Length && buffer != field
    requires body != "" && body[0] != ' ' && Shows(buffer[isNegative..lastPos], body)
    requires |body| + isNegative < field.Length
    modifies buffer, field
    ensures newLen < field.Length && field[newLen] == '\0'
    ensures field[..newLen] == (if isNegative == 1 then "-" else "") + body
  {
    var offset := isNegative;
    ghost var shown := buffer[isNegative..lastPos];
    while offset < buffer.Length && buffer[offset] == ' '
      invariant isNegative <= offset < lastPos
      invariant shown == body ==> offset == isNegative
      invariant shown == [' '] + body ==> offset <= isNegative + 1
    {
      assert shown[offset - isNegative] == ' ';
      offset := offset + 1;
    }
    assert shown == body || (shown[0] == buffer[isNegative] == ' ' && offset == isNegative + 1);
    BehindLeeway(buffer[..], isNegative, offset, lastPos, body);
    if isNegative == 1 {
      offset := offset - 1;
      buffer[offset] := '-';
    }
    newLen := lastPos - offset;
    forall i | 0 <= i < newLen {
      field[i] := buffer[offset + i];
    }
    field[newLen] := '\0';
  }
}
