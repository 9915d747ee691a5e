/**
 Quoting a value into an SQL statement (pdo_dbh.cpp, pdo_sqlsrv_dbh_quote), and the scanner of section 5.3 of
 ISO/IEC 9075-2 that reads it back.
 */
module Quoter {
  import opened Wrappers
  import opened Bytes

  const QUOTE := '\''

  // ---------- string literals ----------

  /** Every quote doubled. */
  function Escaped(s: string): (e: string)
    ensures |e| >= |s|
  {
    if s == "" then ""
    else if s[|s| - 1] == QUOTE then Escaped(s[..|s| - 1]) + [QUOTE, QUOTE]
    else Escaped(s[..|s| - 1]) + [s[|s| - 1]]
  }

  /** Reading a literal from behind its opening quote: its value, and what follows the closing quote. */
  function Scan(text: string, value: string): Option<(string, string)>
    decreases |text|
  {
    if text == "" then None
    else if text[0] != QUOTE then Scan(text[1..], value + [text[0]])
    else if |text| > 1 && text[1] == QUOTE then Scan(text[2..], value + [QUOTE])
    else Some((value, text[1..]))
  }

  /** A literal, with or without the letter for a national character set. */
  function ScanLiteral(text: string): Option<(string, string)> {
    if |text| > 0 && text[0] == QUOTE then Scan(text[1..], "")
    else if |text| > 1 && text[0] == 'N' && text[1] == QUOTE then Scan(text[2..], "")
    else None
  }

  lemma {:induction false} ScanEscaped(s: string, i: nat, value: string, rest: string)
    requires i <= |s| && (rest == "" || rest[0] != QUOTE)
    ensures Scan(EscapedFrom(s, i) + [QUOTE] + rest, value) == Some((value + s[i..], rest))
    decreases |s| - i
  {
    var text := EscapedFrom(s, i) + [QUOTE] + rest;
    if i == |s| {
      assert text == [QUOTE] + rest && text[1..] == rest && value + s[i..] == value;
    } else {
      ScanEscaped(s, i + 1, value + [s[i]], rest);
      var behind := EscapedFrom(s, i + 1) + [QUOTE] + rest;
      assert value + [s[i]] + s[i + 1..] == value + s[i..];
      if s[i] == QUOTE {
        assert text == [QUOTE, QUOTE] + behind && text[2..] == behind;
      } else {
        assert text == [s[i]] + behind && text[1..] == behind;
      }
    }
  }

  /** The same escaping, read from the front. */
  function EscapedFrom(s: string, i: nat): string
    requires i <= |s|
    decreases |s| - i
  {
    if i == |s| then "" else (if s[i] == QUOTE then [QUOTE, QUOTE] else [s[i]]) + EscapedFrom(s, i + 1)
  }

  lemma {:induction false} EscapedSplits(s: string, i: nat)
    requires i <= |s|
    ensures Escaped(s[..i]) + EscapedFrom(s, i) == EscapedFrom(s, 0)
  {
    if i > 0 {
      EscapedSplits(s, i - 1);
      assert s[..i][..i - 1] == s[..i - 1];
      var head := if s[i - 1] == QUOTE then [QUOTE, QUOTE] else [s[i - 1]];
      assert Escaped(s[..i]) == Escaped(s[..i - 1]) + head;
      assert Escaped(s[..i - 1]) + head + EscapedFrom(s, i) == Escaped(s[..i - 1]) + (head + EscapedFrom(s, i));
    }
  }

  lemma EscapedIsEscapedFrom(s: string)
    ensures Escaped(s) == EscapedFrom(s, 0)
  {
    EscapedSplits(s, |s|);
    assert s[..|s|] == s;
  }

  function Prefix(national: bool): string {
    if national then ['N', QUOTE] else [QUOTE]
  }

  /** A quoted string is one literal that reads back as the string, whatever follows that is not a quote. */
  lemma QuotedReadsBack(s: string, national: bool, rest: string)
    requires rest == "" || rest[0] != QUOTE
    ensures ScanLiteral(Prefix(national) + Escaped(s) + [QUOTE] + rest) == Some((s, rest))
  {
    hide Escaped, EscapedFrom, Scan, ScanLiteral, Prefix;
    EscapedIsEscapedFrom(s);
    ScanEscaped(s, 0, "", rest);
    assert "" + s[0..] == s;
    Grouped(Prefix(national), Escaped(s), [QUOTE], rest);
    ScanFromPrefix(national, Escaped(s) + [QUOTE] + rest);
  }

  lemma Grouped(a: string, b: string, c: string, d: string)
    ensures a + b + c + d == a + (b + c + d)
  {
  }

  /** Behind the prefix the literal is scanned. */
  lemma ScanFromPrefix(national: bool, body: string)
    ensures ScanLiteral(Prefix(national) + body) == Scan(body, "")
  {
    hide Scan;
    var text := Prefix(national) + body;
    if national {
      assert text[2..] == body;
    } else {
      assert text[1..] == body;
    }
  }

  lemma EscapedAppend(s: string, i: nat, j: nat)
    requires i <= j <= |s| && QUOTE !in s[i..j]
    ensures Escaped(s[..j]) == Escaped(s[..i]) + s[i..j]
    decreases j - i
  {
    if i < j {
      assert s[j - 1] == s[i..j][j - 1 - i] && s[i..j - 1] == s[i..j][..j - 1 - i];
      EscapedAppend(s, i, j - 1);
      assert s[..j][..j - 1] == s[..j - 1];
      assert s[i..j] == s[i..j - 1] + [s[j - 1]];
    } else {
      assert s[i..j] == "";
    }
  }

  /** std::string::find */
  method FindChar(s: string, c: char, from: nat) returns (at: nat)
    requires from <= |s|
    ensures from <= at <= |s| && c !in s[from..at] && (at < |s| ==> s[at] == c)
  {
    at := from;
    while at < |s| && s[at] != c
      invariant from <= at <= |s| && c !in s[from..at]
    {
      assert s[from..at + 1] == s[from..at] + [s[at]];
      at := at + 1;
    }
  }

  /** The loop that doubles the quotes in place: what lies before found is done, the rest is as it was. */
  method DoubleQuotes(unquoted: string) returns (tmp: string)
    ensures tmp == Escaped(unquoted)
  {
    hide Escaped;
    tmp := unquoted;
    NothingEscaped();
    var found := FindChar(tmp, QUOTE, 0);
    ghost var n, done := |unquoted|, 0;
    assert unquoted[..0] == "" && tmp[..0] == "" && unquoted[0..] == tmp[0..];
    ghost var start := 0;
    while found < |tmp|
      invariant 0 <= start <= found <= |tmp| && 0 <= done <= n
      invariant tmp[..start] == Escaped(unquoted[..done]) && tmp[start..] == unquoted[done..]
      invariant QUOTE !in tmp[start..found] && (found < |tmp| ==> tmp[found] == QUOTE)
      decreases |tmp| - found
    {
      ghost var at := done + (found - start);
      Advance(unquoted, tmp, start, done, found);
      ghost var before := tmp;
      tmp := tmp[..found + 1] + [QUOTE] + tmp[found + 1..];
      start, done := found + 2, at + 1;
      assert tmp[..start] == before[..found] + [QUOTE, QUOTE];
      assert tmp[start..] == before[found + 1..];
      found := FindChar(tmp, QUOTE, found + 2);
    }
    EscapedAppend(unquoted, done, n) by {
      assert tmp[start..found] == tmp[start..] == unquoted[done..] == unquoted[done..n];
    }
    assert unquoted[..n] == unquoted && tmp == tmp[..start] + tmp[start..];
  }

  lemma NothingEscaped()
    ensures Escaped("") == ""
  {
  }

  /** From one quote to the next. */
  lemma Advance(unquoted: string, tmp: string, start: nat, done: nat, found: nat)
    requires start <= found < |tmp| && done <= |unquoted|
    requires tmp[..start] == Escaped(unquoted[..done]) && tmp[start..] == unquoted[done..]
    requires QUOTE !in tmp[start..found] && tmp[found] == QUOTE
    ensures var at := done + (found - start);
            && at < |unquoted| && tmp[..found] + [QUOTE, QUOTE] == Escaped(unquoted[..at + 1])
            && tmp[found + 1..] == unquoted[at + 1..]
  {
    var at := done + (found - start);
    assert unquoted[done..][found - start] == tmp[start..][found - start];
    assert unquoted[done..at] == unquoted[done..][..found - start] == tmp[start..][..found - start] == tmp[start..found];
    EscapedAppend(unquoted, done, at);
    assert unquoted[..at + 1][..at] == unquoted[..at];
    assert tmp[..found] == tmp[..start] + tmp[start..found];
    assert tmp[found + 1..] == tmp[start..][found + 1 - start..];
    assert unquoted[at + 1..] == unquoted[done..][at + 1 - done..];
  }

  /** The string branch: the literal is filled into a block of the computed length. */
  method QuoteString(unquoted: string, national: bool) returns (quoted: string)
    ensures quoted == Prefix(national) + Escaped(unquoted) + [QUOTE]
    ensures |quoted| == (if national then 3 else 2) + |Escaped(unquoted)|
    ensures ScanLiteral(quoted) == Some((unquoted, "")) && (quoted[0] == 'N' <==> national)
  {
    hide Escaped, ScanLiteral;
    var quotesNeeded := if national then 3 else 2;
    var tmp := DoubleQuotes(unquoted);
    var len := |tmp|;
    var block := new char[quotesNeeded + len + 1](_ => '\0');
    var pos := 0;
    if national {
      block[pos] := 'N';
      pos := pos + 1;
    }
    block[pos] := QUOTE;
    pos := pos + 1;
    ghost var start := pos;
    assert block[..start] == Prefix(national);
    forall i | 0 <= i < len {
      block[pos + i] := tmp[i];
    }
    assert block[start..start + len] == tmp && block[..start] == Prefix(national);
    pos := pos + len;
    block[pos] := QUOTE;
    assert block[start..start + len] == tmp && block[..start] == Prefix(national);
    quoted := block[..quotesNeeded + len];
    assert quoted == block[..start] + block[start..start + len] + [block[start + len]];
    QuotedReadsBack(unquoted, national, "");
    assert quoted == Prefix(national) + Escaped(unquoted) + [QUOTE] + "";
  }

  // ---------- binary literals ----------

  const HEX_DIGITS := "0123456789ABCDEF"

  function HexByte(b: byte): (h: string)
    ensures |h| == 2
  {
    [HEX_DIGITS[b / 16], HEX_DIGITS[b % 16]]
  }

  function HexOf(data: seq<byte>): (h: string)
    ensures |h| == 2 * |data|
  {
    if data == [] then "" else HexOf(data[..|data| - 1]) + HexByte(data[|data| - 1])
  }

  function DigitValue(c: char): Option<nat> {
    if '0' <= c <= '9' then Some((c - '0') as nat)
    else if 'A' <= c <= 'F' then Some((c - 'A') as nat + 10)
    else None
  }

  /** Reading pairs of hexadecimal digits. */
  function Unhex(h: string): Option<seq<byte>> {
    if h == "" then Some([])
    else if |h| == 1 then None
    else
      var n := |h| - 2;
      var front, high, low := Unhex(h[..n]), DigitValue(h[n]), DigitValue(h[n + 1]);
      if front.Some? && high.Some? && low.Some? && high.value < 16 && low.value < 16
      then Some(front.value + [16 * high.value + low.value]) else None
  }

  function ScanBinary(text: string): Option<seq<byte>> {
    if |text| >= 2 && text[..2] == "0x" then Unhex(text[2..]) else None
  }

  lemma DigitReadsBack(d: nat)
    requires d < 16
    ensures DigitValue(HEX_DIGITS[d]) == Some(d)
  {
  }

  lemma UnhexAppend(h: string, data: seq<byte>, b: byte)
    requires Unhex(h) == Some(data)
    ensures Unhex(h + HexByte(b)) == Some(data + [b])
  {
    hide DigitValue;
    DigitReadsBack(b / 16);
    DigitReadsBack(b % 16);
    var longer := h + HexByte(b);
    assert longer[..|longer| - 2] == h && longer[|longer| - 2] == HexByte(b)[0] && longer[|longer| - 1] == HexByte(b)[1];
    assert 16 * (b / 16) + b % 16 == b;
  }

  lemma {:induction false} HexReadsBack(data: seq<byte>)
    ensures Unhex(HexOf(data)) == Some(data)
  {
    hide HexByte;
    if data == [] {
      assert Unhex("") == Some([]);
    } else {
      var n := |data| - 1;
      HexReadsBack(data[..n]);
      UnhexAppend(HexOf(data[..n]), data[..n], data[n]);
      assert data == data[..n] + [data[n]];
    }
  }

  /** The binary branch: 0x and two digits a byte, in a block of the computed length. */
  method QuoteBinary(unquoted: seq<byte>) returns (quoted: string)
    ensures quoted == "0x" + HexOf(unquoted) && |quoted| == 2 * |unquoted| + 2
    ensures ScanBinary(quoted) == Some(unquoted)
  {
    hide HexByte, Unhex;
    var quotedLen := |unquoted| * 2 + 2;
    var block := new char[quotedLen + 1](_ => '\0');
    block[0], block[1] := '0', 'x';
    var pos := 2;
    assert unquoted[..0] == [];
    for i := 0 to |unquoted|
      invariant pos == 2 + 2 * i && block[..pos] == "0x" + HexOf(unquoted[..i])
    {
      ghost var before := block[..pos];
      var digits := HexByte(unquoted[i]);
      block[pos], block[pos + 1] := digits[0], digits[1];
      assert unquoted[..i + 1][..i] == unquoted[..i];
      assert block[..pos] == before;
      assert block[..pos + 2] == block[..pos] + digits;
      pos := pos + 2;
    }
    assert unquoted[..|unquoted|] == unquoted;
    HexReadsBack(unquoted);
    quoted := block[..quotedLen];
    assert quoted[2..] == HexOf(unquoted);
  }
}
