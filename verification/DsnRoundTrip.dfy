/**
 The parser and the grammar agree: what is accepted is exactly what the grammar derives, and each text has one reading.
 */
module DsnRoundTrip {
  import opened Wrappers
  import opened DsnGrammar

  // ---------- braces ----------

  lemma {:induction false} DoubledConcat(a: string, b: string)
    requires Doubled(a) && Doubled(b)
    ensures Doubled(a + b)
    decreases |a|
  {
    if a == "" {
      assert a + b == b;
    } else if a[0] != '}' {
      DoubledConcat(a[1..], b);
      assert (a + b)[1..] == a[1..] + b;
    } else {
      DoubledConcat(a[2..], b);
      assert (a + b)[2..] == a[2..] + b;
    }
  }

  lemma {:induction false} BracelessIsDoubled(a: string)
    requires '}' !in a
    ensures Doubled(a)
    decreases |a|
  {
    if a != "" {
      BracelessIsDoubled(a[1..]);
    }
  }

  /** The first closing brace in a doubled text is followed by its double. */
  lemma {:induction false} FirstBraceIsDoubled(s: string, i: nat, c: nat, end: nat)
    requires i <= c < end <= |s| && Doubled(s[i..end]) && s[c] == '}' && forall k :: i <= k < c ==> s[k] != '}'
    ensures c + 2 <= end && s[c + 1] == '}' && Doubled(s[c + 2..end])
    decreases c - i
  {
    var t := s[i..end];
    if i < c {
      assert t[0] != '}' && t[1..] == s[i + 1..end];
      FirstBraceIsDoubled(s, i + 1, c, end);
    } else {
      assert t[0] == '}' && t[1] == s[i + 1] && t[2..] == s[i + 2..end];
    }
  }

  // ---------- accepted texts are derived ----------

  /** What the parser has found when it accepts: the pairs it had, more of them, and the text it read them from. */
  ghost predicate Derives(options: seq<ConnOption>, r: Result<Dsn, DsnError>, done: seq<Pair>) {
    r.Success? ==>
      && done <= r.value.pairs && (r.value.tail.Some? ==> Blanks(r.value.tail.value))
      && forall k :: |done| <= k < |r.value.pairs| ==> WellFormedPair(options, r.value.pairs[k], k == 0)
  }

  ghost predicate ReadsPair(options: seq<ConnOption>, r: Result<Dsn, DsnError>, done: seq<Pair>, text: string) {
    Derives(options, r, done) && (r.Success? ==> |done| < |r.value.pairs| && TextFrom(r.value, |done|) == text)
  }

  ghost predicate ReadsRest(options: seq<ConnOption>, r: Result<Dsn, DsnError>, done: seq<Pair>, text: string) {
    Derives(options, r, done) && (r.Success? ==> TextBehind(r.value, |done|) == text)
  }

  /** A pair whose name has been read up to the equals sign. */
  predicate Named(options: seq<ConnOption>, p: Pair, first: bool) {
    WellFormedPair(options, p.(gap := "", value := EmptyValue), first)
  }

  lemma OnePair(options: seq<ConnOption>, r: Result<Dsn, DsnError>, done: seq<Pair>, p: Pair, behind: string, text: string)
    requires ReadsRest(options, r, done + [p], behind) && WellFormedPair(options, p, done == [])
    requires text == PairText(p) + behind
    ensures ReadsPair(options, r, done, text)
  {
    hide WellFormedPair, PairText;
    if r.Success? {
      assert r.value.pairs[|done|] == (done + [p])[|done|] == p;
    }
  }

  lemma LastPair(options: seq<ConnOption>, done: seq<Pair>, p: Pair)
    ensures ReadsRest(options, Success(Dsn(done + [p], None)), done + [p], "")
  {
  }

  lemma {:induction false} AtKeySound(options: seq<ConnOption>, s: string, i: nat, lead: string, done: seq<Pair>)
    requires i < |s| && Blanks(lead) && !IsBlank(s[i]) && (done != [] ==> s[i] != ';')
    ensures ReadsPair(options, AtKey(options, s, i, lead, done), done, lead + s[i..])
    decreases |s| - i, 4
  {
    hide Lookup, TrimRight, AtValue, ReadsPair;
    NoReading(options, EndedUnexpectedly, done, lead + s[i..]);
    var e := Find(s, i, '=');
    if e < |s| {
      var name := s[i..e];
      NoReading(options, InvalidKey(TrimRight(name)), done, lead + s[i..]);
      var key := Lookup(options, TrimRight(name));
      if key.Some? {
        AtValueSound(options, s, e, key.value, lead, name, done);
        assert lead + s[i..] == lead + name + s[e..];
      }
    }
  }

  lemma NoReading(options: seq<ConnOption>, error: DsnError, done: seq<Pair>, text: string)
    ensures ReadsPair(options, Failure(error), done, text) && ReadsRest(options, Failure(error), done, text)
  {
  }

  /** A pair whose value is s[v..w]: the text ends there, or goes on with a semicolon. */
  lemma {:induction false} PairEnds(options: seq<ConnOption>, s: string, v: nat, w: nat, p: Pair, done: seq<Pair>)
    requires v <= w <= |s| && (w < |s| ==> s[w] == ';') && WellFormedPair(options, p, done == []) && ValueText(p.value) == s[v..w]
    ensures var r := if w == |s| then Success(Dsn(done + [p], None)) else AtSemicolon(options, s, w, done + [p]);
            ReadsPair(options, r, done, p.lead + p.key + "=" + p.gap + s[v..])
    decreases |s| - w, 1
  {
    hide WellFormedPair, AtSemicolon, ReadsPair, ReadsRest, ValueText;
    var text := p.lead + p.key + "=" + p.gap + s[v..];
    assert s[v..] == s[v..w] + s[w..];
    assert text == PairText(p) + s[w..];
    if w == |s| {
      LastPair(options, done, p);
      OnePair(options, Success(Dsn(done + [p], None)), done, p, "", text);
    } else {
      AtSemicolonSound(options, s, w, done + [p]);
      OnePair(options, AtSemicolon(options, s, w, done + [p]), done, p, s[w..], text);
    }
  }

  lemma {:induction false} AtValueSound(options: seq<ConnOption>, s: string, e: nat, key: int, lead: string, name: string, done: seq<Pair>)
    requires e < |s| && s[e] == '=' && Named(options, Pair(lead, name, "", EmptyValue), done == [])
    ensures ReadsPair(options, AtValue(options, s, e, key, lead, name, done), done, lead + name + s[e..])
    decreases |s| - e, 3
  {
    hide Lookup, TrimRight, AtSemicolon, InBraces, ReadsPair;
    var v := SkipBlanks(s, e + 1);
    var head := Pair(lead, name, s[e + 1..v], EmptyValue);
    assert lead + name + s[e..] == lead + name + "=" + head.gap + s[v..];
    if v == |s| || s[v] == ';' {
      PairEnds(options, s, v, v, head, done);
    } else if s[v] == '{' {
      assert s[v..v] == "";
      InBracesSound(options, s, v, v, key, head, done);
    } else {
      var end := Find(s, v, ';');
      PairEnds(options, s, v, end, head.(value := PlainValue(s[v..end])), done);
    }
  }

  lemma {:induction false} InBracesSound(options: seq<ConnOption>, s: string, i: nat, open: nat, key: int, head: Pair, done: seq<Pair>)
    requires open <= i <= |s| && open < |s| && s[open] == '{' && (i > open ==> Doubled(s[open + 1..i]))
    requires WellFormedPair(options, head, done == [])
    ensures ReadsPair(options, InBraces(options, s, i, open, key, head, done), done,
                      head.lead + head.key + "=" + head.gap + s[open..])
    decreases |s| - i, 2
  {
    hide WellFormedPair, AfterBrace, ReadsPair;
    var text := head.lead + head.key + "=" + head.gap + s[open..];
    NoReading(options, RightBraceMissing(key), done, text);
    var c := Find(s, i, '}');
    if c < |s| {
      var from := if i > open then i else open + 1;
      BracelessIsDoubled(s[from..c]);
      if i > open {
        DoubledConcat(s[open + 1..i], s[i..c]);
        assert s[open + 1..c] == s[open + 1..i] + s[i..c];
      }
      AfterBraceSound(options, s, c, open, key, head, done);
    }
  }

  lemma {:induction false} AfterBraceSound(options: seq<ConnOption>, s: string, c: nat, open: nat, key: int, head: Pair, done: seq<Pair>)
    requires open < c < |s| && s[open] == '{' && s[c] == '}' && Doubled(s[open + 1..c])
    requires WellFormedPair(options, head, done == [])
    ensures ReadsPair(options, AfterBrace(options, s, c, open, key, head, done), done,
                      head.lead + head.key + "=" + head.gap + s[open..])
    decreases |s| - c, 1
  {
    hide Lookup, TrimRight, AtSemicolon, InBraces, ReadsPair;
    var text := head.lead + head.key + "=" + head.gap + s[open..];
    NoReading(options, UnescapedRightBrace(key), done, text);
    NoReading(options, InvalidValue(key), done, text);
    if c + 1 < |s| && s[c + 1] == '}' {
      if c + 2 < |s| {
        MoreDoubled(s, open, c);
        InBracesSound(options, s, c + 2, open, key, head, done);
      }
    } else {
      var w := SkipBlanks(s, c + 1);
      var braced := head.(value := BracedValue(s[open + 1..c], s[c + 1..w]));
      BracedText(s, open, c, w);
      if w == |s| || s[w] == ';' {
        PairEnds(options, s, open, w, braced, done);
      }
    }
  }

  lemma BracedText(s: string, open: nat, c: nat, w: nat)
    requires open < c < w <= |s| && s[open] == '{' && s[c] == '}'
    ensures s[open..w] == "{" + s[open + 1..c] + "}" + s[c + 1..w]
  {
    var a, body, blanks := s[open..w], s[open + 1..c], s[c + 1..w];
    var t := "{" + body + "}" + blanks;
    assert |a| == |t|;
    forall k | 0 <= k < |a| ensures a[k] == t[k] {
      assert 0 < k <= |body| ==> t[k] == body[k - 1];
      assert k > 1 + |body| ==> t[k] == blanks[k - 2 - |body|];
    }
  }

  lemma MoreDoubled(s: string, open: nat, c: nat)
    requires open < c && c + 2 <= |s| && s[c] == '}' && s[c + 1] == '}' && Doubled(s[open + 1..c])
    ensures Doubled(s[open + 1..c + 2])
  {
    assert Doubled("}}");
    DoubledConcat(s[open + 1..c], "}}");
    assert s[open + 1..c + 2] == s[open + 1..c] + "}}";
  }

  lemma {:induction false} AtSemicolonSound(options: seq<ConnOption>, s: string, i: nat, done: seq<Pair>)
    requires i < |s| && s[i] == ';' && done != []
    ensures ReadsRest(options, AtSemicolon(options, s, i, done), done, s[i..])
    decreases |s| - i, 0
  {
    hide AtKey, WellFormedPair;
    var n := SkipBlanks(s, i + 1);
    assert s[i..] == ";" + s[i + 1..n] + s[n..];
    if n < |s| && s[n] != ';' {
      AtKeySound(options, s, n, s[i + 1..n], done);
    }
  }

  /** Soundness: an accepted text is derived by the grammar, from the reading the parser returns. */
  lemma AcceptedIsDerived(options: seq<ConnOption>, s: string)
    ensures var r := Parse(options, s);
            r.Success? ==> WellFormed(options, r.value) && DsnText(r.value) == s
  {
    hide AtKey, WellFormedPair;
    var i := SkipBlanks(s, 0);
    if i < |s| {
      AtKeySound(options, s, i, s[..i], []);
      assert s[..i] + s[i..] == s;
    }
  }

  // ---------- derived texts are accepted ----------

  lemma SkipTo(s: string, i: nat, j: nat)
    requires i <= j <= |s| && Blanks(s[i..j]) && (j < |s| ==> !IsBlank(s[j]))
    ensures SkipBlanks(s, i) == j
  {
    assert forall k :: i <= k < j ==> s[k] == s[i..j][k - i];
  }

  lemma FindAt(s: string, i: nat, j: nat, c: char)
    requires i <= j <= |s| && c !in s[i..j] && (j < |s| ==> s[j] == c)
    ensures Find(s, i, c) == j
  {
    assert forall k :: i <= k < j ==> s[k] == s[i..j][k - i];
  }

  /** Cutting off the front of what is left of a text. */
  lemma Cut(s: string, i: nat, a: string, b: string)
    requires i <= |s| && s[i..] == a + b
    ensures i + |a| <= |s| && s[i..i + |a|] == a && s[i + |a|..] == b
  {
    assert s[i..i + |a|] == s[i..][..|a|];
    assert s[i + |a|..] == s[i..][|a|..];
  }

  lemma BehindStarts(dsn: Dsn, k: nat)
    requires k <= |dsn.pairs|
    ensures TextBehind(dsn, k) == "" || TextBehind(dsn, k)[0] == ';'
  {
  }

  lemma {:induction false} BracesComplete(options: seq<ConnOption>, s: string, i: nat, close: nat, open: nat, key: int, head: Pair, done: seq<Pair>)
    requires open <= i <= close < |s| && s[close] == '}' && Doubled(s[i..close]) && (close + 1 < |s| ==> s[close + 1] != '}')
    ensures InBraces(options, s, i, open, key, head, done) == AfterBrace(options, s, close, open, key, head, done)
    decreases close - i
  {
    hide Doubled;
    var c := Find(s, i, '}');
    if c < close {
      FirstBraceIsDoubled(s, i, c, close);
      BracesComplete(options, s, c + 2, close, open, key, head, done);
    }
  }

  lemma {:induction false} BehindComplete(options: seq<ConnOption>, dsn: Dsn, s: string, w: nat, k: nat)
    requires WellFormed(options, dsn) && 0 < k <= |dsn.pairs| && w <= |s| && s[w..] == TextBehind(dsn, k)
    ensures (if w == |s| then Success(Dsn(dsn.pairs[..k], None)) else AtSemicolon(options, s, w, dsn.pairs[..k])) == Success(dsn)
    decreases |dsn.pairs| - k, 1
  {
    hide WellFormedPair, AtKey, ValueText;
    if k < |dsn.pairs| {
      var p := dsn.pairs[k];
      KeyStarts(options, dsn, k);
      assert s[w..] == ";" + (p.lead + (p.key + "=" + p.gap + ValueText(p.value) + TextBehind(dsn, k + 1)));
      Cut(s, w, ";", p.lead + (p.key + "=" + p.gap + ValueText(p.value) + TextBehind(dsn, k + 1)));
      Cut(s, w + 1, p.lead, p.key + "=" + p.gap + ValueText(p.value) + TextBehind(dsn, k + 1));
      var n := w + 1 + |p.lead|;
      assert s[n] == s[n..][0];
      SkipTo(s, w + 1, n);
      KeyComplete(options, dsn, s, n, k);
    } else {
      assert dsn.pairs[..k] == dsn.pairs;
      if dsn.tail.Some? {
        TailComplete(s, w, dsn.tail.value);
      }
    }
  }

  lemma TailComplete(s: string, w: nat, tail: string)
    requires w <= |s| && s[w..] == ";" + tail && Blanks(tail)
    ensures w < |s| && s[w] == ';' && SkipBlanks(s, w + 1) == |s| && s[w + 1..] == tail == s[w + 1..|s|]
  {
    Cut(s, w, ";", tail);
    assert s[w] == s[w..][0];
    SkipTo(s, w + 1, |s|);
  }

  lemma KeyStarts(options: seq<ConnOption>, dsn: Dsn, k: nat)
    requires WellFormed(options, dsn) && k < |dsn.pairs|
    ensures var p := dsn.pairs[k];
            Blanks(p.lead) && !IsBlank((p.key + "=")[0]) && (k > 0 ==> (p.key + "=")[0] != ';')
  {
    hide Lookup, TrimRight;
    assert WellFormedPair(options, dsn.pairs[k], k == 0);
  }

  lemma {:induction false} KeyComplete(options: seq<ConnOption>, dsn: Dsn, s: string, i: nat, k: nat)
    requires WellFormed(options, dsn) && k < |dsn.pairs| && i <= |s|
    requires var p := dsn.pairs[k]; s[i..] == p.key + "=" + p.gap + ValueText(p.value) + TextBehind(dsn, k + 1)
    ensures AtKey(options, s, i, dsn.pairs[k].lead, dsn.pairs[..k]) == Success(dsn)
    decreases |dsn.pairs| - k, 0, 1
  {
    hide Lookup, TrimRight, AtValue, ValueText, TextBehind, WellFormedValue;
    var p := dsn.pairs[k];
    assert WellFormedPair(options, p, k == 0);
    var rest := "=" + p.gap + ValueText(p.value) + TextBehind(dsn, k + 1);
    assert s[i..] == p.key + rest;
    Cut(s, i, p.key, rest);
    var e := i + |p.key|;
    assert s[e] == s[e..][0] == '=';
    FindAt(s, i, e, '=');
    ValueComplete(options, dsn, s, e, k);
  }

  lemma {:induction false} ValueComplete(options: seq<ConnOption>, dsn: Dsn, s: string, e: nat, k: nat)
    requires WellFormed(options, dsn) && k < |dsn.pairs| && e < |s|
    requires var p := dsn.pairs[k]; s[e..] == "=" + p.gap + ValueText(p.value) + TextBehind(dsn, k + 1)
    ensures var p := dsn.pairs[k];
            Lookup(options, TrimRight(p.key)).Some?
            && AtValue(options, s, e, Lookup(options, TrimRight(p.key)).value, p.lead, p.key, dsn.pairs[..k]) == Success(dsn)
    decreases |dsn.pairs| - k, 0, 0
  {
    hide Lookup, TrimRight, AtValue, AtSemicolon, TextBehind, WellFormedValue, ValueText;
    var p, behind := dsn.pairs[k], TextBehind(dsn, k + 1);
    assert WellFormedPair(options, p, k == 0);
    BehindStarts(dsn, k + 1);
    var rest := ValueText(p.value) + behind;
    assert s[e..] == "=" + (p.gap + rest);
    Cut(s, e, "=", p.gap + rest);
    Cut(s, e + 1, p.gap, rest);
    var v := e + 1 + |p.gap|;
    Cut(s, v, ValueText(p.value), behind);
    var w := v + |ValueText(p.value)|;
    assert w < |s| ==> s[w] == s[w..][0] == ';';
    ValueRead(options, s, e, v, w, Lookup(options, TrimRight(p.key)).value, p, dsn.pairs[..k]);
    assert dsn.pairs[..k + 1] == dsn.pairs[..k] + [p];
    BehindComplete(options, dsn, s, w, k + 1);
  }

  lemma ValueRead(options: seq<ConnOption>, s: string, e: nat, v: nat, w: nat, key: int, p: Pair, done: seq<Pair>)
    requires e < v <= w <= |s| && s[e + 1..v] == p.gap && Blanks(p.gap) && s[v..w] == ValueText(p.value)
    requires WellFormedValue(p.value) && (w < |s| ==> s[w] == ';')
    ensures AtValue(options, s, e, key, p.lead, p.key, done)
         == if w == |s| then Success(Dsn(done + [p], None)) else AtSemicolon(options, s, w, done + [p])
  {
    hide AtSemicolon, InBraces, Doubled;
    if v < w {
      assert s[v] == ValueText(p.value)[0];
    }
    SkipTo(s, e + 1, v);
    match p.value
    case EmptyValue =>
    case PlainValue(text) => FindAt(s, v, w, ';');
    case BracedValue(_, _) => BracedComplete(options, s, v, w, key, p.(value := EmptyValue), p, done);
  }

  lemma PartOf(s: string, v: nat, w: nat, i: nat, j: nat)
    requires i <= j <= w - v && v <= w <= |s|
    ensures s[v + i..v + j] == s[v..w][i..j]
  {
    var a, b := s[v + i..v + j], s[v..w][i..j];
    assert |a| == |b|;
    forall k | 0 <= k < |a| ensures a[k] == b[k] {
      assert b[k] == s[v..w][i + k] == s[v + i + k];
    }
  }

  lemma PartsInBraces(s: string, v: nat, w: nat, body: string, blanks: string)
    requires v <= w <= |s| && s[v..w] == "{" + body + "}" + blanks
    ensures var close := v + 1 + |body|;
            && close < w && s[close] == '}' && s[v..close] == "{" + body && s[v + 1..close] == body && s[close + 1..w] == blanks
  {
    var t := s[v..w];
    PartOf(s, v, w, 0, 1 + |body|);
    PartOf(s, v, w, 1, 1 + |body|);
    PartOf(s, v, w, 2 + |body|, |t|);
    assert t[0..1 + |body|] == "{" + body && t[1..1 + |body|] == body && t[2 + |body|..|t|] == blanks;
    assert s[v + 1 + |body|] == t[1 + |body|] == '}';
  }

  lemma BracedComplete(options: seq<ConnOption>, s: string, v: nat, w: nat, key: int, head: Pair, p: Pair, done: seq<Pair>)
    requires p.value.BracedValue? && WellFormedValue(p.value) && head == p.(value := EmptyValue)
    requires v <= w <= |s| && s[v..w] == ValueText(p.value) && (w < |s| ==> s[w] == ';')
    ensures InBraces(options, s, v, v, key, head, done)
         == if w == |s| then Success(Dsn(done + [p], None)) else AtSemicolon(options, s, w, done + [p])
  {
    hide AtSemicolon, InBraces, Doubled;
    var body, blanks := p.value.body, p.value.blanks;
    var close := v + 1 + |body|;
    PartsInBraces(s, v, w, body, blanks);
    DoubledBehindOpen(body);
    if close + 1 < w {
      assert s[close + 1] == blanks[0];
    }
    BracesComplete(options, s, v, close, v, key, head, done);
    SkipTo(s, close + 1, w);
  }

  lemma DoubledBehindOpen(body: string)
    requires Doubled(body)
    ensures Doubled("{" + body)
  {
    assert ("{" + body)[1..] == body;
  }

  /** Completeness: the parser reads every text of the grammar back as it was derived, so no text has two readings. */
  lemma DerivedIsAccepted(options: seq<ConnOption>, dsn: Dsn)
    requires WellFormed(options, dsn)
    ensures Parse(options, DsnText(dsn)) == Success(dsn)
  {
    hide AtKey, ValueText, TextBehind;
    var s, p := DsnText(dsn), dsn.pairs[0];
    var rest := p.key + "=" + p.gap + ValueText(p.value) + TextBehind(dsn, 1);
    KeyStarts(options, dsn, 0);
    assert s[0..] == s == p.lead + rest;
    Cut(s, 0, p.lead, rest);
    assert s[|p.lead|] == s[|p.lead|..][0];
    SkipTo(s, 0, |p.lead|);
    assert s[..|p.lead|] == p.lead && dsn.pairs[..0] == [];
    KeyComplete(options, dsn, s, |p.lead|, 0);
  }

  /** The parser accepts exactly the texts of the grammar. */
  lemma AcceptsExactlyTheGrammar(options: seq<ConnOption>, s: string)
    ensures Parse(options, s).Success? <==> exists dsn :: WellFormed(options, dsn) && DsnText(dsn) == s
  {
    if Parse(options, s).Success? {
      AcceptedIsDerived(options, s);
      assert WellFormed(options, Parse(options, s).value);
    }
    forall dsn | WellFormed(options, dsn) && DsnText(dsn) == s ensures Parse(options, s).Success? {
      DerivedIsAccepted(options, dsn);
    }
  }

  // ---------- a text as it is written ----------

  const SERVER := ConnOption("Server", 1)
  const DATABASE := ConnOption("Database", 2)
  const PLAIN_PAIR := Pair(" \t", "sERVER\r", "\n", PlainValue("db{1}"))
  const BRACED_PAIR := Pair(" ", "Database", "", BracedValue("a;}}b", " "))

  /** Blanks of all four kinds, a name in another case, a plain and a braced value. */
  lemma TextAsWritten()
    ensures Parse([SERVER, DATABASE], " \tsERVER\r=\ndb{1}; Database={a;}}b} ;") == Success(Dsn([PLAIN_PAIR, BRACED_PAIR], Some("")))
    ensures forall i :: 0 <= i < 2 ==> Lookup([SERVER, DATABASE], TrimRight([PLAIN_PAIR, BRACED_PAIR][i].key)).Some?
    ensures Meaning([SERVER, DATABASE], [PLAIN_PAIR, BRACED_PAIR]) == map[1 := "db{1}", 2 := "{a;}}b}"]
  {
    hide Lookup, TrimRight, DsnText, Parse, WellFormedPair, Meaning;
    PairsAsWritten();
    TextsAsWritten();
    MeaningAsWritten();
    DerivedIsAccepted([SERVER, DATABASE], Dsn([PLAIN_PAIR, BRACED_PAIR], Some("")));
  }

  lemma NamesAsWritten()
    ensures Lookup([SERVER, DATABASE], TrimRight("sERVER\r")) == Some(1)
    ensures Lookup([SERVER, DATABASE], TrimRight("Database")) == Some(2)
  {
    assert "sERVER\r"[..6] == "sERVER" && TrimRight("sERVER") == "sERVER" && TrimRight("Database") == "Database";
    assert SameName("sERVER", "Server") && SameName("Database", "Database") && !SameName("Database", "Server");
    assert [SERVER, DATABASE][1..][0] == DATABASE;
  }

  lemma PairsAsWritten()
    ensures WellFormedPair([SERVER, DATABASE], PLAIN_PAIR, true) && WellFormedPair([SERVER, DATABASE], BRACED_PAIR, false)
    ensures forall i :: 0 <= i < 2 ==> Lookup([SERVER, DATABASE], TrimRight([PLAIN_PAIR, BRACED_PAIR][i].key)).Some?
  {
    hide Lookup, TrimRight;
    NamesAsWritten();
    assert Doubled("a;}}b") by {
      assert "a;}}b"[1..] == ";}}b" && ";}}b"[1..] == "}}b" && "}}b"[2..] == "b" && "b"[1..] == "";
    }
  }

  lemma MeaningAsWritten()
    ensures forall i :: 0 <= i < 2 ==> Lookup([SERVER, DATABASE], TrimRight([PLAIN_PAIR, BRACED_PAIR][i].key)).Some?
    ensures Meaning([SERVER, DATABASE], [PLAIN_PAIR, BRACED_PAIR]) == map[1 := "db{1}", 2 := "{a;}}b}"]
  {
    hide Lookup, TrimRight, WellFormedPair;
    NamesAsWritten();
    PairsAsWritten();
    assert [PLAIN_PAIR, BRACED_PAIR][..1] == [PLAIN_PAIR] && [PLAIN_PAIR][..0] == [];
    assert Meaning([SERVER, DATABASE], [PLAIN_PAIR]) == map[1 := "db{1}"];
    assert "{" + "a;}}b" + "}" == "{a;}}b}";
  }

  lemma TextsAsWritten()
    ensures DsnText(Dsn([PLAIN_PAIR, BRACED_PAIR], Some(""))) == " \tsERVER\r=\ndb{1}; Database={a;}}b} ;"
  {
    var dsn := Dsn([PLAIN_PAIR, BRACED_PAIR], Some(""));
    PlainAsWritten();
    BracedAsWritten();
    hide PairText;
    assert TextBehind(dsn, 2) == ";" + "";
    assert TextFrom(dsn, 1) == PairText(BRACED_PAIR) + TextBehind(dsn, 2);
    assert TextBehind(dsn, 1) == ";" + TextFrom(dsn, 1);
    assert TextFrom(dsn, 0) == PairText(PLAIN_PAIR) + TextBehind(dsn, 1);
    assert " \tsERVER\r=\ndb{1}" + (";" + (" Database={a;}}b} " + (";" + ""))) == " \tsERVER\r=\ndb{1}; Database={a;}}b} ;";
  }

  lemma PlainAsWritten()
    ensures PairText(PLAIN_PAIR) == " \tsERVER\r=\ndb{1}"
  {
  }

  lemma BracedAsWritten()
    ensures PairText(BRACED_PAIR) == " Database={a;}}b} "
  {
  }
}
