/**
 Why a data source name is refused: what stands in front of the place that the parser complains about is a list of
 well-formed pairs, and what stands there has the fault that the error names.
 */
module DsnErrors {
  import opened Wrappers
  import opened DsnGrammar
  import opened DsnRoundTrip

  /** Pairs that each end in a semicolon. */
  function Closed(pairs: seq<Pair>): string {
    if pairs == [] then "" else Closed(pairs[..|pairs| - 1]) + PairText(pairs[|pairs| - 1]) + ";"
  }

  /** A key is expected at position i: in front of it are pairs and blanks. */
  ghost predicate KeyDue(options: seq<ConnOption>, s: string, i: nat, pairs: seq<Pair>, lead: string) {
    && i < |s| && s[..i] == Closed(pairs) + lead && Blanks(lead) && !IsBlank(s[i])
    && forall k :: 0 <= k < |pairs| ==> WellFormedPair(options, pairs[k], k == 0)
  }

  /** A value in braces is opened at v, behind a key that is stored under this one. */
  predicate OpensBrace(options: seq<ConnOption>, s: string, i: nat, v: nat, key: int)
    requires i < |s|
  {
    var e := Find(s, i, '=');
    e < |s| && Lookup(options, TrimRight(s[i..e])) == Some(key) && v == SkipBlanks(s, e + 1) && v < |s| && s[v] == '{'
  }

  /** The closing brace at c is followed by something that is neither a brace nor blanks and a semicolon. */
  predicate StrayBehind(s: string, v: nat, c: nat)
    requires v < c < |s|
  {
    var w := SkipBlanks(s, c + 1);
    s[c] == '}' && Doubled(s[v + 1..c]) && w < |s| && s[w] != ';' && (w == c + 1 ==> s[w] != '}')
  }

  /** The fault that stands at i, where a key is expected. */
  ghost predicate Fault(options: seq<ConnOption>, s: string, i: nat, more: bool, error: DsnError)
    requires i < |s|
  {
    match error
    case InvalidDsnString => false
    case ExtraSemicolon(at) => more && at == i && s[i] == ';'
    case EndedUnexpectedly => '=' !in s[i..]
    case InvalidKey(name) =>
      var e := Find(s, i, '=');
      e < |s| && name == TrimRight(s[i..e]) && Lookup(options, name) == None
    case RightBraceMissing(key) =>
      exists v :: 0 <= v < |s| && OpensBrace(options, s, i, v, key) && Doubled(s[v + 1..]) && s[|s| - 1] != '}'
    case UnescapedRightBrace(key) =>
      exists v :: 0 <= v < |s| && OpensBrace(options, s, i, v, key) && Doubled(s[v + 1..]) && s[|s| - 1] == '}'
    case InvalidValue(key) =>
      exists v, c :: 0 <= v < c < |s| && OpensBrace(options, s, i, v, key) && StrayBehind(s, v, c)
  }

  ghost predicate Explained(options: seq<ConnOption>, s: string, error: DsnError) {
    exists i: nat, pairs, lead :: KeyDue(options, s, i, pairs, lead) && Fault(options, s, i, pairs != [], error)
  }

  ghost predicate FailsRightly(options: seq<ConnOption>, s: string, r: Result<Dsn, DsnError>) {
    r.Failure? ==> Explained(options, s, r.error)
  }

  lemma FaultExplains(options: seq<ConnOption>, s: string, i: nat, pairs: seq<Pair>, lead: string, error: DsnError)
    requires KeyDue(options, s, i, pairs, lead) && Fault(options, s, i, pairs != [], error)
    ensures Explained(options, s, error)
  {
  }

  lemma NoEqualsSign(s: string, i: nat)
    requires i <= |s| && Find(s, i, '=') == |s|
    ensures '=' !in s[i..]
  {
    assert forall k :: 0 <= k < |s[i..]| ==> s[i..][k] == s[i + k];
  }

  lemma {:induction false} AtKeyFails(options: seq<ConnOption>, s: string, i: nat, lead: string, done: seq<Pair>)
    requires KeyDue(options, s, i, done, lead) && (done != [] ==> s[i] != ';')
    ensures FailsRightly(options, s, AtKey(options, s, i, lead, done))
    decreases |s| - i, 4
  {
    hide Lookup, TrimRight, AtValue, KeyDue, Explained;
    KeyStands(options, s, i, done, lead);
    var e := Find(s, i, '=');
    if e == |s| {
      NoEqualsSign(s, i);
      FaultExplains(options, s, i, done, lead, EndedUnexpectedly);
    } else {
      var name := TrimRight(s[i..e]);
      var key := Lookup(options, name);
      if key.None? {
        FaultExplains(options, s, i, done, lead, InvalidKey(name));
      } else {
        AtValueFails(options, s, i, e, key.value, lead, done);
      }
    }
  }

  lemma KeyStands(options: seq<ConnOption>, s: string, i: nat, pairs: seq<Pair>, lead: string)
    requires KeyDue(options, s, i, pairs, lead)
    ensures i < |s| && Blanks(lead) && !IsBlank(s[i]) && s[..i] == Closed(pairs) + lead
  {
  }

  lemma {:induction false} AtValueFails(options: seq<ConnOption>, s: string, i: nat, e: nat, key: int, lead: string, done: seq<Pair>)
    requires KeyDue(options, s, i, done, lead) && e == Find(s, i, '=') < |s| && (done != [] ==> s[i] != ';')
    requires Lookup(options, TrimRight(s[i..e])) == Some(key)
    ensures FailsRightly(options, s, AtValue(options, s, e, key, lead, s[i..e], done))
    decreases |s| - e, 3
  {
    hide Lookup, TrimRight, AtSemicolon, InBraces, KeyDue, FailsRightly, WellFormedValue, ValueText;
    KeyStands(options, s, i, done, lead);
    var v := SkipBlanks(s, e + 1);
    var head := Pair(lead, s[i..e], s[e + 1..v], EmptyValue);
    if v == |s| {
      Accepts(options, s, Dsn(done + [head], None));
    } else if s[v] == ';' {
      EmptyStands(s, v);
      PairIsClosed(options, s, i, e, v, v, head, done, lead);
      AtSemicolonFails(options, s, v, done + [head]);
    } else if s[v] == '{' {
      assert s[v + 1..v + 1] == "";
      InBracesFails(options, s, v, i, v, e, key, head, done);
    } else {
      var end := Find(s, v, ';');
      var plain := head.(value := PlainValue(s[v..end]));
      if end == |s| {
        Accepts(options, s, Dsn(done + [plain], None));
      } else {
        PlainStands(s, v, end);
        PairIsClosed(options, s, i, e, v, end, plain, done, lead);
        AtSemicolonFails(options, s, end, done + [plain]);
      }
    }
  }

  lemma EmptyStands(s: string, v: nat)
    requires v <= |s|
    ensures WellFormedValue(EmptyValue) && ValueText(EmptyValue) == s[v..v]
  {
  }

  lemma PlainStands(s: string, v: nat, end: nat)
    requires v < |s| && end == Find(s, v, ';') && !IsBlank(s[v]) && s[v] != '{' && s[v] != ';'
    ensures WellFormedValue(PlainValue(s[v..end])) && ValueText(PlainValue(s[v..end])) == s[v..end]
  {
    assert s[v..end][0] == s[v];
  }

  lemma Accepts(options: seq<ConnOption>, s: string, dsn: Dsn)
    ensures FailsRightly(options, s, Success(dsn))
  {
  }

  /** The text up to the semicolon at w is the pairs before and this one. */
  lemma PairIsClosed(options: seq<ConnOption>, s: string, i: nat, e: nat, v: nat, w: nat, p: Pair, done: seq<Pair>, lead: string)
    requires KeyDue(options, s, i, done, lead) && i <= e < v <= w < |s| && s[e] == '=' && s[w] == ';' && (done != [] ==> s[i] != ';')
    requires p.lead == lead && p.key == s[i..e] && '=' !in p.key && p.gap == s[e + 1..v] && ValueText(p.value) == s[v..w]
    requires Blanks(p.gap) && WellFormedValue(p.value) && Lookup(options, TrimRight(p.key)).Some?
    ensures ClosedBefore(options, s, w, done + [p])
  {
    hide WellFormedValue, ValueText, Lookup, TrimRight, Closed;
    var pairs := done + [p];
    ClosedOneMore(done, p);
    InFiveParts(s, i, e, v, w);
    Associates(Closed(done), lead, s[i..e] + "=" + s[e + 1..v] + s[v..w]);
    Associates(lead, s[i..e] + "=" + s[e + 1..v], s[v..w]);
    Associates(lead, s[i..e] + "=", s[e + 1..v]);
    Associates(lead, s[i..e], "=");
    forall k | 0 <= k < |pairs| ensures WellFormedPair(options, pairs[k], k == 0) {
      if k < |done| {
        assert pairs[k] == done[k];
      }
    }
  }

  lemma InFiveParts(s: string, i: nat, e: nat, v: nat, w: nat)
    requires i <= e < v <= w < |s| && s[e] == '=' && s[w] == ';'
    ensures s[..w + 1] == s[..i] + (s[i..e] + "=" + s[e + 1..v] + s[v..w]) + ";"
  {
  }

  lemma Associates(a: string, b: string, c: string)
    ensures a + b + c == a + (b + c)
  {
  }

  lemma ClosedOneMore(done: seq<Pair>, p: Pair)
    ensures Closed(done + [p]) == Closed(done) + PairText(p) + ";"
  {
    assert (done + [p])[..|done|] == done;
  }

  /** In front of the semicolon at i, and with it, stand these pairs. */
  ghost predicate ClosedBefore(options: seq<ConnOption>, s: string, i: nat, pairs: seq<Pair>) {
    && i < |s| && s[i] == ';' && s[..i + 1] == Closed(pairs) && pairs != []
    && forall k :: 0 <= k < |pairs| ==> WellFormedPair(options, pairs[k], k == 0)
  }

  lemma {:induction false} AtSemicolonFails(options: seq<ConnOption>, s: string, i: nat, done: seq<Pair>)
    requires ClosedBefore(options, s, i, done)
    ensures FailsRightly(options, s, AtSemicolon(options, s, i, done))
    decreases |s| - i, 0
  {
    hide AtKey, WellFormedPair, Closed, Explained;
    var n := SkipBlanks(s, i + 1);
    if n < |s| {
      assert s[..n] == s[..i + 1] + s[i + 1..n];
      assert KeyDue(options, s, n, done, s[i + 1..n]);
      if s[n] == ';' {
        FaultExplains(options, s, n, done, s[i + 1..n], ExtraSemicolon(n));
      } else {
        AtKeyFails(options, s, n, s[i + 1..n], done);
      }
    }
  }

  /** The braces of the value from v + 1 to i are doubled. */
  lemma {:induction false} InBracesFails(options: seq<ConnOption>, s: string, at: nat, i: nat, v: nat, e: nat, key: int, head: Pair, done: seq<Pair>)
    requires v <= at <= |s| && KeyDue(options, s, i, done, head.lead) && OpensBrace(options, s, i, v, key)
    requires e == Find(s, i, '=') && head == Pair(head.lead, s[i..e], s[e + 1..v], EmptyValue) && (done != [] ==> s[i] != ';')
    requires at > v ==> Doubled(s[v + 1..at]) && s[at - 1] == '}' && at < |s|
    ensures FailsRightly(options, s, InBraces(options, s, at, v, key, head, done))
    decreases |s| - at, 2
  {
    hide Lookup, TrimRight, AfterBrace, KeyDue, Doubled, Explained;
    var c := Find(s, at, '}');
    var from := if at > v then at else v + 1;
    BracelessIsDoubled(s[from..c]);
    if at > v {
      DoubledConcat(s[v + 1..at], s[at..c]);
      assert s[v + 1..c] == s[v + 1..at] + s[at..c];
    }
    if c == |s| {
      assert s[v + 1..] == s[v + 1..c];
      assert s[|s| - 1] != '}';
      FaultExplains(options, s, i, done, head.lead, RightBraceMissing(key));
    } else {
      AfterBraceFails(options, s, c, i, v, e, key, head, done);
    }
  }

  lemma {:induction false} AfterBraceFails(options: seq<ConnOption>, s: string, c: nat, i: nat, v: nat, e: nat, key: int, head: Pair, done: seq<Pair>)
    requires v < c < |s| && s[c] == '}' && Doubled(s[v + 1..c]) && KeyDue(options, s, i, done, head.lead)
    requires OpensBrace(options, s, i, v, key) && (done != [] ==> s[i] != ';')
    requires e == Find(s, i, '=') && head == Pair(head.lead, s[i..e], s[e + 1..v], EmptyValue)
    ensures FailsRightly(options, s, AfterBrace(options, s, c, v, key, head, done))
    decreases |s| - c, 1
  {
    hide Lookup, TrimRight, AtSemicolon, InBraces, KeyDue, Doubled, Explained;
    if c + 1 < |s| && s[c + 1] == '}' {
      MoreDoubled(s, v, c);
      if c + 2 == |s| {
        assert s[v + 1..] == s[v + 1..c + 2];
        FaultExplains(options, s, i, done, head.lead, UnescapedRightBrace(key));
      } else {
        InBracesFails(options, s, c + 2, i, v, e, key, head, done);
      }
    } else {
      var w := SkipBlanks(s, c + 1);
      var braced := head.(value := BracedValue(s[v + 1..c], s[c + 1..w]));
      if w < |s| && s[w] == ';' {
        BracedText(s, v, c, w);
        PairIsClosed(options, s, i, e, v, w, braced, done, head.lead);
        AtSemicolonFails(options, s, w, done + [braced]);
      } else if w < |s| {
        assert StrayBehind(s, v, c);
        FaultExplains(options, s, i, done, head.lead, InvalidValue(key));
      }
    }
  }

  /** A text of blanks is refused as such, and any other text that is refused has the fault its error names, behind a list of
      well-formed pairs. */
  lemma RefusedForItsFault(options: seq<ConnOption>, s: string)
    ensures Parse(options, s) == Failure(InvalidDsnString) <==> Blanks(s)
    ensures Parse(options, s).Failure? ==> Blanks(s) || Explained(options, s, Parse(options, s).error)
  {
    hide AtKey, Explained;
    var i := SkipBlanks(s, 0);
    if i < |s| {
      assert s[..i] == Closed([]) + s[..i];
      assert KeyDue(options, s, i, [], s[..i]);
      AtKeyFails(options, s, i, s[..i], []);
      NotBlank(options, s);
    }
  }

  lemma NotBlank(options: seq<ConnOption>, s: string)
    ensures !Explained(options, s, InvalidDsnString)
  {
  }
}
