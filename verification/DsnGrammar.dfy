/**
 The grammar of a PDO data source name, and the parser it defines: pairs of key and value, separated by semicolons;
 a value is empty, plain, or in braces with a closing brace doubled.
 */
module DsnGrammar {
  import opened Wrappers

  /** The options a connection knows: a name, and the key it is stored under. */
  datatype ConnOption = ConnOption(name: string, key: int)

  datatype DsnError =
    | InvalidDsnString | EndedUnexpectedly | InvalidKey(name: string) | RightBraceMissing(key: int)
    | UnescapedRightBrace(key: int) | InvalidValue(key: int) | ExtraSemicolon(at: nat)

  // ---------- syntax ----------

  datatype ValueSyntax = EmptyValue | PlainValue(text: string) | BracedValue(body: string, blanks: string)

  /** Blanks, the key with what follows it, an equals sign, blanks and the value. */
  datatype Pair = Pair(lead: string, key: string, gap: string, value: ValueSyntax)

  /** tail: the blanks behind a last semicolon. */
  datatype Dsn = Dsn(pairs: seq<Pair>, tail: Option<string>)

  predicate IsBlank(c: char) {
    c == ' ' || c == '\r' || c == '\n' || c == '\t'
  }

  predicate Blanks(s: string) {
    forall i :: 0 <= i < |s| ==> IsBlank(s[i])
  }

  /** Every closing brace in the body of a braced value is doubled. */
  predicate Doubled(s: string) {
    if s == "" then true
    else if s[0] != '}' then Doubled(s[1..])
    else |s| >= 2 && s[1] == '}' && Doubled(s[2..])
  }

  function Lower(c: char): char {
    if 'A' <= c <= 'Z' then c - 'A' + 'a' else c
  }

  predicate SameName(a: string, b: string) {
    |a| == |b| && forall i :: 0 <= i < |a| ==> Lower(a[i]) == Lower(b[i])
  }

  /** The first option of that name, case ignored. */
  function Lookup(options: seq<ConnOption>, name: string): Option<int> {
    if options == [] then None
    else if SameName(name, options[0].name) then Some(options[0].key) else Lookup(options[1..], name)
  }

  function TrimRight(s: string): string {
    if s != "" && IsBlank(s[|s| - 1]) then TrimRight(s[..|s| - 1]) else s
  }

  predicate WellFormedValue(v: ValueSyntax) {
    match v
    case EmptyValue => true
    case PlainValue(text) => text != "" && !IsBlank(text[0]) && text[0] != '{' && ';' !in text
    case BracedValue(body, blanks) => Doubled(body) && Blanks(blanks)
  }

  /** A key is anything up to the equals sign; behind a semicolon it does not start with another. */
  predicate WellFormedPair(options: seq<ConnOption>, p: Pair, first: bool) {
    && Blanks(p.lead) && Blanks(p.gap) && WellFormedValue(p.value)
    && '=' !in p.key && (p.key != "" ==> !IsBlank(p.key[0]) && (first || p.key[0] != ';'))
    && Lookup(options, TrimRight(p.key)).Some?
  }

  ghost predicate WellFormed(options: seq<ConnOption>, dsn: Dsn) {
    && dsn.pairs != []
    && (forall i :: 0 <= i < |dsn.pairs| ==> WellFormedPair(options, dsn.pairs[i], i == 0))
    && (dsn.tail.Some? ==> Blanks(dsn.tail.value))
  }

  function ValueText(v: ValueSyntax): string {
    match v
    case EmptyValue => ""
    case PlainValue(text) => text
    case BracedValue(body, blanks) => "{" + body + "}" + blanks
  }

  function PairText(p: Pair): string {
    p.lead + p.key + "=" + p.gap + ValueText(p.value)
  }

  function TailText(tail: Option<string>): string {
    if tail.None? then "" else ";" + tail.value
  }

  /** The text from pair k on. */
  function TextFrom(dsn: Dsn, k: nat): string
    requires k < |dsn.pairs|
    decreases |dsn.pairs| - k, 0
  {
    PairText(dsn.pairs[k]) + TextBehind(dsn, k + 1)
  }

  /** The text behind the first k pairs. */
  function TextBehind(dsn: Dsn, k: nat): string
    requires k <= |dsn.pairs|
    decreases |dsn.pairs| - k, 1
  {
    if k < |dsn.pairs| then ";" + TextFrom(dsn, k) else TailText(dsn.tail)
  }

  function DsnText(dsn: Dsn): string
    requires dsn.pairs != []
  {
    TextFrom(dsn, 0)
  }

  // ---------- meaning ----------

  /** What is stored of a value: a braced one keeps its braces and doubled braces. */
  function Stored(v: ValueSyntax): string {
    match v
    case EmptyValue => ""
    case PlainValue(text) => text
    case BracedValue(body, _) => "{" + body + "}"
  }

  /** The options that are set: the last value of each key. */
  function Meaning(options: seq<ConnOption>, pairs: seq<Pair>): map<int, string>
    requires forall i :: 0 <= i < |pairs| ==> Lookup(options, TrimRight(pairs[i].key)).Some?
  {
    if pairs == [] then map[]
    else
      var last := pairs[|pairs| - 1];
      Meaning(options, pairs[..|pairs| - 1])[Lookup(options, TrimRight(last.key)).value := Stored(last.value)]
  }

  /** The key a pair is stored under. */
  function KeyOfPair(options: seq<ConnOption>, p: Pair): Option<int> {
    Lookup(options, TrimRight(p.key))
  }

  /** Pair i is the last one of its key. */
  ghost predicate LastOfKey(options: seq<ConnOption>, pairs: seq<Pair>, i: nat) {
    i < |pairs| && forall j :: i < j < |pairs| ==> KeyOfPair(options, pairs[j]) != KeyOfPair(options, pairs[i])
  }

  /** Nothing for an empty value, the text of a plain one, the body of a braced one in its braces. */
  predicate IsValue(v: ValueSyntax, found: string) {
    match v
    case EmptyValue => found == ""
    case PlainValue(text) => found == text
    case BracedValue(body, _) => found == "{" + body + "}"
  }

  /** Under the key of pair i stands its value. */
  predicate Holds(options: seq<ConnOption>, p: Pair, stored: map<int, string>) {
    var key := KeyOfPair(options, p);
    key.Some? && key.value in stored && IsValue(p.value, stored[key.value])
  }

  predicate HasKey(options: seq<ConnOption>, p: Pair, key: int) {
    KeyOfPair(options, p) == Some(key)
  }

  /** Each key has the value of its last pair, and nothing else is stored. */
  ghost predicate HoldsValues(options: seq<ConnOption>, pairs: seq<Pair>, stored: map<int, string>) {
    && (forall i: nat :: LastOfKey(options, pairs, i) ==> Holds(options, pairs[i], stored))
    && forall key :: key in stored ==> exists i :: 0 <= i < |pairs| && HasKey(options, pairs[i], key)
  }

  lemma {:induction false} MeaningHoldsValues(options: seq<ConnOption>, pairs: seq<Pair>)
    requires forall i :: 0 <= i < |pairs| ==> Lookup(options, TrimRight(pairs[i].key)).Some?
    ensures HoldsValues(options, pairs, Meaning(options, pairs))
  {
    hide Lookup, TrimRight, HoldsValues, Stored;
    if pairs == [] {
      NothingHeld(options);
    } else {
      var n := |pairs| - 1;
      MeaningHoldsValues(options, pairs[..n]);
      assert pairs == pairs[..n] + [pairs[n]];
      HoldsOneMore(options, pairs[..n], pairs[n], Meaning(options, pairs[..n]));
    }
  }

  lemma NothingHeld(options: seq<ConnOption>)
    ensures HoldsValues(options, [], map[])
  {
  }

  lemma HoldsOneMore(options: seq<ConnOption>, front: seq<Pair>, p: Pair, stored: map<int, string>)
    requires HoldsValues(options, front, stored) && KeyOfPair(options, p).Some?
    ensures HoldsValues(options, front + [p], stored[KeyOfPair(options, p).value := Stored(p.value)])
  {
    hide KeyOfPair, Stored, IsValue;
    var pairs, n, after := front + [p], |front|, stored[KeyOfPair(options, p).value := Stored(p.value)];
    StoredIsValue(p.value);
    forall i: nat | LastOfKey(options, pairs, i) ensures Holds(options, pairs[i], after) {
      if i < n {
        assert pairs[i] == front[i] && KeyOfPair(options, pairs[n]) != KeyOfPair(options, pairs[i]);
        assert LastOfKey(options, front, i) by {
          forall j | i < j < |front| ensures KeyOfPair(options, front[j]) != KeyOfPair(options, front[i]) {
            assert pairs[j] == front[j];
          }
        }
      }
    }
    forall key | key in after ensures exists i :: 0 <= i < |pairs| && HasKey(options, pairs[i], key) {
      if key == KeyOfPair(options, p).value {
        assert HasKey(options, pairs[n], key);
      } else {
        var i :| 0 <= i < |front| && HasKey(options, front[i], key);
        assert HasKey(options, pairs[i], key);
      }
    }
  }

  lemma StoredIsValue(v: ValueSyntax)
    ensures IsValue(v, Stored(v))
  {
  }

  // ---------- names ----------

  /** The letter in the other case, or the character itself. */
  function OtherCase(c: char): char {
    if 'a' <= c <= 'z' then (c as int - 32) as char else if 'A' <= c <= 'Z' then (c as int + 32) as char else c
  }

  /** Two names are the same when each character is the same or the same letter in the other case. */
  lemma CaseIsIgnored(a: string, b: string)
    ensures SameName(a, b) <==> |a| == |b| && forall i :: 0 <= i < |a| ==> a[i] == b[i] || a[i] == OtherCase(b[i])
  {
    if |a| == |b| {
      forall i | 0 <= i < |a| ensures Lower(a[i]) == Lower(b[i]) <==> a[i] == b[i] || a[i] == OtherCase(b[i]) {
      }
    }
  }

  /** The option found is the first of that name, and none is found exactly when there is none. */
  lemma {:induction false} LookupFindsFirst(options: seq<ConnOption>, name: string)
    ensures match Lookup(options, name)
            case None => forall i :: 0 <= i < |options| ==> !SameName(name, options[i].name)
            case Some(key) =>
              exists i :: 0 <= i < |options| && SameName(name, options[i].name) && options[i].key == key
                          && forall j :: 0 <= j < i ==> !SameName(name, options[j].name)
  {
    hide SameName;
    if options != [] && !SameName(name, options[0].name) {
      var rest := options[1..];
      LookupFindsFirst(rest, name);
      if Lookup(rest, name).Some? {
        var i :| 0 <= i < |rest| && SameName(name, rest[i].name) && rest[i].key == Lookup(rest, name).value
                 && forall j :: 0 <= j < i ==> !SameName(name, rest[j].name);
        assert options[i + 1] == rest[i];
        forall j | 0 <= j < i + 1 ensures !SameName(name, options[j].name) {
          if j > 0 {
            assert options[j] == rest[j - 1];
          }
        }
      } else {
        forall i | 0 <= i < |options| ensures !SameName(name, options[i].name) {
          if i > 0 {
            assert options[i] == rest[i - 1];
          }
        }
      }
    }
  }

  /** A name is cut down to its last character that is no blank. */
  lemma {:induction false} TrimRightIsCut(s: string)
    ensures var t := TrimRight(s);
            t <= s && (t != "" ==> !IsBlank(t[|t| - 1])) && forall i :: |t| <= i < |s| ==> IsBlank(s[i])
  {
    if s != "" && IsBlank(s[|s| - 1]) {
      TrimRightIsCut(s[..|s| - 1]);
    }
  }

  // ---------- the parser, one function per state ----------

  function SkipBlanks(s: string, i: nat): (j: nat)
    requires i <= |s|
    ensures i <= j <= |s| && (forall k :: i <= k < j ==> IsBlank(s[k])) && (j < |s| ==> !IsBlank(s[j]))
    decreases |s| - i
  {
    if i < |s| && IsBlank(s[i]) then SkipBlanks(s, i + 1) else i
  }

  function Find(s: string, i: nat, c: char): (j: nat)
    requires i <= |s|
    ensures i <= j <= |s| && (forall k :: i <= k < j ==> s[k] != c) && (j < |s| ==> s[j] == c)
    decreases |s| - i
  {
    if i < |s| && s[i] != c then Find(s, i + 1, c) else i
  }

  function Parse(options: seq<ConnOption>, s: string): Result<Dsn, DsnError> {
    var i := SkipBlanks(s, 0);
    if i == |s| then Failure(InvalidDsnString) else AtKey(options, s, i, s[..i], [])
  }

  function AtKey(options: seq<ConnOption>, s: string, i: nat, lead: string, done: seq<Pair>): Result<Dsn, DsnError>
    requires i <= |s|
    decreases |s| - i, 4
  {
    var e := Find(s, i, '=');
    if e == |s| then Failure(EndedUnexpectedly)
    else
      var name := TrimRight(s[i..e]);
      var key := Lookup(options, name);
      if key.None? then Failure(InvalidKey(name)) else AtValue(options, s, e, key.value, lead, s[i..e], done)
  }

  function AtValue(options: seq<ConnOption>, s: string, e: nat, key: int, lead: string, name: string, done: seq<Pair>)
    : Result<Dsn, DsnError>
    requires e < |s|
    decreases |s| - e, 3
  {
    var v := SkipBlanks(s, e + 1);
    var head := Pair(lead, name, s[e + 1..v], EmptyValue);
    if v == |s| then Success(Dsn(done + [head], None))
    else if s[v] == ';' then AtSemicolon(options, s, v, done + [head])
    else if s[v] == '{' then InBraces(options, s, v, v, key, head, done)
    else
      var end := Find(s, v, ';');
      var plain := head.(value := PlainValue(s[v..end]));
      if end == |s| then Success(Dsn(done + [plain], None)) else AtSemicolon(options, s, end, done + [plain])
  }

  /** Looking for a closing brace from i on, in a value that was opened at open. */
  function InBraces(options: seq<ConnOption>, s: string, i: nat, open: nat, key: int, head: Pair, done: seq<Pair>)
    : Result<Dsn, DsnError>
    requires open <= i <= |s|
    decreases |s| - i, 2
  {
    var c := Find(s, i, '}');
    if c == |s| then Failure(RightBraceMissing(key)) else AfterBrace(options, s, c, open, key, head, done)
  }

  function AfterBrace(options: seq<ConnOption>, s: string, c: nat, open: nat, key: int, head: Pair, done: seq<Pair>)
    : Result<Dsn, DsnError>
    requires open <= c < |s|
    decreases |s| - c, 1
  {
    if c + 1 < |s| && s[c + 1] == '}' then
      if c + 2 == |s| then Failure(UnescapedRightBrace(key)) else InBraces(options, s, c + 2, open, key, head, done)
    else
      var w := SkipBlanks(s, c + 1);
      var braced := head.(value := BracedValue(if open < c then s[open + 1..c] else "", s[c + 1..w]));
      if w == |s| then Success(Dsn(done + [braced], None))
      else if s[w] == ';' then AtSemicolon(options, s, w, done + [braced])
      else Failure(InvalidValue(key))
  }

  function AtSemicolon(options: seq<ConnOption>, s: string, i: nat, done: seq<Pair>): Result<Dsn, DsnError>
    requires i < |s|
    decreases |s| - i, 0
  {
    var n := SkipBlanks(s, i + 1);
    if n == |s| then Success(Dsn(done, Some(s[i + 1..])))
    else if s[n] == ';' then Failure(ExtraSemicolon(n))
    else AtKey(options, s, n, s[i + 1..n], done)
  }
}
