/**
 The parser of data source names as the automaton it is (pdo_parser.cpp): a cursor over the text, a state, and options
 stored as their values are read.
 */
module DsnParser {
  import opened Wrappers
  import opened DsnGrammar
  import opened DsnRoundTrip

  datatype States = FirstKeyValuePair | Key | Value | ValueContent1 | ValueContent2 | RCBEncountered | NextKeyValuePair

  /** strncasecmp with equal lengths */
  method EqualIgnoringCase(a: string, b: string) returns (same: bool)
    requires |a| == |b|
    ensures same == SameName(a, b)
  {
    for i := 0 to |a|
      invariant forall k :: 0 <= k < i ==> Lower(a[k]) == Lower(b[k])
    {
      if Lower(a[i]) != Lower(b[i]) {
        return false;
      }
    }
    return true;
  }

  lemma {:induction false} LookupFrom(options: seq<ConnOption>, name: string, i: nat)
    requires i <= |options| && forall k :: 0 <= k < i ==> !SameName(name, options[k].name)
    ensures Lookup(options, name) == Lookup(options[i..], name)
    decreases |options|
  {
    if i == 0 {
      assert options[0..] == options;
    } else {
      LookupFrom(options[1..], name, i - 1);
      assert options[1..][i - 1..] == options[i..];
    }
  }

  lemma OneMorePair(options: seq<ConnOption>, done: seq<Pair>, p: Pair)
    requires forall i :: 0 <= i < |done| ==> Lookup(options, TrimRight(done[i].key)).Some?
    requires Lookup(options, TrimRight(p.key)).Some?
    ensures forall i :: 0 <= i < |done + [p]| ==> Lookup(options, TrimRight((done + [p])[i].key)).Some?
    ensures Meaning(options, done + [p])
         == Meaning(options, done)[Lookup(options, TrimRight(p.key)).value := DsnGrammar.Stored(p.value)]
  {
    hide Lookup, TrimRight, DsnGrammar.Stored;
    assert (done + [p])[..|done|] == done;
  }

  class ConnStringParser {
    const options: seq<ConnOption>
    const passwordKey: int
    const text: string
    /** What happens to stand in memory before the text. */
    const before: char
    var pos: int
    var state: States
    var startPos: nat
    var currentKey: int
    var elements: map<int, string>
    var password: Option<string>
    ghost var done: seq<Pair>
    ghost var head: Pair
    /** Whether the character before the text has been read. */
    ghost var readBefore: bool

    constructor (options: seq<ConnOption>, passwordKey: int, text: string, before: char)
      ensures this.options == options && this.passwordKey == passwordKey && this.text == text && this.before == before
      ensures pos == -1 && Valid() && elements == map[] && password == None && !readBefore
    {
      this.options, this.passwordKey, this.text, this.before := options, passwordKey, text, before;
      pos, state, startPos, currentKey := -1, FirstKeyValuePair, 0, 0;
      elements, password := map[], None;
      done, head, readBefore := [], Pair("", "", "", EmptyValue), false;
    }

    ghost function Reading(): Result<Dsn, DsnError> {
      Parse(options, text)
    }

    /** Everything stored, the password included. */
    ghost function AllStored(): map<int, string>
      reads this`elements, this`password
    {
      if password.Some? then elements[passwordKey := password.value] else elements
    }

    /** What has been stored is the meaning of the pairs that have been read. */
    ghost predicate StoredInStep()
      reads this`elements, this`password, this`done
    {
      && (forall i :: 0 <= i < |done| ==> Lookup(options, TrimRight(done[i].key)).Some?)
      && AllStored() == Meaning(options, done) && passwordKey !in elements
    }

    /** The rest of the run reads what the grammar's parser reads from here. */
    ghost predicate ReadingInStep()
      reads this
    {
      match state
      case FirstKeyValuePair => pos == -1 && done == []
      case Key => 0 <= pos < |text| && !IsBlank(text[pos]) && Reading() == AtKey(options, text, pos, head.lead, done)
      case Value =>
        && 0 <= pos < |text| && text[pos] == '=' && Lookup(options, TrimRight(head.key)) == Some(currentKey)
        && Reading() == AtValue(options, text, pos, currentKey, head.lead, head.key, done)
      case ValueContent1 =>
        && startPos <= pos < |text| && Lookup(options, TrimRight(head.key)) == Some(currentKey)
        && text[startPos] == '{' && head.value == EmptyValue
        && Reading() == InBraces(options, text, pos, startPos, currentKey, head, done)
      case ValueContent2 =>
        && startPos == pos < |text| && Lookup(options, TrimRight(head.key)) == Some(currentKey) && head.value == EmptyValue
        && text[pos] != ';'
        && var end := Find(text, pos, ';');
           var read := done + [head.(value := PlainValue(text[pos..end]))];
           Reading() == if end == |text| then Success(Dsn(read, None)) else AtSemicolon(options, text, end, read)
      case RCBEncountered =>
        && startPos < pos < |text| && text[pos] == '}' && text[startPos] == '{'
        && Lookup(options, TrimRight(head.key)) == Some(currentKey) && head.value == EmptyValue
        && Reading() == AfterBrace(options, text, pos, startPos, currentKey, head, done)
      case NextKeyValuePair =>
        0 <= pos < |text| && text[pos] == ';' && Reading() == AtSemicolon(options, text, pos, done)
    }

    ghost predicate Valid()
      reads this
    {
      && -1 <= pos <= |text| && StoredInStep() && (state.FirstKeyValuePair? ==> pos == -1)
      && (readBefore <==> StartsWithoutKey(text) && !state.FirstKeyValuePair? && !(state.Key? && pos == 0))
      && if pos == |text| then Reading().Success? && Reading().value.pairs == done else ReadingInStep()
    }

    ghost function Rank(): nat
      reads this
    {
      match state
      case FirstKeyValuePair => 6
      case Key => 5
      case Value => 4
      case ValueContent1 => 3
      case ValueContent2 => 2
      case RCBEncountered => 1
      case NextKeyValuePair => 0
    }

    method Next() returns (ok: bool)
      requires -1 <= pos <= |text|
      modifies this`pos
      ensures pos == (if old(pos) == |text| then |text| else old(pos) + 1) && ok == (pos < |text|)
    {
      if pos == |text| {
        return false;
      }
      pos := pos + 1;
      return pos < |text|;
    }

    method DiscardWhiteSpaces() returns (ok: bool)
      requires 0 <= pos <= |text|
      modifies this`pos
      ensures 0 <= pos <= |text| && pos == SkipBlanks(text, old(pos)) && ok == (pos < |text|)
    {
      if pos == |text| {
        return false;
      }
      while IsBlank(text[pos])
        invariant 0 <= pos < |text| && SkipBlanks(text, old(pos)) == SkipBlanks(text, pos)
        decreases |text| - pos
      {
        ok := Next();
        if !ok {
          return false;
        }
      }
      return true;
    }

    /** Moving to the next occurrence of a character. */
    method FindNext(c: char) returns (ok: bool)
      requires 0 <= pos < |text|
      modifies this`pos
      ensures 0 <= pos <= |text| && pos == Find(text, old(pos), c) && ok == (pos < |text|)
    {
      while text[pos] != c
        invariant 0 <= pos < |text| && Find(text, old(pos), c) == Find(text, pos, c)
        decreases |text| - pos
      {
        ok := Next();
        if !ok {
          return false;
        }
      }
      return true;
    }

    /** add_conn_option: a password goes to its own owner. */
    method AddConnOption(value: string, ghost p: Pair)
      requires StoredInStep() && Lookup(options, TrimRight(p.key)) == Some(currentKey) && DsnGrammar.Stored(p.value) == value
      modifies this`elements, this`password, this`done
      ensures StoredInStep() && done == old(done) + [p]
    {
      hide Lookup, TrimRight, DsnGrammar.Stored, Meaning;
      OneMorePair(options, done, p);
      ghost var before := AllStored();
      if currentKey == passwordKey {
        password := Some(value);
      } else {
        elements := elements[currentKey := value];
      }
      done := done + [p];
      assert AllStored() == before[currentKey := value];
    }

    /** A character of the text, or the one before it. */
    method Read(i: int) returns (c: char)
      requires -1 <= i < |text|
      modifies this`readBefore
      ensures c == (if i < 0 then before else text[i]) && readBefore == (old(readBefore) || i < 0)
    {
      if i < 0 {
        readBefore := true;
      }
      return if i < 0 then before else text[i];
    }

    /** discard_trailing_white_spaces, on the key at start. The length is looked at behind the character, so for a key of
        blanks the character before the key is read too. */
    method DiscardTrailingWhiteSpaces(start: nat, bufLen: nat) returns (n: nat)
      requires start + bufLen <= |text|
      modifies this`readBefore
      ensures n <= bufLen && text[start..start + n] == TrimRight(text[start..start + bufLen])
      ensures readBefore == (old(readBefore) || (start == 0 && TrimRight(text[start..start + bufLen]) == ""))
    {
      n := bufLen;
      ghost var key := text[start..start + bufLen];
      assert key[..n] == key == text[start..start + n];
      var c := Read(start + n - 1);
      while IsBlank(c) && n > 0
        invariant n <= bufLen && c == (if start + n - 1 < 0 then before else text[start + n - 1])
        invariant text[start..start + n] == key[..n] && TrimRight(key[..n]) == TrimRight(key)
        invariant readBefore == (old(readBefore) || (start == 0 && n == 0))
      {
        assert key[..n][..n - 1] == key[..n - 1];
        n := n - 1;
        c := Read(start + n - 1);
      }
    }

    /** validate_key, on the key at start */
    method ValidateKey(start: nat, keyLen: nat) returns (error: Option<DsnError>)
      requires start + keyLen <= |text|
      modifies this`currentKey, this`readBefore
      ensures var key := text[start..start + keyLen];
              && readBefore == (old(readBefore) || (start == 0 && TrimRight(key) == ""))
              && match Lookup(options, TrimRight(key))
                 case Some(found) => error == None && currentKey == found
                 case None => error == Some(InvalidKey(TrimRight(key)))
    {
      hide SameName, TrimRight;
      var newLen := DiscardTrailingWhiteSpaces(start, keyLen);
      var key := text[start..start + newLen];
      for i := 0 to |options|
        invariant forall k :: 0 <= k < i ==> !SameName(key, options[k].name)
        invariant readBefore == (old(readBefore) || (start == 0 && TrimRight(text[start..start + keyLen]) == ""))
      {
        if newLen == |options[i].name| {
          var same := EqualIgnoringCase(key, options[i].name);
          if same {
            LookupFrom(options, key, i);
            assert options[i..][0] == options[i] && Lookup(options, key) == Some(options[i].key);
            currentKey := options[i].key;
            return None;
          }
        } else {
          DifferentLength(key, options[i].name);
        }
      }
      LookupFrom(options, key, |options|);
      return Some(InvalidKey(key));
    }

    // ---------- the states ----------

    method AtFirstKeyValuePair() returns (error: Option<DsnError>)
      requires Valid() && state.FirstKeyValuePair? && pos < |text|
      modifies this
      ensures error.None? ==> Valid() && 0 <= pos < |text|
      ensures error.Some? ==> Reading() == Failure(error.value) && (readBefore <==> StartsWithoutKey(text))
    {
      hide AtKey;
      var ok := Next();
      if ok {
        ok := DiscardWhiteSpaces();
      }
      if !ok {
        return Some(InvalidDsnString);
      }
      head := Pair(text[..pos], "", "", EmptyValue);
      state := Key;
      return None;
    }

    method AtKeyState() returns (error: Option<DsnError>)
      requires Valid() && state.Key? && pos < |text|
      modifies this
      ensures error.None? ==> Valid() && state.Value? && pos >= old(pos)
      ensures error.Some? ==> Reading() == Failure(error.value) && (readBefore <==> StartsWithoutKey(text))
    {
      hide AtValue, Lookup, TrimRight, StoredInStep;
      startPos := pos;
      var ok := FindNext('=');
      if !ok {
        assert text[startPos] != '=';
        return Some(EndedUnexpectedly);
      }
      EmptyKey(text[startPos..startPos]);
      error := ValidateKey(startPos, pos - startPos);
      if startPos < pos {
        KeyIsNotBlank(text[startPos..pos]);
      }
      if error.Some? {
        return;
      }
      head := Pair(head.lead, text[startPos..pos], "", EmptyValue);
      state := Value;
    }

    method AtValueState()
      requires Valid() && state.Value? && pos < |text|
      modifies this
      ensures Valid() && pos > old(pos)
    {
      hide AtSemicolon, InBraces, Lookup, TrimRight, StoredInStep;
      ghost var e := pos;
      var ok := Next();
      if ok {
        ok := DiscardWhiteSpaces();
      }
      head := Pair(head.lead, head.key, text[e + 1..pos], EmptyValue);
      if !ok || text[pos] == ';' {
        AddConnOption("", head);
        if pos < |text| {
          state := NextKeyValuePair;
        }
      } else if text[pos] == '{' {
        startPos := pos;
        state := ValueContent1;
      } else {
        startPos := pos;
        state := ValueContent2;
      }
    }

    method AtValueContent1() returns (error: Option<DsnError>)
      requires Valid() && state.ValueContent1? && pos < |text|
      modifies this
      ensures error.None? ==> Valid() && state.RCBEncountered? && pos >= old(pos)
      ensures error.Some? ==> Reading() == Failure(error.value) && (readBefore <==> StartsWithoutKey(text))
    {
      hide AfterBrace, Lookup, TrimRight, StoredInStep;
      var ok := FindNext('}');
      if !ok {
        return Some(RightBraceMissing(currentKey));
      }
      state := RCBEncountered;
      return None;
    }

    method AtValueContent2()
      requires Valid() && state.ValueContent2? && pos < |text|
      modifies this
      ensures Valid() && pos > old(pos)
    {
      hide AtSemicolon, Lookup, TrimRight, StoredInStep;
      var ok := FindNext(';');
      if ok {
        state := NextKeyValuePair;
      }
      AddConnOption(text[startPos..pos], head.(value := PlainValue(text[startPos..pos])));
    }

    method AtRCBEncountered() returns (error: Option<DsnError>)
      requires Valid() && state.RCBEncountered? && pos < |text|
      modifies this
      ensures error.None? ==> Valid() && pos > old(pos)
      ensures error.Some? ==> Reading() == Failure(error.value) && (readBefore <==> StartsWithoutKey(text))
    {
      hide AtSemicolon, InBraces, Lookup, TrimRight, StoredInStep, Parse;
      ghost var c := pos;
      var ok := Next();
      if ok && text[pos] == '}' {
        ok := Next();
        if !ok {
          return Some(UnescapedRightBrace(currentKey));
        }
        state := ValueContent1;
        return None;
      }
      error := EndBracedValue(c);
    }

    /** Behind the closing brace of a value: blanks, and then a semicolon or the end. */
    method EndBracedValue(ghost c: nat) returns (error: Option<DsnError>)
      requires StoredInStep() && startPos < c < pos <= |text| && pos == c + 1 && text[startPos] == '{' && text[c] == '}'
      requires Lookup(options, TrimRight(head.key)) == Some(currentKey) && head.value == EmptyValue
      requires state.RCBEncountered? && (readBefore <==> StartsWithoutKey(text)) && (pos < |text| ==> text[pos] != '}')
      requires Reading() == AfterBrace(options, text, c, startPos, currentKey, head, done)
      modifies this
      ensures error.None? ==> Valid() && pos >= old(pos)
      ensures error.Some? ==> Reading() == Failure(error.value) && (readBefore <==> StartsWithoutKey(text))
    {
      hide AtSemicolon, InBraces, Lookup, TrimRight, StoredInStep, Parse;
      var endPos := pos;
      if pos < |text| && IsBlank(text[pos]) {
        var ok := DiscardWhiteSpaces();
      }
      assert pos == SkipBlanks(text, endPos);
      ghost var braced := head.(value := BracedValue(text[startPos + 1..c], text[endPos..pos]));
      InBracesIs(text, startPos, c);
      if pos == |text| {
        AddConnOption(text[startPos..endPos], braced);
        return None;
      }
      if text[pos] == ';' {
        AddConnOption(text[startPos..endPos], braced);
        state := NextKeyValuePair;
        return None;
      }
      return Some(InvalidValue(currentKey));
    }

    method AtNextKeyValuePair() returns (error: Option<DsnError>)
      requires Valid() && state.NextKeyValuePair? && pos < |text|
      modifies this
      ensures error.None? ==> Valid() && pos > old(pos)
      ensures error.Some? ==> Reading() == Failure(error.value) && (readBefore <==> StartsWithoutKey(text))
    {
      hide AtKey, StoredInStep;
      ghost var semicolon := pos;
      var ok := Next();
      if ok {
        ok := DiscardWhiteSpaces();
      }
      if !ok {
        return None;
      }
      if text[pos] == ';' {
        return Some(ExtraSemicolon(pos));
      }
      head := Pair(text[semicolon + 1..pos], "", "", EmptyValue);
      state := Key;
      return None;
    }

    /** parse_conn_string: it ends on every text, with the error of the grammar's parser or with its meaning stored. The
        character before the text is read exactly for a text that starts with the sign behind a key. */
    method ParseConnString() returns (error: Option<DsnError>)
      requires Valid() && pos == -1 && state.FirstKeyValuePair?
      modifies this
      ensures match Reading()
              case Failure(e) => error == Some(e)
              case Success(dsn) =>
                && error == None && pos == |text| && done == dsn.pairs && StoredInStep()
                && HoldsValues(options, dsn.pairs, AllStored())
      ensures forall dsn :: WellFormed(options, dsn) && text == DsnText(dsn) ==>
                error == None && HoldsValues(options, dsn.pairs, AllStored())
      ensures readBefore <==> StartsWithoutKey(text)
    {
      hide Parse, AtKey, AtValue, InBraces, AfterBrace, AtSemicolon, Meaning, Lookup, TrimRight, HoldsValues, DsnText;
      forall dsn | WellFormed(options, dsn) && text == DsnText(dsn) ensures Reading() == Success(dsn) {
        DerivedIsAccepted(options, dsn);
      }
      error := None;
      while pos != |text|
        invariant Valid() && error.None?
        decreases |text| - pos, Rank()
      {
        match state {
          case FirstKeyValuePair => error := AtFirstKeyValuePair();
          case Key => error := AtKeyState();
          case Value => AtValueState();
          case ValueContent1 => error := AtValueContent1();
          case ValueContent2 => AtValueContent2();
          case RCBEncountered => error := AtRCBEncountered();
          case NextKeyValuePair => error := AtNextKeyValuePair();
        }
        if error.Some? {
          return;
        }
      }
      MeaningHoldsValues(options, done);
    }
  }

  lemma InBracesIs(s: string, open: nat, close: nat)
    requires open < close < |s| && s[open] == '{' && s[close] == '}'
    ensures s[open..close + 1] == "{" + s[open + 1..close] + "}"
  {
    var a, b := s[open..close + 1], "{" + s[open + 1..close] + "}";
    assert |a| == |b|;
    forall k | 0 <= k < |a| ensures a[k] == b[k] {
      assert 0 < k < |a| - 1 ==> b[k] == s[open + 1..close][k - 1];
    }
  }

  /** The first key of the text is empty. */
  predicate StartsWithoutKey(text: string) {
    text != "" && text[0] == '='
  }

  /** =x reads the character before it, and is an error unless an option has no name. */
  lemma KeyIsMissing(options: seq<ConnOption>)
    requires Lookup(options, "") == None
    ensures StartsWithoutKey("=x") && Parse(options, "=x") == Failure(InvalidKey(""))
  {
    assert Find("=x", 0, '=') == 0 && "=x"[0..0] == "" && SkipBlanks("=x", 0) == 0;
  }

  lemma EmptyKey(key: string)
    ensures key == "" ==> TrimRight(key) == ""
  {
  }

  lemma {:induction false} KeyIsNotBlank(key: string)
    requires key != "" && !IsBlank(key[0])
    ensures TrimRight(key) != ""
  {
    if |key| > 1 {
      KeyIsNotBlank(key[..|key| - 1]);
    }
  }

  lemma DifferentLength(a: string, b: string)
    requires |a| != |b|
    ensures !SameName(a, b)
  {
  }
}
