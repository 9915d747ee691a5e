/**
 The connection string the driver builds (core_conn.cpp): values in braces, checked before that their closing braces are
 doubled, and what the parser of data source names makes of it.
 */
module ConnString {
  import opened Wrappers
  import opened DsnGrammar
  import opened DsnRoundTrip

  datatype Item = Item(name: string, value: string)

  /** A value without the braces it may come in. */
  function Inner(value: string): string {
    if |value| > 1 && value[0] == '{' && value[|value| - 1] == '}' then value[1..|value| - 1] else value
  }

  /** A value in braces is the value inside them, any other is itself. */
  lemma InnerOfBraces(value: string)
    ensures forall v :: value == "{" + v + "}" ==> Inner(value) == v
    ensures (forall v :: value != "{" + v + "}") ==> Inner(value) == value
  {
    forall v | value == "{" + v + "}" ensures Inner(value) == v {
      assert value[1..|value| - 1] == v;
    }
    if Inner(value) != value {
      assert value == "{" + Inner(value) + "}";
    }
  }

  lemma DoubledStep(s: string, i: nat)
    requires i < |s|
    ensures Doubled(s[i..]) == if s[i] != '}' then Doubled(s[i + 1..]) else i + 1 < |s| && s[i + 1] == '}' && Doubled(s[i + 2..])
  {
    var t := s[i..];
    assert t[0] == s[i] && t[1..] == s[i + 1..];
    if i + 1 < |s| {
      assert t[1] == s[i + 1] && t[2..] == s[i + 2..];
    }
  }

  /** core_is_conn_opt_value_escaped: every closing brace inside the value is doubled. */
  method IsConnOptValueEscaped(value: string) returns (escaped: bool)
    ensures escaped == Doubled(Inner(value))
    ensures forall v :: value == "{" + v + "}" ==> escaped == Doubled(v)
    ensures |value| <= 1 || value[0] != '{' || value[|value| - 1] != '}' ==> escaped == Doubled(value)
  {
    hide Doubled;
    InnerOfBraces(value);
    if |value| == 0 {
      NothingToDouble();
      return true;
    }
    if |value| == 1 {
      NothingToDouble();
      DoubledStep(value, 0);
      assert value[0..] == value && value[1..] == "";
      return value[0] != '}';
    }
    var inner := value;
    if value[0] == '{' && value[|value| - 1] == '}' {
      inner := value[1..|value| - 1];
    }
    assert inner[0..] == inner;
    var i := 0;
    while i < |inner|
      invariant 0 <= i <= |inner| && Doubled(inner[i..]) == Doubled(Inner(value))
    {
      DoubledStep(inner, i);
      if inner[i] == '}' {
        if i + 1 == |inner| || inner[i + 1] != '}' {
          return false;
        }
        i := i + 1;
      }
      i := i + 1;
    }
    assert inner[i..] == "";
    NothingToDouble();
    return true;
  }

  lemma NothingToDouble()
    ensures Doubled("")
  {
  }

  /** common_conn_str_append_func */
  method Append(name: string, value: string, connStr: string) returns (longer: string)
    ensures longer == connStr + Printed(Item(name, value))
  {
    var inner := value;
    if |value| > 0 && value[0] == '{' && value[|value| - 1] == '}' {
      inner := value[1..|value| - 1];
    }
    longer := connStr + name;
    longer := longer + "={";
    longer := longer + inner;
    longer := longer + "};";
    assert longer == connStr + (name + "={" + inner + "};");
  }

  function Printed(item: Item): string {
    item.name + "={" + Inner(item.value) + "};"
  }

  function PrintedAll(items: seq<Item>, k: nat): string
    requires k <= |items|
    decreases |items| - k
  {
    if k == |items| then "" else Printed(items[k]) + PrintedAll(items, k + 1)
  }

  /** A name that the parser finds among the options, as it stands. */
  predicate UsableName(options: seq<ConnOption>, name: string) {
    && name != "" && '=' !in name && !IsBlank(name[0]) && name[0] != ';' && Lookup(options, TrimRight(name)).Some?
  }

  ghost predicate UsableNames(options: seq<ConnOption>, items: seq<Item>) {
    items != [] && forall i :: 0 <= i < |items| ==> UsableName(options, items[i].name)
  }

  function AsPair(item: Item): Pair {
    Pair("", item.name, "", BracedValue(Inner(item.value), ""))
  }

  /** The reading that is meant: one pair for each item, and nothing behind the last semicolon. */
  function AsDsn(items: seq<Item>): Dsn {
    Dsn(seq(|items|, i requires 0 <= i < |items| => AsPair(items[i])), Some(""))
  }

  lemma PairIsPrinted(item: Item)
    ensures Printed(item) == PairText(AsPair(item)) + ";"
  {
    hide Inner;
    var inner := Inner(item.value);
    assert ValueText(BracedValue(inner, "")) == "{" + inner + "}";
    assert PairText(AsPair(item)) == item.name + "={" + inner + "}";
  }

  lemma {:induction false} PrintedIsText(items: seq<Item>, k: nat)
    requires k < |items|
    ensures TextFrom(AsDsn(items), k) == PrintedAll(items, k)
    decreases |items| - k
  {
    hide PairText, AsPair, Printed;
    var dsn, pair := AsDsn(items), PairText(AsPair(items[k]));
    PairIsPrinted(items[k]);
    assert dsn.pairs[k] == AsPair(items[k]);
    if k + 1 < |items| {
      PrintedIsText(items, k + 1);
      assert pair + (";" + PrintedAll(items, k + 1)) == pair + ";" + PrintedAll(items, k + 1);
    } else {
      assert pair + ";" + "" == pair + (";" + "");
    }
  }

  lemma MeantIsWellFormed(options: seq<ConnOption>, items: seq<Item>)
    requires UsableNames(options, items)
    ensures WellFormed(options, AsDsn(items)) <==> forall i :: 0 <= i < |items| ==> Doubled(Inner(items[i].value))
  {
    hide Lookup, TrimRight, Doubled, Inner;
    var dsn := AsDsn(items);
    forall i | 0 <= i < |items|
      ensures WellFormedPair(options, dsn.pairs[i], i == 0) <==> Doubled(Inner(items[i].value))
    {
      assert UsableName(options, items[i].name);
    }
    assert WellFormed(options, dsn) <==> forall i :: 0 <= i < |items| ==> WellFormedPair(options, dsn.pairs[i], i == 0);
  }

  /** What is printed is parsed back to the same keys and values exactly when every value passes the check. */
  lemma PrintThenParse(options: seq<ConnOption>, items: seq<Item>)
    requires UsableNames(options, items)
    ensures Parse(options, PrintedAll(items, 0)) == Success(AsDsn(items))
       <==> forall i :: 0 <= i < |items| ==> Doubled(Inner(items[i].value))
  {
    hide Parse, Doubled, Inner;
    PrintedIsText(items, 0);
    MeantIsWellFormed(options, items);
    if forall i :: 0 <= i < |items| ==> Doubled(Inner(items[i].value)) {
      DerivedIsAccepted(options, AsDsn(items));
    }
    AcceptedIsDerived(options, PrintedAll(items, 0));
  }

  function KeyOf(options: seq<ConnOption>, item: Item): int
    requires UsableName(options, item.name)
  {
    Lookup(options, TrimRight(item.name)).value
  }

  /** With distinct keys each value is stored under its key, in the braces the printer wrote. */
  lemma {:induction false} EveryValueStored(options: seq<ConnOption>, items: seq<Item>, i: nat, n: nat)
    requires UsableNames(options, items) && i < n <= |items|
    requires forall j, k :: 0 <= j < k < |items| ==> KeyOf(options, items[j]) != KeyOf(options, items[k])
    ensures forall k :: 0 <= k < n ==> Lookup(options, TrimRight(AsDsn(items).pairs[..n][k].key)).Some?
    ensures var stored := Meaning(options, AsDsn(items).pairs[..n]);
            && KeyOf(options, items[i]) in stored
            && (stored[KeyOf(options, items[i])] == items[i].value
                || stored[KeyOf(options, items[i])] == "{" + items[i].value + "}")
            && (stored[KeyOf(options, items[i])] == items[i].value <==> exists v :: items[i].value == "{" + v + "}")
  {
    hide Lookup, TrimRight, Inner;
    InnerOfBraces(items[i].value);
    var pairs := AsDsn(items).pairs;
    forall k | 0 <= k < n ensures Lookup(options, TrimRight(pairs[..n][k].key)).Some? {
      assert UsableName(options, items[k].name);
    }
    assert pairs[..n][..n - 1] == pairs[..n - 1];
    if i < n - 1 {
      EveryValueStored(options, items, i, n - 1);
      assert KeyOf(options, items[i]) != KeyOf(options, items[n - 1]);
    }
  }
}
