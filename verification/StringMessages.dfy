/**
 Messages of literal text and strings, the way the driver logs: the format is written from its parts, and the message is
 their texts one after the other.
 */
module StringMessages {
  import opened Wrappers
  import opened IntegerFormat
  import opened FormattedPrint
  import opened MessageFormat
  import opened ConversionText

  /** Text without a percent sign, an insert of a string, or a line break. */
  datatype Part = Literal(text: string) | StringOf(arg: nat) | NewLine

  predicate WellFormed(part: Part, slots: seq<int>, memory: map<int, string>) {
    match part
    case Literal(text) => '%' !in text && '\0' !in text
    case StringOf(n) => 1 <= n <= 99 && n <= |slots| && slots[n - 1] != 0 && slots[n - 1] in memory
    case NewLine => true
  }

  ghost predicate AllWellFormed(parts: seq<Part>, slots: seq<int>, memory: map<int, string>) {
    forall i :: 0 <= i < |parts| ==> WellFormed(parts[i], slots, memory)
  }

  /** A number of one or two digits. */
  function NumberText(n: nat): (s: string)
    requires 1 <= n <= 99
    ensures 1 <= |s| <= 2
  {
    var digits := "0123456789";
    if n < 10 then [digits[n]] else [digits[n / 10], digits[n % 10]]
  }

  function Written(part: Part): string
    requires part.StringOf? ==> 1 <= part.arg <= 99
  {
    match part
    case Literal(text) => text
    case StringOf(n) => "%" + NumberText(n) + "!s!"
    case NewLine => "%n"
  }

  function Shown(part: Part, slots: seq<int>, memory: map<int, string>): string
    requires WellFormed(part, slots, memory)
  {
    match part
    case Literal(text) => text
    case StringOf(n) => memory[slots[n - 1]]
    case NewLine => "\n"
  }

  function FormatOf(parts: seq<Part>): string
    requires forall i :: 0 <= i < |parts| && parts[i].StringOf? ==> 1 <= parts[i].arg <= 99
  {
    if parts == [] then "" else Written(parts[0]) + FormatOf(parts[1..])
  }

  function TextOf(parts: seq<Part>, slots: seq<int>, memory: map<int, string>): string
    requires AllWellFormed(parts, slots, memory)
  {
    if parts == [] then "" else Shown(parts[0], slots, memory) + TextOf(parts[1..], slots, memory)
  }

  // ---------- the pieces of such a format ----------

  function Characters(text: string): (pieces: seq<Piece>)
    ensures |pieces| == |text|
  {
    if text == "" then [] else [Character(text[0])] + Characters(text[1..])
  }

  function PiecesOfPart(part: Part): seq<Piece> {
    match part
    case Literal(text) => Characters(text)
    case StringOf(n) => [Insert(n, "s", Int64)]
    case NewLine => [Character('\n')]
  }

  function PiecesOf(parts: seq<Part>): seq<Piece> {
    if parts == [] then [] else PiecesOfPart(parts[0]) + PiecesOf(parts[1..])
  }

  predicate IsPlain(p: Piece, slots: seq<int>, memory: map<int, string>) {
    p.Insert? ==> 1 <= p.arg <= 99 && p.arg <= |slots| && slots[p.arg - 1] != 0 && slots[p.arg - 1] in memory && p.body == "s" && p.argType == Int64
  }

  ghost predicate AllPlain(pieces: seq<Piece>, slots: seq<int>, memory: map<int, string>) {
    forall k :: 0 <= k < |pieces| ==> IsPlain(pieces[k], slots, memory)
  }

  lemma {:induction false} CharactersArePlain(text: string, slots: seq<int>, memory: map<int, string>)
    ensures AllPlain(Characters(text), slots, memory)
  {
    if text != "" {
      CharactersArePlain(text[1..], slots, memory);
    }
  }

  lemma {:induction false} PiecesArePlain(parts: seq<Part>, slots: seq<int>, memory: map<int, string>)
    requires AllWellFormed(parts, slots, memory)
    ensures AllPlain(PiecesOf(parts), slots, memory)
  {
    if parts != [] {
      PiecesArePlain(parts[1..], slots, memory);
      if parts[0].Literal? {
        CharactersArePlain(parts[0].text, slots, memory);
      }
    }
  }

  /** Plain pieces agree on the sizes of their arguments, and ask for no more than there are. */
  lemma {:induction false} PlainIsConsistent(pieces: seq<Piece>, slots: seq<int>, memory: map<int, string>, k: nat)
    requires AllPlain(pieces, slots, memory) && k <= |pieces|
    ensures ConsistentlyTyped(pieces) && Provided(pieces, slots) && MaxArg(pieces, k) <= |slots|
  {
    if k > 0 {
      PlainIsConsistent(pieces, slots, memory, k - 1);
    }
  }

  // ---------- reading the format ----------

  lemma {:induction false} LiteralIsRead(format: string, i: nat, text: string, rest: string)
    requires '\0' !in format && i <= |format| && format[i..] == text + rest && '%' !in text && Pieces(format, i + |text|).Some?
    ensures Pieces(format, i) == Some(Characters(text) + Pieces(format, i + |text|).value)
    decreases |text|
  {
    if text == "" {
      assert Characters("") + Pieces(format, i).value == Pieces(format, i).value;
    } else {
      assert format[i] == format[i..][0] == text[0];
      assert format[i + 1..] == format[i..][1..] == text[1..] + rest;
      LiteralIsRead(format, i + 1, text[1..], rest);
      var behind := Pieces(format, i + |text|).value;
      assert Characters(text) + behind == [Character(text[0])] + (Characters(text[1..]) + behind);
    }
  }

  lemma StringIsRead(format: string, i: nat, n: nat, rest: string)
    requires '\0' !in format && i <= |format| && 1 <= n <= 99 && format[i..] == Written(StringOf(n)) + rest
    ensures ReadPiece(format, i) == Found(Insert(n, "s", Int64), i + |Written(StringOf(n))|)
  {
    hide ReadSpec, Number;
    var j := i + 1 + |NumberText(n)|;
    StandsAround(format, i, NumberText(n), rest);
    NumberIsRead(format, i + 1, n);
    hide NumberText;
    SpecOfString(format, j + 1);
    assert format[j + 1..j + 2] == "s";
  }

  lemma StandsAround(format: string, i: nat, number: string, rest: string)
    requires i <= |format| && 1 <= |number| <= 2 && format[i..] == "%" + number + "!s!" + rest
    ensures var j := i + 1 + |number|;
            && j + 3 <= |format| && format[i] == '%' && format[i + 1] == number[0] && (|number| == 2 ==> format[i + 2] == number[1])
            && format[j] == '!' && format[j + 1] == 's' && format[j + 2] == '!'
  {
    var w := "%" + number + "!s!";
    assert w[1] == number[0] && (|number| == 2 ==> w[2] == number[1]);
    assert w[1 + |number|] == '!' && w[2 + |number|] == 's' && w[3 + |number|] == '!';
    forall k | 0 <= k < |w| ensures format[i + k] == w[k] {
      assert format[i + k] == format[i..][k];
    }
  }

  lemma NumberIsRead(format: string, i: nat, n: nat)
    requires 1 <= n <= 99 && i + |NumberText(n)| < |format| && format[i] == NumberText(n)[0]
    requires |NumberText(n)| == 2 ==> format[i + 1] == NumberText(n)[1]
    requires format[i + |NumberText(n)|] == '!'
    ensures '1' <= format[i] <= '9' && Number(format, i) == (n, i + |NumberText(n)|)
  {
    if n >= 10 {
      DigitStands(n / 10);
      DigitStands(n % 10);
    } else {
      DigitStands(n);
    }
  }

  lemma DigitStands(n: nat)
    requires n <= 9
    ensures '0' <= "0123456789"[n] <= '9' && DigitOf("0123456789"[n]) == n && (n > 0 ==> '1' <= "0123456789"[n])
  {
  }

  lemma SpecOfString(format: string, i: nat)
    requires '\0' !in format && i + 1 < |format| && format[i] == 's' && format[i + 1] == '!'
    ensures ReadSpec(format, i, Percent, NO_FLAGS, Unknown) == Some(SpecEnd(i + 1, Int64))
  {
    assert GetState(GetCharType('s'), Percent) == Type;
    assert GetState(GetCharType('!'), Type) == Normal;
    assert ReadSpec(format, i + 1, Type, NO_FLAGS, Int64) == Some(SpecEnd(i + 1, Int64));
  }

  /** Nothing, or the mark that ends a format with whatever stands behind it. */
  predicate EndsFormat(tail: string) {
    tail == "" || (|tail| >= 2 && tail[0] == '%' && tail[1] == '0')
  }

  /** The pieces of one part stand in front of those of the rest. */
  lemma PartIsRead(format: string, i: nat, part: Part, slots: seq<int>, memory: map<int, string>, rest: string)
    requires WellFormed(part, slots, memory) && '\0' !in format && i + |Written(part)| <= |format| && format[i..] == Written(part) + rest
    requires Pieces(format, i + |Written(part)|).Some?
    ensures Pieces(format, i) == Some(PiecesOfPart(part) + Pieces(format, i + |Written(part)|).value)
  {
    hide ReadPiece, Written;
    match part
    case Literal(text) =>
      LiteralIsWritten(text);
      LiteralIsRead(format, i, text, rest);
    case StringOf(n) => StringIsRead(format, i, n, rest);
    case NewLine => NewLineIsRead(format, i, rest);
  }

  lemma {:induction false} FormatIsRead(format: string, i: nat, parts: seq<Part>, slots: seq<int>, memory: map<int, string>, tail: string)
    requires '\0' !in format && i <= |format| && AllWellFormed(parts, slots, memory) && format[i..] == FormatOf(parts) + tail
    requires EndsFormat(tail)
    ensures Pieces(format, i) == Some(PiecesOf(parts))
    decreases |parts|
  {
    hide ReadPiece, Written, EndsFormat, PiecesOfPart;
    if parts == [] {
      EndIsRead(format, i, tail);
    } else {
      var part, rest := parts[0], FormatOf(parts[1..]) + tail;
      var next := i + |Written(part)|;
      assert format[i..] == Written(part) + rest;
      assert format[next..] == format[i..][|Written(part)|..] == rest;
      FormatIsRead(format, next, parts[1..], slots, memory, tail);
      hide Pieces;
      PartIsRead(format, i, part, slots, memory, rest);
    }
  }

  lemma EndIsRead(format: string, i: nat, tail: string)
    requires '\0' !in format && i <= |format| && format[i..] == "" + tail && EndsFormat(tail)
    ensures ReadPiece(format, i) == End
  {
    if tail != "" {
      assert format[i] == format[i..][0] && format[i + 1] == format[i..][1];
    }
  }

  lemma LiteralIsWritten(text: string)
    ensures Written(Literal(text)) == text
  {
  }

  lemma NewLineIsRead(format: string, i: nat, rest: string)
    requires '\0' !in format && i <= |format| && format[i..] == Written(NewLine) + rest
    ensures |Written(NewLine)| == 2 && ReadPiece(format, i) == Found(Character('\n'), i + 2)
  {
    assert format[i] == format[i..][0] == '%' && format[i + 1] == format[i..][1] == 'n';
  }

  // ---------- the message ----------

  lemma StringPieceText(n: nat, slots: seq<int>, memory: map<int, string>)
    requires 1 <= n <= |slots| && slots[n - 1] != 0 && slots[n - 1] in memory
    ensures PieceText(Insert(n, "s", Int64), slots, memory) == FormattedPrint.Text(memory[slots[n - 1]])
  {
    hide Formatted, Converted;
    var fmt, args := "%" + "s", [slots[n - 1]];
    assert fmt == "%s" && args[1..] == [];
    StringIsConverted(args[0], memory);
    StringStates();
    hide GetState, GetCharType;
    OneStep(fmt, Start(args), memory);
    OneStep(fmt, Going(1, Percent, NEW_CONVERSION, args, ""), memory);
    assert "" + memory[args[0]] == memory[args[0]];
    AtEnd(fmt, Going(2, Type, NEW_CONVERSION, [], memory[args[0]]), memory);
  }

  lemma StringStates()
    ensures GetState(GetCharType('%'), Normal) == Percent && GetState(GetCharType('s'), Percent) == Type
  {
  }

  lemma StringIsConverted(arg: int, memory: map<int, string>)
    requires arg != 0 && arg in memory
    ensures Converted(NEW_CONVERSION.(kind := 's'), arg, memory) == FormattedPrint.Text(memory[arg])
  {
    NotPadded(memory[arg]);
  }

  lemma NotPadded(text: string)
    ensures Justified(NEW_CONVERSION.(kind := 's'), text) == text
  {
    assert "" + "" + "" + text + "" == text;
  }

  /** The texts of pieces from k on. */
  lemma {:induction false} PlainPiecesText(pieces: seq<Piece>, k: nat, text: string, slots: seq<int>, memory: map<int, string>, done: string)
    requires AllPlain(pieces, slots, memory) && Provided(pieces, slots) && k + |text| <= |pieces| && pieces[k..k + |text|] == Characters(text)
    ensures MessageText(pieces, k, slots, memory, done) == MessageText(pieces, k + |text|, slots, memory, done + text)
    decreases |text|
  {
    if text == "" {
      assert done + text == done;
    } else {
      assert pieces[k] == pieces[k..k + |text|][0] == Character(text[0]);
      assert pieces[k + 1..k + |text|] == pieces[k..k + |text|][1..] == Characters(text[1..]);
      PlainPiecesText(pieces, k + 1, text[1..], slots, memory, done + [text[0]]);
      assert (done + [text[0]]) + text[1..] == done + text;
    }
  }

  lemma OnePartText(pieces: seq<Piece>, k: nat, part: Part, slots: seq<int>, memory: map<int, string>, done: string)
    requires WellFormed(part, slots, memory) && AllPlain(pieces, slots, memory) && Provided(pieces, slots)
    requires k + |PiecesOfPart(part)| <= |pieces| && pieces[k..k + |PiecesOfPart(part)|] == PiecesOfPart(part)
    ensures MessageText(pieces, k, slots, memory, done)
         == MessageText(pieces, k + |PiecesOfPart(part)|, slots, memory, done + Shown(part, slots, memory))
  {
    hide PieceText;
    match part
    case Literal(text) => PlainPiecesText(pieces, k, text, slots, memory, done);
    case StringOf(n) =>
      assert pieces[k] == pieces[k..k + 1][0];
      StringPieceText(n, slots, memory);
    case NewLine =>
      LineBreak();
      PlainPiecesText(pieces, k, "\n", slots, memory, done);
  }

  lemma LineBreak()
    ensures Characters("\n") == [Character('\n')]
  {
  }

  lemma {:induction false} PartsText(pieces: seq<Piece>, k: nat, parts: seq<Part>, slots: seq<int>, memory: map<int, string>, done: string)
    requires AllWellFormed(parts, slots, memory) && AllPlain(pieces, slots, memory) && Provided(pieces, slots)
    requires k <= |pieces| && pieces[k..] == PiecesOf(parts)
    ensures MessageText(pieces, k, slots, memory, done) == FormattedPrint.Text(done + TextOf(parts, slots, memory))
    decreases |parts|
  {
    hide PieceText, Provided, AllPlain, Shown, PiecesOfPart;
    if parts == [] {
      assert done + "" == done;
    } else {
      var part, mine := parts[0], PiecesOfPart(parts[0]);
      var next := k + |mine|;
      assert pieces[k..] == mine + PiecesOf(parts[1..]);
      assert pieces[k..next] == pieces[k..][..|mine|] == mine && pieces[next..] == pieces[k..][|mine|..] == PiecesOf(parts[1..]);
      var shown := Shown(part, slots, memory);
      OnePartText(pieces, k, part, slots, memory, done);
      PartsText(pieces, next, parts[1..], slots, memory, done + shown);
      assert (done + shown) + TextOf(parts[1..], slots, memory) == done + TextOf(parts, slots, memory);
    }
  }

  /** A format written from text, strings and line breaks, to its end or to the mark that ends it, is well-formed, and its
      message is the text of the parts. */
  lemma MessageOfParts(parts: seq<Part>, tail: string, slots: seq<int>, memory: map<int, string>)
    requires AllWellFormed(parts, slots, memory) && EndsFormat(tail) && '\0' !in tail
    ensures var format := FormatOf(parts) + tail;
            && '\0' !in format && Pieces(format, 0).Some? && ConsistentlyTyped(Pieces(format, 0).value)
            && MaxArg(Pieces(format, 0).value, |Pieces(format, 0).value|) <= |slots|
            && MessageOf(format, slots, memory) == FormattedPrint.Text(TextOf(parts, slots, memory))
  {
    hide Pieces, MessageText, MaxArg, ConsistentlyTyped, PiecesOf, FormatOf, TextOf, EndsFormat;
    var format, pieces := FormatOf(parts) + tail, PiecesOf(parts);
    NoTerminator(parts, slots, memory);
    assert format[0..] == format && pieces[0..] == pieces;
    FormatIsRead(format, 0, parts, slots, memory, tail);
    PiecesArePlain(parts, slots, memory);
    PlainIsConsistent(pieces, slots, memory, |pieces|);
    PartsText(pieces, 0, parts, slots, memory, "");
    assert "" + TextOf(parts, slots, memory) == TextOf(parts, slots, memory);
  }

  lemma {:induction false} NoTerminator(parts: seq<Part>, slots: seq<int>, memory: map<int, string>)
    requires AllWellFormed(parts, slots, memory)
    ensures '\0' !in FormatOf(parts)
  {
    hide Written;
    if parts != [] {
      NoTerminator(parts[1..], slots, memory);
      NoTerminatorWritten(parts[0], slots, memory);
    }
  }

  lemma NoTerminatorWritten(part: Part, slots: seq<int>, memory: map<int, string>)
    requires WellFormed(part, slots, memory)
    ensures '\0' !in Written(part)
  {
    if part.StringOf? {
      NumberHasDigits(part.arg);
      hide NumberText;
    }
  }

  lemma NumberHasDigits(n: nat)
    requires 1 <= n <= 99
    ensures '\0' !in NumberText(n)
  {
    DigitStands(n / 10);
    DigitStands(n % 10);
  }

  // ---------- inserts of numbers ----------

  /** Whole ranges more or less make no difference to the low bits. */
  lemma LowBits(x: int, y: int, range: nat, low: nat)
    requires range == INT_RANGE && (low == INT_RANGE || low == SHORT_RANGE) && (y - x) % range == 0
    ensures y % low == x % low
  {
    var k := (y - x) / range;
    assert y == x + k * range;
    if low == INT_RANGE {
      assert (x + k * INT_RANGE) % INT_RANGE == x % INT_RANGE;
    } else {
      assert (x + k * 0x1_0000 * SHORT_RANGE) % SHORT_RANGE == x % SHORT_RANGE;
    }
  }

  lemma MeantOfPassed(c: Conversion, slot: int)
    requires c.IsInteger()
    ensures Meant(c, Passed(slot, if c.Is64() then Int64 else Int32)) == Meant(c, slot)
  {
    if !c.Is64() {
      PassedIsArgument(slot, Int32);
      LowBits(slot, Passed(slot, Int32), INT_RANGE, INT_RANGE);
      LowBits(slot, Passed(slot, Int32), INT_RANGE, SHORT_RANGE);
      hide Passed;
    }
  }

  /** An insert of a number reads back as the argument it names. */
  lemma NumberInsertReadsBack(c: Conversion, n: nat, slots: seq<int>, memory: map<int, string>)
    requires c.IsInteger() && c.precision >= -1 && FitsInt(c) && |SpecText(c)| <= 30 && 1 <= n <= |slots|
    ensures '\0' !in SpecText(c)
    ensures var out := PieceText(Insert(n, SpecText(c), if c.Is64() then Int64 else Int32), slots, memory);
            && out.Text?
            && ReadBack(out.text, c.Radix()) ==
               if Meant(c, slots[n - 1]) == 0 && c.precision == 0 && !(c.kind == 'o' && c.flags.alternate) then None
               else Some(Meant(c, slots[n - 1]))
  {
    hide SpecText, Formatted, Meant, ReadBack, Passed;
    var arg := Passed(slots[n - 1], if c.Is64() then Int64 else Int32);
    PrintedNumberReadsBack(c, arg, memory);
    MeantOfPassed(c, slots[n - 1]);
    NoTerminatorIn(SpecText(c));
  }

  lemma NoTerminatorIn(s: string)
    requires Clean("%" + s)
    ensures '\0' !in s
  {
    forall i | 0 <= i < |s| ensures s[i] != '\0' {
      assert ("%" + s)[i + 1] == s[i];
    }
  }
}
