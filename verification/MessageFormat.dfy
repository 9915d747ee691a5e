/**
 Message formats (FormattedPrint.cpp, FormatMessage): characters, escapes, and inserts of numbered arguments with the
 conversion they ask for.
 */
module MessageFormat {
  import opened Wrappers
  import opened IntegerFormat
  import opened FormattedPrint

  const MAX_BODY := 30

  /** The size of an argument in the list; a pointer takes 64 bits. */
  datatype ArgType = Unknown | Int32 | Int64

  datatype Piece = Character(c: char) | Insert(arg: nat, body: string, argType: ArgType)

  datatype PieceRead = Found(piece: Piece, next: nat) | End | Malformed

  // ---------- the conversion of an insert ----------

  function TypeOfConversion(ch: char, flags: Flags): ArgType {
    if ch == 'c' || ch == 'C' then Int32
    else if ch == 'd' || ch == 'i' || ch == 'u' || ch == 'x' || ch == 'X' || ch == 'o' then
      if flags.i64 || flags.longLong then Int64 else Int32
    else if ch == 's' || ch == 'S' || ch == 'p' then Int64
    else Unknown
  }

  /** A conversion is given an argument of 64 bits exactly when it prints 64 bits of it, as it does of a pointer. */
  lemma SizeIsThatOfConversion(c: Conversion)
    ensures c.IsInteger() ==> TypeOfConversion(c.kind, c.flags) == if c.flags.i64 || c.flags.longLong then Int64 else Int32
    ensures c.kind in {'s', 'S', 'p'} ==> TypeOfConversion(c.kind, c.flags) == Int64
    ensures c.kind in {'c', 'C'} ==> TypeOfConversion(c.kind, c.flags) == Int32
  {
  }

  datatype SpecEnd = SpecEnd(end: nat, argType: ArgType)

  /** A conversion up to the exclamation mark behind it. Nothing inside it starts another insert. */
  function ReadSpec(format: string, i: nat, state: State, flags: Flags, argType: ArgType): (r: Option<SpecEnd>)
    requires '\0' !in format && i <= |format|
    ensures r.Some? ==> i <= r.value.end < |format| && format[r.value.end] == '!'
    ensures r.Some? ==> !r.value.argType.Unknown?
    ensures r.Some? ==> forall k :: i <= k < r.value.end ==> format[k] != '%'
    decreases |format| - i
  {
    if i == |format| then None
    else
      var ch := format[i];
      var next := GetState(GetCharType(ch), state);
      match next
      case Dot | Flag => ReadSpec(format, i + 1, next, flags, argType)
      case Width | Precis => if ch == '*' then None else ReadSpec(format, i + 1, next, flags, argType)
      case Size =>
        var (st, advance, newFlags) := ProcessSize(ch, format, i + 1, flags);
        if st.Normal? then None else ReadSpec(format, i + 1 + advance, Size, newFlags, argType)
      case Type =>
        var t := TypeOfConversion(ch, flags);
        if t.Unknown? then None else ReadSpec(format, i + 1, Type, flags, t)
      case Normal => if ch == '!' && !argType.Unknown? then Some(SpecEnd(i, argType)) else None
      case _ => None
  }

  // ---------- the pieces of a format ----------

  function EscapeOf(c: char): char {
    match c
    case 'a' => '\U{7}'
    case 'b' => '\U{8}'
    case 'f' => '\U{C}'
    case 'n' => '\n'
    case 'r' => '\r'
    case 't' => '\t'
    case 'v' => '\U{B}'
    case _ => c
  }

  /** The escapes are those of C, and any other character stands for itself. */
  lemma EscapesOfC(c: char)
    ensures forall i :: 0 <= i < 7 ==> EscapeOf("abtnvfr"[i]) as int == 7 + i
    ensures c !in "abtnvfr" ==> EscapeOf(c) == c
  {
  }

  function Number(format: string, i: nat): (r: (nat, nat))
    requires i < |format| && '1' <= format[i] <= '9'
    ensures 1 <= r.0 <= 99 && i < r.1 <= |format|
  {
    if i + 1 < |format| && '0' <= format[i + 1] <= '9' then (10 * DigitOf(format[i]) + DigitOf(format[i + 1]), i + 2)
    else (DigitOf(format[i]), i + 1)
  }

  function ReadPiece(format: string, i: nat): (r: PieceRead)
    requires '\0' !in format && i <= |format|
    ensures r.Found? ==> i < r.next <= |format|
    ensures r.Found? && r.piece.Insert? ==> 1 <= r.piece.arg <= 99 && !r.piece.argType.Unknown? && '\0' !in r.piece.body
    ensures r.Found? && r.piece.Insert? ==> '%' !in r.piece.body
  {
    if i == |format| then End
    else if format[i] != '%' then Found(Character(format[i]), i + 1)
    else if i + 1 == |format| || format[i + 1] == '0' then End
    else if !('1' <= format[i + 1] <= '9') then Found(Character(EscapeOf(format[i + 1])), i + 2)
    else
      var (n, j) := Number(format, i + 1);
      if j == |format| || format[j] != '!' then Found(Insert(n, "s", Int64), j)
      else
        var spec := ReadSpec(format, j + 1, Percent, NO_FLAGS, Unknown);
        if spec.None? then Malformed
        else Found(Insert(n, format[j + 1..spec.value.end], spec.value.argType), spec.value.end + 1)
  }

  /** All pieces from position i on, if every insert is well-formed. */
  function Pieces(format: string, i: nat): Option<seq<Piece>>
    requires '\0' !in format && i <= |format|
    decreases |format| - i
  {
    match ReadPiece(format, i)
    case End => Some([])
    case Malformed => None
    case Found(piece, next) =>
      var rest := Pieces(format, next);
      if rest.None? then None else Some([piece] + rest.value)
  }

  predicate AgreeOnSize(p: Piece, q: Piece) {
    p.Insert? && q.Insert? && p.arg == q.arg ==> p.argType == q.argType
  }

  /** Inserts of the same argument agree on its size. */
  ghost predicate ConsistentlyTyped(pieces: seq<Piece>) {
    forall i, j :: 0 <= i < |pieces| && 0 <= j < |pieces| ==> AgreeOnSize(pieces[i], pieces[j])
  }

  /** The largest argument that the first k pieces name. */
  function MaxArg(pieces: seq<Piece>, k: nat): (n: nat)
    requires k <= |pieces|
    ensures forall i :: 0 <= i < k && pieces[i].Insert? ==> pieces[i].arg <= n
  {
    if k == 0 then 0
    else
      var last, n := pieces[k - 1], MaxArg(pieces, k - 1);
      if last.Insert? && last.arg > n then last.arg else n
  }

  /** The size the first of the k pieces gives to an argument that names it. */
  function SizeOf(pieces: seq<Piece>, k: nat, arg: nat): ArgType
    requires k <= |pieces|
  {
    if k == 0 then Unknown
    else
      var t, last := SizeOf(pieces, k - 1, arg), pieces[k - 1];
      if t.Unknown? && last.Insert? && last.arg == arg then last.argType else t
  }

  /** In a consistent format the size is that of every insert of the argument. */
  lemma {:induction false} SizeOfInsert(pieces: seq<Piece>, k: nat, i: nat)
    requires i < k <= |pieces| && pieces[i].Insert? && ConsistentlyTyped(pieces)
    requires forall j :: 0 <= j < |pieces| && pieces[j].Insert? ==> !pieces[j].argType.Unknown?
    ensures SizeOf(pieces, k, pieces[i].arg) == pieces[i].argType
  {
    assert AgreeOnSize(pieces[k - 1], pieces[i]);
    if i < k - 1 {
      SizeOfInsert(pieces, k - 1, i);
    } else {
      SizeOfEarlier(pieces, i, i);
    }
  }

  lemma {:induction false} SizeOfEarlier(pieces: seq<Piece>, k: nat, i: nat)
    requires k <= i < |pieces| && pieces[i].Insert? && ConsistentlyTyped(pieces)
    ensures SizeOf(pieces, k, pieces[i].arg) == pieces[i].argType || SizeOf(pieces, k, pieces[i].arg).Unknown?
  {
    if k > 0 {
      assert AgreeOnSize(pieces[k - 1], pieces[i]);
      SizeOfEarlier(pieces, k - 1, i);
    }
  }

  // ---------- the message ----------

  /** An argument as it is passed on: its low 32 bits as a signed number, or all of it. */
  function Passed(slot: int, t: ArgType): int {
    if t.Int32? then Signed(slot, INT_RANGE) else slot
  }

  /** A 64-bit argument is passed on as it is, one of 32 bits as the int that has its low bits. */
  lemma PassedIsArgument(slot: int, t: ArgType)
    ensures !t.Int32? ==> Passed(slot, t) == slot
    ensures t.Int32? ==> -0x8000_0000 <= Passed(slot, t) < 0x8000_0000 && (Passed(slot, t) - slot) % 0x1_0000_0000 == 0
  {
    hide Signed;
    SignedIsCongruent(slot, INT_RANGE);
  }

  /** The text of a piece, with the argument that it names. */
  function PieceTextOf(p: Piece, value: int, memory: map<int, string>): Outcome
    requires p.Insert? ==> '\0' !in p.body
  {
    match p
    case Character(c) => Text([c])
    case Insert(_, body, _) => if |body| > MAX_BODY then Failed else Formatted("%" + body, Start([value]), memory)
  }

  /** slots are the arguments, each in 64 bits. */
  function PieceText(p: Piece, slots: seq<int>, memory: map<int, string>): Outcome
    requires p.Insert? ==> 1 <= p.arg <= |slots| && '\0' !in p.body
  {
    PieceTextOf(p, if p.Insert? then Passed(slots[p.arg - 1], p.argType) else 0, memory)
  }

  predicate Provided(pieces: seq<Piece>, slots: seq<int>) {
    forall k :: 0 <= k < |pieces| && pieces[k].Insert? ==> 1 <= pieces[k].arg <= |slots| && '\0' !in pieces[k].body
  }

  /** The whole message: the pieces, one after the other. */
  function MessageText(pieces: seq<Piece>, k: nat, slots: seq<int>, memory: map<int, string>, done: string): (out: Outcome)
    requires k <= |pieces| && Provided(pieces, slots)
    ensures out.Text? || out.Overflows? ==> |done| <= |out.text|
    decreases |pieces| - k
  {
    if k == |pieces| then Text(done)
    else
      var out := PieceText(pieces[k], slots, memory);
      match out
      case Text(text) => MessageText(pieces, k + 1, slots, memory, done + text)
      case Overflows(text) => Overflows(done + text)
      case _ => out
  }

  /** The pieces of a format are what ReadPiece finds. */
  lemma {:induction false} PiecesAreRead(format: string, i: nat)
    requires '\0' !in format && i <= |format| && Pieces(format, i).Some?
    ensures forall k :: 0 <= k < |Pieces(format, i).value| && Pieces(format, i).value[k].Insert? ==>
              var p := Pieces(format, i).value[k];
              1 <= p.arg && !p.argType.Unknown? && '\0' !in p.body
    decreases |format| - i
  {
    hide ReadPiece;
    if ReadPiece(format, i).Found? {
      PiecesAreRead(format, ReadPiece(format, i).next);
    }
  }

  lemma PiecesProvided(format: string, slots: seq<int>)
    requires '\0' !in format && Pieces(format, 0).Some?
    requires MaxArg(Pieces(format, 0).value, |Pieces(format, 0).value|) <= |slots|
    ensures Provided(Pieces(format, 0).value, slots)
    ensures forall k :: 0 <= k < |Pieces(format, 0).value| && Pieces(format, 0).value[k].Insert? ==>
              !Pieces(format, 0).value[k].argType.Unknown?
  {
    hide Pieces, MaxArg;
    PiecesAreRead(format, 0);
  }

  /** What the message is, by its format alone. */
  function MessageOf(format: string, slots: seq<int>, memory: map<int, string>): Outcome
    requires '\0' !in format && Pieces(format, 0).Some?
    requires MaxArg(Pieces(format, 0).value, |Pieces(format, 0).value|) <= |slots|
  {
    PiecesProvided(format, slots);
    MessageText(Pieces(format, 0).value, 0, slots, memory, "")
  }
}
