/**
 Formatting a message in two passes (FormattedPrint.cpp): the first finds the sizes of the arguments and takes them from
 the list in order, the second writes the message and may use them in any order.
 */
module FormatMessage {
  import opened Wrappers
  import opened PrintOutput
  import opened IntegerFormat
  import opened FormattedPrint
  import opened MessageFormat

  const MAX_MESSAGE := 64000
  const FMT_SIZE := 32

  /** vararg_t: an argument that was taken from the list, and how. */
  datatype CachedArg = CachedArg(argType: ArgType, int32Val: int, int64Val: int)

  /** A number behind a percent sign: one digit or two. */
  method ReadNumber(format: string, i: nat) returns (n: nat, j: nat)
    requires i < |format| && '1' <= format[i] <= '9'
    ensures (n, j) == Number(format, i)
  {
    n, j := DigitOf(format[i]), i + 1;
    if j < |format| && '0' <= format[j] <= '9' {
      n := n * 10;
      n := n + DigitOf(format[j]);
      j := j + 1;
    }
  }

  /** The inner loop of the first pass, from behind the first exclamation mark: the size of the argument, and where the
      conversion ends. */
  method ScanSpec(format: string, i: nat) returns (r: Option<SpecEnd>)
    requires '\0' !in format && i <= |format|
    ensures r == ReadSpec(format, i, Percent, NO_FLAGS, Unknown)
  {
    hide GetState, GetCharType, ProcessSize, TypeOfConversion;
    var p, state, flags, argType := i, Percent, NO_FLAGS, Unknown;
    while p < |format|
      invariant i <= p <= |format|
      invariant ReadSpec(format, i, Percent, NO_FLAGS, Unknown) == ReadSpec(format, p, state, flags, argType)
      decreases |format| - p
    {
      var ch := format[p];
      p := p + 1;
      state := GetState(GetCharType(ch), state);
      match state {
        case Dot | Flag =>
        case Width | Precis =>
          if ch == '*' {
            return None;
          }
        case Size =>
          var size := ProcessSize(ch, format, p, flags);
          state, flags := size.0, size.2;
          p := p + size.1;
          if state != Size {
            return None;
          }
        case Type =>
          argType := TypeOfConversion(ch, flags);
          if argType.Unknown? {
            return None;
          }
        case Normal =>
          return if ch == '!' && !argType.Unknown? then Some(SpecEnd(p - 1, argType)) else None;
        case _ => return None;
      }
    }
    return None;
  }

  // ---------- the first pass ----------

  /** The sizes found so far are those of the first k pieces. */
  ghost predicate TypesOf(types: seq<ArgType>, pieces: seq<Piece>, k: nat) {
    k <= |pieces| && |types| == MaxArg(pieces, k) && forall n :: 0 <= n < |types| ==> types[n] == SizeOf(pieces, k, n + 1)
  }

  function Resized(types: seq<ArgType>, n: nat): (r: seq<ArgType>)
    ensures |r| == if |types| < n then n else |types|
    ensures forall i :: 0 <= i < |r| ==> r[i] == if i < |types| then types[i] else Unknown
  {
    if |types| < n then types + seq(n - |types|, _ => Unknown) else types
  }

  lemma {:induction false} NotNamed(pieces: seq<Piece>, k: nat, arg: nat)
    requires k <= |pieces| && arg > MaxArg(pieces, k)
    ensures SizeOf(pieces, k, arg) == Unknown
  {
    if k > 0 {
      NotNamed(pieces, k - 1, arg);
    }
  }

  lemma TypesNext(types: seq<ArgType>, pieces: seq<Piece>, k: nat)
    requires TypesOf(types, pieces, k) && k < |pieces| && (pieces[k].Insert? ==> pieces[k].arg >= 1)
    ensures pieces[k].Character? ==> TypesOf(types, pieces, k + 1)
    ensures pieces[k].Insert? ==>
              var n, bigger := pieces[k].arg - 1, Resized(types, pieces[k].arg);
              TypesOf(if bigger[n].Unknown? then bigger[n := pieces[k].argType] else bigger, pieces, k + 1)
  {
    if pieces[k].Insert? {
      var bigger := Resized(types, pieces[k].arg);
      var n := pieces[k].arg - 1;
      var after := if bigger[n].Unknown? then bigger[n := pieces[k].argType] else bigger;
      forall m | 0 <= m < |after| ensures after[m] == SizeOf(pieces, k + 1, m + 1) {
        if m >= |types| {
          NotNamed(pieces, k, m + 1);
        }
      }
    }
  }

  /** The pieces from a position on, one at a time. */
  lemma NextPiece(format: string, i: nat, pieces: seq<Piece>, k: nat)
    requires '\0' !in format && i <= |format| && k <= |pieces| && Pieces(format, i) == Some(pieces[k..])
    ensures match ReadPiece(format, i)
            case End => k == |pieces|
            case Malformed => false
            case Found(piece, next) => k < |pieces| && pieces[k] == piece && Pieces(format, next) == Some(pieces[k + 1..])
  {
    hide ReadPiece;
    match ReadPiece(format, i)
    case End => assert |pieces[k..]| == 0;
    case Malformed =>
    case Found(piece, next) =>
      assert pieces[k..][0] == pieces[k] && pieces[k..][1..] == pieces[k + 1..];
  }

  lemma NothingYet(pieces: seq<Piece>)
    ensures TypesOf([], pieces, 0)
  {
  }

  /** Between the number of an insert and the next piece no other insert starts. */
  lemma InsideInsert(format: string, i: nat)
    requires '\0' !in format && i + 1 < |format| && format[i] == '%' && '1' <= format[i + 1] <= '9'
    requires ReadPiece(format, i).Found?
    ensures var j, next := Number(format, i + 1).1, ReadPiece(format, i).next; j <= next && '%' !in format[j..next]
  {
    hide ReadSpec;
    var (n, j) := Number(format, i + 1);
    if j < |format| && format[j] == '!' {
      var end := ReadSpec(format, j + 1, Percent, NO_FLAGS, Unknown).value.end;
      assert forall k :: j <= k <= end ==> format[k] != '%';
    }
  }

  /** An insert in the first pass, from behind its percent sign: its conversion is read only if the size of the argument
      is not known, and otherwise passed over like literal text. */
  method SizeInsert(format: string, p: nat, types: seq<ArgType>) returns (ok: bool, newTypes: seq<ArgType>, q: nat)
    requires '\0' !in format && 0 < p < |format| && format[p - 1] == '%' && '1' <= format[p] <= '9'
    requires ReadPiece(format, p - 1).Found?
    ensures var r := ReadPiece(format, p - 1);
            && ok && p < q <= r.next && '%' !in format[q..r.next] && r.piece.Insert? && 1 <= r.piece.arg
            && var bigger := Resized(types, r.piece.arg);
               newTypes == if bigger[r.piece.arg - 1].Unknown? then bigger[r.piece.arg - 1 := r.piece.argType] else bigger
  {
    hide ReadSpec;
    InsideInsert(format, p - 1);
    var n;
    n, q := ReadNumber(format, p);
    newTypes := Resized(types, n);
    if newTypes[n - 1].Unknown? {
      if q == |format| || format[q] != '!' {
        newTypes := newTypes[n - 1 := Int64];
      } else {
        var spec := ScanSpec(format, q + 1);
        if spec.None? {
          return false, newTypes, q;
        }
        newTypes := newTypes[n - 1 := spec.value.argType];
        q := spec.value.end + 1;
      }
    }
    ok := true;
  }

  /** The scan of the first pass. */
  method SizeArgs(format: string) returns (ok: bool, types: seq<ArgType>)
    requires '\0' !in format && Pieces(format, 0).Some?
    ensures ok && TypesOf(types, Pieces(format, 0).value, |Pieces(format, 0).value|)
  {
    hide ReadSpec, SizeOf, MaxArg, TypesOf, Pieces, Number;
    ghost var pieces, k, next := Pieces(format, 0).value, 0, 0;
    var p := 0;
    types := [];
    NothingYet(pieces);
    assert pieces[0..] == pieces;
    while p < |format|
      invariant p <= next <= |format| && k <= |pieces| && '%' !in format[p..next]
      invariant Pieces(format, next) == Some(pieces[k..]) && TypesOf(types, pieces, k)
      decreases |format| - p
    {
      var ch := format[p];
      ghost var inside := p < next;
      if inside {
        assert ch == format[p..next][0] && format[p + 1..next] == format[p..next][1..];
      } else {
        NextPiece(format, p, pieces, k);
        if k < |pieces| {
          TypesNext(types, pieces, k);
          next, k := ReadPiece(format, p).next, k + 1;
        }
      }
      p := p + 1;
      if ch == '%' {
        if p == |format| || format[p] == '0' {
          return true, types;
        }
        if '1' <= format[p] <= '9' {
          ok, types, p := SizeInsert(format, p, types);
          if !ok {
            return;
          }
        } else {
          p := p + 1;
        }
      }
    }
    NextPiece(format, p, pieces, k);
    return true, types;
  }

  /** GetFormatMessageArgs: the arguments, each taken from the list with the size that the format gives to it; one that
      the format does not name is taken as a pointer. */
  method GetFormatMessageArgs(format: string, slots: Option<seq<int>>) returns (ok: bool, args: seq<CachedArg>)
    requires '\0' !in format && Pieces(format, 0).Some?
    requires slots.Some? ==> MaxArg(Pieces(format, 0).value, |Pieces(format, 0).value|) <= |slots.value|
    ensures var pieces := Pieces(format, 0).value;
            && ok == (slots.Some? || MaxArg(pieces, |pieces|) == 0)
            && (ok ==> |args| == MaxArg(pieces, |pieces|) && (slots.Some? ==> Taken(args, slots.value, pieces)))
  {
    hide SizeOf, MaxArg, Pieces, Signed;
    args := [];
    var types;
    ok, types := SizeArgs(format);
    if |types| > 0 && slots.None? {
      return false, [];
    }
    for n := 0 to |types|
      invariant |args| == n && (|types| > 0 ==> slots.Some?)
      invariant forall m :: 0 <= m < n ==> args[m] == Take(types[m], slots.value[m])
    {
      args := args + [Take(types[n], slots.value[n])];
    }
  }

  /** va_arg with the size of the argument. */
  function Take(t: ArgType, slot: int): CachedArg {
    if t.Int32? then CachedArg(Int32, Signed(slot, INT_RANGE), 0) else CachedArg(Int64, 0, slot)
  }

  ghost predicate Taken(args: seq<CachedArg>, slots: seq<int>, pieces: seq<Piece>) {
    |args| <= |slots| && forall n :: 0 <= n < |args| ==> args[n] == Take(SizeOf(pieces, |pieces|, n + 1), slots[n])
  }

  // ---------- the second pass ----------

  /** The format of one conversion, up to q. */
  function OneFormat(format: string, start: nat, q: nat): string
    requires start <= q <= |format|
  {
    "%" + format[start..q]
  }

  /** One character of a conversion that is well-formed. */
  lemma SpecStep(format: string, p: nat, state: State, flags: Flags, argType: ArgType)
    requires '\0' !in format && p < |format| && ReadSpec(format, p, state, flags, argType).Some?
    ensures var spec, next := ReadSpec(format, p, state, flags, argType), GetState(GetCharType(format[p]), state);
            match next
            case Normal => spec.value.end == p
            case Invalid | Percent => false
            case Size =>
              var size := ProcessSize(format[p], format, p + 1, flags);
              size.0 == Size && spec == ReadSpec(format, p + 1 + size.1, Size, size.2, argType)
            case Type => spec == ReadSpec(format, p + 1, Type, flags, TypeOfConversion(format[p], flags))
            case _ => spec == ReadSpec(format, p + 1, next, flags, argType)
  {
    hide GetState, GetCharType, ProcessSize, TypeOfConversion;
  }

  /** The inner loop of the second pass: the conversion, copied into a block of 32 characters. */
  method CopySpec(format: string, start: nat) returns (fits: bool, fmt: string, p: nat)
    requires '\0' !in format && start <= |format| && ReadSpec(format, start, Percent, NO_FLAGS, Unknown).Some?
    ensures var end := ReadSpec(format, start, Percent, NO_FLAGS, Unknown).value.end;
            && (fits <==> end - start <= MAX_BODY) && (fits ==> fmt == OneFormat(format, start, end) && p == end + 1)
  {
    hide GetState, GetCharType, ProcessSize, TypeOfConversion, ReadSpec, OneFormat;
    ghost var goal := ReadSpec(format, start, Percent, NO_FLAGS, Unknown);
    ghost var argType := Unknown;
    var block := new char[FMT_SIZE](_ => '\0');
    block[0] := '%';
    NothingCopied(block[..1], format, start);
    var fmtPos, state, flags, foundTerminator := 1, Percent, NO_FLAGS, false;
    p := start;
    while fmtPos < FMT_SIZE && !foundTerminator && p < |format|
      invariant start + fmtPos - 1 <= p <= |format| && 1 <= fmtPos <= FMT_SIZE
      invariant block[..fmtPos] == OneFormat(format, start, start + fmtPos - 1)
      invariant if foundTerminator then goal.value.end == start + fmtPos - 1 && p == goal.value.end + 1
                else p == start + fmtPos - 1 && p <= goal.value.end
      invariant fmtPos == FMT_SIZE || foundTerminator || ReadSpec(format, p, state, flags, argType) == goal
      decreases |format| - p
    {
      var ch := format[p];
      SpecStep(format, p, state, flags, argType);
      state := GetState(GetCharType(ch), state);
      match state {
        case Size =>
          var size := ProcessSize(ch, format, p + 1, flags);
          state, flags := size.0, size.2;
          fmtPos, p := CopyMore(block, fmtPos, format, start, p, 1 + size.1);
        case Normal => foundTerminator, p := true, p + 1;
        case Invalid | Percent => return false, "", p;
        case _ =>
          if state.Type? {
            argType := TypeOfConversion(ch, flags);
          }
          fmtPos, p := CopyMore(block, fmtPos, format, start, p, 1);
      }
    }
    if FMT_SIZE <= fmtPos {
      return false, "", p;
    }
    return true, block[..fmtPos], p;
  }

  lemma NothingCopied(fmt: string, format: string, start: nat)
    requires fmt == "%" && start <= |format|
    ensures fmt == OneFormat(format, start, start)
  {
  }

  /** Characters of a conversion, as far as they fit. */
  method CopyMore(block: array<char>, fmtPos: nat, format: string, ghost start: nat, p: nat, advance: nat)
    returns (newPos: nat, q: nat)
    requires block.Length == FMT_SIZE && 1 <= fmtPos <= FMT_SIZE && start <= p && p + advance <= |format| && p == start + fmtPos - 1
    requires block[..fmtPos] == OneFormat(format, start, p)
    modifies block
    ensures 1 <= newPos <= FMT_SIZE && q == start + newPos - 1 && p <= q <= p + advance
    ensures newPos == FMT_SIZE || q == p + advance
    ensures block[..newPos] == OneFormat(format, start, q)
  {
    newPos, q := fmtPos, p;
    var left := advance;
    while newPos < FMT_SIZE && left > 0
      invariant 1 <= newPos <= FMT_SIZE && q == start + newPos - 1 && p <= q && q + left == p + advance
      invariant block[..newPos] == "%" + format[start..q]
    {
      ghost var was := block[..newPos];
      block[newPos] := format[q];
      assert block[..newPos + 1] == was + [format[q]];
      newPos, q, left := newPos + 1, q + 1, left - 1;
    }
  }

  /** Arguments behind the one that a conversion takes make no difference. */
  lemma {:induction false} MoreArguments(fmt: string, p: Progress, more: seq<int>, memory: map<int, string>)
    requires '\0' !in fmt && p.Going? && p.i <= |fmt| && Formatted(fmt, p, memory) != Unmodelled
    ensures Formatted(fmt, p.(args := p.args + more), memory) == Formatted(fmt, p, memory)
    decreases |fmt| - p.i
  {
    hide Step;
    if p.i < |fmt| {
      var q := Step(fmt, p, memory);
      StepWithMore(fmt, p, more, memory);
      if q.Going? {
        MoreArguments(fmt, q, more, memory);
      }
    }
  }

  lemma StepWithMore(fmt: string, p: Progress, more: seq<int>, memory: map<int, string>)
    requires '\0' !in fmt && p.Going? && p.i < |fmt| && Step(fmt, p, memory) != Stopped(Unmodelled)
    ensures var q := Step(fmt, p, memory);
            Step(fmt, p.(args := p.args + more), memory) == if q.Going? then q.(args := q.args + more) else q
  {
    hide GetState, GetCharType, ProcessSize, WithFlag, Converted, WithStarWidth, WithStarPrecision, Signed;
    if p.args != [] {
      assert (p.args + more)[1..] == p.args[1..] + more;
    }
  }

  /** The arguments that are handed to the print function for an insert with a conversion. */
  method PassedArgs(args: seq<CachedArg>, argPos: nat) returns (passed: seq<int>)
    requires 1 <= argPos <= |args|
    ensures |passed| >= 1
    ensures passed[0] == if args[argPos - 1].argType.Int64? then args[argPos - 1].int64Val else args[argPos - 1].int32Val
  {
    if args[argPos - 1].argType.Int64? {
      passed := [args[argPos - 1].int64Val];
    } else if |args| == argPos {
      passed := [args[argPos - 1].int32Val];
    } else if args[argPos].argType.Int64? {
      passed := [args[argPos - 1].int32Val, args[argPos].int64Val];
    } else if |args| == argPos + 1 {
      passed := [args[argPos - 1].int32Val, args[argPos - 1].int32Val];
    } else if args[argPos + 1].argType.Int64? {
      passed := [args[argPos - 1].int32Val, args[argPos].int32Val, args[argPos + 1].int64Val];
    } else {
      passed := [args[argPos - 1].int32Val, args[argPos].int32Val, args[argPos + 1].int32Val];
    }
  }

  /** snprintf into what is left of the message. */
  method PrintInto(msg: array<char>, msgPos: nat, bufsize: nat, fmt: string, passed: seq<int>, memory: map<int, string>)
    returns (charsPrinted: int, overflows: bool)
    requires msgPos <= bufsize <= msg.Length && '\0' !in fmt && |passed| >= 1
    requires Formatted(fmt, Start(passed[..1]), memory) != Unmodelled
    modifies msg
    ensures msg[..msgPos] == old(msg[..msgPos])
    ensures var out := Formatted(fmt, Start(passed[..1]), memory);
            && (overflows <==> out.Overflows? && msgPos + |out.text| <= bufsize)
            && (!overflows ==>
                  if out.Text? && msgPos + |out.text| <= bufsize
                  then charsPrinted == |out.text| && msg[msgPos..msgPos + |out.text|] == out.text
                  else charsPrinted == -1)
  {
    hide Formatted;
    assert passed == passed[..1] + passed[1..];
    MoreArguments(fmt, Start(passed[..1]), passed[1..], memory);
    var output := new BufferOutput(msg, msgPos, bufsize - msgPos);
    charsPrinted, overflows := FormattedPrintA(output, fmt, passed, memory);
  }

  /** Every argument an insert names was taken with the size of that insert. */
  lemma ArgumentFits(pieces: seq<Piece>, k: nat, args: seq<CachedArg>, slots: seq<int>)
    requires k < |pieces| && pieces[k].Insert? && ConsistentlyTyped(pieces) && Provided(pieces, slots)
    requires Taken(args, slots, pieces) && |args| == MaxArg(pieces, |pieces|)
    requires forall j :: 0 <= j < |pieces| && pieces[j].Insert? ==> !pieces[j].argType.Unknown?
    ensures 1 <= pieces[k].arg <= |args|
    ensures var arg, t := args[pieces[k].arg - 1], pieces[k].argType;
            arg.argType == t && (if t.Int64? then arg.int64Val else arg.int32Val) == Passed(slots[pieces[k].arg - 1], t)
  {
    hide Signed;
    SizeOfInsert(pieces, |pieces|, k);
  }

  /** An insert in the second pass, from behind its percent sign. */
  method WriteInsert(format: string, p: nat, msg: array<char>, msgPos: nat, bufsize: nat, args: seq<CachedArg>,
                     memory: map<int, string>)
    returns (charsPrinted: int, q: nat, overflows: bool)
    requires '\0' !in format && 0 < p < |format| && format[p - 1] == '%' && '1' <= format[p] <= '9' && msgPos <= bufsize <= msg.Length
    requires ReadPiece(format, p - 1).Found?
    requires var piece := ReadPiece(format, p - 1).piece;
             && 1 <= piece.arg <= |args| && args[piece.arg - 1].argType == piece.argType
             && PieceTextOf(piece, ArgValue(args[piece.arg - 1]), memory) != Unmodelled
    modifies msg
    ensures msg[..msgPos] == old(msg[..msgPos])
    ensures var r := ReadPiece(format, p - 1);
            var out := PieceTextOf(r.piece, ArgValue(args[r.piece.arg - 1]), memory);
            && (overflows <==> out == Overflows(""))
            && (!overflows ==>
                  if out.Text? && msgPos + |out.text| <= bufsize
                  then charsPrinted == |out.text| && msg[msgPos..msgPos + |out.text|] == out.text && q == r.next
                  else charsPrinted == -1)
  {
    hide Formatted, ReadSpec;
    ghost var piece := ReadPiece(format, p - 1).piece;
    InsertOverflowsAtOnce(piece, ArgValue(args[piece.arg - 1]), memory);
    var argPos;
    argPos, q := ReadNumber(format, p);
    if q == |format| || format[q] != '!' {
      assert "%" + "s" == "%s";
      var passed := [args[argPos - 1].int64Val];
      assert passed[..1] == [ArgValue(args[argPos - 1])];
      charsPrinted, overflows := PrintInto(msg, msgPos, bufsize, "%s", passed, memory);
    } else {
      var fits, fmt;
      fits, fmt, q := CopySpec(format, q + 1);
      if !fits {
        return -1, q, false;
      }
      var passed := PassedArgs(args, argPos);
      assert passed[..1] == [ArgValue(args[argPos - 1])];
      charsPrinted, overflows := PrintInto(msg, msgPos, bufsize, fmt, passed, memory);
    }
  }

  function ArgValue(arg: CachedArg): int {
    if arg.argType.Int64? then arg.int64Val else arg.int32Val
  }

  function Limited(size: nat): nat {
    if size < MAX_MESSAGE then size else MAX_MESSAGE
  }

  /** The message with its terminator, or 0; the process gets to a width or precision that is too large exactly when what
      stands before it fits. */
  predicate Answers(msg: seq<char>, length: nat, overflows: bool, out: Outcome, bufsize: nat) {
    && (overflows <==> out.Overflows? && |out.text| < bufsize)
    && if out.Text? && |out.text| < bufsize
       then length == |out.text| < |msg| && msg[..length] == out.text && msg[length] == '\0'
       else length == 0
  }

  lemma AnswersMessage(msg: seq<char>, text: string, bufsize: nat)
    requires |text| < |msg| && msg[..|text|] == text && msg[|text|] == '\0' && |text| < bufsize
    ensures Answers(msg, |text|, false, Text(text), bufsize)
  {
  }

  lemma AnswersNothing(msg: seq<char>, overflows: bool, out: Outcome, bufsize: nat)
    requires out.Text? ==> bufsize <= |out.text|
    requires overflows <==> out.Overflows? && |out.text| < bufsize
    ensures Answers(msg, 0, overflows, out, bufsize)
  {
  }

  /** The second pass: the length of the message, or 0 when it does not fit with its terminator or an insert fails. */
  method FormatMessageToBuffer(format: string, msg: array<char>, bufferSize: nat, args: seq<CachedArg>, memory: map<int, string>,
                               ghost slots: seq<int>)
    returns (length: nat, overflows: bool)
    requires '\0' !in format && Pieces(format, 0).Some? && bufferSize <= msg.Length
    requires var pieces := Pieces(format, 0).value;
             && ConsistentlyTyped(pieces) && Taken(args, slots, pieces) && |args| == MaxArg(pieces, |pieces|)
             && MaxArg(pieces, |pieces|) <= |slots|
    requires MessageOf(format, slots, memory) != Unmodelled
    modifies msg
    ensures Answers(msg[..], length, overflows, MessageOf(format, slots, memory), Limited(bufferSize))
  {
    hide Pieces, Formatted, MaxArg, Taken, ConsistentlyTyped, MessageText, PieceTextOf, ReadSpec, Number, Passed, Answers;
    ghost var pieces, k, done := Pieces(format, 0).value, 0, "";
    ghost var goal := MessageOf(format, slots, memory);
    var bufsize := Limited(bufferSize);
    var p, msgPos := 0, 0;
    PiecesProvided(format, slots);
    assert pieces[0..] == pieces;
    while msgPos < bufsize && p < |format|
      invariant p <= |format| && k <= |pieces| && msgPos == |done| <= bufsize && msg[..msgPos] == done
      invariant Pieces(format, p) == Some(pieces[k..]) && MessageText(pieces, k, slots, memory, done) == goal
      decreases |format| - p
    {
      PieceAt(format, p, pieces, k, slots, memory, done);
      if ReadPiece(format, p).Found? && PieceText(pieces[k], slots, memory).Text? {
        done := done + PieceText(pieces[k], slots, memory).text;
      }
      var ch := format[p];
      p := p + 1;
      if ch != '%' {
        msgPos := PutChar(msg, msgPos, ch);
      } else if p == |format| || format[p] == '0' {
        break;
      } else if !('1' <= format[p] <= '9') {
        msgPos := PutChar(msg, msgPos, EscapeOf(format[p]));
        p := p + 1;
      } else {
        ArgumentFits(pieces, k, args, slots);
        var charsPrinted;
        charsPrinted, p, overflows := WriteInsert(format, p, msg, msgPos, bufsize, args, memory);
        if overflows || charsPrinted < 0 {
          AnswersNothing(msg[..], overflows, goal, bufsize);
          return 0, overflows;
        }
        msgPos := msgPos + charsPrinted;
      }
      k := k + 1;
    }
    if bufsize <= msgPos {
      AnswersNothing(msg[..], false, goal, bufsize);
      return 0, false;
    }
    if k < |pieces| {
      NextPiece(format, p, pieces, k);
    }
    MessageEnd(pieces, slots, memory, done);
    msg[msgPos] := '\0';
    AnswersMessage(msg[..], done, bufsize);
    return msgPos, false;
  }

  method PutChar(msg: array<char>, msgPos: nat, c: char) returns (newPos: nat)
    requires msgPos < msg.Length
    modifies msg
    ensures newPos == msgPos + 1 && msg[..newPos] == old(msg[..msgPos]) + [c]
  {
    msg[msgPos] := c;
    return msgPos + 1;
  }

  /** The piece at a position, and its part of the message. */
  lemma PieceAt(format: string, i: nat, pieces: seq<Piece>, k: nat, slots: seq<int>, memory: map<int, string>, done: string)
    requires '\0' !in format && i <= |format| && k <= |pieces| && Pieces(format, i) == Some(pieces[k..]) && Provided(pieces, slots)
    ensures match ReadPiece(format, i)
            case End => k == |pieces|
            case Malformed => false
            case Found(piece, next) =>
              && k < |pieces| && pieces[k] == piece && Pieces(format, next) == Some(pieces[k + 1..])
              && var out := PieceText(piece, slots, memory);
                 && (piece.Character? ==> out == Text([piece.c]))
                 && (out.Overflows? ==> out.text == "")
                 && MessageText(pieces, k, slots, memory, done) ==
                    match out
                    case Text(text) => MessageText(pieces, k + 1, slots, memory, done + text)
                    case Overflows(_) => Overflows(done)
                    case _ => out
  {
    hide Pieces, MessageText, PieceText, ReadPiece;
    NextPiece(format, i, pieces, k);
    if ReadPiece(format, i).Found? {
      MessageStep(pieces, k, slots, memory, done);
      if pieces[k].Character? {
        CharacterIsItself(pieces[k], slots, memory);
      } else {
        PieceOverflowsAtOnce(pieces[k], slots, memory);
        assert done + "" == done;
      }
    }
  }

  lemma MessageStep(pieces: seq<Piece>, k: nat, slots: seq<int>, memory: map<int, string>, done: string)
    requires k < |pieces| && Provided(pieces, slots)
    ensures var out := PieceText(pieces[k], slots, memory);
            MessageText(pieces, k, slots, memory, done) ==
            match out
            case Text(text) => MessageText(pieces, k + 1, slots, memory, done + text)
            case Overflows(text) => Overflows(done + text)
            case _ => out
  {
    hide PieceText;
  }

  /** Outside of a conversion nothing overflows. */
  lemma {:induction false} OutsideConversion(fmt: string, p: Progress, memory: map<int, string>)
    requires '\0' !in fmt && p.Going? && p.i <= |fmt| && '%' !in fmt[p.i..] && (p.state.Normal? || p.state.Type?)
    ensures !Formatted(fmt, p, memory).Overflows?
    decreases |fmt| - p.i
  {
    hide ProcessSize, Converted, WithFlag, WithStarWidth, WithStarPrecision;
    if p.i < |fmt| {
      assert fmt[p.i] in fmt[p.i..] && fmt[p.i..][1..] == fmt[p.i + 1..];
      OneStep(fmt, p, memory);
      OutsideConversion(fmt, Step(fmt, p, memory), memory);
    }
  }

  /** A conversion prints nothing before it overflows. */
  lemma {:induction false} OverflowsAtOnce(fmt: string, p: Progress, memory: map<int, string>)
    requires '\0' !in fmt && p.Going? && p.i <= |fmt| && '%' !in fmt[p.i..] && !p.state.Normal? && !p.state.Type?
    ensures Formatted(fmt, p, memory).Overflows? ==> Formatted(fmt, p, memory).text == p.done
    decreases |fmt| - p.i
  {
    hide ProcessSize, Converted, WithFlag, WithStarWidth, WithStarPrecision, GetState, GetCharType, Formatted;
    if p.i < |fmt| {
      OneStep(fmt, p, memory);
      var q := Step(fmt, p, memory);
      if q.Going? {
        assert fmt[q.i..] == fmt[p.i..][q.i - p.i..];
        if q.state.Normal? || q.state.Type? {
          OutsideConversion(fmt, q, memory);
        } else {
          OverflowsAtOnce(fmt, q, memory);
        }
      }
    } else {
      AtEnd(fmt, p, memory);
    }
  }

  lemma InsertOverflowsAtOnce(p: Piece, value: int, memory: map<int, string>)
    requires p.Insert? && '\0' !in p.body && '%' !in p.body
    ensures PieceTextOf(p, value, memory).Overflows? ==> PieceTextOf(p, value, memory).text == ""
  {
    hide Formatted;
    var fmt, args := "%" + p.body, [value];
    OneStep(fmt, Start(args), memory);
    assert fmt[1..] == p.body;
    OverflowsAtOnce(fmt, Step(fmt, Start(args), memory), memory);
  }

  lemma PieceOverflowsAtOnce(p: Piece, slots: seq<int>, memory: map<int, string>)
    requires p.Insert? && 1 <= p.arg <= |slots| && '\0' !in p.body && '%' !in p.body
    ensures PieceText(p, slots, memory).Overflows? ==> PieceText(p, slots, memory).text == ""
  {
    hide PieceTextOf, Passed;
    InsertOverflowsAtOnce(p, Passed(slots[p.arg - 1], p.argType), memory);
  }

  lemma CharacterIsItself(p: Piece, slots: seq<int>, memory: map<int, string>)
    requires p.Character?
    ensures PieceText(p, slots, memory) == Text([p.c])
  {
  }

  lemma MessageEnd(pieces: seq<Piece>, slots: seq<int>, memory: map<int, string>, done: string)
    requires Provided(pieces, slots)
    ensures MessageText(pieces, |pieces|, slots, memory, done) == Text(done)
  {
  }

  /** FormatMessage from a string, into the caller's buffer: whatever the order and repetition of the inserts, the message
      is the format with each insert replaced by its argument, or nothing at all. */
  method FormatMessageA(format: string, slots: Option<seq<int>>, msg: array<char>, nSize: nat, memory: map<int, string>)
    returns (length: nat, overflows: bool)
    requires '\0' !in format && Pieces(format, 0).Some? && ConsistentlyTyped(Pieces(format, 0).value) && nSize <= msg.Length
    requires slots.Some? ==> MaxArg(Pieces(format, 0).value, |Pieces(format, 0).value|) <= |slots.value|
    requires Listed(format, slots) ==> MessageOf(format, Slots(slots), memory) != Unmodelled
    modifies msg
    ensures !Listed(format, slots) ==> length == 0 && !overflows
    ensures Listed(format, slots) ==>
              Answers(msg[..], length, overflows, MessageOf(format, Slots(slots), memory), if nSize < 64000 then nSize else 64000)
  {
    hide Pieces, MaxArg, MessageOf, ConsistentlyTyped, Answers;
    var ok, args := GetFormatMessageArgs(format, slots);
    if !ok {
      return 0, false;
    }
    var limited := Limited(nSize);
    length, overflows := FormatMessageToBuffer(format, msg, limited, args, memory, Slots(slots));
  }

  function Slots(slots: Option<seq<int>>): seq<int> {
    if slots.Some? then slots.value else []
  }

  /** There is an argument list, or none is needed. */
  predicate Listed(format: string, slots: Option<seq<int>>)
    requires '\0' !in format && Pieces(format, 0).Some?
  {
    slots.Some? || MaxArg(Pieces(format, 0).value, |Pieces(format, 0).value|) == 0
  }
}
