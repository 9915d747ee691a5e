/**
 Partial reads of a field kept in memory (core_results.cpp, to_same_string and binary_to_string): each call continues
 where the last one stopped and always names the total.
 */
module PartialReads {
  import opened Bytes
  import opened Odbc
  import opened LobReading

  // ---------- binary data as text ----------

  const HEX_CHARS: seq<byte> := [48, 49, 50, 51, 52, 53, 54, 55, 56, 57, 65, 66, 67, 68, 69, 70]

  /** n units of 1, 2 or 4 bytes. */
  function Times(unit: nat, n: int): (m: int)
    requires unit == 1 || unit == 2 || unit == 4
    ensures n >= 0 ==> m >= n
  {
    if unit == 1 then n else if unit == 2 then 2 * n else 4 * n
  }

  /** A byte as two hexadecimal digits, each a character of extra bytes. */
  function HexOf(b: byte, extra: nat): (s: seq<byte>)
    requires extra == 1 || extra == 2
    ensures |s| == 2 * extra
  {
    if extra == 1 then [HEX_CHARS[b / 16], HEX_CHARS[b % 16]] else [HEX_CHARS[b / 16], 0, HEX_CHARS[b % 16], 0]
  }

  function HexText(data: seq<byte>, extra: nat): (s: seq<byte>)
    requires extra == 1 || extra == 2
    ensures |s| == Times(2 * extra, |data|)
  {
    if data == [] then [] else HexText(data[..|data| - 1], extra) + HexOf(data[|data| - 1], extra)
  }

  lemma {:induction false} HexConcat(a: seq<byte>, b: seq<byte>, extra: nat)
    requires extra == 1 || extra == 2
    ensures HexText(a + b, extra) == HexText(a, extra) + HexText(b, extra)
  {
    hide HexOf;
    if b == [] {
      assert a + b == a;
    } else {
      var n := |b| - 1;
      var ab := a + b;
      assert ab[..|ab| - 1] == a + b[..n] && ab[|ab| - 1] == b[n];
      HexConcat(a, b[..n], extra);
      assert HexText(ab, extra) == HexText(ab[..|ab| - 1], extra) + HexOf(b[n], extra);
    }
  }

  // ---------- reading the digits back ----------

  /** What a character stands for as a hexadecimal digit. */
  function DigitValue(c: byte): (v: int)
    ensures -1 <= v < 16
  {
    if '0' as int <= c <= '9' as int then c - '0' as int
    else if 'A' as int <= c <= 'F' as int then c - 'A' as int + 10
    else -1
  }

  /** The byte that the first two characters of a text spell, the high digit first. The second byte of a wide character is
      zero. */
  function FirstByte(text: seq<byte>, size: nat): (v: int)
    requires size == 1 || size == 2
    ensures -1 <= v < 256
  {
    if |text| < 2 * size || (size == 2 && (text[1] != 0 || text[3] != 0)) then -1
    else
      var high, low := DigitValue(text[0]), DigitValue(text[size]);
      if high < 0 || low < 0 then -1 else 16 * high + low
  }

  /** The text spells these bytes, two characters each. */
  predicate SpellsHex(text: seq<byte>, data: seq<byte>, size: nat)
    requires size == 1 || size == 2
  {
    if data == [] then text == []
    else FirstByte(text, size) == data[0] && SpellsHex(text[2 * size..], data[1..], size)
  }

  lemma DigitsOfByte(b: byte, size: nat)
    requires size == 1 || size == 2
    ensures FirstByte(HexOf(b, size), size) == b
  {
    DigitOfValue(b / 16);
    DigitOfValue(b % 16);
  }

  lemma DigitOfValue(v: nat)
    requires v < 16
    ensures DigitValue(HEX_CHARS[v]) == v
  {
  }

  lemma SameDigits(x: byte, y: byte, b: byte)
    requires DigitValue(x) >= 0 && DigitValue(y) >= 0 && 16 * DigitValue(x) + DigitValue(y) == b
    ensures x == HEX_CHARS[b / 16] && y == HEX_CHARS[b % 16]
  {
    hide DigitValue;
    DigitOfChar(x);
    DigitOfChar(y);
    HighAndLow(DigitValue(x), DigitValue(y));
  }

  lemma SameByteSameDigits(s: seq<byte>, b: byte, size: nat)
    requires (size == 1 || size == 2) && |s| == 2 * size && FirstByte(s, size) == b
    ensures s == HexOf(b, size)
  {
    SameDigits(s[0], s[size], b);
    hide DigitValue;
  }

  lemma HighAndLow(high: nat, low: nat)
    requires low < 16
    ensures (16 * high + low) / 16 == high && (16 * high + low) % 16 == low
  {
  }

  lemma DigitOfChar(c: byte)
    ensures DigitValue(c) >= 0 ==> HEX_CHARS[DigitValue(c)] == c
  {
  }

  lemma FirstByteOnly(s: seq<byte>, rest: seq<byte>, size: nat)
    requires (size == 1 || size == 2) && |s| == 2 * size
    ensures FirstByte(s + rest, size) == FirstByte(s, size) && (s + rest)[2 * size..] == rest
  {
  }

  /** The digits of the data are the one text that spells it. */
  lemma {:induction false} HexTextSpells(text: seq<byte>, data: seq<byte>, size: nat)
    requires size == 1 || size == 2
    ensures SpellsHex(text, data, size) <==> text == HexText(data, size)
    decreases |data|
  {
    hide HexOf, FirstByte, HexText;
    EmptyHex(size);
    if data != [] {
      assert [data[0]] + data[1..] == data;
      HexConcat([data[0]], data[1..], size);
      OneByte(data[0], size);
      var head, tail := HexOf(data[0], size), HexText(data[1..], size);
      DigitsOfByte(data[0], size);
      FirstByteOnly(head, tail, size);
      HexTextSpells(if |text| < 2 * size then [] else text[2 * size..], data[1..], size);
      if SpellsHex(text, data, size) {
        TextHasFirst(text, data[0], size);
        assert text == text[..2 * size] + text[2 * size..];
        FirstByteOnly(text[..2 * size], text[2 * size..], size);
        SameByteSameDigits(text[..2 * size], data[0], size);
      }
    }
  }

  lemma TextHasFirst(text: seq<byte>, b: byte, size: nat)
    requires (size == 1 || size == 2) && FirstByte(text, size) == b
    ensures |text| >= 2 * size
  {
  }

  lemma OneByte(b: byte, size: nat)
    requires size == 1 || size == 2
    ensures HexText([b], size) == HexOf(b, size)
  {
    assert [b][..0] == [] && HexText([], size) == [];
    assert [] + HexOf(b, size) == HexOf(b, size);
  }

  lemma EmptyHex(extra: nat)
    requires extra == 1 || extra == 2
    ensures HexText([], extra) == []
  {
  }

  // ---------- what a call delivers ----------

  /** Binary data asked for as characters comes as hexadecimal digits. */
  predicate IsHex(ctype: CType, target: CType) {
    ctype.CBinary? && !target.CBinary? && target.IsString()
  }

  /** The field as text of the target type. */
  function TextOf(data: seq<byte>, ctype: CType, target: CType): (text: seq<byte>) {
    if IsHex(ctype, target) then HexText(data, target.Extra()) else data
  }

  /** The bytes of text one byte of data makes. */
  function UnitOf(ctype: CType, target: CType): (unit: nat)
    ensures unit == 1 || unit == 2 || unit == 4
  {
    if IsHex(ctype, target) then 2 * target.Extra() else 1
  }

  /** The terminator that is written. Data asked for as binary keeps the terminator of its own type. */
  function TerminatorOf(ctype: CType, target: CType): nat {
    if ctype.CBinary? then target.Extra() else ctype.Extra()
  }

  /** What a reader of a field takes a text for: binary data asked for as characters is spelled in hexadecimal digits of one
      character each, anything else stands as it is. */
  predicate Spells(text: seq<byte>, data: seq<byte>, ctype: CType, target: CType) {
    if ctype == CBinary && target == CChar then SpellsHex(text, data, 1)
    else if ctype == CBinary && target == CWChar then SpellsHex(text, data, 2)
    else text == data
  }

  /** The text of a field is the one that spells it. */
  lemma TextOfSpells(text: seq<byte>, data: seq<byte>, ctype: CType, target: CType)
    ensures Spells(text, data, ctype, target) <==> text == TextOf(data, ctype, target)
  {
    hide HexText, SpellsHex;
    if IsHex(ctype, target) {
      HexTextSpells(text, data, target.Extra());
    }
  }

  lemma TextLength(data: seq<byte>, ctype: CType, target: CType)
    ensures |TextOf(data, ctype, target)| == Times(UnitOf(ctype, target), |data|)
  {
  }

  /** How many units a call delivers with the given number of them left. */
  function UnitsServed(left: nat, unit: nat, extra: nat, capacity: nat): (n: nat)
    requires extra <= capacity && (unit == 1 || unit == 2 || unit == 4)
    ensures n <= left && Times(unit, n) + extra <= capacity
  {
    if Times(unit, left) + extra <= capacity then left
    else if unit == 1 then capacity - extra
    else if unit == 2 then (capacity - extra) / 2
    else (capacity - extra) / 4
  }

  /** No more whole units would fit. */
  lemma UnitsServedAreMost(left: nat, unit: nat, extra: nat, capacity: nat)
    requires extra <= capacity && (unit == 1 || unit == 2 || unit == 4)
    ensures var n := UnitsServed(left, unit, extra, capacity);
            n <= left && unit * n + extra <= capacity && (n < left ==> unit * (n + 1) + extra > capacity)
  {
  }

  /** How much of the data a call delivers. */
  function Delivers(data: seq<byte>, readSoFar: nat, ctype: CType, target: CType, capacity: nat): (n: nat)
    requires readSoFar <= |data| && TerminatorOf(ctype, target) <= capacity
    ensures readSoFar + n <= |data|
  {
    UnitsServed(|data| - readSoFar, UnitOf(ctype, target), TerminatorOf(ctype, target), capacity)
  }

  /** A call for at most capacity bytes, the terminator included, with readSoFar bytes of the data delivered. */
  function ServeUnits(data: seq<byte>, readSoFar: nat, ctype: CType, target: CType, capacity: nat): (s: Served)
    requires readSoFar <= |data| && TerminatorOf(ctype, target) <= capacity
  {
    var unit, left := UnitOf(ctype, target), |data| - readSoFar;
    var n := Delivers(data, readSoFar, ctype, target, capacity);
    Served(TextOf(data[readSoFar..readSoFar + n], ctype, target), if n == left then Success else Truncated, Times(unit, left))
  }

  /** Without conversion this is what a driver that names the total delivers. */
  lemma SameAsDriver(data: seq<byte>, readSoFar: nat, ctype: CType, capacity: nat)
    requires readSoFar <= |data| && ctype.Extra() <= capacity
    ensures ServeUnits(data, readSoFar, ctype, ctype, capacity) == Serve(data, readSoFar, ctype.Extra(), capacity, true)
  {
  }

  /** Successive calls deliver successive pieces of the text. */
  lemma PiecesJoin(data: seq<byte>, i: nat, j: nat, k: nat, ctype: CType, target: CType)
    requires i <= j <= k <= |data|
    ensures TextOf(data[i..j], ctype, target) + TextOf(data[j..k], ctype, target) == TextOf(data[i..k], ctype, target)
  {
    assert data[i..j] + data[j..k] == data[i..k];
    if ctype.CBinary? && !target.CBinary? && target.IsString() {
      HexConcat(data[i..j], data[j..k], target.Extra());
    }
  }

  /** How a call ends whose capacity is below the terminator. */
  function TooSmall(ctype: CType, target: CType, inside: bool): SqlReturn {
    if !IsHex(ctype, target) then AssertionFails else if inside then Truncated else WritesOutside
  }

  // ---------- the calls ----------

  lemma PartOfField(field: seq<byte>, data: seq<byte>, i: nat, j: nat)
    requires HoldsField(field, data) && i <= j <= |data|
    ensures WORD_SIZE + j <= |field| && field[WORD_SIZE + i..WORD_SIZE + j] == data[i..j]
    ensures DecodeLength(field[..WORD_SIZE]) == |data|
  {
    hide DecodeLength;
    var all, part := field[WORD_SIZE..WORD_SIZE + |data|], field[WORD_SIZE + i..WORD_SIZE + j];
    assert |part| == |data[i..j]|;
    forall k | 0 <= k < j - i ensures part[k] == data[i..j][k] {
      assert part[k] == field[WORD_SIZE + (i + k)] == all[i + k];
    }
  }

  method Terminate(buffer: array<byte>, at: nat, size: nat)
    requires at + size <= buffer.Length
    modifies buffer
    ensures buffer[..at] == old(buffer[..at])
    ensures forall k :: 0 <= k < buffer.Length && !(at <= k < at + size) ==> buffer[k] == old(buffer[k])
  {
    forall i | 0 <= i < size {
      buffer[at + i] := 0;
    }
  }

  /** to_same_string, on the memory that holds the field. A capacity below the terminator fails its assertion. */
  method ToSameString(field: seq<byte>, extra: nat, buffer: array<byte>, at: nat, capacity: int, readSoFar: nat,
                      ghost data: seq<byte>)
    returns (r: SqlReturn, length: int, newReadSoFar: nat)
    requires HoldsField(field, data) && readSoFar <= |data|
    requires extra <= capacity ==> at + UnitsServed(|data| - readSoFar, 1, extra, capacity) + extra <= buffer.Length
    modifies buffer
    ensures length == |data| - readSoFar
    ensures capacity < extra ==> r == AssertionFails && newReadSoFar == readSoFar && buffer[..] == old(buffer[..])
    ensures extra <= capacity ==>
              && newReadSoFar == readSoFar + UnitsServed(|data| - readSoFar, 1, extra, capacity)
              && r == (if newReadSoFar == |data| then Success else Truncated)
              && buffer[at..at + (newReadSoFar - readSoFar)] == data[readSoFar..newReadSoFar]
              && forall i :: 0 <= i < buffer.Length && !(at <= i < at + (newReadSoFar - readSoFar) + extra) ==> buffer[i] == old(buffer[i])
  {
    hide DecodeLength, HoldsField;
    PartOfField(field, data, readSoFar, |data|);
    length := DecodeLength(field[..WORD_SIZE]) - readSoFar;
    var toCopy;
    if capacity < length + extra {
      toCopy, r := capacity - extra, Truncated;
    } else {
      toCopy, r := length, Success;
    }
    if toCopy < 0 {
      return AssertionFails, length, readSoFar;
    }
    newReadSoFar := readSoFar + toCopy;
    var chunk := field[WORD_SIZE + readSoFar..WORD_SIZE + newReadSoFar];
    PartOfField(field, data, readSoFar, newReadSoFar);
    forall i | 0 <= i < toCopy {
      buffer[at + i] := chunk[i];
    }
    assert buffer[at..at + toCopy] == chunk;
    Terminate(buffer, at + toCopy, extra);
    assert buffer[at..at + toCopy] == buffer[..at + toCopy][at..];
  }

  lemma HexPush(data: seq<byte>, i: nat, j: nat, extra: nat)
    requires i <= j < |data| && (extra == 1 || extra == 2)
    ensures HexText(data[i..j + 1], extra) == HexText(data[i..j], extra) + HexOf(data[j], extra)
  {
    assert data[i..j + 1][..j - i] == data[i..j];
  }

  method PutHex(b: byte, extra: nat, buffer: array<byte>, h: nat)
    requires (extra == 1 || extra == 2) && h + 2 * extra <= buffer.Length
    modifies buffer
    ensures buffer[h..h + 2 * extra] == HexOf(b, extra)
    ensures forall k :: 0 <= k < buffer.Length && !(h <= k < h + 2 * extra) ==> buffer[k] == old(buffer[k])
  {
    hide HexOf;
    var hex := HexOf(b, extra);
    forall k | 0 <= k < 2 * extra {
      buffer[h + k] := hex[k];
    }
  }

  /** The conversion loop of binary_to_string. */
  method PutHexText(bytes: seq<byte>, extra: nat, buffer: array<byte>, at: nat)
    requires (extra == 1 || extra == 2) && at + Times(2 * extra, |bytes|) <= buffer.Length
    modifies buffer
    ensures buffer[at..at + Times(2 * extra, |bytes|)] == HexText(bytes, extra)
    ensures forall k :: 0 <= k < buffer.Length && !(at <= k < at + Times(2 * extra, |bytes|)) ==> buffer[k] == old(buffer[k])
  {
    hide HexOf, HexText;
    assert bytes[0..0] == [];
    EmptyHex(extra);
    var h := at;
    for i := 0 to |bytes|
      invariant h == at + Times(2 * extra, i)
      invariant buffer[at..h] == HexText(bytes[0..i], extra)
      invariant forall k :: 0 <= k < buffer.Length && !(at <= k < h) ==> buffer[k] == old(buffer[k])
    {
      ghost var done := buffer[at..h];
      PutHex(bytes[i], extra, buffer, h);
      HexPush(bytes, 0, i, extra);
      assert buffer[at..h + 2 * extra] == done + HexOf(bytes[i], extra) by {
        assert buffer[at..h] == done;
        assert buffer[at..h + 2 * extra] == buffer[at..h] + buffer[h..h + 2 * extra];
      }
      h := h + 2 * extra;
    }
    assert bytes[0..|bytes|] == bytes;
  }

  /** binary_to_string, with characters of extra bytes. With a capacity below the terminator it still writes a zero. */
  method BinaryToString(field: seq<byte>, extra: nat, buffer: array<byte>, at: nat, capacity: int, readSoFar: nat,
                        ghost data: seq<byte>)
    returns (r: SqlReturn, length: int, newReadSoFar: nat)
    requires HoldsField(field, data) && readSoFar <= |data| && (extra == 1 || extra == 2)
    requires extra <= capacity ==>
               at + Times(2 * extra, UnitsServed(|data| - readSoFar, 2 * extra, extra, capacity)) + extra <= buffer.Length
    modifies buffer
    ensures length == Times(2 * extra, |data| - readSoFar)
    ensures capacity < extra ==>
              && newReadSoFar == readSoFar && r == (if at < buffer.Length then Truncated else WritesOutside)
              && forall i :: 0 <= i < buffer.Length && i != at ==> buffer[i] == old(buffer[i])
    ensures extra <= capacity ==>
              && newReadSoFar == readSoFar + UnitsServed(|data| - readSoFar, 2 * extra, extra, capacity)
              && r == (if newReadSoFar == |data| then Success else Truncated)
              && buffer[at..at + Times(2 * extra, newReadSoFar - readSoFar)] == HexText(data[readSoFar..newReadSoFar], extra)
              && SpellsHex(buffer[at..at + Times(2 * extra, newReadSoFar - readSoFar)], data[readSoFar..newReadSoFar], extra)
              && forall i :: 0 <= i < buffer.Length && !(at <= i < at + Times(2 * extra, newReadSoFar - readSoFar) + extra) ==>
                               buffer[i] == old(buffer[i])
  {
    hide DecodeLength, HoldsField, HexText, UnitsServed, Times, SpellsHex;
    PartOfField(field, data, readSoFar, |data|);
    length := (DecodeLength(field[..WORD_SIZE]) - readSoFar) * 2 * extra;
    TwoDigits(|data| - readSoFar, extra);
    var toCopy;
    if capacity < length + extra {
      toCopy, r := capacity - extra, Truncated;
    } else {
      toCopy, r := length, Success;
    }
    if toCopy < 0 {
      newReadSoFar := readSoFar;
      if at < buffer.Length {
        buffer[at] := 0;
      } else {
        r := WritesOutside;
      }
      return;
    }
    WholeDigits(|data| - readSoFar, extra, capacity);
    hide WholeBytes;
    var toCopyHex := WholeBytes(toCopy, extra);
    newReadSoFar := readSoFar + toCopyHex;
    PutHexPiece(field, extra, buffer, at, readSoFar, newReadSoFar, if toCopy > 0 then extra else 1, data);
    HexTextSpells(buffer[at..at + Times(2 * extra, newReadSoFar - readSoFar)], data[readSoFar..newReadSoFar], extra);
  }

  /** The bytes whose digits take so many bytes of text. */
  function WholeBytes(n: nat, extra: nat): (k: nat) {
    if extra == 1 then n / 2 else n / 4
  }

  lemma TwoDigits(n: nat, extra: nat)
    requires extra == 1 || extra == 2
    ensures n * 2 * extra == Times(2 * extra, n)
  {
  }

  /** As many whole bytes as fit. */
  lemma WholeDigits(left: nat, extra: nat, capacity: nat)
    requires (extra == 1 || extra == 2) && extra <= capacity
    ensures var all, n := Times(2 * extra, left), UnitsServed(left, 2 * extra, extra, capacity);
            && n == WholeBytes(if capacity < all + extra then capacity - extra else all, extra) && all >= 0
            && n <= left && (n == left <==> all + extra <= capacity)
  {
  }

  /** Some bytes of the field as digits, and a terminator. */
  method PutHexPiece(field: seq<byte>, extra: nat, buffer: array<byte>, at: nat, i: nat, j: nat, terminator: nat, ghost data: seq<byte>)
    requires HoldsField(field, data) && i <= j <= |data| && (extra == 1 || extra == 2) && terminator <= extra
    requires at + Times(2 * extra, j - i) + extra <= buffer.Length
    modifies buffer
    ensures buffer[at..at + Times(2 * extra, j - i)] == HexText(data[i..j], extra)
    ensures forall k :: 0 <= k < buffer.Length && !(at <= k < at + Times(2 * extra, j - i) + extra) ==> buffer[k] == old(buffer[k])
  {
    hide DecodeLength, HoldsField, HexText;
    PartOfField(field, data, i, j);
    PutHexText(field[WORD_SIZE + i..WORD_SIZE + j], extra, buffer, at);
    var h := at + Times(2 * extra, j - i);
    assert buffer[at..h] == buffer[..h][at..];
    Terminate(buffer, h, terminator);
    assert buffer[at..h] == buffer[..h][at..];
  }

  /** The conversions of get_data that need no character set. */
  method Deliver(field: seq<byte>, ctype: CType, target: CType, buffer: array<byte>, at: nat, capacity: int,
                 readSoFar: nat, ghost data: seq<byte>)
    returns (r: SqlReturn, length: int, newReadSoFar: nat)
    requires HoldsField(field, data) && readSoFar <= |data|
    requires target == ctype || target.CBinary? || (ctype.CBinary? && target.IsString())
    requires TerminatorOf(ctype, target) <= capacity ==>
               at + |ServeUnits(data, readSoFar, ctype, target, capacity).chunk| + TerminatorOf(ctype, target) <= buffer.Length
    modifies buffer
    ensures length == Times(UnitOf(ctype, target), |data| - readSoFar)
    ensures capacity < TerminatorOf(ctype, target) ==>
              && newReadSoFar == readSoFar && r == TooSmall(ctype, target, at < buffer.Length)
              && forall i :: 0 <= i < buffer.Length && i != at ==> buffer[i] == old(buffer[i])
    ensures TerminatorOf(ctype, target) <= capacity ==>
              var s := ServeUnits(data, readSoFar, ctype, target, capacity);
              && newReadSoFar == readSoFar + Delivers(data, readSoFar, ctype, target, capacity)
              && r == s.r && length == s.length && buffer[at..at + |s.chunk|] == s.chunk
              && forall i :: 0 <= i < buffer.Length && !(at <= i < at + |s.chunk| + TerminatorOf(ctype, target)) ==>
                               buffer[i] == old(buffer[i])
  {
    hide HoldsField, HexText;
    if IsHex(ctype, target) {
      r, length, newReadSoFar := BinaryToString(field, target.Extra(), buffer, at, capacity, readSoFar, data);
    } else {
      r, length, newReadSoFar := ToSameString(field, ctype.Extra(), buffer, at, capacity, readSoFar, data);
    }
  }
}
