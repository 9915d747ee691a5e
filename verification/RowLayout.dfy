/**
 The layout of a cached row (core_results.cpp, first half of the buffered result set's constructor): a bitmap of
 NULL flags, then one slot per column, each at the next multiple of the pointer size.
 */
module RowLayout {
  import opened Bytes
  import opened Odbc

  /** The declared length of a column that is kept outside the row. */
  const SIZE_UNKNOWN := 0
  const POINTER_SIZE := 8
  const LONG_SIZE := 8
  const DOUBLE_SIZE := 8

  datatype SqlType =
    | BigInt | Decimal | Guid | Numeric
    | Char | VarChar | Variant
    | Binary | Udt | VarBinary
    | WChar | WVarChar
    | LongVarBinary | LongVarChar | WLongVarChar | Xml
    | DateTime | TypeDate | Time2 | TimestampOffset | TypeTimestamp
    | Bit | Integer | SmallInt | TinyInt
    | Real | Float

  /** What the driver says of a column. */
  datatype Description = Description(kind: SqlType, size: nat, displaySize: nat)

  /** What the result set keeps of a column. */
  datatype Meta = Meta(ctype: CType, length: nat, offset: nat) {
    predicate IsNative() {
      ctype.CLong? || ctype.CDouble?
    }

    predicate IsLob() {
      !IsNative() && length == SIZE_UNKNOWN
    }

    /** The bytes of the row the slot takes. */
    function Width(): nat {
      if length == SIZE_UNKNOWN then POINTER_SIZE else length
    }

    function End(): nat {
      offset + Width()
    }
  }

  function CTypeOf(kind: SqlType, utf8: bool): CType {
    match kind
    case BigInt | DateTime | Decimal | Guid | Numeric | TypeDate | Time2 | TimestampOffset | Xml | TypeTimestamp => CChar
    case Char | VarChar | Variant | LongVarChar => if utf8 then CWChar else CChar
    case Udt | LongVarBinary | Binary | VarBinary => CBinary
    case WLongVarChar | WChar | WVarChar => CWChar
    case Bit | Integer | SmallInt | TinyInt => CLong
    case Real | Float => CDouble
  }

  /** The length of a slot, its length word and terminator included. */
  function SlotLength(d: Description, utf8: bool): nat {
    match d.kind
    case BigInt | Decimal | Guid | Numeric => d.displaySize + 1 + WORD_SIZE
    case Char | VarChar | Variant =>
      if d.size == SIZE_UNKNOWN then SIZE_UNKNOWN
      else if utf8 then d.size * 2 + WORD_SIZE + 2 else d.size + WORD_SIZE + 1
    case Binary | Udt | VarBinary => if d.size == SIZE_UNKNOWN then SIZE_UNKNOWN else d.size + WORD_SIZE + 1
    case WChar | WVarChar => if d.size == SIZE_UNKNOWN then SIZE_UNKNOWN else d.size * 2 + WORD_SIZE + 2
    case LongVarBinary | LongVarChar | WLongVarChar | Xml => SIZE_UNKNOWN
    case DateTime | TypeDate | Time2 | TimestampOffset | TypeTimestamp => d.displaySize + 1 + WORD_SIZE
    case Bit | Integer | SmallInt | TinyInt => LONG_SIZE
    case Real | Float => DOUBLE_SIZE
  }

  /** The bytes of one character, or byte, of a string type. */
  function CharSize(ctype: CType): nat {
    if ctype.CWChar? then 2 else 1
  }

  /** A column without a declared size: its values have any length. */
  predicate Unbounded(d: Description) {
    match d.kind
    case LongVarBinary | LongVarChar | WLongVarChar | Xml => true
    case Char | VarChar | Variant | WChar | WVarChar | Binary | VarBinary | Udt => d.size == 0
    case _ => false
  }

  /** The bytes of the longest value a driver delivers of a column with a declared size, when it is asked for as ctype: so
      many characters, or bytes, as the column is wide, or as many as the value takes when it is displayed. */
  function LongestValue(d: Description, ctype: CType): nat {
    match d.kind
    case Char | VarChar | Variant | WChar | WVarChar | Binary | VarBinary | Udt => d.size * CharSize(ctype)
    case Bit | Integer | SmallInt | TinyInt => 4
    case Real | Float => 8
    case _ => d.displaySize * CharSize(ctype)
  }

  /** Every slot has room for the longest value of its column, with its length word and terminator, and for at most one
      byte more; a value of any length goes into a block of its own. */
  lemma LongestValueFits(d: Description, utf8: bool)
    ensures var ctype, length, longest := CTypeOf(d.kind, utf8), SlotLength(d, utf8), LongestValue(d, CTypeOf(d.kind, utf8));
            if Unbounded(d) then ctype.IsString() && length == SIZE_UNKNOWN
            else if !ctype.IsString() then length == 8 && longest <= 8
            else 8 + longest + ctype.Extra() <= length <= 8 + longest + ctype.Extra() + 1
  {
  }

  /** Binary columns are kept as bytes, national ones as wide characters, numbers of native size as such, and anything else
      as characters, which are wide on a UTF-8 connection where the column is one of characters. */
  lemma KindsAreKept(kind: SqlType, utf8: bool)
    ensures CTypeOf(kind, utf8).CBinary? <==> kind in {Binary, VarBinary, LongVarBinary, Udt}
    ensures CTypeOf(kind, utf8).CLong? <==> kind in {Bit, TinyInt, SmallInt, Integer}
    ensures CTypeOf(kind, utf8).CDouble? <==> kind in {Real, Float}
    ensures CTypeOf(kind, utf8).CWChar? <==>
              kind in {WChar, WVarChar, WLongVarChar} || (utf8 && kind in {Char, VarChar, LongVarChar, Variant})
  {
  }

  /** align_to<sizeof(SQLPOINTER)>: the first multiple of the pointer size that is not below n. */
  function AlignTo(n: nat): (a: nat)
    ensures a % POINTER_SIZE == 0 && n <= a < n + POINTER_SIZE
  {
    if n % POINTER_SIZE == 0 then n else n + POINTER_SIZE - n % POINTER_SIZE
  }

  function NullBytes(columns: nat): nat {
    columns / 8 + 1
  }

  /** Where the bytes before slot i end, in a row that starts with a bitmap of the given size. */
  function EndBefore(bitmap: nat, meta: seq<Meta>, i: nat): nat
    requires i <= |meta|
  {
    if i == 0 then bitmap else meta[i - 1].End()
  }

  predicate AtNextPlace(bitmap: nat, meta: seq<Meta>, i: nat)
    requires i < |meta|
  {
    meta[i].offset == AlignTo(EndBefore(bitmap, meta, i))
  }

  /** Every slot starts at the first aligned place behind the one before it. */
  ghost predicate Packed(bitmap: nat, meta: seq<Meta>) {
    forall i :: 0 <= i < |meta| ==> AtNextPlace(bitmap, meta, i)
  }

  /** A slot that holds values of its type. */
  predicate WellSized(m: Meta) {
    if m.ctype.CLong? then m.length == LONG_SIZE
    else if m.ctype.CDouble? then m.length == DOUBLE_SIZE
    else m.length == SIZE_UNKNOWN || m.length >= WORD_SIZE + m.ctype.Extra()
  }

  /** Slots lie inside the row, clear of the bitmap and of each other. */
  ghost predicate Separate(meta: seq<Meta>, rowSize: nat) {
    && NullBytes(|meta|) <= rowSize
    && (forall i :: 0 <= i < |meta| ==>
          && meta[i].offset % POINTER_SIZE == 0 && NullBytes(|meta|) <= meta[i].offset && meta[i].End() <= rowSize)
    && (forall i, j :: 0 <= i < j < |meta| ==> meta[i].End() <= meta[j].offset)
  }

  lemma {:induction false} EndsGrow(bitmap: nat, meta: seq<Meta>, i: nat, j: nat)
    requires Packed(bitmap, meta) && i <= j <= |meta|
    ensures EndBefore(bitmap, meta, i) <= EndBefore(bitmap, meta, j)
    ensures i < j ==> EndBefore(bitmap, meta, i) <= meta[i].offset && meta[i].offset % POINTER_SIZE == 0
  {
    if i < j {
      EndsGrow(bitmap, meta, i, j - 1);
      assert AtNextPlace(bitmap, meta, j - 1) && AtNextPlace(bitmap, meta, i);
    }
  }

  lemma PackedIsSeparate(meta: seq<Meta>)
    requires Packed(NullBytes(|meta|), meta)
    ensures Separate(meta, EndBefore(NullBytes(|meta|), meta, |meta|))
  {
    hide AlignTo, AtNextPlace, NullBytes, Packed;
    var bitmap, n := NullBytes(|meta|), |meta|;
    EndsGrow(bitmap, meta, 0, n);
    forall i | 0 <= i < n
      ensures meta[i].offset % POINTER_SIZE == 0 && bitmap <= meta[i].offset && meta[i].End() <= EndBefore(bitmap, meta, n)
    {
      EndsGrow(bitmap, meta, 0, i);
      EndsGrow(bitmap, meta, i, n);
      EndsGrow(bitmap, meta, i + 1, n);
    }
    forall i, j | 0 <= i < j < n ensures meta[i].End() <= meta[j].offset {
      EndsGrow(bitmap, meta, i + 1, j);
      EndsGrow(bitmap, meta, j, n);
    }
  }

  lemma PackedGrows(bitmap: nat, meta: seq<Meta>, m: Meta)
    requires Packed(bitmap, meta) && m.offset == AlignTo(EndBefore(bitmap, meta, |meta|))
    ensures Packed(bitmap, meta + [m])
  {
    hide AlignTo;
    forall i | 0 <= i < |meta| + 1 ensures AtNextPlace(bitmap, meta + [m], i) {
      if i < |meta| {
        assert AtNextPlace(bitmap, meta, i);
      }
    }
  }

  /** The slot for a column of the result set. */
  predicate SlotFor(m: Meta, d: Description, utf8: bool) {
    m.ctype == CTypeOf(d.kind, utf8) && m.length == SlotLength(d, utf8)
  }

  lemma SlotsAreWellSized(m: Meta, d: Description, utf8: bool)
    requires SlotFor(m, d, utf8)
    ensures WellSized(m)
  {
  }

  /** The first loop of the constructor. */
  method Layout(columns: seq<Description>, utf8: bool) returns (meta: seq<Meta>, rowSize: nat)
    ensures |meta| == |columns|
    ensures forall i :: 0 <= i < |meta| ==> SlotFor(meta[i], columns[i], utf8) && WellSized(meta[i])
    ensures Packed(NullBytes(|columns|), meta) && rowSize == EndBefore(NullBytes(|columns|), meta, |meta|)
    ensures Separate(meta, rowSize)
  {
    hide AlignTo, NullBytes, Packed, Separate, CTypeOf, SlotLength, WellSized;
    meta := [];
    var offset := NullBytes(|columns|);
    NothingPacked(offset);
    for i := 0 to |columns|
      invariant |meta| == i
      invariant forall j :: 0 <= j < i ==> SlotFor(meta[j], columns[j], utf8) && WellSized(meta[j])
      invariant Packed(NullBytes(|columns|), meta)
      invariant offset == EndBefore(NullBytes(|columns|), meta, i)
    {
      offset := AlignTo(offset);
      var m := Meta(CTypeOf(columns[i].kind, utf8), SlotLength(columns[i], utf8), offset);
      SlotsAreWellSized(m, columns[i], utf8);
      PackedGrows(NullBytes(|columns|), meta, m);
      meta := meta + [m];
      offset := offset + m.Width();
    }
    rowSize := offset;
    PackedIsSeparate(meta);
  }

  lemma NothingPacked(bitmap: nat)
    ensures Packed(bitmap, [])
  {
  }

  // ---------- NULL flags ----------

  /** get_bit */
  predicate NullBit(row: seq<byte>, i: nat)
    requires i / 8 < |row|
  {
    Bytes.Bit(row[i / 8], 7 - i % 8)
  }

  /** set_bit */
  method SetBit(row: array<byte>, i: nat)
    requires i / 8 < row.Length
    modifies row
    ensures forall j :: 0 <= j && j / 8 < row.Length ==> NullBit(row[..], j) == (j == i || old(NullBit(row[..], j)))
    ensures forall k :: 0 <= k < row.Length && k != i / 8 ==> row[k] == old(row[k])
  {
    WithBitFits(row[i / 8], 7 - i % 8);
    ghost var before := row[..];
    row[i / 8] := WithBit(row[i / 8], 7 - i % 8);
    forall j | 0 <= j && j / 8 < row.Length ensures NullBit(row[..], j) == (j == i || NullBit(before, j)) {
      WithBitSets(before[i / 8], 7 - i % 8, 7 - j % 8);
    }
  }
}
