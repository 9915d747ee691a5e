/**
 Sending a stream parameter in packets (core_stmt.cpp, send_data_packet and calc_utf8_missing): a character that is cut
 off at the end of a packet is completed before the packet is sent. UTF-8 as in section 4 of RFC 3629.
 */
module Utf8Stream {
  import opened Bytes

  const PHP_STREAM_BUFFER_SIZE := 8192

  predicate IsMidByte(b: byte) {
    128 <= b < 192
  }

  /** The length a first byte announces, or 0. */
  function Announced(b: byte): nat {
    if b < 128 then 1
    else if 194 <= b < 224 then 2
    else if 224 <= b < 240 then 3
    else if 240 <= b < 245 then 4
    else 0
  }

  /** The byte behind the first one: overlong forms, surrogates and what is beyond U+10FFFF are shut out. */
  predicate SecondFits(first: byte, second: byte) {
    && IsMidByte(second)
    && (first == 224 ==> second >= 160) && (first == 237 ==> second < 160)
    && (first == 240 ==> second >= 144) && (first == 244 ==> second < 144)
  }

  /** The length of the character at i, or 0 when s[i..n] does not start with one. */
  function CharAt(s: seq<byte>, i: nat, n: nat): (len: nat)
    requires i < n <= |s|
    ensures i + len <= n && len <= 4
  {
    var len := Announced(s[i]);
    if i + len > n then 0
    else if len >= 2 && !SecondFits(s[i], s[i + 1]) then 0
    else if len >= 3 && !IsMidByte(s[i + 2]) then 0
    else if len == 4 && !IsMidByte(s[i + 3]) then 0
    else len
  }

  // ---------- characters as encodings ----------

  predicate IsScalar(cp: nat) {
    cp < 0x110000 && !(0xD800 <= cp < 0xE000)
  }

  /** All but the last six bits of a number, and the last six. */
  function High(n: nat): (h: nat)
    ensures 64 * h <= n < 64 * h + 64
  {
    n / 64
  }

  function Low(n: nat): (l: nat)
    ensures l < 64 && n == 64 * High(n) + l
  {
    n % 64
  }

  /** A character as one to four bytes: the last ones of six bits each, and in front of the rest the mark of their number. */
  function EncodeScalar(cp: nat): (s: seq<byte>)
    requires IsScalar(cp)
  {
    if cp < 0x80 then [cp]
    else if cp < 0x800 then [0xC0 + High(cp), 0x80 + Low(cp)]
    else if cp < 0x10000 then [0xE0 + High(High(cp)), 0x80 + Low(High(cp)), 0x80 + Low(cp)]
    else [0xF0 + High(High(High(cp))), 0x80 + Low(High(High(cp))), 0x80 + Low(High(cp)), 0x80 + Low(cp)]
  }

  /** What the bytes at i stand for, if they are a character. */
  function ScalarAt(s: seq<byte>, i: nat, n: nat): (cp: int)
    requires i < n <= |s|
  {
    match CharAt(s, i, n)
    case 1 => s[i]
    case 2 => (s[i] as int - 0xC0) * 64 + (s[i + 1] as int - 0x80)
    case 3 => (s[i] as int - 0xE0) * 4096 + (s[i + 1] as int - 0x80) * 64 + (s[i + 2] as int - 0x80)
    case 4 => (s[i] as int - 0xF0) * 262144 + (s[i + 1] as int - 0x80) * 4096 + (s[i + 2] as int - 0x80) * 64 + (s[i + 3] as int - 0x80)
    case _ => -1
  }

  lemma SixBits(high: nat, low: nat)
    requires low < 64
    ensures High(64 * high + low) == high && Low(64 * high + low) == low
  {
  }

  lemma TwoBytes(a: byte, b: byte)
    requires 194 <= a < 224 && 128 <= b < 192
    ensures var cp := (a - 0xC0) * 64 + (b - 0x80); 0x80 <= cp < 0x800 && EncodeScalar(cp) == [a, b]
  {
    SixBits(a - 0xC0, b - 0x80);
  }

  lemma ThreeBytes(a: byte, b: byte, c: byte)
    requires 224 <= a < 240 && SecondFits(a, b) && 128 <= c < 192
    ensures var cp := (a - 0xE0) * 4096 + (b - 0x80) * 64 + (c - 0x80);
            0x800 <= cp < 0x10000 && IsScalar(cp) && EncodeScalar(cp) == [a, b, c]
  {
    hide High, Low;
    SixBits(64 * (a - 0xE0) + (b - 0x80), c - 0x80);
    SixBits(a - 0xE0, b - 0x80);
  }

  lemma FourBytes(a: byte, b: byte, c: byte, d: byte)
    requires 240 <= a < 245 && SecondFits(a, b) && 128 <= c < 192 && 128 <= d < 192
    ensures var cp := (a - 0xF0) * 262144 + (b - 0x80) * 4096 + (c - 0x80) * 64 + (d - 0x80);
            0x10000 <= cp < 0x110000 && EncodeScalar(cp) == [a, b, c, d]
  {
    hide High, Low;
    SixBits(64 * (64 * (a - 0xF0) + (b - 0x80)) + (c - 0x80), d - 0x80);
    SixBits(64 * (a - 0xF0) + (b - 0x80), c - 0x80);
    SixBits(a - 0xF0, b - 0x80);
  }

  /** A character here is the encoding of what it stands for. */
  lemma CharIsEncoded(s: seq<byte>, i: nat, n: nat)
    requires i < n <= |s| && CharAt(s, i, n) > 0
    ensures var cp := ScalarAt(s, i, n); cp >= 0 && IsScalar(cp) && s[i..i + CharAt(s, i, n)] == EncodeScalar(cp)
  {
    hide EncodeScalar;
    var len := CharAt(s, i, n);
    if len == 1 {
      OneByte(s[i]);
      assert s[i..i + 1] == [s[i]];
    } else if len == 2 {
      TwoBytes(s[i], s[i + 1]);
      assert s[i..i + 2] == [s[i], s[i + 1]];
    } else if len == 3 {
      ThreeBytes(s[i], s[i + 1], s[i + 2]);
      assert s[i..i + 3] == [s[i], s[i + 1], s[i + 2]];
    } else {
      FourBytes(s[i], s[i + 1], s[i + 2], s[i + 3]);
      assert s[i..i + 4] == [s[i], s[i + 1], s[i + 2], s[i + 3]];
    }
  }

  lemma OneByte(a: byte)
    requires a < 128
    ensures IsScalar(a) && EncodeScalar(a) == [a]
  {
  }

  /** The bytes of an encoding. */
  lemma EncodedBytes(cp: nat)
    requires IsScalar(cp)
    ensures var e := EncodeScalar(cp);
            && 1 <= |e| <= 4 && Announced(e[0]) == |e| && (|e| >= 2 ==> SecondFits(e[0], e[1]))
            && (|e| >= 3 ==> IsMidByte(e[2])) && (|e| == 4 ==> IsMidByte(e[3]))
  {
    hide High, Low;
  }

  /** And every encoding is a character, so a text is a sequence of encodings. */
  lemma EncodedIsChar(s: seq<byte>, i: nat, n: nat, cp: nat)
    requires i < n <= |s| && IsScalar(cp) && i + |EncodeScalar(cp)| <= n && s[i..i + |EncodeScalar(cp)|] == EncodeScalar(cp)
    ensures CharAt(s, i, n) == |EncodeScalar(cp)|
  {
    hide EncodeScalar;
    EncodedBytes(cp);
    var e := EncodeScalar(cp);
    assert forall k :: 0 <= k < |e| ==> s[i + k] == s[i..i + |e|][k] == e[k];
  }

  /** s[i..n] is a sequence of characters. */
  predicate Utf8(s: seq<byte>, i: nat, n: nat)
    requires i <= n <= |s|
    decreases n - i
  {
    i == n || (CharAt(s, i, n) > 0 && Utf8(s, i + CharAt(s, i, n), n))
  }

  /** Where the character that holds byte k, or ends before it, starts. */
  function BoundaryBefore(s: seq<byte>, i: nat, k: nat, n: nat): (b: nat)
    requires i <= k <= n <= |s| && Utf8(s, i, n)
    ensures i <= b <= k && Utf8(s, b, n) && (b < k ==> k < b + CharAt(s, b, n))
    decreases n - i
  {
    if i == n || k < i + CharAt(s, i, n) then i else BoundaryBefore(s, i + CharAt(s, i, n), k, n)
  }

  /** Cutting a text at k leaves a text exactly when k is a boundary. */
  lemma {:induction false} CutIsTextAtBoundary(s: seq<byte>, i: nat, k: nat, n: nat)
    requires i <= k <= n <= |s| && Utf8(s, i, n)
    ensures Utf8(s, i, k) <==> BoundaryBefore(s, i, k, n) == k
    decreases n - i
  {
    if i < k {
      if i + CharAt(s, i, n) <= k {
        assert CharAt(s, i, k) == CharAt(s, i, n);
        CutIsTextAtBoundary(s, i + CharAt(s, i, n), k, n);
      } else {
        assert CharAt(s, i, k) == 0;
      }
    }
  }

  /** A text and one more character. */
  lemma {:induction false} OneMoreChar(s: seq<byte>, i: nat, b: nat, n: nat)
    requires i <= b < n <= |s| && Utf8(s, i, n) && BoundaryBefore(s, i, b, n) == b
    ensures Utf8(s, i, b + CharAt(s, b, n)) && CharAt(s, b, n) > 0
    decreases n - i
  {
    if i < b {
      var next := i + CharAt(s, i, n);
      OneMoreChar(s, next, b, n);
      assert CharAt(s, i, b + CharAt(s, b, n)) == CharAt(s, i, n);
    } else {
      var end := b + CharAt(s, b, n);
      assert CharAt(s, b, end) == CharAt(s, b, n);
    }
  }

  lemma {:induction false} BoundaryOfBoundary(s: seq<byte>, i: nat, k: nat, n: nat)
    requires i <= k <= n <= |s| && Utf8(s, i, n)
    ensures var b := BoundaryBefore(s, i, k, n); BoundaryBefore(s, i, b, n) == b
    decreases n - i
  {
    if i < n && i + CharAt(s, i, n) <= k {
      BoundaryOfBoundary(s, i + CharAt(s, i, n), k, n);
    }
  }

  /** Inside a character all bytes but the first are mid bytes. */
  lemma MidBytes(s: seq<byte>, b: nat, n: nat)
    requires b < n <= |s| && CharAt(s, b, n) > 0
    ensures !IsMidByte(s[b]) && forall j :: b < j < b + CharAt(s, b, n) ==> IsMidByte(s[j])
    ensures CharAt(s, b, n) == Announced(s[b])
  {
  }

  /** How many bytes of the character that a cut at k goes through lie behind the cut. */
  function Missing(s: seq<byte>, i: nat, k: nat, n: nat): (m: int)
    requires i <= k <= n <= |s| && Utf8(s, i, n)
  {
    var b := BoundaryBefore(s, i, k, n);
    if b == k then 0 else b + CharAt(s, b, n) - k
  }

  // ---------- the scan, on any bytes ----------

  const SIZE_RANGE := 0x1_0000_0000_0000_0000

  /** How the scan back from the end of a packet comes out: the count of bytes to read, in 64 bits without a sign; the byte
      found starts no character of several bytes; or the scan leaves the buffer. */
  datatype Scan = Need(n: nat) | NoLead | BeforeBuffer

  /** The last byte of s[i..k] that is no mid byte, or i - 1. */
  function LastLead(s: seq<byte>, i: nat, k: nat): (l: int)
    requires i <= k <= |s|
    ensures i - 1 <= l < k && (forall j :: l < j < k ==> IsMidByte(s[j])) && (l >= i ==> !IsMidByte(s[l]))
    decreases k - i
  {
    if k == i then i - 1 else if IsMidByte(s[k - 1]) then LastLead(s, i, k - 1) else k - 1
  }

  /** The mid bytes that the switch takes to follow a first byte. */
  function Following(b: byte): nat {
    if 192 <= b < 224 then 1 else if 224 <= b < 240 then 2 else if 240 <= b then 3 else 0
  }

  function ScanBack(s: seq<byte>, i: nat, k: nat): Scan
    requires i < k <= |s|
  {
    var l := LastLead(s, i, k);
    if l < i then BeforeBuffer
    else if Following(s[l]) == 0 then NoLead
    else
      Need((Following(s[l]) - (k - 1 - l)) % SIZE_RANGE)
  }

  /** calc_utf8_missing */
  method CalcUtf8Missing(buffer: seq<byte>, bufferEnd: nat) returns (res: Scan)
    requires 0 < bufferEnd <= |buffer| < SIZE_RANGE
    ensures res == ScanBack(buffer, 0, bufferEnd)
  {
    var lastChar, needToRead := bufferEnd - 1, 0;
    while lastChar >= 0 && IsMidByte(buffer[lastChar])
      invariant -1 <= lastChar < bufferEnd && needToRead == bufferEnd - 1 - lastChar
      invariant LastLead(buffer, 0, lastChar + 1) == LastLead(buffer, 0, bufferEnd)
    {
      lastChar := lastChar - 1;
      needToRead := needToRead + 1;
    }
    if lastChar < 0 {
      return BeforeBuffer;
    }
    if 192 <= buffer[lastChar] < 224 {
      needToRead := 1 - needToRead;
    } else if 224 <= buffer[lastChar] < 240 {
      needToRead := 2 - needToRead;
    } else if 240 <= buffer[lastChar] {
      needToRead := 3 - needToRead;
    } else {
      return NoLead;
    }
    return Need(needToRead % SIZE_RANGE);
  }

  /** The scan leaves the buffer exactly on mid bytes only, and asks for more than three bytes exactly behind more mid bytes
      than the first byte takes. */
  lemma ScanGoesWrongExactlyWhen(s: seq<byte>, i: nat, k: nat)
    requires i < k <= |s| < SIZE_RANGE - 3
    ensures ScanBack(s, i, k) == BeforeBuffer <==> forall j :: i <= j < k ==> IsMidByte(s[j])
    ensures var l := LastLead(s, i, k);
            ScanBack(s, i, k).Need? && ScanBack(s, i, k).n > 3 <==>
              l >= i && Following(s[l]) > 0 && k - 1 - l > Following(s[l])
  {
  }

  /** A mid byte alone, and one mid byte too many. */
  lemma ScanGoesWrong()
    ensures ScanBack([128], 0, 1) == BeforeBuffer
    ensures ScanBack([195, 128, 128], 0, 3) == Need(SIZE_RANGE - 1)
  {
    var s: seq<byte> := [195, 128, 128];
    assert LastLead(s, 0, 1) == 0 && LastLead(s, 0, 2) == 0 && LastLead(s, 0, 3) == 0;
    assert LastLead([128], 0, 0) == -1;
  }

  /** The same bytes elsewhere are scanned alike. */
  lemma {:induction false} SameLead(s: seq<byte>, i: nat, k: nat, t: seq<byte>, e: nat)
    requires i <= k <= |s| && e == k - i <= |t| && s[i..k] == t[..e]
    ensures LastLead(s, i, k) - i == LastLead(t, 0, e)
    decreases e
  {
    if e > 0 {
      assert s[k - 1] == s[i..k][e - 1] == t[e - 1];
      assert s[i..k - 1] == s[i..k][..e - 1] && t[..e - 1] == t[..e][..e - 1];
      SameLead(s, i, k - 1, t, e - 1);
    }
  }

  lemma SameScan(s: seq<byte>, i: nat, k: nat, t: seq<byte>, e: nat)
    requires i < k <= |s| && e == k - i <= |t| && s[i..k] == t[..e]
    ensures ScanBack(s, i, k) == ScanBack(t, 0, e)
  {
    SameLead(s, i, k, t, e);
    var l := LastLead(t, 0, e);
    if l >= 0 {
      assert s[i + l] == s[i..k][l] == t[..e][l] == t[l];
    }
  }

  lemma {:induction false} LeadIs(s: seq<byte>, i: nat, k: nat, l: nat)
    requires i <= l < k <= |s| && !IsMidByte(s[l]) && forall j :: l < j < k ==> IsMidByte(s[j])
    ensures LastLead(s, i, k) == l
    decreases k
  {
    if l < k - 1 {
      LeadIs(s, i, k - 1, l);
    }
  }

  /** On a packet that cuts a character of a text the scan counts the bytes that complete it. */
  lemma CutIsCompleted(s: seq<byte>, from: nat, k: nat, n: nat)
    requires from <= k <= n <= |s| && Utf8(s, from, n) && !Utf8(s, from, k)
    ensures var m := Missing(s, from, k, n);
            from < k && 1 <= m <= 3 && k + m <= n && ScanBack(s, from, k) == Need(m) && Utf8(s, from, k + m)
  {
    hide CharAt, Utf8, BoundaryBefore;
    var b := BoundaryBefore(s, from, k, n);
    NothingIsText(s, from);
    CutIsTextAtBoundary(s, from, k, n);
    BoundaryOfBoundary(s, from, k, n);
    OneMoreChar(s, from, b, n);
    MidBytes(s, b, n);
    LeadIs(s, from, k, b);
  }

  /** The rest behind a boundary is a text. */
  lemma {:induction false} RestIsText(s: seq<byte>, i: nat, k: nat, n: nat)
    requires i <= k <= n <= |s| && Utf8(s, i, n) && Utf8(s, i, k)
    ensures Utf8(s, k, n)
  {
    CutIsTextAtBoundary(s, i, k, n);
  }

  function Joined(packets: seq<seq<byte>>): seq<byte> {
    if packets == [] then [] else Joined(packets[..|packets| - 1]) + packets[|packets| - 1]
  }

  /** The same bytes elsewhere are the same text. */
  lemma {:induction false} SameText(s: seq<byte>, i: nat, n: nat, t: seq<byte>)
    requires i <= n <= |s| && s[i..n] == t
    ensures Utf8(s, i, n) <==> Utf8(t, 0, |t|)
  {
    SameTextFrom(s, i, i, n, t);
  }

  lemma {:induction false} SameTextFrom(s: seq<byte>, i: nat, k: nat, n: nat, t: seq<byte>)
    requires i <= k <= n <= |s| && s[i..n] == t
    ensures Utf8(s, k, n) <==> Utf8(t, k - i, |t|)
    decreases n - k
  {
    if k < n {
      assert forall j :: k <= j < n ==> s[j] == t[j - i];
      assert CharAt(s, k, n) == CharAt(t, k - i, |t|);
      if CharAt(s, k, n) > 0 {
        SameTextFrom(s, i, k + CharAt(s, k, n), n, t);
      }
    }
  }

  class StreamParam {
    const stream: seq<byte>
    /** Whether the end of the stream is known before a read has come back empty. */
    const eagerEof: bool
    var pos: nat
    var eof: bool
    var packets: seq<seq<byte>>

    constructor (stream: seq<byte>, eagerEof: bool)
      ensures this.stream == stream && Valid() && pos == 0 && packets == []
    {
      this.stream, this.eagerEof, pos, eof, packets := stream, eagerEof, 0, false, [];
    }

    /** Every packet is a text that fits the buffer, and together they are the stream so far. */
    ghost predicate Valid()
      reads this
    {
      pos <= |stream| && (eof ==> pos == |stream|) && Joined(packets) == stream[..pos] && PacketsFit()
    }

    ghost predicate PacketsFit()
      reads this`packets
    {
      forall k :: 0 <= k < |packets| ==> |packets[k]| <= PHP_STREAM_BUFFER_SIZE + 1 && Utf8(packets[k], 0, |packets[k]|)
    }

    /** php_stream_read into buffer[at..], of at most count bytes when offered are ready. */
    method Read(buffer: array<byte>, at: nat, count: nat, offered: nat) returns (n: nat)
      requires pos <= |stream| && at + count <= buffer.Length && offered > 0
      modifies this`pos, this`eof, buffer
      ensures n <= count && pos == old(pos) + n <= |stream| && buffer[at..at + n] == stream[old(pos)..pos]
      ensures n == old(Count(count, offered))
      ensures buffer[..at] == old(buffer[..at])
      ensures (eof ==> pos == |stream|) && (n == 0 && count > 0 ==> eof)
    {
      n := |stream| - pos;
      if offered < n {
        n := offered;
      }
      if count < n {
        n := count;
      }
      forall i | 0 <= i < n {
        buffer[at + i] := stream[pos + i];
      }
      pos := pos + n;
      eof := pos == |stream| && (eagerEof || n == 0);
    }

    /** SQLPutData, of bytes that are the next piece of the stream. */
    method PutData(packet: seq<byte>, ghost from: nat)
      requires from <= pos <= |stream| && packet == stream[from..pos] && Joined(packets) == stream[..from] && PacketsFit()
      requires |packet| <= PHP_STREAM_BUFFER_SIZE + 1 && Utf8(stream, from, pos)
      modifies this`packets
      ensures packets == old(packets) + [packet] && Joined(packets) == stream[..pos] && PacketsFit()
    {
      hide Utf8;
      SameText(stream, from, pos, packet);
      packets := packets + [packet];
      assert packets[..|packets| - 1] == old(packets);
      assert stream[..pos] == stream[..from] + stream[from..pos];
    }

    /** What a read of so many bytes gets when so many are ready. */
    function Count(count: nat, offered: nat): nat
      requires pos <= |stream|
      reads this`pos
    {
      var left := |stream| - pos;
      if offered < left && offered < count then offered else if count < left then count else left
    }

    /** The second read, and the second conversion, of a packet that is not a text. */
    method CompleteCharacter(buffer: array<byte>, read: nat, again: nat, ghost from: nat) returns (res: Sending, total: nat)
      requires pos == from + read <= |stream| && 0 < read && read + 3 <= buffer.Length < SIZE_RANGE && again > 0
      requires buffer[..read] == stream[from..pos] && !Utf8(stream, from, pos)
      modifies this`pos, this`eof, buffer
      ensures (res, pos) == Packet(stream, from, old(pos), again)
      ensures pos <= |stream| && (eof ==> pos == |stream| || pos == old(pos))
      ensures res.Sent? ==> pos == from + total && read <= total <= read + 3 && buffer[..total] == stream[from..pos] && Utf8(stream, from, pos)
      ensures res.Sent? ==> (eof ==> pos == |stream|) && total <= buffer.Length
    {
      hide Utf8, ScanBack;
      total := read;
      SameScan(stream, from, pos, buffer[..], read);
      var missing := CalcUtf8Missing(buffer[..], read);
      match missing {
        case BeforeBuffer => return OutsideBuffer, total;
        case NoLead => return EncodingError, total;
        case Need(needToRead) =>
          if needToRead > 3 {
            return OutsideBuffer, total;
          }
          var newRead := Read(buffer, read, needToRead, again);
          total := read + newRead;
          if newRead != needToRead {
            return EncodingError, total;
          }
          assert buffer[..total] == buffer[..read] + buffer[read..total];
          assert stream[from..pos] == stream[from..from + read] + stream[from + read..pos];
          var converted := IsText(buffer[..total]);
          SameText(stream, from, pos, buffer[..total]);
          return if converted then Sent else EncodingError, total;
      }
    }

    /** send_data_packet for a UTF-8 stream, of which offered bytes are ready and then again; the conversion to UTF-16 fails
        exactly on what is not a text. */
    method SendDataPacket(offered: nat, again: nat) returns (res: Sending)
      requires Valid() && offered > 0 && again > 0
      modifies this
      ensures old(eof) ==> res.Ended? && pos == 0 && !eof && packets == old(packets)
      ensures !old(eof) ==> (res, pos) == Packet(stream, old(pos), old(pos + Count(PHP_STREAM_BUFFER_SIZE + 1 - 3, offered)), again)
      ensures res.Sent? ==> Valid() && |packets| == |old(packets)| + 1 && (pos > old(pos) || eof)
      ensures !res.Sent? ==> packets == old(packets)
    {
      hide Utf8, Joined, PacketsFit, ScanBack;
      if eof {
        pos, eof := 0, false;
        return Ended;
      }
      ghost var from := pos;
      var buffer := new byte[PHP_STREAM_BUFFER_SIZE + 1](_ => 0);
      var bufferSize := PHP_STREAM_BUFFER_SIZE + 1 - 3;
      var read := Read(buffer, 0, bufferSize, offered);
      NothingIsText(stream, from);
      if read == 0 {
        PutData([], from);
        return Sent;
      }
      var converted := IsText(buffer[..read]);
      SameText(stream, from, pos, buffer[..read]);
      if !converted {
        res, read := CompleteCharacter(buffer, read, again, from);
        if !res.Sent? {
          return;
        }
      }
      PutData(buffer[..read], from);
      return Sent;
    }

    /** Sending until the parameter is done: whatever the stream, what has been sent then is the stream, in packets that are
        texts. Of a text no packet fails unless the rest of a cut character is not ready. */
    method SendAll(offers: nat -> nat, agains: nat -> nat) returns (res: Sending)
      requires Valid() && pos == 0 && packets == [] && forall k :: offers(k) > 0 && agains(k) > 0
      modifies this
      ensures !res.Sent? && (res.Ended? ==> Joined(packets) == stream && PacketsFit())
      ensures Utf8(stream, 0, |stream|) ==> !res.OutsideBuffer? && ((forall k :: agains(k) >= 3) ==> res.Ended?)
    {
      hide Joined, PacketsFit, BoundaryBefore, CharAt, Missing, Packet;
      res := Sent;
      ghost var text := Utf8(stream, 0, |stream|);
      while res.Sent?
        invariant res.Sent? || res.Ended?
        invariant res.Sent? ==> Valid() && (text ==> Utf8(stream, pos, |stream|))
        invariant res.Ended? ==> Joined(packets) == stream && PacketsFit()
        decreases res.Sent?, |stream| - pos, !eof
      {
        assert stream[..|stream|] == stream;
        var offered, again := offers(|packets|), agains(|packets|);
        if text {
          TextIsSent(stream, pos, pos + Count(PHP_STREAM_BUFFER_SIZE + 1 - 3, offered), again);
        }
        res := SendDataPacket(offered, again);
        if !res.Sent? && !res.Ended? {
          return;
        }
      }
    }
  }

  /** How a call ends: a packet sent, the end of the stream, bytes that are no text, or a scan to before the buffer or a read
      of more than the buffer has room for. */
  datatype Sending = Sent | Ended | EncodingError | OutsideBuffer

  /** What becomes of a packet that starts at from and was first read up to k, and how far it is read. */
  function Packet(s: seq<byte>, from: nat, k: nat, again: nat): (r: (Sending, nat))
    requires from <= k <= |s|
    ensures k <= r.1 <= |s| && !r.0.Ended?
  {
    if Utf8(s, from, k) || from == k then (Sent, k)
    else match ScanBack(s, from, k)
      case BeforeBuffer => (OutsideBuffer, k)
      case NoLead => (EncodingError, k)
      case Need(n) =>
        if n > 3 then (OutsideBuffer, k)
        else
          var left := |s| - k;
          var to := k + if again < left && again < n then again else if n < left then n else left;
          (if to == k + n && Utf8(s, from, to) then Sent else EncodingError, to)
  }

  /** A packet leads out of the buffer exactly when it is no text and either mid bytes only, or ends in more mid bytes than the
      first byte in front of them takes; what is sent is a text. */
  lemma PacketGoesWrongExactlyWhen(s: seq<byte>, from: nat, k: nat, again: nat)
    requires from < k <= |s| < SIZE_RANGE - 3
    ensures var l := LastLead(s, from, k);
            Packet(s, from, k, again).0 == OutsideBuffer <==>
              !Utf8(s, from, k) && (l < from || (s[l] >= 192 && k - 1 - l > Following(s[l])))
    ensures var (res, to) := Packet(s, from, k, again);
            res == Sent <==> (Utf8(s, from, k) && to == k) || (k <= to <= k + 3 && Need(to - k) == ScanBack(s, from, k) && Utf8(s, from, to) && again >= to - k && !Utf8(s, from, k))
  {
    hide Utf8;
    ScanGoesWrongExactlyWhen(s, from, k);
  }

  /** A packet of a text is sent, with the rest of a cut character, exactly when that rest is ready. */
  lemma TextIsSent(s: seq<byte>, from: nat, k: nat, again: nat)
    requires from <= k <= |s| && Utf8(s, from, |s|)
    ensures var m := Missing(s, from, k, |s|);
            && 0 <= m <= 3 && k + m <= |s|
            && Packet(s, from, k, again) == (if again < m then (EncodingError, k + again) else (Sent, k + m))
            && (again >= m ==> Utf8(s, Packet(s, from, k, again).1, |s|))
  {
    hide BoundaryBefore, CharAt, Utf8, ScanBack;
    NothingIsText(s, from);
    CutIsTextAtBoundary(s, from, k, |s|);
    if Utf8(s, from, k) {
      RestIsText(s, from, k, |s|);
    } else {
      CutIsCompleted(s, from, k, |s|);
      RestIsText(s, from, k + Missing(s, from, k, |s|), |s|);
    }
  }

  predicate IsText(s: seq<byte>) {
    Utf8(s, 0, |s|)
  }

  lemma NothingIsText(s: seq<byte>, i: nat)
    requires i <= |s|
    ensures Utf8(s, i, i)
  {
  }
}
