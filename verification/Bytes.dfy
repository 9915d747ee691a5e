/**
 Bytes, the bits of a byte, and 64-bit words stored least significant byte first.
 */
module Bytes {
  type byte = x: int | 0 <= x < 256 witness 0

  const WORD_SIZE := 8
  const MAX_LENGTH := 0x8000_0000_0000_0000

  // ---------- bits ----------

  /** (b >> k) & 1 */
  predicate Bit(b: nat, k: nat) {
    if k == 0 then b % 2 == 1 else Bit(b / 2, k - 1)
  }

  /** b | (1 << k) */
  function WithBit(b: nat, k: nat): nat {
    if k == 0 then b + (1 - b % 2) else b % 2 + 2 * WithBit(b / 2, k - 1)
  }

  function TwoTo(m: nat): nat {
    if m == 0 then 1 else 2 * TwoTo(m - 1)
  }

  lemma {:induction false} WithBitBound(b: nat, k: nat, m: nat)
    requires k < m && b < TwoTo(m)
    ensures WithBit(b, k) < TwoTo(m)
  {
    assert TwoTo(m) == 2 * TwoTo(m - 1);
    if k > 0 {
      var half, rest := b / 2, b % 2;
      assert b == 2 * half + rest && half < TwoTo(m - 1);
      WithBitBound(half, k - 1, m - 1);
    }
  }

  lemma WithBitFits(b: byte, k: nat)
    requires k < 8
    ensures WithBit(b, k) < 256
  {
    assert TwoTo(4) == 16;
    assert TwoTo(8) == 16 * TwoTo(4);
    WithBitBound(b, k, 8);
  }

  /** Setting a bit sets that bit and no other. */
  lemma {:induction false} WithBitSets(b: nat, k: nat, j: nat)
    ensures Bit(WithBit(b, k), j) <==> j == k || Bit(b, j)
  {
    if k > 0 && j > 0 {
      WithBitSets(b / 2, k - 1, j - 1);
    }
  }

  lemma {:induction false} NoBits(k: nat)
    ensures !Bit(0, k)
  {
    if k > 0 {
      NoBits(k - 1);
    }
  }

  // ---------- words ----------

  /** n in k bytes, least significant first. */
  function Encode(n: nat, k: nat): (s: seq<byte>)
    ensures |s| == k
  {
    if k == 0 then [] else [n % 256] + Encode(n / 256, k - 1)
  }

  function Decode(s: seq<byte>): nat {
    if s == [] then 0 else s[0] + 256 * Decode(s[1..])
  }

  function Range(k: nat): nat {
    if k == 0 then 1 else 256 * Range(k - 1)
  }

  lemma {:induction false} DecodeEncode(n: nat, k: nat)
    requires n < Range(k)
    ensures Decode(Encode(n, k)) == n
  {
    if k > 0 {
      DecodeEncode(n / 256, k - 1);
      assert Encode(n, k)[1..] == Encode(n / 256, k - 1);
    }
  }

  lemma RangeOfWord()
    ensures Range(WORD_SIZE) == 2 * MAX_LENGTH
  {
    assert Range(2) == 256 * 256;
    assert Range(4) == 256 * 256 * Range(2);
    assert Range(6) == 256 * 256 * Range(4);
    assert Range(8) == 256 * 256 * Range(6);
  }

  /** A signed 64-bit length or indicator in memory. */
  function EncodeLength(n: int): (s: seq<byte>)
    requires -MAX_LENGTH <= n < MAX_LENGTH
    ensures |s| == WORD_SIZE
  {
    Encode(if n < 0 then n + 2 * MAX_LENGTH else n, WORD_SIZE)
  }

  function DecodeLength(s: seq<byte>): int
    requires |s| == WORD_SIZE
  {
    var n := Decode(s);
    if n < MAX_LENGTH then n else n - 2 * MAX_LENGTH
  }

  lemma DecodeEncodeLength(n: int)
    requires -MAX_LENGTH <= n < MAX_LENGTH
    ensures DecodeLength(EncodeLength(n)) == n
  {
    RangeOfWord();
    DecodeEncode(if n < 0 then n + 2 * MAX_LENGTH else n, WORD_SIZE);
  }
}
