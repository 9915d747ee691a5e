/**
 The bounded writer of the print functions (FormattedPrint.h, BufferOutput): it keeps count of what was written, and the
 count sticks at -1 once something did not fit.
 */
module PrintOutput {
  const INT_MAX := 0x7FFF_FFFF

  function Repeat(c: char, n: int): (s: string)
    ensures |s| == if n < 0 then 0 else n
    ensures forall i :: 0 <= i < |s| ==> s[i] == c
  {
    if n < 0 then "" else seq(n, _ => c)
  }

  /** Two contents of a block agree outside a part of it. */
  ghost predicate SameOutside(a: seq<char>, b: seq<char>, start: nat, size: nat) {
    |a| == |b| && forall i :: 0 <= i < |a| && !(start <= i < start + size) ==> a[i] == b[i]
  }

  lemma SameOutsideAgain(a: seq<char>, b: seq<char>, c: seq<char>, start: nat, size: nat)
    requires SameOutside(a, b, start, size) && SameOutside(b, c, start, size)
    ensures SameOutside(a, c, start, size)
  {
  }

  lemma TakePart(a: string, b: string, n: int)
    ensures 0 <= n <= |a| ==> (a + b)[..n] == a[..n]
    ensures (a + b)[..|a|] == a
  {
  }

  lemma TakeOneMore(a: string, b: string, i: nat)
    requires i < |b|
    ensures (a + b)[..|a| + i + 1] == (a + b)[..|a| + i] + [b[i]]
  {
  }

  class BufferOutput {
    const buffer: array<char>
    const start: nat
    const size: nat
    var next: nat
    var remaining: nat
    /** Everything that was asked to be written. */
    ghost var asked: string

    /** Output into buffer[start..start + size], which is cleared unless it is very large. */
    constructor (buffer: array<char>, start: nat, size: nat)
      requires start + size <= buffer.Length
      modifies buffer
      ensures this.buffer == buffer && this.start == start && this.size == size && asked == "" && Valid(0)
      ensures SameOutside(buffer[..], old(buffer[..]), start, size)
    {
      this.buffer, this.start, this.size := buffer, start, size;
      next, remaining, asked := start, size, "";
      new;
      if size < INT_MAX {
        forall i | 0 <= i < size {
          buffer[start + i] := '\0';
        }
      }
    }

    /** count is the number of characters written so far, or -1. */
    ghost predicate Valid(count: int)
      reads this, buffer
    {
      && start + size <= buffer.Length && next + remaining == start + size && start <= next
      && count == (if |asked| <= size then |asked| else -1)
      && next == start + (if |asked| <= size then |asked| else size)
      && buffer[start..next] == asked[..next - start]
    }

    ghost predicate OnlyInside(before: seq<char>)
      reads this, buffer
    {
      SameOutside(buffer[..], before, start, size)
    }

    /** The next character goes into the buffer. */
    method Put(c: char)
      requires start <= next && next + remaining == start + size <= buffer.Length && remaining > 0
      modifies this`next, this`remaining, buffer
      ensures next == old(next) + 1 && remaining == old(remaining) - 1
      ensures buffer[start..next] == old(buffer[start..next]) + [c] && OnlyInside(old(buffer[..]))
    {
      ghost var done := buffer[start..next];
      buffer[next] := c;
      assert buffer[start..next + 1] == done + [c];
      next := next + 1;
      remaining := remaining - 1;
    }

    method WriteString(s: string, count: int) returns (newCount: int)
      requires Valid(count)
      modifies this`next, this`remaining, this`asked, buffer
      ensures Valid(newCount) && asked == old(asked) + s && OnlyInside(old(buffer[..]))
    {
      hide SameOutside;
      SameAsItself();
      newCount := count;
      ghost var before, had := buffer[..], asked;
      TakePart(had, s, next - start);
      asked := asked + s;
      if count >= 0 && |s| > 0 {
        var i := 0;
        while remaining != 0 && i != |s|
          invariant 0 <= i <= |s| && newCount == count + i && asked == had + s
          invariant start + size <= buffer.Length && next + remaining == start + size && next == start + |had| + i
          invariant buffer[start..next] == (had + s)[..|had| + i]
          invariant OnlyInside(before)
          decreases |s| - i
        {
          ghost var was := buffer[..];
          Put(s[i]);
          SameOutsideAgain(buffer[..], was, before, start, size);
          TakeOneMore(had, s, i);
          i := i + 1;
          newCount := newCount + 1;
        }
        if i != |s| {
          newCount := -1;
        }
      }
    }

    lemma SameAsItself()
      ensures OnlyInside(buffer[..])
    {
    }

    method WriteChar(c: char, count: int) returns (newCount: int)
      requires Valid(count)
      modifies this`next, this`remaining, this`asked, buffer
      ensures Valid(newCount) && asked == old(asked) + [c] && OnlyInside(old(buffer[..]))
    {
      newCount := count;
      if count >= 0 {
        if remaining > 0 {
          newCount := newCount + 1;
          remaining := remaining - 1;
          buffer[next] := c;
          next := next + 1;
        } else {
          newCount := -1;
        }
      }
      asked := asked + [c];
    }

    method WriteMultiChar(c: char, repeatCount: int, count: int) returns (newCount: int)
      requires Valid(count)
      modifies this`next, this`remaining, this`asked, buffer
      ensures Valid(newCount) && asked == old(asked) + Repeat(c, repeatCount) && OnlyInside(old(buffer[..]))
    {
      hide SameOutside;
      SameAsItself();
      newCount := count;
      ghost var before, had, s := buffer[..], asked, Repeat(c, repeatCount);
      TakePart(had, s, next - start);
      asked := asked + s;
      if count >= 0 && repeatCount > 0 {
        var left := repeatCount;
        while remaining != 0 && left != 0
          invariant 0 <= left <= |s| && newCount == count + |s| - left && asked == had + s
          invariant start + size <= buffer.Length && next + remaining == start + size && next == start + |had| + |s| - left
          invariant buffer[start..next] == (had + s)[..|had| + |s| - left]
          invariant OnlyInside(before)
          decreases left
        {
          ghost var was := buffer[..];
          Put(c);
          SameOutsideAgain(buffer[..], was, before, start, size);
          TakeOneMore(had, s, |s| - left);
          left := left - 1;
          newCount := newCount + 1;
        }
        if left != 0 {
          newCount := -1;
        }
      }
    }

    /** Once the count sticks, what is still asked for makes no difference. */
    ghost method Skip(s: string)
      requires Valid(-1)
      modifies this`asked
      ensures Valid(-1) && asked == old(asked) + s
    {
      assert (asked + s)[..next - start] == asked[..next - start];
      asked := asked + s;
    }
  }
}
