/**
 The scrolling cursor of a buffered result set (core_results.cpp, sqlsrv_buffered_result_set::fetch) in 64-bit
 arithmetic, and the exact position it stands for.
 */
module Cursor {
  const LONG_MIN := -0x8000_0000_0000_0000
  const LONG_MAX := 0x7FFF_FFFF_FFFF_FFFF

  datatype Orientation = Next | Prior | First | Last | Absolute | Relative

  predicate IsLong(x: int) {
    LONG_MIN <= x <= LONG_MAX
  }

  /** Addition of 64-bit signed numbers. */
  function Wrap(x: int): (w: int)
    ensures IsLong(w)
    ensures IsLong(x) ==> w == x
    ensures LONG_MAX < x <= 2 * LONG_MAX ==> w == x + 2 * LONG_MIN
  {
    (x - LONG_MIN) % 0x1_0000_0000_0000_0000 + LONG_MIN
  }

  /** Where a fetch points, without bounds. */
  function Target(position: int, orientation: Orientation, offset: int, rows: int): int {
    match orientation
    case Next => position + 1
    case Prior => position - 1
    case First => 1
    case Last => rows
    case Absolute => offset
    case Relative => position + offset
  }

  /** Never further away than just before the first row or just after the last. */
  function Clamp(x: int, rows: int): (c: int)
    ensures rows >= -1 ==> 0 <= c <= rows + 1
  {
    if x < 0 then 0 else if x > rows + 1 then rows + 1 else x
  }

  /** The one fetch that succeeds without a row. */
  predicate StaysBeforeFirst(position: int, orientation: Orientation, offset: int) {
    orientation.Relative? && offset == 0 && position == 0
  }

  function After(position: int, steps: seq<(Orientation, int)>, rows: nat): (p: int)
    requires 0 <= position <= rows + 1
    ensures 0 <= p <= rows + 1
    decreases |steps|
  {
    if steps == [] then position
    else After(Clamp(Target(position, steps[0].0, steps[0].1, rows), rows), steps[1..], rows)
  }

  function Nexts(n: nat): (s: seq<(Orientation, int)>)
    ensures |s| == n
  {
    seq(n, _ => (Next, 0))
  }

  /** From before the first row, the k-th NEXT lands on row k, and past the last row it stays there. */
  lemma {:induction false} NextVisitsEveryRow(position: nat, n: nat, rows: nat)
    requires position <= rows + 1
    ensures After(position, Nexts(n), rows) == if position + n <= rows then position + n else rows + 1
    decreases n
  {
    if n > 0 {
      assert Nexts(n)[1..] == Nexts(n - 1);
      NextVisitsEveryRow(Clamp(position + 1, rows), n - 1, rows);
    }
  }

  function Priors(n: nat): (s: seq<(Orientation, int)>)
    ensures |s| == n
  {
    seq(n, _ => (Prior, 0))
  }

  /** One fetch of the cursor. */
  function Moved(position: int, orientation: Orientation, offset: int, rows: nat): (p: int)
    requires 0 <= position <= rows + 1
    ensures 0 <= p <= rows + 1
  {
    Clamp(Target(position, orientation, offset, rows), rows)
  }

  /** PRIOR takes NEXT back, except behind the last row. */
  lemma PriorUndoesNext(position: nat, rows: nat)
    requires position <= rows
    ensures Moved(Moved(position, Next, 0, rows), Prior, 0, rows) == position
    ensures position > 0 ==> Moved(Moved(position, Prior, 0, rows), Next, 0, rows) == position
  {
  }

  lemma {:induction false} PriorsGoBack(position: nat, n: nat, rows: nat)
    requires position <= rows + 1
    ensures After(position, Priors(n), rows) == if n <= position then position - n else 0
    decreases n
  {
    if n > 0 {
      assert Priors(n)[1..] == Priors(n - 1);
      PriorsGoBack(Clamp(position - 1, rows), n - 1, rows);
    }
  }

  /** RELATIVE is so many times NEXT or PRIOR. */
  lemma RelativeIsManySteps(position: nat, offset: int, rows: nat)
    requires position <= rows + 1
    ensures Moved(position, Relative, offset, rows) == After(position, if offset >= 0 then Nexts(offset) else Priors(-offset), rows)
  {
    if offset >= 0 {
      NextVisitsEveryRow(position, offset, rows);
    } else {
      PriorsGoBack(position, -offset, rows);
    }
  }

  /** ABSOLUTE counts NEXTs from before the first row, FIRST is one of them, and LAST is PRIOR from behind the last row. */
  lemma FromTheEnds(position: nat, offset: nat, rows: nat)
    requires position <= rows + 1
    ensures Moved(position, Absolute, offset, rows) == After(0, Nexts(offset), rows)
    ensures Moved(position, First, 0, rows) == After(0, Nexts(1), rows)
    ensures Moved(position, Last, 0, rows) == Moved(rows + 1, Prior, 0, rows)
    ensures Moved(position, Absolute, -1 - offset, rows) == 0
  {
    NextVisitsEveryRow(0, offset, rows);
    NextVisitsEveryRow(0, 1, rows);
  }

  /** The statement counts absolute rows from 0 and the result set from 1; the addition is in 64 bits, so every offset
      lands where it should except the largest, which wraps to before the first row. */
  lemma ZeroBasedOffset(offset: int, rows: nat)
    requires IsLong(offset) && rows < LONG_MAX
    ensures Clamp(Wrap(offset + 1), rows) == Clamp(offset + 1, rows) <==> offset != LONG_MAX
  {
    if offset == LONG_MAX {
      assert Wrap(offset + 1) == LONG_MIN;
    }
  }
}
