/**
 * Wrap-around index arithmetic shared by the project image carousel and the
 * testimonial carousel, and the row of dots that marks the active position.
 */
module Cyclic {

  /**
   * JavaScript's `%` on numbers: the remainder truncates toward zero, so its
   * sign follows the dividend (`-1 % 4` is `-1`), unlike Dafny's Euclidean `%`.
   */
  function JsRem(a: int, b: int): (r: int)
    requires b > 0
    ensures a >= 0 ==> 0 <= r < b
    ensures a < 0 ==> -b < r <= 0
    ensures a == JsQuot(a, b) * b + r
  {
    if a >= 0 then a % b
    else
      var q := (-a) / b;
      assert -a == q * b + (-a) % b;
      -((-a) % b)
  }

  /** JavaScript's `Math.trunc(a / b)`: the quotient that goes with `JsRem`. */
  function JsQuot(a: int, b: int): int
    requires b > 0
  {
    if a >= 0 then a / b else -((-a) / b)
  }

  lemma MulBounds(q: int, b: int)
    requires b > 0
    ensures q >= 1 ==> q * b >= b
    ensures q <= -1 ==> q * b <= -b
  {
  }

  /** A non-negative dividend below twice the divisor needs at most one subtraction. */
  lemma RemOfSmall(a: int, b: int)
    requires b > 0 && 0 <= a < 2 * b
    ensures JsRem(a, b) == if a < b then a else a - b
  {
    var q := JsQuot(a, b);
    assert a == q * b + JsRem(a, b) && 0 <= JsRem(a, b) < b;
    MulBounds(q, b);
    MulBounds(q - 1, b);
    assert (q - 1) * b == q * b - b;
  }

  /** `(prev + 1) % length`: one step forward, wrapping from the last position to the first. */
  function NextIndex(i: int, len: int): (r: int)
    requires 0 <= i < len
    ensures 0 <= r < len
    ensures r == if i == len - 1 then 0 else i + 1
  {
    RemOfSmall(i + 1, len);
    JsRem(i + 1, len)
  }

  /** `(prev - 1 + length) % length`: one step back, wrapping from the first position to the last. */
  function PrevIndex(i: int, len: int): (r: int)
    requires 0 <= i < len
    ensures 0 <= r < len
    ensures r == if i == 0 then len - 1 else i - 1
  {
    RemOfSmall(i - 1 + len, len);
    JsRem(i - 1 + len, len)
  }

  /** Without the added length, stepping back from position 0 would leave the range. */
  lemma UnshiftedPrevLeavesRange(len: int)
    requires len > 1
    ensures JsRem(0 - 1, len) == -1
  {
  }

  lemma PrevUndoesNext(i: int, len: int)
    requires 0 <= i < len
    ensures PrevIndex(NextIndex(i, len), len) == i
  {
  }

  lemma NextUndoesPrev(i: int, len: int)
    requires 0 <= i < len
    ensures NextIndex(PrevIndex(i, len), len) == i
  {
  }

  /** The index after `n` forward steps. */
  function NextTimes(i: int, len: int, n: nat): (r: int)
    requires 0 <= i < len
    ensures 0 <= r < len
  {
    if n == 0 then i else NextIndex(NextTimes(i, len, n - 1), len)
  }

  /** Forward steps that stay below the length just add up. */
  lemma {:induction false} NextTimesWithinRange(i: int, len: int, n: nat)
    requires 0 <= i && i + n < len
    ensures NextTimes(i, len, n) == i + n
  {
    if n > 0 {
      NextTimesWithinRange(i, len, n - 1);
    }
  }

  /** `a` steps followed by `b` steps are `a + b` steps. */
  lemma {:induction false} NextTimesAdd(i: int, len: int, a: nat, b: nat)
    requires 0 <= i < len
    ensures NextTimes(NextTimes(i, len, a), len, b) == NextTimes(i, len, a + b)
  {
    if b > 0 {
      NextTimesAdd(i, len, a, b - 1);
    }
  }

  /** Going forward once per position returns to the starting index. */
  lemma FullCycle(i: int, len: int)
    requires 0 <= i < len
    ensures NextTimes(i, len, len) == i
  {
    var toEnd := len - 1 - i;
    NextTimesWithinRange(i, len, toEnd);
    var wrapped := NextTimes(i, len, toEnd + 1);
    assert wrapped == NextIndex(NextTimes(i, len, toEnd), len);
    assert wrapped == 0;
    NextTimesWithinRange(0, len, i);
    NextTimesAdd(i, len, toEnd + 1, i);
    assert toEnd + 1 + i == len;
  }

  /** The dot row: dot `k` is marked exactly when `k` is the current index. */
  function Dots(current: int, len: nat): (d: seq<bool>)
    ensures |d| == len
    ensures forall k :: 0 <= k < len ==> (d[k] <==> k == current)
  {
    seq(len, k => k == current)
  }

  /** Number of marked dots. */
  function CountMarked(d: seq<bool>): nat
  {
    if d == [] then 0 else (if d[0] then 1 else 0) + CountMarked(d[1..])
  }

  lemma {:induction false} NoneMarked(d: seq<bool>)
    requires forall k :: 0 <= k < |d| ==> !d[k]
    ensures CountMarked(d) == 0
  {
    if d != [] {
      NoneMarked(d[1..]);
    }
  }

  lemma {:induction false} OneMarked(d: seq<bool>, c: int)
    requires 0 <= c < |d|
    requires forall k :: 0 <= k < |d| ==> (d[k] <==> k == c)
    ensures CountMarked(d) == 1
  {
    if c == 0 {
      NoneMarked(d[1..]);
    } else {
      OneMarked(d[1..], c - 1);
    }
  }

  /** Exactly one dot is marked while the index is in range. */
  lemma ExactlyOneDotMarked(current: int, len: nat)
    requires 0 <= current < len
    ensures CountMarked(Dots(current, len)) == 1
  {
    OneMarked(Dots(current, len), current);
  }
}
