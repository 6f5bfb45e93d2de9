/** Row arithmetic shared by the two refill loops of the play queue: a scan that
    walks the rows of a list of `n` tracks forwards and wraps past the last row
    back to row 0, and the drop-oldest bound on the container it fills. */
module Rows {

  function Min(a: int, b: int): int { if a <= b then a else b }

  /** The wrap applied at the top of every refill iteration: a row at or past the
      end of the list restarts at row 0. */
  function StartRow(row: int, n: nat): int
  {
    if row >= n then 0 else row
  }

  /** The wrap keeps a row inside the list and leaves a row before the end alone. */
  lemma StartRowInRange(row: int, n: nat)
    ensures 0 <= row && n > 0 ==> 0 <= StartRow(row, n) < n
    ensures row < n ==> StartRow(row, n) == row
  {
  }

  /** The row read by iteration `k` (counting from 0) of a refill loop whose row
      variable starts at `row`: each iteration wraps the row, reads it, and moves
      the variable one row on. */
  function ScanRow(row: int, n: nat, k: nat): (r: int)
    requires n > 0 && row >= 0
    ensures 0 <= r < n
    decreases k
  {
    if k == 0 then StartRow(row, n) else StartRow(ScanRow(row, n, k - 1) + 1, n)
  }

  /** The value of a row variable `x` after `while (x < 0) x += n;`. */
  function Lift(x: int, n: nat): (r: int)
    requires n > 0
    ensures r >= 0 && (x < n ==> r < n)
    decreases if x < 0 then -x else 0
  {
    if x >= 0 then x else Lift(x + n, n)
  }

  /** One bounded push: when the container already holds `cap` elements its
      oldest (index 0) is dropped, then `x` is appended. */
  function Push(q: seq<int>, x: int, cap: nat): (r: seq<int>)
    requires cap >= 1
    ensures |q| <= cap ==> |r| == Min(|q| + 1, cap)
    ensures |r| >= 1 && r[|r| - 1] == x
  {
    (if |q| >= cap then q[1..] else q) + [x]
  }

  /** A bounded push keeps the newest elements of the container, in order, below
      the new one. */
  lemma PushKeepsNewest(q: seq<int>, x: int, cap: nat)
    requires cap >= 1
    ensures var r := Push(q, x, cap);
      |r| <= |q| + 1 && r == q[|q| + 1 - |r|..] + [x]
  {
  }

  /** A container bounded at `cap`, emptied and then given one bounded push per
      iteration of a refill loop whose row variable starts at `row`, holds after
      `k` iterations the newest `min(k, cap)` rows read, oldest first. */
  function BoundedScan(row: int, n: nat, k: nat, cap: nat): (q: seq<int>)
    requires n > 0 && row >= 0 && cap >= 1
    ensures |q| == Min(k, cap)
    ensures forall i :: 0 <= i < |q| ==> q[i] == ScanRow(row, n, k - |q| + i)
    decreases k
  {
    if k == 0 then [] else Push(BoundedScan(row, n, k - 1, cap), ScanRow(row, n, k - 1), cap)
  }

  /** A non-zero multiple of `n` is at least `n` away from zero. */
  lemma MulAwayFromZero(d: int, n: int)
    requires n > 0
    ensures d >= 1 ==> d * n >= n
    ensures d <= -1 ==> d * n <= -n
  {
    if d >= 1 {
      assert d * n == (d - 1) * n + n;
      assert (d - 1) * n >= 0;
    } else if d <= -1 {
      assert d * n == (d + 1) * n - n;
      assert (d + 1) * n <= 0;
    }
  }

  /** The remainder is the unique `r` in `[0, n)` with `x == m * n + r`. */
  lemma ModUnique(x: int, m: int, r: int, n: nat)
    requires n > 0 && 0 <= r < n && x == m * n + r
    ensures x % n == r
  {
    var q := x / n;
    assert x == q * n + x % n;
    var d := m - q;
    assert d * n == m * n - q * n;
    assert d * n == x % n - r;
    MulAwayFromZero(d, n);
  }

  /** Adding a multiple of the list length does not change the row it denotes. */
  lemma ModShift(a: int, k: int, n: nat)
    requires n > 0
    ensures (a + k * n) % n == a % n
  {
    var q := a / n;
    assert a == q * n + a % n;
    assert a + k * n == (q + k) * n + a % n;
    ModUnique(a + k * n, q + k, a % n, n);
  }

  /** Reducing a partial sum first does not change the row it denotes. */
  lemma ModAddLeft(a: int, b: int, n: nat)
    requires n > 0
    ensures (a % n + b) % n == (a + b) % n
  {
    ModShift(a % n + b, a / n, n);
  }

  /** The wrap at the top of an iteration turns the successor of the last row
      scanned into the next row of the scan. */
  lemma WrapStep(x: int, n: nat)
    requires n > 0
    ensures StartRow(x % n + 1, n) == (x + 1) % n
  {
    var y := x % n + 1;
    assert y % n == (x + 1) % n by {
      ModAddLeft(x, 1, n);
    }
    if y < n {
      ModUnique(y, 0, y, n);
    } else {
      ModUnique(y, 1, 0, n);
    }
  }

  /** Iteration `k` of a scan reads row `(s + k) mod n`, where `s` is the start
      row after the first wrap: the scan walks the list forwards and wraps past
      the last row back to row 0. */
  lemma {:induction false} ScanRowClosedForm(row: int, n: nat, k: nat)
    requires n > 0 && row >= 0
    ensures ScanRow(row, n, k) == (StartRow(row, n) + k) % n
    decreases k
  {
    if k == 0 {
      ModUnique(StartRow(row, n), 0, StartRow(row, n), n);
    } else {
      ScanRowClosedForm(row, n, k - 1);
      WrapStep(StartRow(row, n) + k - 1, n);
    }
  }

  /** Lifting a row below the end of the list by whole list lengths reduces it
      modulo the list length. */
  lemma {:induction false} LiftClosedForm(x: int, n: nat)
    requires n > 0 && x < n
    ensures Lift(x, n) == x % n
    decreases if x < 0 then -x else 0
  {
    if x >= 0 {
      ModUnique(x, 0, x, n);
    } else {
      LiftClosedForm(x + n, n);
      ModShift(x, 1, n);
    }
  }

  /** A scan restarted from the row after the one read by iteration `a` reads
      what the original scan reads from iteration `a + 1` on. */
  lemma {:induction false} ScanRowShift(row: int, n: nat, a: nat, j: nat)
    requires n > 0 && row >= 0
    ensures ScanRow(ScanRow(row, n, a) + 1, n, j) == ScanRow(row, n, a + 1 + j)
    decreases j
  {
    if j > 0 {
      ScanRowShift(row, n, a, j - 1);
    }
  }
}
