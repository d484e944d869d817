/** Integer facts shared by the frame-distribution planner and the virtual
    layout: ceiling division, sums of sequences, and the "digit" view of
    `a * b + o` with `0 <= o < b` that every block/stride argument rests on. */
module Arith {

  function Min(a: int, b: int): (r: int)
    ensures r <= a && r <= b
    ensures r == a || r == b
  {
    if a <= b then a else b
  }

  function Max(a: int, b: int): (r: int)
    ensures r >= a && r >= b
    ensures r == a || r == b
  {
    if a >= b then a else b
  }

  function Abs(x: int): (r: nat)
    ensures r == x || r == -x
  {
    if x < 0 then -x else x
  }

  /** Python's `math.ceil(a / b)` for non-negative integers, computed exactly:
      the least `r` with `a <= r * b`. */
  function CeilDiv(a: nat, b: nat): (r: nat)
    requires b > 0
    ensures a <= r * b
    ensures r == 0 || (r - 1) * b < a
    ensures r == 0 <==> a == 0
  {
    var r := (a + b - 1) / b;
    var m := (a + b - 1) % b;
    assert a + b - 1 == r * b + m;
    assert (r - 1) * b == r * b - b;
    r
  }

  /** `i` is below the ceiling of `a / b` exactly when `i * b` is below `a`. */
  lemma CeilDivLess(a: nat, b: nat, i: nat)
    requires b > 0
    ensures i < CeilDiv(a, b) <==> i * b < a
  {
    var r := CeilDiv(a, b);
    if i < r {
      MulMonotone(i, r - 1, b);
    } else {
      MulMonotone(r, i, b);
    }
  }

  /** Raising a cap on `s` from `a` to `a + m` gains `min(s - a, m)` if the old
      cap was binding and nothing otherwise. */
  lemma MinStep(s: int, a: int, m: int)
    requires m >= 0
    ensures Min(s, a + m) == Min(s, a) + (if a < s then Min(s - a, m) else 0)
  {
  }

  /** Sum of a sequence, peeling off the last element (so that prefixes
      built by appending line up with the recursion). */
  function Sum(s: seq<int>): int
  {
    if |s| == 0 then 0 else Sum(s[..|s| - 1]) + s[|s| - 1]
  }

  /** `Sum` of naturals, as a natural. */
  function Total(s: seq<nat>): (r: nat)
    ensures r == Sum(s)
  {
    SumNonNegative(s);
    Sum(s)
  }

  lemma {:induction false} SumAppend(s: seq<int>, x: int)
    ensures Sum(s + [x]) == Sum(s) + x
  {
    assert (s + [x])[..|s|] == s;
  }

  lemma {:induction false} SumUpdate(s: seq<int>, i: nat, v: int)
    requires i < |s|
    ensures Sum(s[i := v]) == Sum(s) - s[i] + v
  {
    var n := |s|;
    if i == n - 1 {
      assert s[i := v][..n - 1] == s[..n - 1];
    } else {
      assert s[i := v][..n - 1] == s[..n - 1][i := v];
      SumUpdate(s[..n - 1], i, v);
    }
  }

  lemma {:induction false} SumNonNegative(s: seq<int>)
    requires forall i :: 0 <= i < |s| ==> s[i] >= 0
    ensures Sum(s) >= 0
  {
    if |s| > 0 {
      SumNonNegative(s[..|s| - 1]);
    }
  }

  lemma MulMonotone(x: int, y: int, k: int)
    requires x <= y && k >= 0
    ensures x * k <= y * k
  {
    assert y * k - x * k == (y - x) * k;
  }

  lemma MulPositive(x: nat, y: nat)
    ensures x * y > 0 <==> x > 0 && y > 0
  {
    if x > 0 && y > 0 {
      MulMonotone(1, x, y);
    }
  }

  lemma MulAddDistrib(x: int, y: int, k: int)
    ensures x * k + y * k == (x + y) * k
  {
  }

  /** Comparing two numbers written in "base b" with a single low digit. */
  lemma LexLess(a: int, o: int, c: int, d: int, b: int)
    requires b > 0 && 0 <= o < b && 0 <= d <= b
    ensures a * b + o < c * b + d <==> a < c || (a == c && o < d)
  {
    if a < c {
      MulMonotone(a + 1, c, b);
      assert (a + 1) * b == a * b + b;
    } else if a > c {
      MulMonotone(c + 1, a, b);
      assert (c + 1) * b == c * b + b;
    }
  }

  /** The low digit and the high part of `a * b + o` are unique. */
  lemma LexEqual(a: int, o: int, c: int, d: int, b: int)
    requires b > 0 && 0 <= o < b && 0 <= d < b
    ensures a * b + o == c * b + d <==> a == c && o == d
  {
    LexLess(a, o, c, d, b);
    LexLess(c, d, a, o, b);
  }

  lemma DivModOf(a: int, o: int, b: int)
    requires b > 0 && 0 <= o < b
    ensures (a * b + o) / b == a
    ensures (a * b + o) % b == o
  {
    var x := a * b + o;
    assert x == (x / b) * b + x % b;
    LexEqual(a, o, x / b, x % b, b);
  }
}
