/** Facts about `%` on naturals that the wrap-around of the track index needs. */
module ModArith {
  lemma {:induction false} MulAtLeast(k: nat, n: nat)
    requires k >= 1
    ensures k * n >= n
    decreases k
  {
    if k > 1 {
      MulAtLeast(k - 1, n);
      assert k * n == (k - 1) * n + n;
    }
  }
  lemma MulAwayFromZero(d: int, n: int)
    requires n >= 0
    ensures d >= 1 ==> d * n >= n
    ensures d <= -1 ==> d * n <= -n
  {
    if d >= 1 {
      MulAtLeast(d, n);
    } else if d <= -1 {
      MulAtLeast(-d, n);
      assert (-d) * n == -(d * n);
    }
  }
  lemma ModShift(a: nat, n: nat)
    requires n > 0 && a >= n
    ensures a % n == (a - n) % n
  {
    var q, r := a / n, a % n;
    var q', r' := (a - n) / n, (a - n) % n;
    assert a == q * n + r;
    assert a - n == q' * n + r';
    var d := q - q' - 1;
    assert d * n == r' - r;
    MulAwayFromZero(d, n);
  }
  lemma {:induction false} ModSucc(a: nat, n: nat)
    requires n > 0
    ensures (a % n + 1) % n == (a + 1) % n
    decreases a
  {
    if a >= n {
      ModShift(a, n);
      ModShift(a + 1, n);
      ModSucc(a - n, n);
    }
  }

  lemma {:induction false} ModAdd(a: nat, b: nat, n: nat)
    requires n > 0
    ensures (a % n + b) % n == (a + b) % n
    decreases b
  {
    if b == 0 {
      ModSucc(a, n);
      assert (a % n) % n == a % n;
    } else {
      ModAdd(a, b - 1, n);
      ModSucc(a % n + b - 1, n);
      ModSucc(a + b - 1, n);
    }
  }

  lemma ModOfSmall(a: nat, n: nat)
    requires a < n
    ensures a % n == a
  {
  }

  /** One step back around a cycle of n positions, as `(i - 1 + n) % n`. */
  lemma StepBack(i: nat, n: nat)
    requires n > 0
    ensures (i - 1 + n) % n < n
    ensures 0 < i < n ==> (i - 1 + n) % n == i - 1
    ensures i == 0 ==> (i - 1 + n) % n == n - 1
    ensures i >= n ==> (i - 1 + n) % n == (i - 1) % n
  {
    if i == 0 {
      ModOfSmall(n - 1, n);
    } else if i < n {
      ModShift(i - 1 + n, n);
      ModOfSmall(i - 1, n);
    } else {
      ModShift(i - 1 + n, n);
    }
  }
}
