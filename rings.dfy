/**
 * The circular structures of the widget: Python's `collections.deque.rotate`
 * on a ring of slots, with the index arithmetic it implies.
 */
module Rings {

  /** `deque.rotate()` (one step right): the last element moves to the front. */
  function RotateRight1<T>(s: seq<T>): (r: seq<T>)
    ensures |r| == |s|
  {
    if |s| == 0 then s else [s[|s| - 1]] + s[..|s| - 1]
  }

  /** `deque.rotate(-1)` (one step left): the first element moves to the back. */
  function RotateLeft1<T>(s: seq<T>): (r: seq<T>)
    ensures |r| == |s|
  {
    if |s| == 0 then s else s[1..] + [s[0]]
  }

  /**
   * `deque.rotate(n)`: every element moves `n` places to the right round the
   * ring (to the left when `n < 0`), so position `i` receives what was at
   * position `i - n`.
   */
  function Rotate<T>(s: seq<T>, n: int): (r: seq<T>)
    ensures |r| == |s|
  {
    seq(|s|, i requires 0 <= i < |s| => s[(i - n) % |s|])
  }

  lemma MulAtLeast(m: int, k: int)
    requires m > 0 && k >= 1
    ensures m * k >= m
  {
  }

  /** Euclidean division has one quotient and one remainder. */
  lemma ModUnique(a: int, m: int, q: int, r: int)
    requires m > 0 && 0 <= r < m && a == m * q + r
    ensures a % m == r && a / m == q
  {
    var q', r' := a / m, a % m;
    assert m * q' + r' == a;
    if q' > q {
      MulAtLeast(m, q' - q);
      assert false;
    } else if q' < q {
      MulAtLeast(m, q - q');
      assert false;
    }
  }

  lemma ModAddMultiple(x: int, k: int, m: int)
    requires m > 0
    ensures (x + m * k) % m == x % m
  {
    ModUnique(x + m * k, m, x / m + k, x % m);
  }

  /** Taking the remainder before subtracting `c` does not change the final remainder. */
  lemma ModSub(x: int, c: int, m: int)
    requires m > 0
    ensures (x % m - c) % m == (x - c) % m
  {
    ModUnique(x - c, m, x / m + (x % m - c) / m, (x % m - c) % m);
  }

  /** Two numbers differ by a multiple of `m` exactly when they leave the same remainder. */
  lemma ModDiffZero(x: int, y: int, m: int)
    requires m > 0
    ensures (x - y) % m == 0 <==> x % m == y % m
  {
    if x % m == y % m {
      ModUnique(x - y, m, x / m - y / m, 0);
    }
    if (x - y) % m == 0 {
      var q := (x - y) / m;
      assert x == y + m * q;
      ModAddMultiple(y, q, m);
    }
  }

  /** Subtracting `b` and then `a`, with a remainder taken between, is subtracting `a + b`. */
  lemma ModSubTwice(x: int, b: int, a: int, m: int)
    requires m > 0
    ensures ((x - b) % m - a) % m == (x - (a + b)) % m
  {
    ModSub(x - b, a, m);
    assert x - b - a == x - (a + b);
  }

  lemma RotateRight1At<T>(s: seq<T>, i: int)
    requires 0 <= i < |s|
    ensures RotateRight1(s)[i] == s[(i - 1) % |s|]
  {
    if i == 0 {
      ModUnique(-1, |s|, -1, |s| - 1);
    } else {
      ModUnique(i - 1, |s|, 0, i - 1);
    }
  }

  lemma RotateLeft1At<T>(s: seq<T>, i: int)
    requires 0 <= i < |s|
    ensures RotateLeft1(s)[i] == s[(i + 1) % |s|]
  {
    if i == |s| - 1 {
      ModUnique(|s|, |s|, 1, 0);
    } else {
      ModUnique(i + 1, |s|, 0, i + 1);
    }
  }

  /** One `rotate()` step is a rotation by 1. */
  lemma RotateRight1IsRotate<T>(s: seq<T>)
    ensures RotateRight1(s) == Rotate(s, 1)
  {
    forall i | 0 <= i < |s| ensures RotateRight1(s)[i] == Rotate(s, 1)[i] {
      RotateRight1At(s, i);
    }
  }

  /** One `rotate(-1)` step is a rotation by -1. */
  lemma RotateLeft1IsRotate<T>(s: seq<T>)
    ensures RotateLeft1(s) == Rotate(s, -1)
  {
    forall i | 0 <= i < |s| ensures RotateLeft1(s)[i] == Rotate(s, -1)[i] {
      RotateLeft1At(s, i);
      assert i - -1 == i + 1;
    }
  }

  /** Two rotations compose into one by the sum of their amounts. */
  lemma RotateCompose<T>(s: seq<T>, a: int, b: int)
    ensures Rotate(Rotate(s, a), b) == Rotate(s, a + b)
  {
    var r, t, m := Rotate(Rotate(s, a), b), Rotate(s, a + b), |s|;
    forall i | 0 <= i < m ensures r[i] == t[i] {
      var x := (i - b) % m;
      assert r[i] == Rotate(s, a)[x];
      assert Rotate(s, a)[x] == s[(x - a) % m];
      ModSubTwice(i, b, a, m);
    }
  }

  /** Rotating by a whole number of turns changes nothing. */
  lemma RotateFullTurn<T>(s: seq<T>, k: int)
    ensures Rotate(s, k * |s|) == s
  {
    var m := |s|;
    var n := k * m;
    forall i | 0 <= i < m ensures Rotate(s, n)[i] == s[i] {
      assert i - n == m * (-k) + i;
      ModUnique(i - n, m, -k, i);
    }
  }

  /** Rotating by 0 changes nothing. */
  lemma RotateZero<T>(s: seq<T>)
    ensures Rotate(s, 0) == s
  {
    forall i | 0 <= i < |s| ensures Rotate(s, 0)[i] == s[i] {
      ModUnique(i - 0, |s|, 0, i);
    }
  }

  /** Rotating right by `n` is undone by rotating left by `n`. */
  lemma RotateInverse<T>(s: seq<T>, n: int)
    ensures Rotate(Rotate(s, n), -n) == s
  {
    var m := |s|;
    forall i | 0 <= i < m ensures Rotate(Rotate(s, n), -n)[i] == s[i] {
      var x := (i - -n) % m;
      assert Rotate(Rotate(s, n), -n)[i] == Rotate(s, n)[x];
      assert Rotate(s, n)[x] == s[(x - n) % m];
      ModSub(i - -n, n, m);
      ModUnique(i - -n - n, m, 0, i);
    }
  }

  /**
   * The painting loop of the widget: take element 0 of a colour deque for the
   * current slot, then `rotate(-1)`. After `j` steps the deque is the original
   * rotated left by `j`, so its front is the original's element `j` (round the ring).
   */
  lemma LeftStepsFront<T>(c: seq<T>, j: int)
    requires |c| > 0
    ensures RotateLeft1(Rotate(c, -j)) == Rotate(c, -(j + 1))
    ensures Rotate(c, -j)[0] == c[j % |c|]
  {
    RotateLeft1IsRotate(Rotate(c, -j));
    RotateCompose(c, -j, -1);
    assert -j + -1 == -(j + 1);
    assert 0 - -j == j;
  }

  /** The rotation step of the `_rotate_to` loop: one more `rotate()` is one more unit of rotation. */
  lemma RightStep<T>(s: seq<T>, n: int)
    ensures RotateRight1(Rotate(s, n)) == Rotate(s, n + 1)
  {
    RotateRight1IsRotate(Rotate(s, n));
    RotateCompose(s, n, 1);
  }

  // ---------------------------------------------------------------------------
  // The `_rotate_to` loop on a ring of twelve slots

  /** No two slots of the ring hold the same element. */
  ghost predicate Distinct<T>(s: seq<T>)
  {
    forall p, q :: 0 <= p < |s| && 0 <= q < |s| && s[p] == s[q] ==> p == q
  }

  /**
   * In a ring of twelve distinct elements, after `n` single right turns the
   * element at index 0 is the one that stood at index `k` exactly when `n`
   * is the number of turns from `k` to the top.
   */
  lemma FrontAfterTurns<T>(s: seq<T>, k: int, n: int)
    requires |s| == 12 && Distinct(s) && 0 <= k < 12 && 0 <= n < 12
    ensures Rotate(s, n)[0] == s[k] <==> n == (12 - k) % 12
  {
    var p := (0 - n) % 12;
    assert Rotate(s, n)[0] == s[p];
    if n == 0 {
      ModUnique(0, 12, 0, 0);
    } else {
      ModUnique(0 - n, 12, -1, 12 - n);
    }
    if k == 0 {
      ModUnique(12 - k, 12, 1, 0);
    } else {
      ModUnique(12 - k, 12, 0, 12 - k);
    }
  }

  /**
   * The loop of `_rotate_to`: both rings turn right one step at a time, in
   * step, until the element that stood at index `k` of `lead` is on top,
   * which takes `(12 - k) % 12` steps.
   */
  method TurnTo<T(==)>(lead: seq<T>, follow: seq<T>, k: int) returns (lead': seq<T>, follow': seq<T>)
    requires |lead| == 12 && Distinct(lead) && 0 <= k < 12
    ensures lead' == Rotate(lead, (12 - k) % 12) && follow' == Rotate(follow, (12 - k) % 12)
    ensures lead'[0] == lead[k]
  {
    ghost var goal := (12 - k) % 12;
    ghost var n := 0;
    lead', follow' := lead, follow;
    RotateZero(lead);
    RotateZero(follow);
    var target := lead[k];
    FrontAfterTurns(lead, k, 0);
    while lead'[0] != target
      invariant 0 <= n <= goal
      invariant lead' == Rotate(lead, n) && follow' == Rotate(follow, n)
      invariant lead'[0] == target <==> n == goal
      decreases goal - n
    {
      RightStep(lead, n);
      RightStep(follow, n);
      lead' := RotateRight1(lead');
      follow' := RotateRight1(follow');
      n := n + 1;
      if n < 12 {
        FrontAfterTurns(lead, k, n);
      }
    }
  }

  /** After `g` turns, index `i` holds what stood `k` places further round, when `g` turns bring `k` to the top. */
  lemma TurnedIndex(i: int, k: int, g: int)
    requires 0 <= k < 12 && g == (12 - k) % 12
    ensures (i - g) % 12 == (i + k) % 12
  {
    if k == 0 {
      ModUnique(12, 12, 1, 0);
    } else {
      ModUnique(12 - k, 12, 0, 12 - k);
      assert i - g == i + k + 12 * (-1);
      ModAddMultiple(i + k, -1, 12);
    }
  }

  /** After the turns of `TurnTo`, index `i` holds the element from `(i + k) % 12`. */
  lemma TurnedAt<T>(s: seq<T>, k: int)
    requires |s| == 12 && 0 <= k < 12
    ensures forall i {:trigger Rotate(s, (12 - k) % 12)[i]} :: 0 <= i < 12 ==> Rotate(s, (12 - k) % 12)[i] == s[(i + k) % 12]
  {
    var n := (12 - k) % 12;
    forall i | 0 <= i < 12 ensures Rotate(s, n)[i] == s[(i + k) % 12] {
      TurnedIndex(i, k, n);
    }
  }

  /** When the element is already on top the rings do not turn. */
  lemma NoTurn<T>(s: seq<T>)
    ensures Rotate(s, (12 - 0) % 12) == s
  {
    assert (12 - 0) % 12 == 0;
    RotateZero(s);
  }
}
