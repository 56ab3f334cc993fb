/** The two list operations of Python the integration uses: repetition and `sum`. */
module Lists {

  /** `[x] * k`: `k` copies of `x`, and the empty list when `k` is zero or negative. */
  function Repeat(x: real, k: int): (r: seq<real>)
    ensures |r| == if k <= 0 then 0 else k
    ensures forall i :: 0 <= i < |r| ==> r[i] == x
  {
    seq(if k <= 0 then 0 else k, _ => x)
  }

  /** The built-in `sum`, starting from zero, so the empty list sums to zero. */
  function Sum(s: seq<real>): (r: real)
    ensures s == [] ==> r == 0.0
  {
    if s == [] then 0.0 else s[0] + Sum(s[1..])
  }

  lemma {:induction false} SumAppend(a: seq<real>, b: seq<real>)
    ensures Sum(a + b) == Sum(a) + Sum(b)
  {
    if a != [] {
      assert (a + b)[1..] == a[1..] + b;
      SumAppend(a[1..], b);
    } else {
      assert a + b == b;
    }
  }

  /** Summing `k` copies of `x` gives `k * x`. */
  lemma {:induction false} SumRepeat(x: real, k: int)
    ensures Sum(Repeat(x, k)) == (if k <= 0 then 0 else k) as real * x
    decreases k
  {
    if k > 0 {
      assert Repeat(x, k)[1..] == Repeat(x, k - 1);
      SumRepeat(x, k - 1);
      assert (k - 1) as real * x + x == k as real * x;
    }
  }

  /** A list whose entries lie in [lo, hi] sums to between `|s| * lo` and `|s| * hi`. */
  lemma {:induction false} SumBounds(s: seq<real>, lo: real, hi: real)
    requires forall i :: 0 <= i < |s| ==> lo <= s[i] <= hi
    ensures |s| as real * lo <= Sum(s) <= |s| as real * hi
  {
    if s != [] {
      assert forall i :: 0 <= i < |s[1..]| ==> s[1..][i] == s[i + 1];
      SumBounds(s[1..], lo, hi);
      assert Sum(s) == s[0] + Sum(s[1..]);
      assert (|s| - 1) as real * lo + lo == |s| as real * lo;
      assert (|s| - 1) as real * hi + hi == |s| as real * hi;
    }
  }

  /** A list of non-negative entries has a non-negative sum. */
  lemma {:induction false} SumNonNegative(s: seq<real>)
    requires forall i :: 0 <= i < |s| ==> 0.0 <= s[i]
    ensures 0.0 <= Sum(s)
  {
    if s != [] {
      assert forall i :: 0 <= i < |s[1..]| ==> s[1..][i] == s[i + 1];
      SumNonNegative(s[1..]);
    }
  }

  /** Over non-negative entries, a longer prefix sums to at least as much. */
  lemma SumPrefixMonotone(s: seq<real>, i: nat, j: nat)
    requires i <= j <= |s|
    requires forall k :: 0 <= k < |s| ==> 0.0 <= s[k]
    ensures Sum(s[..i]) <= Sum(s[..j])
  {
    assert s[..j] == s[..i] + s[i..j];
    SumAppend(s[..i], s[i..j]);
    assert forall k :: 0 <= k < |s[i..j]| ==> s[i..j][k] == s[i + k];
    SumNonNegative(s[i..j]);
  }

  /** A list whose entries each lie within `tol` of one sums to within `|s| * tol`
      of its length. */
  lemma {:induction false} SumNearLength(s: seq<real>, tol: real)
    requires forall i :: 0 <= i < |s| ==> 1.0 - tol <= s[i] <= 1.0 + tol
    ensures -(|s| as real * tol) <= Sum(s) - |s| as real <= |s| as real * tol
  {
    if s != [] {
      assert forall i :: 0 <= i < |s[1..]| ==> s[1..][i] == s[i + 1];
      SumNearLength(s[1..], tol);
      assert Sum(s) == s[0] + Sum(s[1..]);
      assert (|s| - 1) as real * tol + tol == |s| as real * tol;
    }
  }
}
