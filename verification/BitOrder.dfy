/** Bit strings read as if zeros went on for ever (section 22.7 of X.680 lets values that differ
    only in trailing zeros mean the same): what is left when those go, and their order. */
module BitOrder {

  /** The number of bits up to the last one that is set. */
  function TrimmedLength(s: seq<bool>): (n: nat)
    ensures n <= |s| && (n > 0 ==> s[n - 1])
    ensures forall k :: n <= k < |s| ==> !s[k]
  {
    if s == [] || s[|s| - 1] then |s| else TrimmedLength(s[..|s| - 1])
  }

  predicate At(s: seq<bool>, k: nat) {
    k < |s| && s[k]
  }

  /** Equal up to trailing zeros. */
  ghost predicate Same(s: seq<bool>, t: seq<bool>) {
    forall k: nat :: At(s, k) == At(t, k)
  }

  /** At bit `k` the strings differ for the first time, and `s` has the zero. */
  ghost predicate FirstDifference(s: seq<bool>, t: seq<bool>, k: nat) {
    !At(s, k) && At(t, k) && forall j: nat :: j < k ==> At(s, j) == At(t, j)
  }

  ghost predicate Before(s: seq<bool>, t: seq<bool>) {
    exists k: nat :: FirstDifference(s, t, k)
  }

  lemma TrimmedLengthIsUnique(s: seq<bool>, n: nat)
    requires n <= |s| && (n > 0 ==> s[n - 1])
    requires forall k :: n <= k < |s| ==> !s[k]
    ensures TrimmedLength(s) == n
  {
    var m := TrimmedLength(s);
    assert m > 0 ==> s[m - 1];
  }

  /** Two strings are the same exactly when they are equal once trimmed. */
  lemma SameIffTrimmed(s: seq<bool>, t: seq<bool>)
    ensures Same(s, t) <==> s[..TrimmedLength(s)] == t[..TrimmedLength(t)]
  {
    var m, n := TrimmedLength(s), TrimmedLength(t);
    if Same(s, t) {
      assert m > 0 ==> At(s, m - 1) == At(t, m - 1);
      assert n > 0 ==> At(s, n - 1) == At(t, n - 1);
      forall k | 0 <= k < m
        ensures s[k] == t[k]
      {
        assert At(s, k) == At(t, k);
      }
    }
    if s[..m] == t[..n] {
      forall k: nat
        ensures At(s, k) == At(t, k)
      {
        if k < m {
          assert s[..m][k] == t[..n][k];
        }
      }
    }
  }

  lemma {:induction false} Scan(s: seq<bool>, t: seq<bool>, n: nat)
    ensures (forall j: nat :: j < n ==> At(s, j) == At(t, j)) || Before(s, t) || Before(t, s)
  {
    if n != 0 {
      Scan(s, t, n - 1);
      if forall j: nat :: j < n - 1 ==> At(s, j) == At(t, j) {
        assert FirstDifference(s, t, n - 1) || FirstDifference(t, s, n - 1) || At(s, n - 1) == At(t, n - 1);
      }
    }
  }

  lemma Apart(s: seq<bool>, t: seq<bool>)
    requires Before(s, t)
    ensures !Same(s, t) && !Before(t, s)
  {
    var k: nat :| FirstDifference(s, t, k);
    assert At(s, k) != At(t, k);
    forall i: nat
      ensures !FirstDifference(t, s, i)
    {
      assert i < k ==> At(s, i) == At(t, i);
    }
  }

  /** Exactly one of before, same and after holds. */
  lemma OrderIsTotal(s: seq<bool>, t: seq<bool>)
    ensures Before(s, t) || Same(s, t) || Before(t, s)
    ensures !(Before(s, t) && Before(t, s)) && !(Before(s, t) && Same(s, t)) && !(Before(t, s) && Same(s, t))
  {
    Scan(s, t, |s| + |t|);
    if Before(s, t) {
      Apart(s, t);
    }
    if Before(t, s) {
      Apart(t, s);
    }
  }

  lemma OrderIsTransitive(s: seq<bool>, t: seq<bool>, u: seq<bool>)
    requires (Before(s, t) || Same(s, t)) && (Before(t, u) || Same(t, u))
    ensures Before(s, u) || Same(s, u)
    ensures Before(s, t) || Before(t, u) ==> Before(s, u)
  {
    if Before(s, t) && Before(t, u) {
      var i: nat :| FirstDifference(s, t, i);
      var j: nat :| FirstDifference(t, u, j);
      FirstOfBoth(s, t, u, i, j);
    } else if Before(s, t) {
      var i: nat :| FirstDifference(s, t, i);
      assert FirstDifference(s, u, i);
    } else if Before(t, u) {
      var j: nat :| FirstDifference(t, u, j);
      assert FirstDifference(s, u, j);
    }
  }

  lemma FirstOfBoth(s: seq<bool>, t: seq<bool>, u: seq<bool>, i: nat, j: nat)
    requires FirstDifference(s, t, i) && FirstDifference(t, u, j)
    ensures Before(s, u)
  {
    var k := if i < j then i else j;
    assert At(t, k) ==> At(u, k) || k == j;
    assert FirstDifference(s, u, k);
  }

  /** Agreement up to where `s` runs out of ones, and a one of `t` beyond. */
  lemma LongerIsAfter(s: seq<bool>, t: seq<bool>)
    requires TrimmedLength(s) < TrimmedLength(t)
    requires s[..TrimmedLength(s)] == t[..TrimmedLength(s)]
    ensures Before(s, t)
  {
    var m, n := TrimmedLength(s), TrimmedLength(t);
    assert !At(s, n - 1) && At(t, n - 1);
    OrderIsTotal(s, t);
    forall k: nat
      ensures !FirstDifference(t, s, k)
    {
      assert k < m ==> s[..m][k] == t[..m][k];
    }
  }
}
