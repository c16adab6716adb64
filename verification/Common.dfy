/** What several models share. */
module Common {

  datatype Option<T> = None | Some(value: T)

  ghost predicate Distinct(s: seq<nat>) {
    forall i, j :: 0 <= i < j < |s| ==> s[i] != s[j]
  }

  /** The numbers below n. */
  ghost function Below(n: nat): (s: set<nat>)
    ensures |s| == n && forall d: nat :: d in s <==> d < n
  {
    if n == 0 then {} else Below(n - 1) + {n - 1}
  }

  lemma SubsetCard<T>(a: set<T>, b: set<T>)
    requires a <= b
    ensures |a| <= |b| && (|a| == |b| ==> a == b)
  {
    assert b == a + (b - a);
  }

  /** The blocks an operation reserves in the log. */
  const MAXLOGOPS: nat := 10

  /** Blocks the log header has room for. */
  const LOGSIZE: nat := 30
}
