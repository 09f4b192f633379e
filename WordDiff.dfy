/**
 * computeWordDiff: a longest-common-subsequence table over the two token
 * arrays, then a walk back from the bottom-right corner that emits one
 * UNCHANGED, ADDED or REMOVED entry per step, prepending each one.
 */
module WordDiff {

  datatype DiffType = Unchanged | Added | Removed

  datatype DiffResult = DiffResult(text: string, kind: DiffType)

  function Max(x: int, y: int): int {
    if x >= y then x else y
  }

  /** The value dp[i][j] receives: the table recurrence on the prefixes a[..i] and b[..j]. */
  function Lcs(a: seq<string>, b: seq<string>, i: nat, j: nat): (n: nat)
    requires i <= |a| && j <= |b|
    ensures n <= i && n <= j
    decreases i + j
  {
    if i == 0 || j == 0 then 0
    else if a[i - 1] == b[j - 1] then Lcs(a, b, i - 1, j - 1) + 1
    else Max(Lcs(a, b, i - 1, j), Lcs(a, b, i, j - 1))
  }

  /**
   * One step of the walk back from cell (i, j): the entry it prepends and the
   * cell it moves to.  A matching pair of tokens is kept; otherwise a
   * corrected token is added when that loses no common token (ties go to
   * ADDED), else an original token is removed.
   */
  function BackStep(a: seq<string>, b: seq<string>, i: nat, j: nat): (r: (DiffResult, nat, nat))
    requires i <= |a| && j <= |b| && (i > 0 || j > 0)
    ensures r.0.kind == Unchanged ==>
      r.1 == i - 1 && r.2 == j - 1 && r.0.text == a[i - 1] == b[j - 1] && Lcs(a, b, i, j) == Lcs(a, b, r.1, r.2) + 1
    ensures r.0.kind == Added ==>
      r.1 == i && r.2 == j - 1 && r.0.text == b[j - 1] && Lcs(a, b, i, j) == Lcs(a, b, r.1, r.2)
    ensures r.0.kind == Removed ==>
      r.1 == i - 1 && r.2 == j && r.0.text == a[i - 1] && Lcs(a, b, i, j) == Lcs(a, b, r.1, r.2)
  {
    if i > 0 && j > 0 && a[i - 1] == b[j - 1] then (DiffResult(a[i - 1], Unchanged), i - 1, j - 1)
    else if j > 0 && (i == 0 || Lcs(a, b, i, j - 1) >= Lcs(a, b, i - 1, j)) then (DiffResult(b[j - 1], Added), i, j - 1)
    else (DiffResult(a[i - 1], Removed), i - 1, j)
  }

  /**
   * The entries the walk back from (i, j) produces, in the order the result
   * list holds them: one per token of both prefixes, except that a kept pair
   * of tokens makes a single entry.
   */
  function Backtrack(a: seq<string>, b: seq<string>, i: nat, j: nat): (ds: seq<DiffResult>)
    requires i <= |a| && j <= |b|
    ensures |ds| + Lcs(a, b, i, j) == i + j
    decreases i + j
  {
    if i == 0 && j == 0 then []
    else
      var step := BackStep(a, b, i, j);
      Backtrack(a, b, step.1, step.2) + [step.0]
  }

  /** The result of computeWordDiff(original, corrected). */
  function Diff(original: seq<string>, corrected: seq<string>): seq<DiffResult> {
    Backtrack(original, corrected, |original|, |corrected|)
  }

  /** The tokens an edit script keeps from the original side: every entry that is not ADDED. */
  function Before(ds: seq<DiffResult>): seq<string> {
    if ds == [] then []
    else Before(ds[..|ds| - 1]) + (if ds[|ds| - 1].kind != Added then [ds[|ds| - 1].text] else [])
  }

  /** The tokens an edit script produces on the corrected side: every entry that is not REMOVED. */
  function After(ds: seq<DiffResult>): seq<string> {
    if ds == [] then []
    else After(ds[..|ds| - 1]) + (if ds[|ds| - 1].kind != Removed then [ds[|ds| - 1].text] else [])
  }

  /** The number of UNCHANGED entries of an edit script. */
  function Kept(ds: seq<DiffResult>): nat {
    if ds == [] then 0
    else Kept(ds[..|ds| - 1]) + (if ds[|ds| - 1].kind == Unchanged then 1 else 0)
  }

  /** ds is an edit script from a to b: read on the original side it is a, on the corrected side b. */
  predicate IsScript(ds: seq<DiffResult>, a: seq<string>, b: seq<string>) {
    Before(ds) == a && After(ds) == b
  }

  /**
   * computeWordDiff, with the table as a two-dimensional array filled row by
   * row and the walk back as a loop that prepends to the result.
   */
  method ComputeWordDiff(original: seq<string>, corrected: seq<string>) returns (results: seq<DiffResult>)
    ensures results == Diff(original, corrected)
  {
    var n, m := |original|, |corrected|;
    var dp := new int[n + 1, m + 1]((_, _) => 0);

    var i := 1;
    while i <= n
      invariant 1 <= i <= n + 1
      invariant forall x, y {:trigger dp[x, y]} :: 0 <= x <= n && 0 <= y <= m && (x == 0 || y == 0 || x < i) ==>
        dp[x, y] == Lcs(original, corrected, x, y)
    {
      var j := 1;
      while j <= m
        invariant 1 <= j <= m + 1
        invariant forall x, y {:trigger dp[x, y]} :: 0 <= x <= n && 0 <= y <= m && (x == 0 || y == 0 || x < i || (x == i && y < j)) ==>
          dp[x, y] == Lcs(original, corrected, x, y)
      {
        if original[i - 1] == corrected[j - 1] {
          dp[i, j] := dp[i - 1, j - 1] + 1;
        } else {
          dp[i, j] := Max(dp[i - 1, j], dp[i, j - 1]);
        }
        j := j + 1;
      }
      i := i + 1;
    }

    i := n;
    var j := m;
    results := [];
    while i > 0 || j > 0
      invariant 0 <= i <= n && 0 <= j <= m
      invariant forall x, y {:trigger dp[x, y]} :: 0 <= x <= n && 0 <= y <= m ==> dp[x, y] == Lcs(original, corrected, x, y)
      invariant Backtrack(original, corrected, i, j) + results == Diff(original, corrected)
      decreases i + j
    {
      ghost var done := Backtrack(original, corrected, i, j);
      var e, ni, nj := WalkBackStep(original, corrected, dp, i, j);
      Prepend(Backtrack(original, corrected, ni, nj), e, results, done);
      results := [e] + results;
      i, j := ni, nj;
    }
  }

  /** The body of the walk-back loop: which entry cell (i, j) contributes, and the cell it moves to. */
  method WalkBackStep(original: seq<string>, corrected: seq<string>, dp: array2<int>, i: nat, j: nat)
    returns (e: DiffResult, ni: nat, nj: nat)
    requires i <= |original| && j <= |corrected| && (i > 0 || j > 0)
    requires dp.Length0 == |original| + 1 && dp.Length1 == |corrected| + 1
    requires forall x, y {:trigger dp[x, y]} :: 0 <= x < dp.Length0 && 0 <= y < dp.Length1 ==>
      dp[x, y] == Lcs(original, corrected, x, y)
    ensures (e, ni, nj) == BackStep(original, corrected, i, j)
  {
    if i > 0 && j > 0 && original[i - 1] == corrected[j - 1] {
      e, ni, nj := DiffResult(original[i - 1], Unchanged), i - 1, j - 1;
    } else if j > 0 && (i == 0 || dp[i, j - 1] >= dp[i - 1, j]) {
      e, ni, nj := DiffResult(corrected[j - 1], Added), i, j - 1;
    } else {
      e, ni, nj := DiffResult(original[i - 1], Removed), i - 1, j;
    }
  }

  /** Moving one entry from the end of what is left to walk to the front of what has been emitted. */
  lemma Prepend(rest: seq<DiffResult>, e: DiffResult, results: seq<DiffResult>, done: seq<DiffResult>)
    requires done == rest + [e]
    ensures done + results == rest + ([e] + results)
  {
  }

  /** The table grows by at most one per row and per column, and never shrinks. */
  lemma {:induction false} LcsSteps(a: seq<string>, b: seq<string>, i: nat, j: nat)
    requires i <= |a| && j <= |b|
    ensures i > 0 ==> Lcs(a, b, i - 1, j) <= Lcs(a, b, i, j) <= Lcs(a, b, i - 1, j) + 1
    ensures j > 0 ==> Lcs(a, b, i, j - 1) <= Lcs(a, b, i, j) <= Lcs(a, b, i, j - 1) + 1
    decreases i + j
  {
    if i > 0 && j > 0 {
      LcsSteps(a, b, i - 1, j);
      LcsSteps(a, b, i, j - 1);
    }
  }

  /** Before, After and Kept of a script with one more entry at the end. */
  lemma Snoc(ds: seq<DiffResult>, e: DiffResult)
    ensures Before(ds + [e]) == Before(ds) + (if e.kind != Added then [e.text] else [])
    ensures After(ds + [e]) == After(ds) + (if e.kind != Removed then [e.text] else [])
    ensures Kept(ds + [e]) == Kept(ds) + (if e.kind == Unchanged then 1 else 0)
  {
    assert (ds + [e])[..|ds|] == ds;
  }

  lemma PrefixSnoc(a: seq<string>, i: nat)
    requires 0 < i <= |a|
    ensures a[..i] == a[..i - 1] + [a[i - 1]]
  {
  }

  /** The walk back from (i, j) is an edit script from original[..i] to corrected[..j]. */
  lemma {:induction false} BacktrackScript(a: seq<string>, b: seq<string>, i: nat, j: nat)
    requires i <= |a| && j <= |b|
    ensures IsScript(Backtrack(a, b, i, j), a[..i], b[..j])
    decreases i + j
  {
    if i > 0 || j > 0 {
      var step := BackStep(a, b, i, j);
      var rest, e := Backtrack(a, b, step.1, step.2), step.0;
      assert Backtrack(a, b, i, j) == rest + [e];
      BacktrackScript(a, b, step.1, step.2);
      Snoc(rest, e);
      if e.kind != Added {
        PrefixSnoc(a, i);
      }
      if e.kind != Removed {
        PrefixSnoc(b, j);
      }
    }
  }

  /** The walk back from (i, j) keeps exactly dp[i][j] tokens unchanged. */
  lemma {:induction false} BacktrackKept(a: seq<string>, b: seq<string>, i: nat, j: nat)
    requires i <= |a| && j <= |b|
    ensures Kept(Backtrack(a, b, i, j)) == Lcs(a, b, i, j)
    decreases i + j
  {
    if i > 0 || j > 0 {
      var step := BackStep(a, b, i, j);
      var rest, e := Backtrack(a, b, step.1, step.2), step.0;
      assert Backtrack(a, b, i, j) == rest + [e];
      BacktrackKept(a, b, step.1, step.2);
      Snoc(rest, e);
    }
  }

  /** No edit script from original[..i] to corrected[..j] keeps more tokens than dp[i][j]. */
  lemma {:induction false} ScriptBound(ds: seq<DiffResult>, a: seq<string>, b: seq<string>, i: nat, j: nat)
    requires i <= |a| && j <= |b|
    requires IsScript(ds, a[..i], b[..j])
    ensures Kept(ds) <= Lcs(a, b, i, j)
    decreases |ds|
  {
    if ds != [] {
      var init, e := ds[..|ds| - 1], ds[|ds| - 1];
      assert ds == init + [e];
      Snoc(init, e);
      LcsSteps(a, b, i, j);
      match e.kind
      case Unchanged =>
        assert i > 0 && j > 0;
        PrefixSnoc(a[..i], i);
        PrefixSnoc(b[..j], j);
        assert a[..i - 1] == a[..i][..i - 1] && b[..j - 1] == b[..j][..j - 1];
        ScriptBound(init, a, b, i - 1, j - 1);
      case Added =>
        assert j > 0;
        PrefixSnoc(b[..j], j);
        assert b[..j - 1] == b[..j][..j - 1];
        ScriptBound(init, a, b, i, j - 1);
      case Removed =>
        assert i > 0;
        PrefixSnoc(a[..i], i);
        assert a[..i - 1] == a[..i][..i - 1];
        ScriptBound(init, a, b, i - 1, j);
    }
  }

  /**
   * The diff reads back as the original tokens on one side and the corrected
   * tokens on the other, and keeps as many tokens unchanged as any edit
   * script between the two can.
   */
  /** The diff reads as the original tokens without the added entries and as the corrected ones without the removed entries. */
  lemma DiffIsScript(original: seq<string>, corrected: seq<string>)
    ensures Before(Diff(original, corrected)) == original
    ensures After(Diff(original, corrected)) == corrected
  {
    var n, m := |original|, |corrected|;
    BacktrackScript(original, corrected, n, m);
    assert original[..n] == original && corrected[..m] == corrected;
  }

  lemma DiffIsOptimalScript(original: seq<string>, corrected: seq<string>)
    ensures IsScript(Diff(original, corrected), original, corrected)
    ensures forall ds :: IsScript(ds, original, corrected) ==> Kept(ds) <= Kept(Diff(original, corrected))
  {
    var n, m := |original|, |corrected|;
    BacktrackScript(original, corrected, n, m);
    BacktrackKept(original, corrected, n, m);
    assert original[..n] == original && corrected[..m] == corrected;
    forall ds | IsScript(ds, original, corrected)
      ensures Kept(ds) <= Kept(Diff(original, corrected))
    {
      ScriptBound(ds, original, corrected, n, m);
    }
  }

  /** Comparing a token list with itself marks every token UNCHANGED. */
  lemma {:induction false} BacktrackSame(a: seq<string>, i: nat)
    requires i <= |a|
    ensures |Backtrack(a, a, i, i)| == i
    ensures forall k :: 0 <= k < i ==> Backtrack(a, a, i, i)[k] == DiffResult(a[k], Unchanged)
  {
    if i > 0 {
      BacktrackSame(a, i - 1);
    }
  }

  /** Swapping two tokens: the second survives, the first is removed before it and added after it. */
  lemma DiffOfSwap(x: string, y: string)
    requires x != y
    ensures Diff([x, y], [y, x]) == [DiffResult(x, Removed), DiffResult(y, Unchanged), DiffResult(x, Added)]
  {
    var a, b := [x, y], [y, x];
    assert Lcs(a, b, 1, 2) == 1 && Lcs(a, b, 2, 1) == 1;
    assert Backtrack(a, b, 2, 1) == Backtrack(a, b, 1, 0) + [DiffResult(y, Unchanged)];
  }

  /** One token replaced by another: the old one is removed, then the new one added. */
  lemma DiffOfReplacement(x: string, y: string)
    requires x != y
    ensures Diff([x], [y]) == [DiffResult(x, Removed), DiffResult(y, Added)]
  {
    assert Backtrack([x], [y], 1, 0) == [DiffResult(x, Removed)];
  }
}
