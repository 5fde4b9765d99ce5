/**
 * The `levenshtein` helper of `suggestBuildingsFromInput`: the edit distance
 * between two strings, filled row by row into an (m+1) x (n+1) table.
 */
module EditDistance {

  /** `Math.min(x, y, z)`. */
  function Min3(x: int, y: int, z: int): int {
    if x <= y && x <= z then x else if y <= z then y else z
  }

  /** `a[i - 1] === b[j - 1] ? 0 : 1`. */
  function Cost(x: char, y: char): int {
    if x == y then 0 else 1
  }

  lemma CostSymmetric(x: char, y: char)
    ensures Cost(x, y) == Cost(y, x)
  {
  }

  /**
   * The distance between the first i characters of a and the first j of b:
   * deleting, inserting and replacing one character each cost 1.
   */
  function Dist(a: string, b: string, i: nat, j: nat): int
    requires i <= |a| && j <= |b|
    decreases i + j
  {
    if i == 0 then j
    else if j == 0 then i
    else Min3(Dist(a, b, i - 1, j) + 1, Dist(a, b, i, j - 1) + 1, Dist(a, b, i - 1, j - 1) + Cost(a[i - 1], b[j - 1]))
  }

  function Levenshtein(a: string, b: string): int {
    Dist(a, b, |a|, |b|)
  }

  /** `levenshtein(a, b)`: fills `dp` as the source does and returns `dp[m][n]`. */
  method ComputeLevenshtein(a: string, b: string) returns (d: int)
    ensures d == Levenshtein(a, b)
  {
    var m, n := |a|, |b|;
    var dp := new int[m + 1, n + 1]((i, j) => 0);
    for i := 0 to m + 1
      invariant forall i' :: 0 <= i' < i ==> dp[i', 0] == i'
    {
      dp[i, 0] := i;
    }
    for j := 0 to n + 1
      invariant forall i' :: 0 <= i' <= m ==> dp[i', 0] == i'
      invariant forall j' :: 0 <= j' < j ==> dp[0, j'] == j'
    {
      dp[0, j] := j;
    }
    for i := 1 to m + 1
      invariant forall i', j' :: 0 <= i' < i && 0 <= j' <= n ==> dp[i', j'] == Dist(a, b, i', j')
      invariant forall i' :: i <= i' <= m ==> dp[i', 0] == i'
    {
      FillRow(a, b, dp, i);
    }
    d := dp[m, n];
  }

  /** The inner loop of `levenshtein` for row i, given the row above and `dp[i][0]`. */
  method FillRow(a: string, b: string, dp: array2<int>, i: nat)
    requires dp.Length0 == |a| + 1 && dp.Length1 == |b| + 1 && 0 < i <= |a|
    requires forall i', j' :: i' == i - 1 && 0 <= j' <= |b| ==> dp[i', j'] == Dist(a, b, i', j')
    requires dp[i, 0] == i
    modifies dp
    ensures forall j' :: 0 <= j' <= |b| ==> dp[i, j'] == Dist(a, b, i, j')
    ensures forall i', j' :: 0 <= i' < dp.Length0 && 0 <= j' < dp.Length1 && i' != i ==> dp[i', j'] == old(dp[i', j'])
  {
    for j := 1 to |b| + 1
      invariant forall j' :: 0 <= j' < j ==> dp[i, j'] == Dist(a, b, i, j')
      invariant forall i', j' :: 0 <= i' < dp.Length0 && 0 <= j' < dp.Length1 && i' != i ==> dp[i', j'] == old(dp[i', j'])
    {
      FillCell(a, b, dp, i, j);
    }
  }

  /** The body of the inner loop: `dp[i][j]` from its three neighbours above and to the left. */
  method FillCell(a: string, b: string, dp: array2<int>, i: nat, j: nat)
    requires dp.Length0 == |a| + 1 && dp.Length1 == |b| + 1 && 0 < i <= |a| && 0 < j <= |b|
    requires dp[i - 1, j] == Dist(a, b, i - 1, j) && dp[i, j - 1] == Dist(a, b, i, j - 1)
    requires dp[i - 1, j - 1] == Dist(a, b, i - 1, j - 1)
    modifies dp
    ensures dp[i, j] == Dist(a, b, i, j)
    ensures forall i', j' :: 0 <= i' < dp.Length0 && 0 <= j' < dp.Length1 && (i' != i || j' != j) ==> dp[i', j'] == old(dp[i', j'])
  {
    var cost := if a[i - 1] == b[j - 1] then 0 else 1;
    dp[i, j] := Min3(dp[i - 1, j] + 1, dp[i, j - 1] + 1, dp[i - 1, j - 1] + cost);
  }

  /** Each distance lies between the difference and the larger of the two lengths. */
  lemma {:induction false} DistBounds(a: string, b: string, i: nat, j: nat)
    requires i <= |a| && j <= |b|
    ensures i - j <= Dist(a, b, i, j) && j - i <= Dist(a, b, i, j)
    ensures Dist(a, b, i, j) <= if i <= j then j else i
    decreases i + j
  {
    if i > 0 && j > 0 {
      DistBounds(a, b, i - 1, j);
      DistBounds(a, b, i, j - 1);
      DistBounds(a, b, i - 1, j - 1);
    }
  }

  lemma LevenshteinBounds(a: string, b: string)
    ensures |a| - |b| <= Levenshtein(a, b) && |b| - |a| <= Levenshtein(a, b)
    ensures Levenshtein(a, b) <= if |a| <= |b| then |b| else |a|
  {
    DistBounds(a, b, |a|, |b|);
  }

  /** Against the empty string the distance is the other length. */
  lemma LevenshteinEmpty(a: string)
    ensures Levenshtein(a, []) == |a| && Levenshtein([], a) == |a|
  {
  }

  /** Distance 0 means equal prefixes. */
  lemma {:induction false} DistZeroEqual(a: string, b: string, i: nat, j: nat)
    requires i <= |a| && j <= |b| && Dist(a, b, i, j) == 0
    ensures i == j && a[..i] == b[..j]
    decreases i + j
  {
    if i > 0 && j > 0 {
      DistBounds(a, b, i - 1, j);
      DistBounds(a, b, i, j - 1);
      DistBounds(a, b, i - 1, j - 1);
      assert Dist(a, b, i - 1, j - 1) == 0 && a[i - 1] == b[j - 1];
      DistZeroEqual(a, b, i - 1, j - 1);
      assert a[..i] == a[..i - 1] + [a[i - 1]] && b[..j] == b[..j - 1] + [b[j - 1]];
    }
  }

  /** Equal prefixes are at distance 0. */
  lemma {:induction false} EqualDistZero(a: string, b: string, i: nat)
    requires i <= |a| && i <= |b| && a[..i] == b[..i]
    ensures Dist(a, b, i, i) == 0
  {
    if i > 0 {
      assert a[..i - 1] == a[..i][..i - 1] && b[..i - 1] == b[..i][..i - 1];
      assert a[i - 1] == a[..i][i - 1] && b[i - 1] == b[..i][i - 1];
      EqualDistZero(a, b, i - 1);
      DistBounds(a, b, i - 1, i);
      DistBounds(a, b, i, i - 1);
    }
  }

  /** Distance 0 exactly between equal strings. */
  lemma LevenshteinZero(a: string, b: string)
    ensures Levenshtein(a, b) == 0 <==> a == b
  {
    assert a[..|a|] == a && b[..|b|] == b;
    if Levenshtein(a, b) == 0 {
      DistZeroEqual(a, b, |a|, |b|);
    }
    if a == b {
      EqualDistZero(a, b, |a|);
    }
  }

  /** Exchanging the two strings does not change the distance. */
  lemma {:induction false} DistSymmetric(a: string, b: string, i: nat, j: nat)
    requires i <= |a| && j <= |b|
    ensures Dist(a, b, i, j) == Dist(b, a, j, i)
    decreases i + j
  {
    if i > 0 && j > 0 {
      DistSymmetric(a, b, i - 1, j);
      DistSymmetric(a, b, i, j - 1);
      DistSymmetric(a, b, i - 1, j - 1);
      CostSymmetric(a[i - 1], b[j - 1]);
    }
  }

  lemma LevenshteinSymmetric(a: string, b: string)
    ensures Levenshtein(a, b) == Levenshtein(b, a)
  {
    DistSymmetric(a, b, |a|, |b|);
  }
}
