/** `find_nearest` of seg.py: for each cluster, the articles nearest to its
    centre, chosen with `np.argpartition` along the rows of the distance
    matrix.

    The distance matrix has one row per article and one column per cluster
    centre. Only the order of distances matters, so they are integers here.
    `np.argpartition(dist, n, axis=0)` reorders the row indices of every
    column so that the first `n` are `n` different rows none of whose
    distances exceeds that of a row left out; their order is unspecified,
    and so is the choice among equal distances. The model makes one such
    choice, `SmallestN`, and proves it meets that specification. */
module Nearest {
  import opened Common

  /** No index occurs twice. */
  predicate Distinct(s: seq<nat>)
  {
    forall i, j :: 0 <= i < j < |s| ==> s[i] != s[j]
  }

  /** `sel` is what the first `n` entries of an argpartition of `col` may be:
      `n` different rows, each at least as near as any row not chosen. */
  predicate IsPartition(col: seq<int>, sel: seq<nat>, n: nat)
  {
    && |sel| == n
    && Distinct(sel)
    && (forall j :: 0 <= j < |sel| ==> sel[j] < |col|)
    && (forall j, r :: 0 <= j < |sel| && 0 <= r < |col| && r !in sel ==> col[sel[j]] <= col[r])
  }

  /** The nearest row at or after `from` that is not in `taken`; among equal
      distances, the first. */
  function NearestOutside(col: seq<int>, taken: seq<nat>, from: nat): (r: Option<nat>)
    requires from <= |col|
    ensures r.Some? ==> from <= r.value < |col| && r.value !in taken
    ensures r.Some? ==> forall j :: from <= j < |col| && j !in taken ==> col[r.value] <= col[j]
    ensures r.None? ==> forall j :: from <= j < |col| ==> j in taken
    decreases |col| - from
  {
    if from == |col| then None
    else
      var rest := NearestOutside(col, taken, from + 1);
      if from in taken then rest
      else if rest.Some? && col[rest.value] < col[from] then rest
      else Some(from)
  }

  /** The `n` rows chosen for one column: repeatedly the nearest row not yet
      chosen. Whatever the distances, this is a valid argpartition prefix. */
  function SmallestN(col: seq<int>, n: nat): (sel: seq<nat>)
    requires n <= |col|
    ensures IsPartition(col, sel, n)
  {
    if n == 0 then []
    else
      var taken := SmallestN(col, n - 1);
      DistinctBelow(taken, |col|);
      var next := NearestOutside(col, taken, 0);
      assert next.Some? by {
        if next.None? {
          assert forall j :: 0 <= j < |col| ==> j in taken;
          EveryRowTaken(taken, |col|);
          assert false;
        }
      }
      var sel := taken + [next.value];
      assert forall j :: 0 <= j < |taken| ==> sel[j] == taken[j];
      sel
  }

  /** Column `i` of the distance matrix: every row's distance to centre `i`. */
  function Column(dist: seq<seq<int>>, i: nat): (col: seq<int>)
    requires forall r :: 0 <= r < |dist| ==> i < |dist[r]|
    ensures |col| == |dist| && forall r :: 0 <= r < |dist| ==> col[r] == dist[r][i]
  {
    seq(|dist|, r requires 0 <= r < |dist| => dist[r][i])
  }

  /** `len(np.unique(labels))`: the number of distinct cluster labels. */
  function NumClusters(labels: seq<nat>): (k: nat)
    ensures k <= |labels|
    ensures k == 0 <==> labels == []
  {
    DistinctValues(labels);
    |Values(labels)|
  }

  /** The articles at the chosen rows, in the chosen order. */
  function Pick(articles: seq<string>, sel: seq<nat>): (r: seq<string>)
    requires forall j :: 0 <= j < |sel| ==> sel[j] < |articles|
    ensures |r| == |sel| && forall j :: 0 <= j < |sel| ==> r[j] == articles[sel[j]]
  {
    seq(|sel|, j requires 0 <= j < |sel| => articles[sel[j]])
  }

  /** The distance matrix has a row per article and a column per cluster
      label; the clusterer provides no more labels than centres. */
  predicate WellShaped(articles: seq<string>, dist: seq<seq<int>>, labels: seq<nat>)
  {
    && |dist| == |articles|
    && forall r :: 0 <= r < |dist| ==> NumClusters(labels) <= |dist[r]|
  }

  /** `find_nearest` as written: `argpartition` is given `n` as its `kth`
      index, which numpy rejects unless `n` is less than the number of rows. */
  function FindNearest(articles: seq<string>, dist: seq<seq<int>>, labels: seq<nat>, n: nat): (r: Result<seq<seq<string>>>)
    requires WellShaped(articles, dist, labels)
    ensures r.Ok? <==> n < |dist|
    ensures r.Err? ==> r.error == InsufficientData(|dist|, n)
    ensures r.Ok? ==> r == FindNearestFixed(articles, dist, labels, n)
  {
    if n >= |dist| then Err(InsufficientData(|dist|, n))
    else FindNearestFixed(articles, dist, labels, n)
  }

  /** `find_nearest` with the selection the program means: the `n` nearest
      articles of every cluster, which exist exactly when there are at least
      `n` articles. One selection per distinct label, each of `n` articles. */
  function FindNearestFixed(articles: seq<string>, dist: seq<seq<int>>, labels: seq<nat>, n: nat): (r: Result<seq<seq<string>>>)
    requires WellShaped(articles, dist, labels)
    ensures r.Ok? <==> n <= |dist|
    ensures r.Err? ==> r.error == InsufficientData(|dist|, n)
    ensures r.Ok? ==> |r.value| == NumClusters(labels)
    ensures r.Ok? ==> forall i :: 0 <= i < |r.value| ==> |r.value[i]| == n
  {
    if n > |dist| then Err(InsufficientData(|dist|, n))
    else
      var k := NumClusters(labels);
      Ok(seq(k, i requires 0 <= i < k => Pick(articles, SmallestN(Column(dist, i), n))))
  }

  // ----- properties -----

  /** Every selection `find_nearest` returns is the image of a valid
      argpartition prefix of its column: `n` different articles, none farther
      from the centre than an article left out. */
  lemma FindNearestSelects(articles: seq<string>, dist: seq<seq<int>>, labels: seq<nat>, n: nat, i: nat)
    requires WellShaped(articles, dist, labels)
    requires FindNearestFixed(articles, dist, labels, n).Ok?
    requires i < NumClusters(labels)
    ensures exists sel :: IsPartition(Column(dist, i), sel, n)
                          && FindNearestFixed(articles, dist, labels, n).value[i] == Pick(articles, sel)
  {
    var sel := SmallestN(Column(dist, i), n);
    assert FindNearestFixed(articles, dist, labels, n).value[i] == Pick(articles, sel);
  }

  /** There is no argpartition prefix longer than the column: `n` different
      rows need at least `n` rows. */
  lemma NoPartitionBeyondRows(col: seq<int>, sel: seq<nat>, n: nat)
    requires n > |col|
    ensures !IsPartition(col, sel, n)
  {
    if IsPartition(col, sel, n) {
      DistinctBelow(sel, |col|);
    }
  }

  /** When the distances in a column are all different, the set of rows an
      argpartition chooses is determined: any two valid prefixes of the same
      length choose the same rows. */
  lemma PartitionUnique(col: seq<int>, s: seq<nat>, t: seq<nat>, n: nat)
    requires forall a, b :: 0 <= a < b < |col| ==> col[a] != col[b]
    requires IsPartition(col, s, n) && IsPartition(col, t, n)
    ensures Values(s) == Values(t)
  {
    var S, T := Values(s), Values(t);
    DistinctValues(s);
    DistinctValues(t);
    if S != T {
      var x, y := OneEachWay(S, T);
      assert false;
    }
  }

  /** The program as written fails on a matrix with exactly `n` rows, where
      the `n` nearest articles of every cluster are simply all of them. */
  lemma ExactRowsRejected(articles: seq<string>, dist: seq<seq<int>>, labels: seq<nat>, n: nat)
    requires WellShaped(articles, dist, labels) && |dist| == n
    ensures FindNearest(articles, dist, labels, n) == Err(InsufficientData(n, n))
    ensures FindNearestFixed(articles, dist, labels, n).Ok?
  {
  }

  /** The smallest such input: five articles, one cluster, `n` = 5 as in
      `find_nearest`'s default. */
  lemma FiveArticlesRejected()
    ensures WellShaped(["a", "b", "c", "d", "e"], [[1], [2], [3], [4], [5]], [0, 0, 0, 0, 0])
    ensures FindNearest(["a", "b", "c", "d", "e"], [[1], [2], [3], [4], [5]], [0, 0, 0, 0, 0], 5).Err?
    ensures FindNearestFixed(["a", "b", "c", "d", "e"], [[1], [2], [3], [4], [5]], [0, 0, 0, 0, 0], 5).Ok?
  {
    assert Values([0, 0, 0, 0, 0]) == {0};
  }

  // ----- counting lemmas -----

  /** The different entries of a sequence. */
  function Values(s: seq<nat>): (vs: set<nat>)
    ensures forall x :: x in vs <==> x in s
  {
    set x | x in s
  }

  /** A sequence holds at most as many different values as entries, and
      exactly as many when its entries are different. */
  lemma {:induction false} DistinctValues(s: seq<nat>)
    ensures |Values(s)| <= |s|
    ensures (forall i, j :: 0 <= i < j < |s| ==> s[i] != s[j]) ==> |Values(s)| == |s|
    ensures |Values(s)| == 0 <==> s == []
  {
    if s != [] {
      var rest := s[1..];
      DistinctValues(rest);
      assert Values(s) == {s[0]} + Values(rest);
      if forall i, j :: 0 <= i < j < |s| ==> s[i] != s[j] {
        assert forall i, j :: 0 <= i < j < |rest| ==> rest[i] != rest[j] by {
          forall i, j | 0 <= i < j < |rest|
            ensures rest[i] != rest[j]
          {
            assert rest[i] == s[i + 1] && rest[j] == s[j + 1];
          }
        }
        assert s[0] !in Values(rest);
      }
      assert s[0] in Values(s);
    }
  }

  /** The rows `0 .. m-1`. */
  function Rows(m: nat): (rows: set<nat>)
    ensures |rows| == m
    ensures forall r: nat :: r in rows <==> r < m
  {
    if m == 0 then {} else Rows(m - 1) + {m - 1}
  }

  /** Pigeonhole: different rows below `m` are at most `m`. */
  lemma DistinctBelow(s: seq<nat>, m: nat)
    requires Distinct(s)
    requires forall j :: 0 <= j < |s| ==> s[j] < m
    ensures |s| <= m
  {
    DistinctValues(s);
    assert Values(s) <= Rows(m);
    SubsetCount(Values(s), Rows(m));
  }

  /** When all `m` rows are among different entries of `s`, `s` has at
      least `m` entries; with fewer, some row is left. */
  lemma EveryRowTaken(s: seq<nat>, m: nat)
    requires Distinct(s)
    requires forall j :: 0 <= j < |s| ==> s[j] < m
    requires forall r :: 0 <= r < m ==> r in s
    ensures |s| == m
  {
    DistinctBelow(s, m);
    DistinctValues(s);
    assert Rows(m) <= Values(s);
    SubsetCount(Rows(m), Values(s));
  }

  lemma SubsetCount(a: set<nat>, b: set<nat>)
    requires a <= b
    ensures |a| <= |b|
  {
    assert b == a + (b - a);
  }

  lemma StrictSubsetCount(a: set<nat>, b: set<nat>)
    requires a <= b && a != b
    ensures |a| < |b|
  {
    var z :| z in b && z !in a;
    assert b == a + (b - a);
    assert z in b - a;
  }

  /** Two different sets of the same size each have an element the other lacks. */
  lemma OneEachWay(a: set<nat>, b: set<nat>) returns (x: nat, y: nat)
    requires |a| == |b| && a != b
    ensures x in a && x !in b && y in b && y !in a
  {
    if a <= b {
      StrictSubsetCount(a, b);
      assert false;
    }
    x :| x in a && x !in b;
    if b <= a {
      StrictSubsetCount(b, a);
      assert false;
    }
    y :| y in b && y !in a;
  }
}
