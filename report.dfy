/** The end of seg.py's `main`: after the nearest articles of every cluster
    are chosen, each cluster gets a report file holding a header line and
    its five nearest articles, each followed by a divider line. Output files
    are a map from paths to contents. */
module Report {
  import opened Common
  import opened Nearest

  /** `nclosest`: how many articles each report holds, which is also
      `find_nearest`'s default `n`. */
  const NumClosest: nat := 5
  /** The number of distinct labels `main` insists on. */
  const ExpectedClusters: nat := 3
  /** The line written after every article. */
  const Divider: string := "\n -------------------- \n"

  /** A decimal digit. */
  function Digit(d: nat): (c: char)
    requires d < 10
    ensures '0' <= c <= '9'
  {
    (48 + d) as char
  }

  /** `f"{n}"`: the decimal numeral of `n`. */
  function NatToString(n: nat): (s: string)
    ensures |s| > 0 && forall j :: 0 <= j < |s| ==> '0' <= s[j] <= '9'
    ensures n < 10 <==> |s| == 1
  {
    if n < 10 then [Digit(n)] else NatToString(n / 10) + [Digit(n % 10)]
  }

  /** Different numbers have different numerals. */
  lemma {:induction false} NatToStringInjective(a: nat, b: nat)
    requires NatToString(a) == NatToString(b)
    ensures a == b
  {
    if a >= 10 && b >= 10 {
      var sa, sb := NatToString(a), NatToString(b);
      assert sa[..|sa| - 1] == NatToString(a / 10);
      assert sb[..|sb| - 1] == NatToString(b / 10);
      NatToStringInjective(a / 10, b / 10);
      assert Digit(a % 10) == sa[|sa| - 1] == Digit(b % 10);
    }
  }

  /** The path of cluster `i`'s report. */
  function ReportPath(i: nat): (path: string)
    ensures |path| > 18 && path[..14] == "output/cluster" && path[|path| - 4..] == ".txt"
  {
    "output/cluster" + NatToString(i) + ".txt"
  }

  /** Different clusters have different report files, so no report
      overwrites another. */
  lemma ReportPathInjective(i: nat, j: nat)
    ensures ReportPath(i) == ReportPath(j) <==> i == j
  {
    if ReportPath(i) == ReportPath(j) {
      var p, q := ReportPath(i), ReportPath(j);
      assert p[14..|p| - 4] == NatToString(i);
      assert q[14..|q| - 4] == NatToString(j);
      NatToStringInjective(i, j);
    }
  }

  /** The header line of cluster `i`'s report. */
  function Header(i: nat): string
  {
    "----- Cluster " + NatToString(i) + " -----\n"
  }

  /** Every article followed by the divider, in order. */
  function Entries(bodies: seq<string>): string
  {
    if bodies == [] then [] else bodies[0] + Divider + Entries(bodies[1..])
  }

  /** The text of cluster `i`'s report: its header and its first
      `NumClosest` articles. */
  function ReportText(i: nat, bodies: seq<string>): string
    requires |bodies| >= NumClosest
  {
    Header(i) + Entries(bodies[..NumClosest])
  }

  /** A report is its header, the five articles, and five dividers: nothing
      else is written, and nothing is lost. */
  lemma ReportLength(i: nat, bodies: seq<string>)
    requires |bodies| >= NumClosest
    ensures |ReportText(i, bodies)| == |Header(i)| + TotalLength(bodies[..NumClosest]) + NumClosest * |Divider|
  {
    EntriesLength(bodies[..NumClosest]);
  }

  function TotalLength(bodies: seq<string>): nat
  {
    if bodies == [] then 0 else |bodies[0]| + TotalLength(bodies[1..])
  }

  lemma {:induction false} EntriesLength(bodies: seq<string>)
    ensures |Entries(bodies)| == TotalLength(bodies) + |bodies| * |Divider|
  {
    if bodies != [] {
      EntriesLength(bodies[1..]);
    }
  }

  /** Writing the entries of two lists one after the other is writing the
      entries of the joined list. */
  lemma {:induction false} EntriesAppend(xs: seq<string>, ys: seq<string>)
    ensures Entries(xs + ys) == Entries(xs) + Entries(ys)
  {
    if xs == [] {
      assert xs + ys == ys;
    } else {
      assert (xs + ys)[1..] == xs[1..] + ys;
      EntriesAppend(xs[1..], ys);
    }
  }

  /** The output files after the reports of `nearest` are written, in
      cluster order. */
  function WriteAll(files: map<string, string>, nearest: seq<seq<string>>): map<string, string>
    requires forall i :: 0 <= i < |nearest| ==> |nearest[i]| >= NumClosest
  {
    if nearest == [] then files
    else
      var last := |nearest| - 1;
      WriteAll(files, nearest[..last])[ReportPath(last) := ReportText(last, nearest[last])]
  }

  /** After the reports are written, cluster `i`'s file holds exactly its
      report. */
  lemma {:induction false} WriteAllReport(files: map<string, string>, nearest: seq<seq<string>>, i: nat)
    requires forall i :: 0 <= i < |nearest| ==> |nearest[i]| >= NumClosest
    requires i < |nearest|
    ensures ReportPath(i) in WriteAll(files, nearest)
    ensures WriteAll(files, nearest)[ReportPath(i)] == ReportText(i, nearest[i])
  {
    var last := |nearest| - 1;
    if i < last {
      var front := nearest[..last];
      WriteAllReport(files, front, i);
      assert front[i] == nearest[i];
      ReportPathInjective(i, last);
    }
  }

  /** Writing the reports leaves every other file as it was. */
  lemma {:induction false} WriteAllKeeps(files: map<string, string>, nearest: seq<seq<string>>, path: string)
    requires forall i :: 0 <= i < |nearest| ==> |nearest[i]| >= NumClosest
    requires forall i :: 0 <= i < |nearest| ==> path != ReportPath(i)
    ensures path in WriteAll(files, nearest) <==> path in files
    ensures path in files ==> WriteAll(files, nearest)[path] == files[path]
  {
    if nearest != [] {
      var last := |nearest| - 1;
      WriteAllKeeps(files, nearest[..last], path);
    }
  }

  /** Writing one more article and divider extends the entries by it. */
  lemma AppendEntry(prefix: string, bodies: seq<string>, j: nat)
    requires j < |bodies|
    ensures prefix + Entries(bodies[..j]) + bodies[j] + Divider == prefix + Entries(bodies[..j + 1])
  {
    assert bodies[..j + 1] == bodies[..j] + [bodies[j]];
    EntriesAppend(bodies[..j], [bodies[j]]);
    assert Entries([bodies[j]]) == bodies[j] + Divider;
  }

  /** The end of `main` with the corrected selection (see
      `SelectionAsWritten`): the five nearest articles of each of the three
      clusters, or the failure that stops the run. */
  function Selection(articles: seq<string>, dist: seq<seq<int>>, labels: seq<nat>): (r: Result<seq<seq<string>>>)
    requires WellShaped(articles, dist, labels)
    ensures r.Ok? <==> NumClosest <= |dist| && NumClusters(labels) == ExpectedClusters
    ensures r.Err? && NumClosest > |dist| ==> r.error == InsufficientData(|dist|, NumClosest)
    ensures r.Err? && NumClosest <= |dist| ==> r.error == UnexpectedClusterCount(NumClusters(labels))
    ensures r.Ok? ==> |r.value| == ExpectedClusters && forall i :: 0 <= i < |r.value| ==> |r.value[i]| == NumClosest
  {
    match FindNearestFixed(articles, dist, labels, NumClosest)
    case Err(e) => Err(e)
    case Ok(nearest) =>
      var k := NumClusters(labels);
      if k != ExpectedClusters then Err(UnexpectedClusterCount(k)) else Ok(nearest)
  }

  /** The end of `main` as written, with `find_nearest`'s argpartition
      bound: it needs more than `NumClosest` articles. */
  function SelectionAsWritten(articles: seq<string>, dist: seq<seq<int>>, labels: seq<nat>): (r: Result<seq<seq<string>>>)
    requires WellShaped(articles, dist, labels)
    ensures r.Ok? <==> NumClosest < |dist| && NumClusters(labels) == ExpectedClusters
    ensures r.Err? && NumClosest >= |dist| ==> r.error == InsufficientData(|dist|, NumClosest)
    ensures r.Err? && NumClosest < |dist| ==> r.error == UnexpectedClusterCount(NumClusters(labels))
  {
    match FindNearest(articles, dist, labels, NumClosest)
    case Err(e) => Err(e)
    case Ok(nearest) =>
      var k := NumClusters(labels);
      if k != ExpectedClusters then Err(UnexpectedClusterCount(k)) else Ok(nearest)
  }

  /** The corrected end of `main` differs from the one as written only with
      exactly `NumClosest` articles: the program as written then stops with
      `InsufficientData`, the corrected one goes on to the cluster check. */
  lemma SelectionAsWrittenDiffers(articles: seq<string>, dist: seq<seq<int>>, labels: seq<nat>)
    requires WellShaped(articles, dist, labels)
    ensures |dist| != NumClosest ==> SelectionAsWritten(articles, dist, labels) == Selection(articles, dist, labels)
    ensures |dist| == NumClosest ==> && SelectionAsWritten(articles, dist, labels) == Err(InsufficientData(NumClosest, NumClosest))
                                     && (Selection(articles, dist, labels).Ok? <==> NumClusters(labels) == ExpectedClusters)
  {
  }

  /** The output directory. */
  class Output {
    /** The files written so far, by path. */
    var files: map<string, string>

    constructor (files: map<string, string>)
      ensures this.files == files
    {
      this.files := files;
    }

    /** Write cluster `i`'s report: the header, then each article and a divider. */
    method WriteCluster(i: nat, bodies: seq<string>)
      requires |bodies| >= NumClosest
      modifies this
      ensures files == old(files)[ReportPath(i) := ReportText(i, bodies)]
    {
      var path := ReportPath(i);
      files := files[path := Header(i)];
      assert bodies[..0] == [] && Header(i) + Entries([]) == Header(i);
      var j := 0;
      while j < NumClosest
        invariant 0 <= j <= NumClosest
        invariant files == old(files)[path := Header(i) + Entries(bodies[..j])]
      {
        AppendEntry(Header(i), bodies, j);
        files := files[path := files[path] + bodies[j]];
        files := files[path := files[path] + Divider];
        j := j + 1;
      }
    }

    /** The end of `main` with the corrected selection (see
        `SelectionAsWritten`): choose the nearest articles, insist on three
        clusters, and write one report per cluster. */
    method Publish(articles: seq<string>, dist: seq<seq<int>>, labels: seq<nat>) returns (r: Result<seq<seq<string>>>)
      requires WellShaped(articles, dist, labels)
      modifies this
      ensures r == Selection(articles, dist, labels)
      ensures files == if r.Ok? then WriteAll(old(files), r.value) else old(files)
    {
      var nearest := FindNearestFixed(articles, dist, labels, NumClosest);
      if nearest.Err? {
        return Err(nearest.error);
      }
      var k := NumClusters(labels);
      if k != ExpectedClusters {
        return Err(UnexpectedClusterCount(k));
      }
      var i := 0;
      while i < k
        invariant 0 <= i <= k
        invariant files == WriteAll(old(files), nearest.value[..i])
      {
        assert nearest.value[..i + 1][..i] == nearest.value[..i];
        WriteCluster(i, nearest.value[i]);
        i := i + 1;
      }
      assert nearest.value[..k] == nearest.value;
      r := Ok(nearest.value);
    }
  }
}
