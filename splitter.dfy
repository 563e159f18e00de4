/** `re.split` with the two delimiter patterns of seg.py, `ARTICLE_SPLITTER`
    and `METADATA_SPLITTER`.

    Both splitters are regular expressions of the form `^XX$` compiled with
    the multi-line flag and applied with `re.split`. A match is therefore the
    two marker characters, standing at the start of the text or just after a
    line break, and followed by a line break or by the end of the text. Only
    the marker characters are consumed: the line breaks around them stay in
    the neighbouring pieces. */
module Splitter {
  import opened Common

  /** The text of a delimiter line: non-empty and without a line break. */
  type Marker = d: string | |d| > 0 && '\n' !in d witness "##"

  /** `ARTICLE_SPLITTER`: a line that is exactly `##`. */
  const ArticleMarker: Marker := "##"
  /** `METADATA_SPLITTER`: a line that is exactly `++`. */
  const MetadataMarker: Marker := "++"

  /** A line that is exactly `d` starts at position `i` of `s`. */
  predicate IsDelimAt(s: string, d: Marker, i: int)
  {
    && 0 <= i && i + |d| <= |s|
    && s[i..i + |d|] == d
    && (i == 0 || s[i - 1] == '\n')
    && (i + |d| == |s| || s[i + |d|] == '\n')
  }

  /** No line of `s` is exactly `d`. */
  predicate NoDelimLine(s: string, d: Marker)
  {
    forall i :: 0 <= i < |s| ==> !IsDelimAt(s, d, i)
  }

  /** The number of lines of `s`, from position `from` on, that are exactly `d`.
      Counts every position independently, so it is a reference for the
      left-to-right scan done by `SplitFrom`. */
  function CountDelims(s: string, d: Marker, from: nat): nat
    decreases |s| - from
  {
    if from >= |s| then 0
    else (if IsDelimAt(s, d, from) then 1 else 0) + CountDelims(s, d, from + 1)
  }

  /** The leftmost match of the delimiter line at or after `from`. */
  function FindDelim(s: string, d: Marker, from: nat): (r: Option<nat>)
    requires from <= |s|
    ensures r.Some? ==> from <= r.value && r.value + |d| <= |s|
    decreases |s| - from
  {
    if from + |d| > |s| then None
    else if IsDelimAt(s, d, from) then Some(from)
    else FindDelim(s, d, from + 1)
  }

  /** `FindDelim` finds a match, and there is none before it (none at all
      when it finds nothing). */
  lemma {:induction false} FindDelimLeftmost(s: string, d: Marker, from: nat)
    requires from <= |s|
    ensures FindDelim(s, d, from).Some? ==> IsDelimAt(s, d, FindDelim(s, d, from).value)
    ensures forall j :: from <= j && (FindDelim(s, d, from).None? || j < FindDelim(s, d, from).value)
                        ==> !IsDelimAt(s, d, j)
    decreases |s| - from
  {
    if from + |d| <= |s| && !IsDelimAt(s, d, from) {
      FindDelimLeftmost(s, d, from + 1);
    }
  }

  /** `re.split` of `s[from..]`: the search for each match resumes where the
      previous match ended, and every match is judged against the whole text. */
  function SplitFrom(s: string, d: Marker, from: nat): (pieces: seq<string>)
    requires from <= |s|
    ensures |pieces| > 0
    decreases |s| - from
  {
    match FindDelim(s, d, from)
    case None => [s[from..]]
    case Some(i) => [s[from..i]] + SplitFrom(s, d, i + |d|)
  }

  /** The first match at or after `from` is at `i`. */
  predicate FirstMatch(s: string, d: Marker, from: nat, i: nat)
    requires from <= |s|
  {
    FindDelim(s, d, from) == Some(i)
  }

  /** A match with no match before it is the first one. */
  lemma FirstMatchIntro(s: string, d: Marker, from: nat, i: nat)
    requires from <= i && IsDelimAt(s, d, i)
    requires forall j :: from <= j < i ==> !IsDelimAt(s, d, j)
    ensures FirstMatch(s, d, from, i)
  {
    FindDelimLeftmost(s, d, from);
  }

  lemma SplitFromAt(s: string, d: Marker, from: nat, i: nat)
    requires from <= |s| && FindDelim(s, d, from) == Some(i)
    ensures SplitFrom(s, d, from) == [s[from..i]] + SplitFrom(s, d, i + |d|)
  {
  }

  /** `pieces[1..]`, each preceded by the delimiter. */
  function Prefixed(pieces: seq<string>, d: string): string
  {
    if pieces == [] then [] else d + pieces[0] + Prefixed(pieces[1..], d)
  }

  /** The pieces glued back together with the delimiter between them. */
  function Join(pieces: seq<string>, d: string): string
    requires |pieces| > 0
  {
    pieces[0] + Prefixed(pieces[1..], d)
  }

  /** A piece that follows a delimiter starts with a line break; it may be
      empty only when it is the last piece. */
  predicate OpensLine(p: string, last: bool)
  {
    if p == [] then last else p[0] == '\n'
  }

  /** A piece that precedes a delimiter ends with a line break; it may be
      empty only when it is the first piece. */
  predicate ClosesLine(p: string, first: bool)
  {
    if p == [] then first else p[|p| - 1] == '\n'
  }

  /** The lists of pieces that `re.split` can return, read piece by piece:
      no piece holds a delimiter line; a piece followed by a delimiter ends a
      line, or is the empty first piece (`first`); a piece after a delimiter
      starts a line, or is the empty last piece. */
  predicate ValidFrom(pieces: seq<string>, d: Marker, first: bool)
    decreases |pieces|
  {
    && |pieces| > 0
    && NoDelimLine(pieces[0], d)
    && (|pieces| > 1 ==>
          && ClosesLine(pieces[0], first)
          && OpensLine(pieces[1], |pieces| == 2)
          && ValidFrom(pieces[1..], d, false))
  }

  predicate ValidPieces(pieces: seq<string>, d: Marker)
  {
    ValidFrom(pieces, d, true)
  }

  /** `re.split(^d$, s)` with the multi-line flag: one more piece than there
      are delimiter lines, the pieces glue back to `s`, and they have the shape
      that makes the split unique (see `SplitOfJoin`). */
  function Split(s: string, d: Marker): (pieces: seq<string>)
    ensures |pieces| == CountDelims(s, d, 0) + 1
    ensures Join(pieces, d) == s
    ensures ValidPieces(pieces, d)
  {
    SplitFromCount(s, d, 0);
    SplitFromJoin(s, d, 0);
    SplitFromValid(s, d, 0);
    assert s[0..] == s;
    SplitFrom(s, d, 0)
  }

  // ----- lemmas about the scan -----

  /** Two delimiter lines never overlap: the positions just after a match
      cannot start another one. */
  lemma NoDelimJustAfter(s: string, d: Marker, i: nat, j: int)
    requires IsDelimAt(s, d, i)
    requires i < j <= i + |d|
    ensures !IsDelimAt(s, d, j)
  {
    var c := d[j - 1 - i];
    assert c in d;
    assert s[j - 1] == s[i..i + |d|][j - 1 - i];
  }

  lemma {:induction false} CountSkip(s: string, d: Marker, a: nat, b: nat)
    requires a <= b <= |s|
    requires forall j :: a <= j < b ==> !IsDelimAt(s, d, j)
    ensures CountDelims(s, d, a) == CountDelims(s, d, b)
    decreases b - a
  {
    if a < b {
      CountSkip(s, d, a + 1, b);
    }
  }

  /** There is no delimiter line from `from` on exactly when none is counted. */
  lemma {:induction false} CountZero(s: string, d: Marker, from: nat)
    requires from <= |s|
    ensures CountDelims(s, d, from) == 0 <==> forall j :: from <= j < |s| ==> !IsDelimAt(s, d, j)
    decreases |s| - from
  {
    if from < |s| {
      CountZero(s, d, from + 1);
    }
  }

  lemma CountAt(s: string, d: Marker, i: nat)
    requires IsDelimAt(s, d, i)
    ensures CountDelims(s, d, i) == 1 + CountDelims(s, d, i + |d|)
  {
    forall j | i + 1 <= j < i + |d|
      ensures !IsDelimAt(s, d, j)
    {
      NoDelimJustAfter(s, d, i, j);
    }
    CountSkip(s, d, i + 1, i + |d|);
  }

  /** The scan from `from` returns one piece more than there are delimiter
      lines from `from` on. */
  predicate OneMoreThanCount(s: string, d: Marker, from: nat)
    requires from <= |s|
  {
    |SplitFrom(s, d, from)| == CountDelims(s, d, from) + 1
  }

  /** `re.split` returns one piece more than there are delimiter lines. */
  lemma {:induction false} SplitFromCount(s: string, d: Marker, from: nat)
    requires from <= |s|
    ensures OneMoreThanCount(s, d, from)
    decreases |s| - from
  {
    FindDelimLeftmost(s, d, from);
    match FindDelim(s, d, from)
    case None =>
      CountSkip(s, d, from, |s|);
    case Some(i) =>
      CountStep(s, d, from, i);
      SplitFromCount(s, d, i + |d|);
  }

  /** One match: one delimiter line more, and one piece more. */
  lemma CountStep(s: string, d: Marker, from: nat, i: nat)
    requires from <= |s| && FindDelim(s, d, from) == Some(i)
    ensures i + |d| <= |s|
    ensures CountDelims(s, d, from) == 1 + CountDelims(s, d, i + |d|)
    ensures |SplitFrom(s, d, from)| == 1 + |SplitFrom(s, d, i + |d|)|
  {
    FindDelimLeftmost(s, d, from);
    CountSkip(s, d, from, i);
    CountAt(s, d, i);
    SplitFromAt(s, d, from, i);
  }

  /** `SplitFrom(s, d, from) == pieces`, as one atom: a recursive call's
      conclusion then matches the goal of the caller literally. */
  predicate SplitsAt(s: string, d: Marker, from: nat, pieces: seq<string>)
    requires from <= |s|
  {
    SplitFrom(s, d, from) == pieces
  }

  /** The scan from `from` cuts off `p` and resumes at `next`. */
  predicate CutsAt(s: string, d: Marker, from: nat, p: string, next: nat)
    requires from <= |s| && next <= |s|
  {
    SplitFrom(s, d, from) == [p] + SplitFrom(s, d, next)
  }

  lemma SplitFromCons(s: string, d: Marker, from: nat, pieces: seq<string>)
    requires |pieces| > 0 && from + |pieces[0]| + |d| <= |s|
    requires CutsAt(s, d, from, pieces[0], from + |pieces[0]| + |d|)
    requires SplitsAt(s, d, from + |pieces[0]| + |d|, pieces[1..])
    ensures SplitsAt(s, d, from, pieces)
  {
    assert pieces == [pieces[0]] + pieces[1..];
  }

  lemma JoinCons(pieces: seq<string>, d: string)
    requires |pieces| > 1
    ensures Join(pieces, d) == pieces[0] + d + Join(pieces[1..], d)
  {
    assert pieces[1..][1..] == pieces[2..];
  }

  /** Gluing the pieces of the scan from `from` back together with the
      delimiter gives `s[from..]` back. */
  predicate JoinsBack(s: string, d: Marker, from: nat)
    requires from <= |s|
  {
    Join(SplitFrom(s, d, from), d) == s[from..]
  }

  /** Gluing the pieces back with the delimiter gives the text back. */
  lemma {:induction false} SplitFromJoin(s: string, d: Marker, from: nat)
    requires from <= |s|
    ensures JoinsBack(s, d, from)
    decreases |s| - from
  {
    match FindDelim(s, d, from)
    case None =>
    case Some(i) =>
      SplitFromJoin(s, d, i + |d|);
      JoinsBackStep(s, d, from, i);
  }

  /** One match: the first piece, the delimiter and the join of the rest. */
  lemma JoinsBackStep(s: string, d: Marker, from: nat, i: nat)
    requires from <= |s| && FindDelim(s, d, from) == Some(i)
    requires JoinsBack(s, d, i + |d|)
    ensures JoinsBack(s, d, from)
  {
    FindDelimLeftmost(s, d, from);
    SplitFromAt(s, d, from, i);
    var rest := SplitFrom(s, d, i + |d|);
    var pieces := [s[from..i]] + rest;
    assert pieces[1..] == rest;
    JoinCons(pieces, d);
    assert s[from..] == s[from..i] + s[i..i + |d|] + s[i + |d|..];
  }

  lemma SliceOfSlice(s: string, a: nat, b: nat, j: nat, n: nat)
    requires a <= b <= |s| && j + n <= b - a
    ensures s[a..b][j..j + n] == s[a + j..a + j + n]
  {
    var inner, outer := s[a..b][j..j + n], s[a + j..a + j + n];
    forall t | 0 <= t < n
      ensures inner[t] == outer[t]
    {
    }
    assert inner == outer;
  }

  lemma ThreeParts(s: string, from: nat, x: string, y: string, z: string)
    requires from <= |s| && s[from..] == x + y + z
    ensures from + |x| + |y| <= |s|
    ensures s[from..from + |x|] == x
    ensures s[from + |x|..from + |x| + |y|] == y
    ensures s[from + |x| + |y|..] == z
  {
    var t := s[from..];
    assert t[..|x|] == x;
    assert t[|x|..|x| + |y|] == y;
    assert t[|x| + |y|..] == z;
    SliceOfSlice(s, from, |s|, 0, |x|);
    SliceOfSlice(s, from, |s|, |x|, |y|);
    assert s[from..] == s[from..|s|];
    assert s[from + |x| + |y|..] == t[|x| + |y|..];
  }

  /** A stretch of text between two consecutive matches holds no delimiter line
      of its own. */
  lemma SliceClean(s: string, d: Marker, a: nat, b: nat)
    requires a <= b <= |s|
    requires a == 0 || a == |s| || s[a] == '\n'
    requires b == |s| || IsDelimAt(s, d, b)
    requires forall j :: a <= j < b ==> !IsDelimAt(s, d, j)
    ensures NoDelimLine(s[a..b], d)
  {
    var p := s[a..b];
    forall j | 0 <= j && j + |d| <= |p|
      ensures !IsDelimAt(p, d, j)
    {
      SliceOfSlice(s, a, b, j, |d|);
      assert d[0] in d && d[|d| - 1] in d;
      assert !IsDelimAt(s, d, a + j);
      if j > 0 {
        assert p[j - 1] == s[a + j - 1];
      }
      if j + |d| < |p| {
        assert p[j + |d|] == s[a + j + |d|];
      }
      if j + |d| == |p| && b < |s| {
        assert s[b - 1] == p[j + |d| - 1];
      }
      if j == 0 && a < |s| {
        assert p[0] == s[a];
      }
    }
  }

  /** A valid list of pieces stays valid when a piece that may precede a
      delimiter is put in front of it. */
  lemma ValidCons(p: string, rest: seq<string>, d: Marker, first: bool)
    requires ValidFrom(rest, d, false) && NoDelimLine(p, d)
    requires ClosesLine(p, first) && OpensLine(rest[0], |rest| == 1)
    ensures ValidFrom([p] + rest, d, first)
  {
    var pieces := [p] + rest;
    assert pieces[1..] == rest;
  }

  /** The tail of a valid list of at least two pieces is valid, and its head
      opens a line. */
  lemma ValidTail(pieces: seq<string>, d: Marker, first: bool)
    requires ValidFrom(pieces, d, first) && |pieces| > 1
    ensures NoDelimLine(pieces[0], d) && ClosesLine(pieces[0], first)
    ensures ValidFrom(pieces[1..], d, false) && OpensLine(pieces[1..][0], |pieces[1..]| == 1)
  {
  }

  /** No piece of a valid list holds a delimiter line. */
  lemma {:induction false} ValidFromClean(pieces: seq<string>, d: Marker, first: bool)
    requires ValidFrom(pieces, d, first)
    ensures forall k :: 0 <= k < |pieces| ==> NoDelimLine(pieces[k], d)
    decreases |pieces|
  {
    if |pieces| > 1 {
      ValidFromClean(pieces[1..], d, false);
      forall k | 0 < k < |pieces|
        ensures NoDelimLine(pieces[k], d)
      {
        assert pieces[k] == pieces[1..][k - 1];
      }
    }
  }

  /** The text between `from` and the match at `i` is a piece that may
      precede a delimiter, and the text after the match opens a line. */
  lemma PieceBeforeMatch(s: string, d: Marker, from: nat, i: nat)
    requires from <= i && IsDelimAt(s, d, i)
    requires forall j :: from <= j < i ==> !IsDelimAt(s, d, j)
    requires from == 0 || (s[from - 1] != '\n' && (from == |s| || s[from] == '\n'))
    ensures NoDelimLine(s[from..i], d) && ClosesLine(s[from..i], from == 0)
    ensures from > 0 ==> OpensLine(s[from..i], false)
    ensures s[i + |d| - 1] != '\n'
  {
    SliceClean(s, d, from, i);
    assert d[|d| - 1] in d;
    assert s[i + |d| - 1] == s[i..i + |d|][|d| - 1];
  }

  /** The scan from `from` returns a valid list of pieces; when `from` follows
      a match, its first piece opens a new line. */
  predicate ScanValid(s: string, d: Marker, from: nat)
    requires from <= |s|
  {
    && ValidFrom(SplitFrom(s, d, from), d, from == 0)
    && (from > 0 ==> OpensLine(SplitFrom(s, d, from)[0], |SplitFrom(s, d, from)| == 1))
  }

  /** Where the scan may start: at the start of the text, or just after a
      match, which is followed by a line break or the end of the text. */
  predicate ScanStart(s: string, from: nat)
    requires from <= |s|
  {
    from == 0 || (s[from - 1] != '\n' && (from == |s| || s[from] == '\n'))
  }

  /** Every list of pieces returned by the scan is valid. */
  lemma {:induction false} SplitFromValid(s: string, d: Marker, from: nat)
    requires from <= |s| && ScanStart(s, from)
    ensures ScanValid(s, d, from)
    decreases |s| - from
  {
    FindDelimLeftmost(s, d, from);
    match FindDelim(s, d, from)
    case None =>
      ScanValidLast(s, d, from);
    case Some(i) =>
      PieceBeforeMatch(s, d, from, i);
      SplitFromValid(s, d, i + |d|);
      ScanValidStep(s, d, from, i);
  }

  /** Without a match, the one piece left is valid. */
  lemma ScanValidLast(s: string, d: Marker, from: nat)
    requires from <= |s| && ScanStart(s, from) && FindDelim(s, d, from).None?
    ensures ScanValid(s, d, from)
  {
    FindDelimLeftmost(s, d, from);
    SliceClean(s, d, from, |s|);
    assert s[from..] == s[from..|s|];
    assert SplitFrom(s, d, from) == [s[from..]];
  }

  /** One match: the piece before it, put in front of the valid rest. */
  lemma ScanValidStep(s: string, d: Marker, from: nat, i: nat)
    requires from <= |s| && ScanStart(s, from) && FindDelim(s, d, from) == Some(i)
    requires ScanValid(s, d, i + |d|)
    ensures ScanValid(s, d, from)
  {
    FindDelimLeftmost(s, d, from);
    PieceBeforeMatch(s, d, from, i);
    SplitFromAt(s, d, from, i);
    ValidCons(s[from..i], SplitFrom(s, d, i + |d|), d, from == 0);
  }

  // ----- the split is unique -----

  /** A stretch `s[a..e]` without a delimiter line of its own, which ends the
      text or a line, holds no match of the whole text either. */
  lemma NoDelimInPiece(s: string, d: Marker, a: nat, e: nat, j: int)
    requires a <= j < e <= |s|
    requires NoDelimLine(s[a..e], d)
    requires e == |s| || s[e - 1] == '\n'
    ensures !IsDelimAt(s, d, j)
  {
    var p := s[a..e];
    var jj := j - a;
    if j + |d| <= e {
      SliceOfSlice(s, a, e, jj, |d|);
      assert !IsDelimAt(p, d, jj);
      if jj > 0 {
        assert p[jj - 1] == s[j - 1];
      }
      if jj + |d| < |p| {
        assert p[jj + |d|] == s[j + |d|];
      }
    } else {
      assert d[e - 1 - j] in d;
      if j + |d| <= |s| {
        assert s[e - 1] == s[j..j + |d|][e - 1 - j];
      }
    }
  }

  /** A piece free of delimiter lines that closes its line, followed by the
      delimiter on a line of its own, ends at the first match. */
  lemma FirstMatchOfParts(s: string, d: Marker, from: nat, p: string)
    requires from + |p| + |d| <= |s|
    requires s[from..from + |p|] == p && s[from + |p|..from + |p| + |d|] == d
    requires NoDelimLine(p, d) && ClosesLine(p, from == 0)
    requires from + |p| + |d| == |s| || s[from + |p| + |d|] == '\n'
    ensures FirstMatch(s, d, from, from + |p|)
  {
    var e := from + |p|;
    if p != [] {
      assert s[e - 1] == p[|p| - 1];
    }
    forall j | from <= j < e
      ensures !IsDelimAt(s, d, j)
    {
      NoDelimInPiece(s, d, from, e, j);
    }
    assert IsDelimAt(s, d, e);
    FirstMatchIntro(s, d, from, e);
  }

  /** With a piece followed by the rest of a valid list of pieces, the first
      match after `from` is at the end of that piece. */
  lemma FirstMatchOfJoin(s: string, d: Marker, from: nat, p: string, rest: seq<string>)
    requires |rest| > 0 && from <= |s| && s[from..] == p + d + Join(rest, d)
    requires NoDelimLine(p, d) && ClosesLine(p, from == 0) && OpensLine(rest[0], |rest| == 1)
    ensures from + |p| + |d| <= |s|
    ensures FirstMatch(s, d, from, from + |p|)
    ensures s[from..from + |p|] == p
    ensures s[from + |p| + |d|..] == Join(rest, d)
  {
    var e := from + |p|;
    ThreeParts(s, from, p, d, Join(rest, d));
    if rest[0] != [] {
      assert s[e + |d|] == rest[0][0];
    } else {
      assert Join(rest, d) == [];
    }
    FirstMatchOfParts(s, d, from, p);
  }

  /** `s[from..]` is the join of the valid list `pieces`, whose first piece
      opens a line unless it starts the text. */
  predicate JoinAt(s: string, d: Marker, from: nat, pieces: seq<string>)
  {
    && from <= |s| && ValidFrom(pieces, d, from == 0) && s[from..] == Join(pieces, d)
    && (from > 0 ==> OpensLine(pieces[0], |pieces| == 1))
  }

  /** With a valid list of one piece, there is no match after `from`. */
  lemma NoMatchInLast(s: string, d: Marker, from: nat, pieces: seq<string>)
    requires JoinAt(s, d, from, pieces) && |pieces| == 1
    ensures SplitsAt(s, d, from, pieces)
  {
    assert s[from..] == s[from..|s|] == pieces[0];
    forall j | from <= j < |s|
      ensures !IsDelimAt(s, d, j)
    {
      NoDelimInPiece(s, d, from, |s|, j);
    }
    FindDelimLeftmost(s, d, from);
    assert SplitFrom(s, d, from) == [pieces[0]];
  }

  /** The scan cuts off the text up to the first match. */
  lemma CutsAtMatch(s: string, d: Marker, from: nat, i: nat, p: string)
    requires from <= |s| && FirstMatch(s, d, from, i) && s[from..i] == p
    ensures i + |d| <= |s| && CutsAt(s, d, from, p, i + |d|)
  {
    SplitFromAt(s, d, from, i);
  }

  /** The join of a valid list of at least two pieces is its first piece, the
      delimiter, and the join of the rest, which is again valid. */
  lemma UnfoldJoinAt(s: string, d: Marker, from: nat, pieces: seq<string>)
    requires JoinAt(s, d, from, pieces) && |pieces| > 1
    ensures s[from..] == pieces[0] + d + Join(pieces[1..], d)
    ensures NoDelimLine(pieces[0], d) && ClosesLine(pieces[0], from == 0)
    ensures OpensLine(pieces[1..][0], |pieces[1..]| == 1)
  {
    ValidTail(pieces, d, from == 0);
    JoinCons(pieces, d);
  }

  /** One step of the scan over a piece followed by the rest of a valid list:
      the piece is cut off, and the scan resumes at the join of the rest. */
  lemma StepOfJoin(s: string, d: Marker, from: nat, p: string, rest: seq<string>)
    requires |rest| > 0 && from <= |s| && s[from..] == p + d + Join(rest, d)
    requires NoDelimLine(p, d) && ClosesLine(p, from == 0) && OpensLine(rest[0], |rest| == 1)
    ensures from + |p| + |d| <= |s|
    ensures CutsAt(s, d, from, p, from + |p| + |d|)
    ensures s[from + |p| + |d|..] == Join(rest, d)
  {
    FirstMatchOfJoin(s, d, from, p, rest);
    CutsAtMatch(s, d, from, from + |p|, p);
  }

  /** The rest of the text after the first piece and its delimiter is again
      the join of a valid list. */
  lemma TailOfJoin(s: string, d: Marker, from: nat, pieces: seq<string>)
    requires JoinAt(s, d, from, pieces) && |pieces| > 1
    ensures from + |pieces[0]| + |d| <= |s|
    ensures JoinAt(s, d, from + |pieces[0]| + |d|, pieces[1..])
  {
    ValidTail(pieces, d, from == 0);
    UnfoldJoinAt(s, d, from, pieces);
    ThreeParts(s, from, pieces[0], d, Join(pieces[1..], d));
  }

  /** The scan cuts the first piece off the join of a valid list whose rest
      it splits correctly, so it splits the whole list correctly. */
  lemma SplitFromOfJoinStep(s: string, d: Marker, from: nat, pieces: seq<string>)
    requires |pieces| > 1 && from <= |s| && s[from..] == pieces[0] + d + Join(pieces[1..], d)
    requires NoDelimLine(pieces[0], d) && ClosesLine(pieces[0], from == 0)
    requires OpensLine(pieces[1..][0], |pieces[1..]| == 1)
    requires from + |pieces[0]| + |d| <= |s|
    requires SplitsAt(s, d, from + |pieces[0]| + |d|, pieces[1..])
    ensures SplitsAt(s, d, from, pieces)
  {
    StepOfJoin(s, d, from, pieces[0], pieces[1..]);
    SplitFromCons(s, d, from, pieces);
  }

  lemma {:induction false} SplitFromOfJoin(s: string, d: Marker, from: nat, pieces: seq<string>)
    requires JoinAt(s, d, from, pieces)
    ensures SplitsAt(s, d, from, pieces)
    decreases |pieces|
  {
    if |pieces| == 1 {
      NoMatchInLast(s, d, from, pieces);
    } else {
      TailOfJoin(s, d, from, pieces);
      SplitFromOfJoin(s, d, from + |pieces[0]| + |d|, pieces[1..]);
      UnfoldJoinAt(s, d, from, pieces);
      SplitFromOfJoinStep(s, d, from, pieces);
    }
  }

  /** The converse of `Split`'s contract: splitting the join of a valid list of
      pieces gives that list back, so `Split` is the only decomposition of a
      text into valid pieces. */
  lemma SplitOfJoin(pieces: seq<string>, d: Marker)
    requires ValidPieces(pieces, d)
    ensures Split(Join(pieces, d), d) == pieces
  {
    var s := Join(pieces, d);
    assert s[0..] == s;
    SplitFromOfJoin(s, d, 0, pieces);
  }
}
