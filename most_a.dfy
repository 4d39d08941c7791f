/**
 * The line-with-most-a query: a stable maximum over the lines of each file,
 * then, over the per-file bests sorted by path, a stable maximum by count.
 */
module MostA {
  import opened Wrappers
  import opened Records
  import opened Text
  import opened Paths

  /** The "max by count" combiner: on equal counts the earlier operand wins. */
  function MaxByCount(a: LocationWithCount, b: LocationWithCount): LocationWithCount {
    if a.count >= b.count then a else b
  }

  /**
   * The maximum of a stream under the count comparator, as a left-to-right
   * reduction with MaxByCount; None for an empty stream.
   */
  function MaxOfStream(s: seq<LocationWithCount>): (r: Option<LocationWithCount>)
    ensures r.None? <==> |s| == 0
    ensures r.Some? ==> r.value in s && forall j :: 0 <= j < |s| ==> s[j].count <= r.value.count
  {
    if |s| == 0 then None
    else
      var last := s[|s| - 1];
      match MaxOfStream(s[..|s| - 1])
      case None => Some(last)
      case Some(m) => Some(MaxByCount(m, last))
  }

  /** The position of the element that MaxOfStream picks. */
  ghost function FirstMaxIndex(s: seq<LocationWithCount>): (k: nat)
    requires |s| > 0
    ensures k < |s|
  {
    if |s| == 1 then 0
    else
      var k := FirstMaxIndex(s[..|s| - 1]);
      if s[k].count >= s[|s| - 1].count then k else |s| - 1
  }

  /** `s[k]` has the highest count in `s`, and no earlier element reaches it. */
  ghost predicate IsFirstMax(s: seq<LocationWithCount>, k: int)
    requires 0 <= k < |s|
  {
    && (forall j :: 0 <= j < |s| ==> s[j].count <= s[k].count)
    && (forall j :: 0 <= j < k ==> s[j].count < s[k].count)
  }

  /** The stream maximum is stable: it is the first element with the highest count. */
  lemma {:induction false} MaxOfStreamIsFirstMax(s: seq<LocationWithCount>)
    requires |s| > 0
    ensures MaxOfStream(s) == Some(s[FirstMaxIndex(s)])
    ensures IsFirstMax(s, FirstMaxIndex(s))
  {
    if |s| > 1 {
      var init := s[..|s| - 1];
      MaxOfStreamIsFirstMax(init);
      var k := FirstMaxIndex(init);
      assert init[k] == s[k];
    }
  }

  /** Each line of the file paired with its 1-based location and its count of a. */
  function LineCounts(f: File): seq<LocationWithCount> {
    seq(|f.lines|, i requires 0 <= i < |f.lines| =>
      LocationWithCount(Location(Some(f.path), i + 1), CountA(f.lines[i])))
  }

  /**
   * The best line of one file: the stream maximum of its line counts, or
   * line -1 with count -1 when the file has no lines.
   */
  function HighestForFile(f: File): (r: LocationWithCount)
    ensures r.location.filepath == Some(f.path)
  {
    match MaxOfStream(LineCounts(f))
    case Some(m) => m
    case None => LocationWithCount(Location(Some(f.path), -1), -1)
  }

  /**
   * HighestForFile names the earliest line with the highest count of a,
   * with that count; an empty file gives line -1 with count -1.
   */
  lemma HighestForFileIsEarliestBest(f: File)
    ensures var r := HighestForFile(f);
      && (|f.lines| == 0 ==> r.location.line == -1 && r.count == -1)
      && (|f.lines| > 0 ==>
            1 <= r.location.line <= |f.lines| && r.count == CountA(f.lines[r.location.line - 1]))
      && (forall i :: 0 <= i < |f.lines| ==> CountA(f.lines[i]) <= r.count)
      && (forall i :: 0 <= i < r.location.line - 1 ==> CountA(f.lines[i]) < r.count)
  {
    var counts := LineCounts(f);
    if |counts| > 0 {
      MaxOfStreamIsFirstMax(counts);
      assert forall i :: 0 <= i < |f.lines| ==> counts[i].count == CountA(f.lines[i]);
    }
  }

  /** The sort key: the path of the location (every per-file best has one). */
  function PathKey(l: LocationWithCount): Path {
    match l.location.filepath
    case Some(p) => p
    case None => ""
  }

  ghost predicate SortedByPath(s: seq<LocationWithCount>) {
    forall i, j :: 0 <= i < j < |s| ==> PathLeq(PathKey(s[i]), PathKey(s[j]))
  }

  /** Inserts `x` before the first element whose path is not smaller (stable). */
  function InsertByPath(x: LocationWithCount, s: seq<LocationWithCount>): (r: seq<LocationWithCount>)
    ensures multiset(r) == multiset(s) + multiset{x}
  {
    if |s| == 0 then [x]
    else if PathLeq(PathKey(x), PathKey(s[0])) then [x] + s
    else
      assert s == [s[0]] + s[1..];
      [s[0]] + InsertByPath(x, s[1..])
  }

  /** Every path of `s` is at or after `lo`. */
  ghost predicate AllFrom(lo: Path, s: seq<LocationWithCount>) {
    forall j :: 0 <= j < |s| ==> PathLeq(lo, PathKey(s[j]))
  }

  /** Inserting an element at or after `lo` keeps every path at or after `lo`. */
  lemma {:induction false} InsertByPathAllFrom(lo: Path, x: LocationWithCount, s: seq<LocationWithCount>)
    requires PathLeq(lo, PathKey(x)) && AllFrom(lo, s)
    ensures AllFrom(lo, InsertByPath(x, s))
  {
    if |s| > 0 && !PathLeq(PathKey(x), PathKey(s[0])) {
      assert AllFrom(lo, s[1..]) by {
        forall j | 0 <= j < |s[1..]| ensures PathLeq(lo, PathKey(s[1..][j])) {
          assert s[1..][j] == s[j + 1];
        }
      }
      InsertByPathAllFrom(lo, x, s[1..]);
    }
  }

  lemma {:induction false} InsertByPathSorted(x: LocationWithCount, s: seq<LocationWithCount>)
    requires SortedByPath(s)
    ensures SortedByPath(InsertByPath(x, s))
  {
    if |s| == 0 {
    } else if PathLeq(PathKey(x), PathKey(s[0])) {
      var r := [x] + s;
      forall i, j | 0 <= i < j < |r| ensures PathLeq(PathKey(r[i]), PathKey(r[j])) {
        if i == 0 && j > 1 {
          PathLeqTransitive(PathKey(x), PathKey(s[0]), PathKey(s[j - 1]));
        }
      }
    } else {
      var tail := s[1..];
      assert SortedByPath(tail) by {
        forall i, j | 0 <= i < j < |tail| ensures PathLeq(PathKey(tail[i]), PathKey(tail[j])) {
          assert tail[i] == s[i + 1] && tail[j] == s[j + 1];
        }
      }
      assert AllFrom(PathKey(s[0]), tail) by {
        forall j | 0 <= j < |tail| ensures PathLeq(PathKey(s[0]), PathKey(tail[j])) {
          assert tail[j] == s[j + 1];
        }
      }
      PathLeqTotal(PathKey(x), PathKey(s[0]));
      InsertByPathSorted(x, tail);
      InsertByPathAllFrom(PathKey(s[0]), x, tail);
      var rest := InsertByPath(x, tail);
      var r := [s[0]] + rest;
      forall i, j | 0 <= i < j < |r| ensures PathLeq(PathKey(r[i]), PathKey(r[j])) {
        if i > 0 {
          assert r[i] == rest[i - 1] && r[j] == rest[j - 1];
        } else {
          assert r[j] == rest[j - 1];
        }
      }
    }
  }

  /** A stable insertion sort of the per-file bests by path, ascending. */
  function SortByPath(s: seq<LocationWithCount>): (r: seq<LocationWithCount>)
    ensures multiset(r) == multiset(s)
    ensures SortedByPath(r)
  {
    if |s| == 0 then []
    else
      assert s == [s[0]] + s[1..];
      InsertByPathSorted(s[0], SortByPath(s[1..]));
      InsertByPath(s[0], SortByPath(s[1..]))
  }

  /** The best line of each file, in the order the files are given. */
  function Bests(files: seq<File>): seq<LocationWithCount> {
    seq(|files|, i requires 0 <= i < |files| => HighestForFile(files[i]))
  }

  /**
   * `files[i]` holds the answer: its best count is at least every file's best
   * count, and among the files tied on that count its path comes first.
   */
  ghost predicate IsBestFile(files: seq<File>, i: int)
    requires 0 <= i < |files|
  {
    && (forall j :: 0 <= j < |files| ==> HighestForFile(files[j]).count <= HighestForFile(files[i]).count)
    && (forall j :: 0 <= j < |files| && HighestForFile(files[j]).count == HighestForFile(files[i]).count ==>
          PathLeq(files[i].path, files[j].path))
  }

  /**
   * The line with the most occurrences of a among all files: per-file bests,
   * sorted by path, then the stable maximum by count; `Location(None, -1)`
   * when there is no file.
   */
  function LineWithMostA(files: seq<File>): (r: Location)
    ensures |files| == 0 ==> r == Location(None, -1)
    ensures r.filepath.None? ==> |files| == 0
  {
    var bests := Bests(files);
    var sorted := SortByPath(bests);
    match MaxOfStream(sorted)
    case Some(m) =>
      assert m in multiset(bests);
      m.location
    case None => Location(None, -1)
  }

  /** In a path-sorted list, the first maximum by count has the smallest path among the tied elements. */
  lemma FirstMaxOfSortedHasSmallestPath(sorted: seq<LocationWithCount>, k: int, t: int)
    requires SortedByPath(sorted) && 0 <= k < |sorted| && IsFirstMax(sorted, k)
    requires 0 <= t < |sorted| && sorted[t].count == sorted[k].count
    ensures PathLeq(PathKey(sorted[k]), PathKey(sorted[t]))
  {
    if t < k {
      assert false;
    } else if t == k {
      PathLeqReflexive(PathKey(sorted[k]));
    }
  }

  lemma BestOfSortedIsBestFile(files: seq<File>, sorted: seq<LocationWithCount>, m: LocationWithCount)
    returns (i: int)
    requires multiset(sorted) == multiset(Bests(files)) && SortedByPath(sorted)
    requires |sorted| > 0 && m == sorted[FirstMaxIndex(sorted)] && IsFirstMax(sorted, FirstMaxIndex(sorted))
    ensures 0 <= i < |files| && IsBestFile(files, i) && m == HighestForFile(files[i])
  {
    var bests := Bests(files);
    var k := FirstMaxIndex(sorted);
    assert m in multiset(bests);
    i :| 0 <= i < |bests| && bests[i] == m;
    assert PathKey(m) == files[i].path;
    forall j | 0 <= j < |files|
      ensures HighestForFile(files[j]).count <= m.count
      ensures HighestForFile(files[j]).count == m.count ==> PathLeq(files[i].path, files[j].path)
    {
      var b := bests[j];
      assert b in multiset(sorted);
      var t :| 0 <= t < |sorted| && sorted[t] == b;
      if b.count == m.count {
        FirstMaxOfSortedHasSmallestPath(sorted, k, t);
        assert PathKey(b) == files[j].path;
      }
    }
  }

  /**
   * The answer does not depend on the order in which the files are listed or
   * processed: any permutation of a set of distinct paths gives the same line.
   */
  lemma LineWithMostAOrderIndependent(files: seq<File>, permuted: seq<File>)
    requires multiset(permuted) == multiset(files)
    requires DistinctPaths(files)
    ensures LineWithMostA(permuted) == LineWithMostA(files)
  {
    if |files| == 0 {
      assert |permuted| == |multiset(permuted)| == 0;
    } else {
      assert |permuted| == |multiset(permuted)| > 0;
      var i := LineWithMostAPicksBestFile(files);
      var p := LineWithMostAPicksBestFile(permuted);
      BestFileIsUnique(files, permuted, i, p);
    }
  }

  /**
   * LineWithMostA answers with the best line of a file whose best count is
   * the highest of all files and whose path comes first among the files tied
   * on that count.
   */
  lemma LineWithMostAPicksBestFile(files: seq<File>) returns (i: int)
    requires |files| > 0
    ensures 0 <= i < |files| && IsBestFile(files, i) && LineWithMostA(files) == HighestForFile(files[i]).location
  {
    var sorted := SortByPath(Bests(files));
    assert |sorted| == |multiset(sorted)| == |Bests(files)| > 0;
    MaxOfStreamIsFirstMax(sorted);
    var m := sorted[FirstMaxIndex(sorted)];
    i := BestOfSortedIsBestFile(files, sorted, m);
  }

  /**
   * With distinct paths the answer is fully determined: any file with the
   * highest best count and the first path among the tied files answers.
   */
  lemma LineWithMostAIsDeterminedByBestFile(files: seq<File>, i: int)
    requires DistinctPaths(files)
    requires 0 <= i < |files| && IsBestFile(files, i)
    ensures LineWithMostA(files) == HighestForFile(files[i]).location
  {
    var k := LineWithMostAPicksBestFile(files);
    BestFileIsUnique(files, files, i, k);
  }

  /** With distinct paths, two listings of the same files agree on the best file. */
  lemma BestFileIsUnique(files: seq<File>, permuted: seq<File>, i: int, p: int)
    requires multiset(permuted) == multiset(files)
    requires DistinctPaths(files)
    requires 0 <= i < |files| && IsBestFile(files, i)
    requires 0 <= p < |permuted| && IsBestFile(permuted, p)
    ensures permuted[p] == files[i]
  {
    assert permuted[p] in multiset(files);
    var q :| 0 <= q < |files| && files[q] == permuted[p];
    assert files[i] in multiset(permuted);
    var r :| 0 <= r < |permuted| && permuted[r] == files[i];
    var ci, cq := HighestForFile(files[i]).count, HighestForFile(files[q]).count;
    assert cq <= ci;
    assert ci <= cq by {
      assert HighestForFile(permuted[r]).count <= HighestForFile(permuted[p]).count;
    }
    assert PathLeq(files[i].path, files[q].path);
    assert PathLeq(files[q].path, files[i].path) by {
      assert PathLeq(permuted[p].path, permuted[r].path);
    }
    PathLeqAntisymmetric(files[i].path, files[q].path);
  }

  /** Within one file, two lines tied on the count: the earlier one is chosen. */
  lemma HighestForFileTieGoesToEarlierLine(f: File, i: nat, j: nat)
    requires i < j < |f.lines| && CountA(f.lines[i]) == CountA(f.lines[j])
    ensures HighestForFile(f).location.line != j + 1
  {
    HighestForFileIsEarliestBest(f);
  }

  /** The scenario of lines "aaa", "AAAA", "bb": the second line wins. */
  lemma HighestForFileExample()
    ensures HighestForFile(File("/d/x.txt", ["aaa", "AAAA", "bb"])).location
         == Location(Some("/d/x.txt"), 2)
  {
    var f := File("/d/x.txt", ["aaa", "AAAA", "bb"]);
    assert CountA(f.lines[0]) == 3;
    assert CountA(f.lines[1]) == 4;
    assert CountA(f.lines[2]) == 0;
    HighestForFileIsEarliestBest(f);
  }
}
