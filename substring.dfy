/**
 * The bounded substring search: one task per file scans lines and words in
 * order and stops once a counter shared by all tasks reaches the limit; the
 * caller gathers the task results until it holds `limit` entries and keeps
 * the first `limit` of them.
 */
module Substring {
  import opened Wrappers
  import opened Records
  import opened Text

  /** A shared integer counter, read and bumped atomically. */
  class AtomicCounter {
    var value: int

    constructor (initial: int)
      ensures value == initial
    {
      value := initial;
    }

    method Get() returns (v: int)
      ensures v == value
    {
      v := value;
    }

    method IncrementAndGet() returns (v: int)
      modifies this
      ensures value == old(value) + 1 && v == value
    {
      value := value + 1;
      v := value;
    }
  }

  /** The first `limit` entries of a list (all of it when it is shorter). */
  function ExtractLimit(result: seq<LocatedWord>, limit: nat): (r: seq<LocatedWord>)
    ensures |r| == if |result| <= limit then |result| else limit
    ensures r <= result
  {
    if |result| <= limit then result else result[..limit]
  }

  /** The matches among the first `j` words of a line, in word order. */
  function LineMatches(words: seq<string>, j: nat, substring: string, lineNo: int, file: Path): seq<LocatedWord>
    requires j <= |words|
  {
    if j == 0 then []
    else
      LineMatches(words, j - 1, substring, lineNo, file)
      + (if Contains(words[j - 1], substring) then [LocatedWord(words[j - 1], lineNo, file)] else [])
  }

  /** The matches on the first `k` lines of a file, in line order and then word order. */
  function FileMatchesUpTo(f: File, k: nat, substring: string, tokenize: Tokenizer): seq<LocatedWord>
    requires k <= |f.lines|
  {
    if k == 0 then []
    else
      var words := tokenize(f.lines[k - 1]);
      FileMatchesUpTo(f, k - 1, substring, tokenize) + LineMatches(words, |words|, substring, k, f.path)
  }

  /** Every word of the file that contains `substring`, located. */
  function FileMatches(f: File, substring: string, tokenize: Tokenizer): seq<LocatedWord> {
    FileMatchesUpTo(f, |f.lines|, substring, tokenize)
  }

  /**
   * What one task returns when it starts with the shared counter at `c0`:
   * nothing once the limit is reached, otherwise the file's matches up to
   * the number still missing.
   */
  function TaskResult(substring: string, limit: int, f: File, c0: int, tokenize: Tokenizer): seq<LocatedWord> {
    if c0 < limit then ExtractLimit(FileMatches(f, substring, tokenize), limit - c0) else []
  }

  /** The matches of the first `i` files, file after file. */
  function AllMatchesUpTo(files: seq<File>, i: nat, substring: string, tokenize: Tokenizer): seq<LocatedWord>
    requires i <= |files|
  {
    if i == 0 then [] else AllMatchesUpTo(files, i - 1, substring, tokenize) + FileMatches(files[i - 1], substring, tokenize)
  }

  function AllMatches(files: seq<File>, substring: string, tokenize: Tokenizer): seq<LocatedWord> {
    AllMatchesUpTo(files, |files|, substring, tokenize)
  }

  lemma {:induction false} LineMatchesPrefix(words: seq<string>, j: nat, j': nat, substring: string, lineNo: int, file: Path)
    requires j <= j' <= |words|
    ensures LineMatches(words, j, substring, lineNo, file) <= LineMatches(words, j', substring, lineNo, file)
  {
    if j < j' {
      LineMatchesPrefix(words, j, j' - 1, substring, lineNo, file);
    }
  }

  lemma {:induction false} FileMatchesUpToPrefix(f: File, k: nat, k': nat, substring: string, tokenize: Tokenizer)
    requires k <= k' <= |f.lines|
    ensures FileMatchesUpTo(f, k, substring, tokenize) <= FileMatchesUpTo(f, k', substring, tokenize)
  {
    if k < k' {
      FileMatchesUpToPrefix(f, k, k' - 1, substring, tokenize);
    }
  }

  lemma {:induction false} AllMatchesUpToPrefix(files: seq<File>, i: nat, i': nat, substring: string, tokenize: Tokenizer)
    requires i <= i' <= |files|
    ensures AllMatchesUpTo(files, i, substring, tokenize) <= AllMatchesUpTo(files, i', substring, tokenize)
  {
    if i < i' {
      AllMatchesUpToPrefix(files, i, i' - 1, substring, tokenize);
    }
  }

  /** Matches gathered part-way through line `i` are a prefix of all the file's matches. */
  lemma PartialLineIsPrefix(f: File, i: nat, j: nat, substring: string, tokenize: Tokenizer)
    requires i < |f.lines| && j <= |tokenize(f.lines[i])|
    ensures FileMatchesUpTo(f, i, substring, tokenize) + LineMatches(tokenize(f.lines[i]), j, substring, i + 1, f.path)
            <= FileMatches(f, substring, tokenize)
  {
    var words := tokenize(f.lines[i]);
    LineMatchesPrefix(words, j, |words|, substring, i + 1, f.path);
    FileMatchesUpToPrefix(f, i + 1, |f.lines|, substring, tokenize);
    var a := FileMatchesUpTo(f, i, substring, tokenize);
    var b := LineMatches(words, j, substring, i + 1, f.path);
    var c := LineMatches(words, |words|, substring, i + 1, f.path);
    assert a + b <= a + c;
  }

  /** A prefix of `s` that is `n` long is the first `n` entries of `s`. */
  lemma PrefixIsExtractLimit(p: seq<LocatedWord>, s: seq<LocatedWord>, n: nat)
    requires p <= s && |p| == n
    ensures ExtractLimit(s, n) == p
  {
  }

  /** Taking `limit` entries after a list no longer than `limit`. */
  lemma ExtractLimitAppend(a: seq<LocatedWord>, b: seq<LocatedWord>, limit: nat)
    requires |a| <= limit
    ensures ExtractLimit(a + b, limit) == a + ExtractLimit(b, limit - |a|)
  {
    var r := a + ExtractLimit(b, limit - |a|);
    assert r <= a + b;
    PrefixIsExtractLimit(r, a + b, |ExtractLimit(a + b, limit)|);
  }

  /**
   * A task that reaches the limit after `j` words of line `i + 1` has
   * returned exactly what it should.
   */
  lemma StopMidLineIsTaskResult(substring: string, limit: int, f: File, c0: int, i: nat, j: nat,
                                tokenize: Tokenizer)
    requires i < |f.lines| && j <= |tokenize(f.lines[i])|
    requires var p := FileMatchesUpTo(f, i, substring, tokenize)
                      + LineMatches(tokenize(f.lines[i]), j, substring, i + 1, f.path);
      c0 < limit && c0 + |p| == limit
    ensures FileMatchesUpTo(f, i, substring, tokenize) + LineMatches(tokenize(f.lines[i]), j, substring, i + 1, f.path)
            == TaskResult(substring, limit, f, c0, tokenize)
  {
    PartialLineIsPrefix(f, i, j, substring, tokenize);
  }

  /**
   * The word loop of a task over one line: keeps each word containing
   * `substring`, bumping the shared counter for it, and stops (`stop`) as
   * soon as the counter reaches the limit, after `scanned` words.
   */
  method ScanLine(substring: string, limit: int, wordList: seq<string>, lineNumber: int, path: Path,
                  resultsFound: AtomicCounter) returns (lineResult: seq<LocatedWord>, stop: bool, scanned: nat)
    requires resultsFound.value < limit
    modifies resultsFound
    ensures scanned <= |wordList| && lineResult == LineMatches(wordList, scanned, substring, lineNumber, path)
    ensures resultsFound.value == old(resultsFound.value) + |lineResult|
    ensures stop <==> resultsFound.value == limit
    ensures resultsFound.value <= limit
    ensures !stop ==> scanned == |wordList|
  {
    lineResult := [];
    scanned := 0;
    while scanned < |wordList|
      invariant 0 <= scanned <= |wordList|
      invariant lineResult == LineMatches(wordList, scanned, substring, lineNumber, path)
      invariant resultsFound.value == old(resultsFound.value) + |lineResult| < limit
    {
      var word := wordList[scanned];
      scanned := scanned + 1;
      if Contains(word, substring) {
        lineResult := lineResult + [LocatedWord(word, lineNumber, path)];
        var now := resultsFound.IncrementAndGet();
        if now >= limit {
          stop := true;
          return;
        }
      }
    }
    stop := false;
  }

  /**
   * One task: scans the file's lines in order, stopping before a line once
   * the shared counter has reached the limit, and returning as soon as a
   * match it adds brings the counter to the limit.
   */
  method GetLocatedWordArrayList(substring: string, limit: int, file: File, resultsFound: AtomicCounter,
                                 tokenize: Tokenizer) returns (partResult: seq<LocatedWord>)
    modifies resultsFound
    ensures partResult == TaskResult(substring, limit, file, old(resultsFound.value), tokenize)
    ensures resultsFound.value == old(resultsFound.value) + |partResult|
  {
    ghost var c0 := resultsFound.value;
    var lineNumber := 1;
    partResult := [];
    var i := 0;
    while i < |file.lines|
      invariant 0 <= i <= |file.lines|
      invariant lineNumber == i + 1
      invariant resultsFound.value == c0 + |partResult|
      invariant c0 < limit ==> resultsFound.value < limit && partResult == FileMatchesUpTo(file, i, substring, tokenize)
      invariant c0 >= limit ==> i == 0 && partResult == []
    {
      var found := resultsFound.Get();
      if found >= limit {
        break;
      }
      var wordList := tokenize(file.lines[i]);
      var lineResult, stop, scanned := ScanLine(substring, limit, wordList, lineNumber, file.path, resultsFound);
      partResult := partResult + lineResult;
      if stop {
        StopMidLineIsTaskResult(substring, limit, file, c0, i, scanned, tokenize);
        return;
      }
      lineNumber := lineNumber + 1;
      i := i + 1;
    }
  }

  /** `result` holds the first `limit` matches of the first `i` files. */
  ghost predicate Gathered(files: seq<File>, i: nat, substring: string, limit: nat, result: seq<LocatedWord>,
                           tokenize: Tokenizer)
    requires i <= |files|
  {
    result == ExtractLimit(AllMatchesUpTo(files, i, substring, tokenize), limit)
  }

  /** Gathering one more task result while below the limit extends the gathered prefix by that file. */
  lemma TakeOneMoreTask(files: seq<File>, i: nat, substring: string, limit: nat, result: seq<LocatedWord>,
                        part: seq<LocatedWord>, tokenize: Tokenizer)
    requires i < |files| && |result| < limit
    requires Gathered(files, i, substring, limit, result, tokenize)
    requires part == TaskResult(substring, limit, files[i], |result|, tokenize)
    ensures Gathered(files, i + 1, substring, limit, result + part, tokenize)
  {
    var done := AllMatchesUpTo(files, i, substring, tokenize);
    assert result == done;
    ExtractLimitAppend(done, FileMatches(files[i], substring, tokenize), limit);
  }

  /** Once every file is taken or the limit is reached, the first `limit` entries are final. */
  lemma StopGathering(files: seq<File>, i: nat, substring: string, limit: nat, result: seq<LocatedWord>,
                      tokenize: Tokenizer)
    requires i <= |files| && (i == |files| || |result| >= limit)
    requires Gathered(files, i, substring, limit, result, tokenize)
    ensures ExtractLimit(result, limit) == ExtractLimit(AllMatches(files, substring, tokenize), limit)
  {
    AllMatchesUpToPrefix(files, i, |files|, substring, tokenize);
    if i < |files| {
      PrefixIsExtractLimit(result, AllMatches(files, substring, tokenize), limit);
    }
  }

  /**
   * The query: tasks are taken one after the other (the order in which they
   * complete), their results gathered while fewer than `limit` entries are
   * held, and the first `limit` entries returned; a negative limit makes
   * the final truncation fail (None).
   */
  method WordsWithSubstring(files: seq<File>, substring: string, limit: int, tokenize: Tokenizer)
    returns (extracted: Option<seq<LocatedWord>>)
    ensures limit < 0 ==> extracted.None?
    ensures limit >= 0 ==> extracted == Some(ExtractLimit(AllMatches(files, substring, tokenize), limit))
  {
    var result: seq<LocatedWord> := [];
    var resultsFound := new AtomicCounter(0);
    var i := 0;
    while i < |files| && |result| < limit
      invariant 0 <= i <= |files|
      invariant limit >= 0 ==> Gathered(files, i, substring, limit, result, tokenize)
      invariant limit < 0 ==> i == 0 && result == []
      invariant resultsFound.value == |result|
    {
      var part := GetLocatedWordArrayList(substring, limit, files[i], resultsFound, tokenize);
      TakeOneMoreTask(files, i, substring, limit, result, part, tokenize);
      result := result + part;
      i := i + 1;
    }
    if limit < 0 {
      // taking a negative number of entries fails
      extracted := None;
    } else {
      StopGathering(files, i, substring, limit, result, tokenize);
      extracted := Some(ExtractLimit(result, limit));
    }
  }

  /** The matches of a line are exactly its words that contain `substring`, located on that line. */
  lemma {:induction false} LineMatchesMembership(words: seq<string>, j: nat, substring: string, lineNo: int,
                                                 file: Path, x: LocatedWord)
    requires j <= |words|
    ensures x in LineMatches(words, j, substring, lineNo, file) <==>
      x.line == lineNo && x.filepath == file && x.word in words[..j] && Contains(x.word, substring)
  {
    if j > 0 {
      LineMatchesMembership(words, j - 1, substring, lineNo, file, x);
      assert words[..j] == words[..j - 1] + [words[j - 1]];
    }
  }

  /**
   * The matches of the first `k` lines are exactly the words of those lines
   * that contain `substring`, each with its 1-based line and the file's path.
   */
  lemma {:induction false} FileMatchesUpToMembership(f: File, k: nat, substring: string, tokenize: Tokenizer,
                                                     x: LocatedWord)
    requires k <= |f.lines|
    ensures x in FileMatchesUpTo(f, k, substring, tokenize) <==>
      && x.filepath == f.path && 1 <= x.line <= k
      && x.word in tokenize(f.lines[x.line - 1]) && Contains(x.word, substring)
  {
    if k > 0 {
      FileMatchesUpToMembership(f, k - 1, substring, tokenize, x);
      var words := tokenize(f.lines[k - 1]);
      LineMatchesMembership(words, |words|, substring, k, f.path, x);
      assert words[..|words|] == words;
    }
  }

  /** Every word of the file that contains `substring` is found, and nothing else is. */
  lemma FileMatchesMembership(f: File, substring: string, tokenize: Tokenizer, x: LocatedWord)
    ensures x in FileMatches(f, substring, tokenize) <==>
      && x.filepath == f.path && 1 <= x.line <= |f.lines|
      && x.word in tokenize(f.lines[x.line - 1]) && Contains(x.word, substring)
  {
    FileMatchesUpToMembership(f, |f.lines|, substring, tokenize, x);
  }

  /** Entries appear in non-decreasing line order, between line 1 and line `k`. */
  ghost predicate InLineOrder(m: seq<LocatedWord>, k: int) {
    && (forall a :: 0 <= a < |m| ==> 1 <= m[a].line <= k)
    && (forall a, b :: 0 <= a < b < |m| ==> m[a].line <= m[b].line)
  }

  /** The matches of a file come in line order, with 1-based line numbers. */
  lemma {:induction false} FileMatchesUpToInLineOrder(f: File, k: nat, substring: string, tokenize: Tokenizer)
    requires k <= |f.lines|
    ensures InLineOrder(FileMatchesUpTo(f, k, substring, tokenize), k)
  {
    if k > 0 {
      FileMatchesUpToInLineOrder(f, k - 1, substring, tokenize);
      var prev := FileMatchesUpTo(f, k - 1, substring, tokenize);
      var words := tokenize(f.lines[k - 1]);
      var line := LineMatches(words, |words|, substring, k, f.path);
      forall x | x in line ensures x.line == k {
        LineMatchesMembership(words, |words|, substring, k, f.path, x);
      }
      forall x | x in prev ensures 1 <= x.line <= k - 1 {
        FileMatchesUpToMembership(f, k - 1, substring, tokenize, x);
      }
      var m := prev + line;
      forall a | 0 <= a < |m| ensures 1 <= m[a].line <= k && (a < |prev| ==> m[a] == prev[a] && m[a].line < k) {
        if a < |prev| {
          assert m[a] == prev[a] && m[a] in prev;
        } else {
          assert m[a] == line[a - |prev|] && m[a] in line;
        }
      }
      forall a, b | 0 <= a < b < |m| ensures m[a].line <= m[b].line {
        if b < |prev| {
          assert m[b] == prev[b];
        } else {
          assert m[b] == line[b - |prev|] && m[b] in line;
        }
      }
    }
  }

  /**
   * One task, starting with the shared counter at `c0`: every entry contains
   * `substring` and lies in the file; nothing is returned once the limit is
   * reached, at most `limit - c0` entries otherwise; and when the counter
   * stays below the limit, every match of the file is returned.
   */
  lemma TaskResultSpec(substring: string, limit: int, f: File, c0: int, tokenize: Tokenizer)
    ensures var r := TaskResult(substring, limit, f, c0, tokenize);
      && (forall x :: x in r ==> Contains(x.word, substring) && x.filepath == f.path && 1 <= x.line <= |f.lines|)
      && (c0 >= limit ==> r == [])
      && (c0 < limit ==> |r| <= limit - c0)
      && (c0 + |r| < limit ==> r == FileMatches(f, substring, tokenize))
  {
    var r := TaskResult(substring, limit, f, c0, tokenize);
    forall x | x in r ensures Contains(x.word, substring) && x.filepath == f.path && 1 <= x.line <= |f.lines| {
      FileMatchesMembership(f, substring, tokenize, x);
    }
  }

  /** The entries a task returns keep the line order of the file. */
  lemma TaskResultInLineOrder(substring: string, limit: int, f: File, c0: int, tokenize: Tokenizer)
    ensures InLineOrder(TaskResult(substring, limit, f, c0, tokenize), |f.lines|)
  {
    FileMatchesUpToInLineOrder(f, |f.lines|, substring, tokenize);
    var r := TaskResult(substring, limit, f, c0, tokenize);
    PrefixInLineOrder(r, FileMatches(f, substring, tokenize), |f.lines|);
  }

  lemma PrefixInLineOrder(p: seq<LocatedWord>, m: seq<LocatedWord>, k: int)
    requires p <= m && InLineOrder(m, k)
    ensures InLineOrder(p, k)
  {
    assert forall a :: 0 <= a < |p| ==> p[a] == m[a];
  }

  /** The matches of the first `i` files are the matches of those files, nothing else. */
  lemma {:induction false} AllMatchesUpToMembership(files: seq<File>, i: nat, substring: string, tokenize: Tokenizer,
                                                    x: LocatedWord)
    requires i <= |files|
    ensures x in AllMatchesUpTo(files, i, substring, tokenize) <==>
      exists t :: 0 <= t < i && x in FileMatches(files[t], substring, tokenize)
  {
    if i > 0 {
      AllMatchesUpToMembership(files, i - 1, substring, tokenize, x);
    }
  }

  /**
   * The query never returns more than `limit` entries, returns none for a
   * limit of 0, returns every match when there are no more than `limit`,
   * and every entry it returns is a word of a file that contains `substring`.
   */
  lemma WordsWithSubstringSpec(files: seq<File>, substring: string, limit: nat, tokenize: Tokenizer)
    ensures var r := ExtractLimit(AllMatches(files, substring, tokenize), limit);
      && |r| <= limit
      && (limit == 0 ==> r == [])
      && (|AllMatches(files, substring, tokenize)| <= limit ==> r == AllMatches(files, substring, tokenize))
      && (forall x :: x in r ==>
            && Contains(x.word, substring)
            && exists t :: 0 <= t < |files| && files[t].path == x.filepath && 1 <= x.line <= |files[t].lines|
                           && x.word in tokenize(files[t].lines[x.line - 1]))
  {
    var all := AllMatches(files, substring, tokenize);
    var r := ExtractLimit(all, limit);
    forall x | x in r
      ensures Contains(x.word, substring)
      ensures exists t :: 0 <= t < |files| && files[t].path == x.filepath && 1 <= x.line <= |files[t].lines|
                          && x.word in tokenize(files[t].lines[x.line - 1])
    {
      assert x in all;
      AllMatchesUpToMembership(files, |files|, substring, tokenize, x);
      var t :| 0 <= t < |files| && x in FileMatches(files[t], substring, tokenize);
      FileMatchesMembership(files[t], substring, tokenize, x);
    }
  }
}
