/**
 * The unique-words query: within one file every token is lower-cased and
 * grouped by word; the words that occur exactly once in the file are
 * reported with their line. The per-file lists are then joined.
 */
module UniqueWords {
  import opened Records
  import opened Text

  /** The lower-cased tokens of a line. */
  function LowerTokens(words: seq<string>): (r: seq<string>)
    ensures |r| == |words|
  {
    seq(|words|, k requires 0 <= k < |words| => ToLower(words[k]))
  }

  /** The lower-cased occurrences of the words of line `lineNo`, in word order. */
  function LineOccurrences(words: seq<string>, lineNo: int, path: Path): (r: seq<LocatedWord>)
    ensures |r| == |words|
  {
    seq(|words|, k requires 0 <= k < |words| => LocatedWord(LowerTokens(words)[k], lineNo, path))
  }

  /** The occurrences of every word on the first `k` lines of a file, line after line. */
  function FileOccurrencesUpTo(f: File, k: nat, tokenize: Tokenizer): seq<LocatedWord>
    requires k <= |f.lines|
  {
    if k == 0 then []
    else FileOccurrencesUpTo(f, k - 1, tokenize) + LineOccurrences(tokenize(f.lines[k - 1]), k, f.path)
  }

  /** The occurrences of every word of a file. */
  function FileOccurrences(f: File, tokenize: Tokenizer): seq<LocatedWord> {
    FileOccurrencesUpTo(f, |f.lines|, tokenize)
  }

  /** The occurrences of word `w` in `s`, in order (the occurrence queue the program keeps for `w`). */
  function WithWord(s: seq<LocatedWord>, w: string): (r: seq<LocatedWord>)
    ensures |r| <= |s|
  {
    if |s| == 0 then []
    else WithWord(s[..|s| - 1], w) + (if s[|s| - 1].word == w then [s[|s| - 1]] else [])
  }

  /** `occurrences` maps each word seen so far to its occurrence queue, and nothing else. */
  ghost predicate Grouped(occurrences: map<string, seq<LocatedWord>>, seen: seq<LocatedWord>) {
    && (forall w :: w in occurrences <==> WithWord(seen, w) != [])
    && (forall w :: w in occurrences ==> occurrences[w] == WithWord(seen, w))
  }

  /** Appending an occurrence to its word's queue (created when absent) keeps the grouping. */
  lemma GroupedAppend(occurrences: map<string, seq<LocatedWord>>, seen: seq<LocatedWord>, x: LocatedWord)
    requires Grouped(occurrences, seen)
    ensures Grouped(occurrences[x.word := (if x.word in occurrences then occurrences[x.word] else []) + [x]], seen + [x])
  {
    assert (seen + [x])[..|seen|] == seen;
  }

  /** `x` is the one and only occurrence of its word in the file. */
  ghost predicate UniqueInFile(f: File, x: LocatedWord, tokenize: Tokenizer) {
    WithWord(FileOccurrences(f, tokenize), x.word) == [x]
  }

  /** The occurrence queue of `w` holds exactly the occurrences of `w`. */
  lemma {:induction false} WithWordMembership(s: seq<LocatedWord>, w: string, x: LocatedWord)
    ensures x in WithWord(s, w) <==> x in s && x.word == w
  {
    if |s| > 0 {
      WithWordMembership(s[..|s| - 1], w, x);
      assert s == s[..|s| - 1] + [s[|s| - 1]];
    }
  }

  /**
   * Given an occurrence of `w` at index `i`, the queue of `w` has exactly one
   * entry if and only if no other index holds `w`.
   */
  lemma {:induction false} WithWordSingleton(s: seq<LocatedWord>, w: string, i: int)
    requires 0 <= i < |s| && s[i].word == w
    ensures |WithWord(s, w)| == 1 <==> forall j :: 0 <= j < |s| && j != i ==> s[j].word != w
  {
    var n := |s| - 1;
    var front := s[..n];
    if i == n {
      if WithWord(front, w) != [] {
        var y := WithWord(front, w)[0];
        assert y in WithWord(front, w);
        WithWordMembership(front, w, y);
        var j :| 0 <= j < n && front[j] == y;
        assert s[j].word == w;
      }
      if exists j :: 0 <= j < |s| && j != i && s[j].word == w {
        var j :| 0 <= j < |s| && j != i && s[j].word == w;
        assert front[j] in front;
        WithWordMembership(front, w, front[j]);
      }
    } else {
      WithWordSingleton(front, w, i);
      assert front[i] in front;
      WithWordMembership(front, w, front[i]);
      assert forall j :: 0 <= j < n ==> front[j] == s[j];
    }
  }

  /** A file's occurrences up to line `k` are exactly the lower-cased tokens of those lines. */
  lemma {:induction false} FileOccurrencesUpToMembership(f: File, k: nat, tokenize: Tokenizer, x: LocatedWord)
    requires k <= |f.lines|
    ensures x in FileOccurrencesUpTo(f, k, tokenize) <==>
      && x.filepath == f.path && 1 <= x.line <= k
      && x.word in LowerTokens(tokenize(f.lines[x.line - 1]))
  {
    if k > 0 {
      FileOccurrencesUpToMembership(f, k - 1, tokenize, x);
      var words := tokenize(f.lines[k - 1]);
      var line := LineOccurrences(words, k, f.path);
      if x in line {
        var t :| 0 <= t < |line| && line[t] == x;
        assert LowerTokens(words)[t] == x.word;
      }
      if x.filepath == f.path && x.line == k && x.word in LowerTokens(words) {
        var t :| 0 <= t < |words| && LowerTokens(words)[t] == x.word;
        assert line[t] == x;
      }
    }
  }

  /**
   * Unique words, stated on the file's occurrences: `x` is reported exactly
   * when it is one occurrence and no other occurrence, on the same line or
   * another, has the same lower-cased word.
   */
  lemma UniqueInFileIff(f: File, x: LocatedWord, tokenize: Tokenizer)
    ensures var occ := FileOccurrences(f, tokenize);
      UniqueInFile(f, x, tokenize) <==>
        exists i :: 0 <= i < |occ| && occ[i] == x && forall j :: 0 <= j < |occ| && j != i ==> occ[j].word != x.word
  {
    var occ := FileOccurrences(f, tokenize);
    if UniqueInFile(f, x, tokenize) {
      assert x in WithWord(occ, x.word);
      WithWordMembership(occ, x.word, x);
      var i :| 0 <= i < |occ| && occ[i] == x;
      WithWordSingleton(occ, x.word, i);
    }
    if exists i :: 0 <= i < |occ| && occ[i] == x && forall j :: 0 <= j < |occ| && j != i ==> occ[j].word != x.word {
      var i :| 0 <= i < |occ| && occ[i] == x && forall j :: 0 <= j < |occ| && j != i ==> occ[j].word != x.word;
      WithWordSingleton(occ, x.word, i);
      WithWordMembership(occ, x.word, x);
      assert WithWord(occ, x.word)[0] in WithWord(occ, x.word);
      WithWordMembership(occ, x.word, WithWord(occ, x.word)[0]);
    }
  }

  /** Two occurrences of the same word, on one line or on two, exclude that word. */
  lemma RepeatedWordIsNotUnique(f: File, tokenize: Tokenizer, i: int, j: int, x: LocatedWord)
    requires var occ := FileOccurrences(f, tokenize);
      0 <= i < j < |occ| && occ[i].word == occ[j].word
    requires x.word == FileOccurrences(f, tokenize)[i].word
    ensures !UniqueInFile(f, x, tokenize)
  {
    var occ := FileOccurrences(f, tokenize);
    WithWordSingleton(occ, x.word, i);
  }

  /**
   * A reported entry holds the lower-cased form of a token of the file, the
   * 1-based line of that token and the file's path.
   */
  lemma UniqueInFileLocated(f: File, x: LocatedWord, tokenize: Tokenizer)
    requires UniqueInFile(f, x, tokenize)
    ensures x.filepath == f.path && 1 <= x.line <= |f.lines|
    ensures x.word in LowerTokens(tokenize(f.lines[x.line - 1]))
    ensures forall c :: 0 <= c < |x.word| ==> !('A' <= x.word[c] <= 'Z')
  {
    var occ := FileOccurrences(f, tokenize);
    assert x in WithWord(occ, x.word);
    WithWordMembership(occ, x.word, x);
    FileOccurrencesUpToMembership(f, |f.lines|, tokenize, x);
  }

  /**
   * The word loop over one line: appends each lower-cased word, located on
   * the line, to its word's occurrence queue, creating the queue when absent.
   */
  method AddLineOccurrences(occurrences: map<string, seq<LocatedWord>>, words: seq<string>, lineNumber: int,
                            path: Path, ghost seen: seq<LocatedWord>)
    returns (updated: map<string, seq<LocatedWord>>)
    requires Grouped(occurrences, seen)
    ensures Grouped(updated, seen + LineOccurrences(words, lineNumber, path))
  {
    updated := occurrences;
    ghost var current := seen;
    ghost var line := LineOccurrences(words, lineNumber, path);
    var j := 0;
    while j < |words|
      invariant 0 <= j <= |words|
      invariant current == seen + line[..j]
      invariant Grouped(updated, current)
    {
      var lowerCaseWord := ToLower(words[j]);
      var occurrence := LocatedWord(lowerCaseWord, lineNumber, path);
      var queue := if lowerCaseWord in updated then updated[lowerCaseWord] else [];
      GroupedAppend(updated, current, occurrence);
      updated := updated[lowerCaseWord := queue + [occurrence]];
      assert LowerTokens(words)[j] == lowerCaseWord;
      assert line[j] == occurrence;
      assert line[..j + 1] == line[..j] + [occurrence];
      current := current + [occurrence];
      j := j + 1;
    }
    assert line[..j] == line;
  }

  /**
   * The report loop: visits the words of the map in an unspecified order and
   * keeps the single entry of every queue of length one.
   */
  method SingleOccurrences(occurrences: map<string, seq<LocatedWord>>) returns (result: seq<LocatedWord>)
    requires forall w, x :: w in occurrences && x in occurrences[w] ==> x.word == w
    ensures forall x :: x in result <==> x.word in occurrences && occurrences[x.word] == [x]
    ensures NoDuplicates(result)
  {
    result := [];
    var keys := occurrences.Keys;
    while keys != {}
      invariant keys <= occurrences.Keys
      invariant forall x :: x in result <==> x.word in occurrences && x.word !in keys && occurrences[x.word] == [x]
      invariant forall a, b :: 0 <= a < b < |result| ==> result[a].word != result[b].word
      decreases keys
    {
      var word :| word in keys;
      var locations := occurrences[word];
      if |locations| == 1 {
        assert locations == [locations[0]] && locations[0] in occurrences[word];
        result := result + [locations[0]];
      }
      keys := keys - {word};
    }
  }

  /** Every queue of a grouping holds occurrences of its own word only. */
  lemma GroupedQueuesHoldTheirWord(occurrences: map<string, seq<LocatedWord>>, seen: seq<LocatedWord>)
    requires Grouped(occurrences, seen)
    ensures forall w, x :: w in occurrences && x in occurrences[w] ==> x.word == w
  {
    forall w, x | w in occurrences && x in occurrences[w] ensures x.word == w {
      WithWordMembership(seen, w, x);
    }
  }

  /**
   * Groups the occurrences of every lower-cased word of the file, line by
   * line, then reports the words whose group holds a single occurrence.
   * The order of the report is the order in which the words are visited.
   */
  method ExtractUniqueWords(file: File, tokenize: Tokenizer) returns (result: seq<LocatedWord>)
    ensures forall x :: x in result <==> UniqueInFile(file, x, tokenize)
    ensures forall x :: x in result ==> x.filepath == file.path
    ensures NoDuplicates(result)
  {
    var occurrences: map<string, seq<LocatedWord>> := map[];
    ghost var seen: seq<LocatedWord> := [];
    var lineNumber := 0;
    while lineNumber < |file.lines|
      invariant 0 <= lineNumber <= |file.lines|
      invariant seen == FileOccurrencesUpTo(file, lineNumber, tokenize)
      invariant Grouped(occurrences, seen)
    {
      var words := tokenize(file.lines[lineNumber]);
      lineNumber := lineNumber + 1;
      occurrences := AddLineOccurrences(occurrences, words, lineNumber, file.path, seen);
      seen := seen + LineOccurrences(words, lineNumber, file.path);
    }

    assert seen == FileOccurrences(file, tokenize);
    GroupedQueuesHoldTheirWord(occurrences, seen);
    result := SingleOccurrences(occurrences);
    forall x ensures x in result <==> UniqueInFile(file, x, tokenize) {
      assert x.word in occurrences ==> occurrences[x.word] == WithWord(seen, x.word);
    }
    forall x | x in result ensures x.filepath == file.path {
      UniqueInFileLocated(file, x, tokenize);
    }
  }

  /**
   * Joins the unique words of every file: an entry is reported exactly when
   * it is unique in one of the files, so a word unique in two files is
   * reported twice, once per file.
   */
  method FindWordsUniqueToALine(files: seq<File>, tokenize: Tokenizer) returns (result: seq<LocatedWord>)
    ensures forall x :: x in result <==> exists t :: 0 <= t < |files| && UniqueInFile(files[t], x, tokenize)
    ensures DistinctPaths(files) ==> NoDuplicates(result)
  {
    result := [];
    var i := 0;
    while i < |files|
      invariant 0 <= i <= |files|
      invariant forall x :: x in result <==> exists t :: 0 <= t < i && UniqueInFile(files[t], x, tokenize)
      invariant forall a :: 0 <= a < |result| ==> exists t :: 0 <= t < i && result[a].filepath == files[t].path
      invariant DistinctPaths(files) ==> NoDuplicates(result)
    {
      var part := ExtractUniqueWords(files[i], tokenize);
      if DistinctPaths(files) {
        forall a, b | 0 <= a < |result| && 0 <= b < |part| ensures result[a] != part[b] {
          var t :| 0 <= t < i && result[a].filepath == files[t].path;
          assert part[b] in part;
        }
      }
      result := result + part;
      i := i + 1;
    }
  }
}
