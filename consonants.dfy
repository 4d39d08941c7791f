/**
 * The first-word-with-n-consonants query: files, then lines, then words
 * are searched in order, and the search stops at the first match. A shared
 * reference holds the word once one is found.
 */
module Consonants {
  import opened Wrappers
  import opened Records
  import opened Text

  /** Some word of the line has exactly `n` consonants. */
  ghost predicate LineHasMatch(line: string, n: int, tokenize: Tokenizer) {
    exists k :: 0 <= k < |tokenize(line)| && CountConsonants(tokenize(line)[k]) == n
  }

  /** Some line of some file has a word with exactly `n` consonants. */
  ghost predicate AnyMatch(files: seq<File>, n: int, tokenize: Tokenizer) {
    exists i, j :: 0 <= i < |files| && 0 <= j < |files[i].lines| && LineHasMatch(files[i].lines[j], n, tokenize)
  }

  /** `w` is a word with `n` consonants on line `w.line` of file `f`. */
  ghost predicate FoundInFile(f: File, n: int, w: LocatedWord, tokenize: Tokenizer) {
    && CountConsonants(w.word) == n
    && f.path == w.filepath && 1 <= w.line <= |f.lines|
    && w.word in tokenize(f.lines[w.line - 1])
  }

  /** `w` is a word with `n` consonants on line `w.line` of one of the files. */
  ghost predicate FoundIn(files: seq<File>, n: int, w: LocatedWord, tokenize: Tokenizer) {
    exists i :: 0 <= i < |files| && FoundInFile(files[i], n, w, tokenize)
  }

  /** Some line of the file has a word with exactly `n` consonants. */
  ghost predicate FileHasMatch(f: File, n: int, tokenize: Tokenizer) {
    exists j :: 0 <= j < |f.lines| && LineHasMatch(f.lines[j], n, tokenize)
  }

  /**
   * `w` is the first match of `lines`, numbered from `lineNo` in `file`:
   * line `w.line` is the first line with a match, and `w` is the first word
   * of that line with `n` consonants.
   */
  ghost predicate FirstOnLines(lines: seq<string>, lineNo: int, file: Path, n: int, w: LocatedWord,
                               tokenize: Tokenizer) {
    && file == w.filepath && lineNo <= w.line < lineNo + |lines|
    && (forall j :: 0 <= j < w.line - lineNo ==> !LineHasMatch(lines[j], n, tokenize))
    && FirstWithConsonants(tokenize(lines[w.line - lineNo]), n) == Some(w.word)
  }

  /** `w` is the first match of file `f`, its lines numbered from 1. */
  ghost predicate FirstInFile(f: File, n: int, w: LocatedWord, tokenize: Tokenizer) {
    FirstOnLines(f.lines, 1, f.path, n, w, tokenize)
  }

  /** A first match of the lines after a line without a match is the first match of all of them. */
  lemma FirstOnLinesShift(lines: seq<string>, lineNo: int, file: Path, n: int, w: LocatedWord, tokenize: Tokenizer)
    requires |lines| > 0 && !LineHasMatch(lines[0], n, tokenize)
    requires FirstOnLines(lines[1..], lineNo + 1, file, n, w, tokenize)
    ensures FirstOnLines(lines, lineNo, file, n, w, tokenize)
  {
    assert lines[w.line - lineNo] == lines[1..][w.line - (lineNo + 1)];
    forall j | 0 <= j < w.line - lineNo ensures !LineHasMatch(lines[j], n, tokenize) {
      if j > 0 {
        assert lines[j] == lines[1..][j - 1];
      }
    }
  }

  /** `w` is the first match of the first file, in the given order, that has one. */
  ghost predicate FirstFoundIn(files: seq<File>, n: int, w: LocatedWord, tokenize: Tokenizer) {
    exists i :: 0 <= i < |files| && FirstInFile(files[i], n, w, tokenize)
      && forall e :: 0 <= e < i ==> !FileHasMatch(files[e], n, tokenize)
  }

  /** The first word of the list with exactly `n` consonants (filter, then find first). */
  function FirstWithConsonants(words: seq<string>, n: int): (r: Option<string>)
    ensures r.Some? ==> r.value in words && CountConsonants(r.value) == n
    ensures r.None? ==> forall k :: 0 <= k < |words| ==> CountConsonants(words[k]) != n
  {
    if |words| == 0 then None
    else if CountConsonants(words[0]) == n then Some(words[0])
    else
      assert forall k :: 1 <= k < |words| ==> words[k] == words[1..][k - 1];
      FirstWithConsonants(words[1..], n)
  }

  /** The word found is the first matching one: no earlier word matches. */
  lemma {:induction false} FirstWithConsonantsIsFirst(words: seq<string>, n: int, k: int)
    requires 0 <= k < |words| && CountConsonants(words[k]) == n
    requires forall j :: 0 <= j < k ==> CountConsonants(words[j]) != n
    ensures FirstWithConsonants(words, n) == Some(words[k])
  {
    if k > 0 {
      FirstWithConsonantsIsFirst(words[1..], n, k - 1);
    }
  }

  /**
   * Looks for a matching word on one line. A match is stored in the shared
   * reference; the answer is whether the reference now holds a word.
   */
  function IsMatchingWordFound(n: int, reference: Option<LocatedWord>, line: string, lineNo: int, file: Path,
                               tokenize: Tokenizer): (res: (bool, Option<LocatedWord>))
    ensures res.0 <==> res.1.Some?
    ensures LineHasMatch(line, n, tokenize) ==>
      res.1.Some? && res.1.value.line == lineNo && res.1.value.filepath == file
      && res.1.value.word in tokenize(line) && CountConsonants(res.1.value.word) == n
    ensures !LineHasMatch(line, n, tokenize) ==> res.1 == reference
    ensures LineHasMatch(line, n, tokenize) ==>
      res.1 == Some(LocatedWord(FirstWithConsonants(tokenize(line), n).value, lineNo, file))
  {
    var reference' :=
      match FirstWithConsonants(tokenize(line), n)
      case Some(word) => Some(LocatedWord(word, lineNo, file))
      case None => reference;
    (reference'.Some?, reference')
  }

  /**
   * Any-match over the lines of one file, numbering lines from `lineNo`. A
   * hit leaves a word in the reference, a miss leaves the reference as it
   * was, and a reference that already holds a word makes the first line hit.
   */
  function AnyLineMatches(n: int, lines: seq<string>, lineNo: int, file: Path, reference: Option<LocatedWord>,
                          tokenize: Tokenizer): (res: (bool, Option<LocatedWord>))
    ensures res.0 ==> res.1.Some?
    ensures !res.0 ==> res.1 == reference
    ensures |lines| > 0 && reference.Some? ==> res.0
    decreases |lines|
  {
    if |lines| == 0 then (false, reference)
    else
      var (found, reference') := IsMatchingWordFound(n, reference, lines[0], lineNo, file, tokenize);
      if found then (true, reference')
      else AnyLineMatches(n, lines[1..], lineNo + 1, file, reference', tokenize)
  }

  /**
   * Any-match over the files, each file's lines numbered from 1. A hit leaves
   * a word in the reference; a miss leaves the reference as it was.
   */
  function AnyFileMatches(n: int, files: seq<File>, reference: Option<LocatedWord>,
                          tokenize: Tokenizer): (res: (bool, Option<LocatedWord>))
    ensures res.0 ==> res.1.Some?
    ensures !res.0 ==> res.1 == reference
    decreases |files|
  {
    if |files| == 0 then (false, reference)
    else
      var (found, reference') := AnyLineMatches(n, files[0].lines, 1, files[0].path, reference, tokenize);
      if found then (true, reference')
      else AnyFileMatches(n, files[1..], reference', tokenize)
  }

  /**
   * The located word with exactly `n` consonants, if the search finds one:
   * the word has `n` consonants and lies on the reported line of the
   * reported file, and it is the first word with `n` consonants on the first
   * matching line of the first file that has one.
   */
  function WordWithConsonants(files: seq<File>, n: int, tokenize: Tokenizer): (r: Option<LocatedWord>)
    ensures r.Some? ==> FoundIn(files, n, r.value, tokenize)
    ensures r.Some? ==> FirstFoundIn(files, n, r.value, tokenize)
  {
    AnyFileMatchesSound(n, files, tokenize);
    var (found, result) := AnyFileMatches(n, files, None, tokenize);
    if found then result else None
  }

  /**
   * Starting from an empty reference, a word reported by the line search has
   * `n` consonants and lies on the line it names. That line is the first
   * line with a match, and the word is the first matching word on it. No
   * report leaves the reference empty.
   */
  lemma {:induction false} AnyLineMatchesSound(n: int, lines: seq<string>, lineNo: int, file: Path,
                                               tokenize: Tokenizer)
    ensures var res := AnyLineMatches(n, lines, lineNo, file, None, tokenize);
      && (res.0 ==> res.1.Some? && FirstOnLines(lines, lineNo, file, n, res.1.value, tokenize))
      && (!res.0 ==> res.1.None?)
  {
    if |lines| > 0 && !LineHasMatch(lines[0], n, tokenize) {
      AnyLineMatchesSound(n, lines[1..], lineNo + 1, file, tokenize);
      var res := AnyLineMatches(n, lines[1..], lineNo + 1, file, None, tokenize);
      if res.0 {
        FirstOnLinesShift(lines, lineNo, file, n, res.1.value, tokenize);
      }
    }
  }

  /** The first match of a run of lines is a word with `n` consonants on the line it names. */
  lemma FirstOnLinesIsToken(lines: seq<string>, lineNo: int, file: Path, n: int, w: LocatedWord, tokenize: Tokenizer)
    requires FirstOnLines(lines, lineNo, file, n, w, tokenize)
    ensures CountConsonants(w.word) == n && w.word in tokenize(lines[w.line - lineNo])
  {
    var words := tokenize(lines[w.line - lineNo]);
    assert FirstWithConsonants(words, n) == Some(w.word);
  }

  /** Starting from an empty reference, a line with a match is never missed. */
  lemma {:induction false} AnyLineMatchesComplete(n: int, lines: seq<string>, lineNo: int, file: Path,
                                                  tokenize: Tokenizer, j: int)
    requires 0 <= j < |lines| && LineHasMatch(lines[j], n, tokenize)
    ensures AnyLineMatches(n, lines, lineNo, file, None, tokenize).0
  {
    if !LineHasMatch(lines[0], n, tokenize) {
      assert lines[j] == lines[1..][j - 1];
      AnyLineMatchesComplete(n, lines[1..], lineNo + 1, file, tokenize, j - 1);
    }
  }

  /**
   * Starting from an empty reference, a word reported by the file search has
   * `n` consonants and lies on the reported line of the reported file. It is
   * that file's first match, and no earlier file has a match.
   */
  lemma {:induction false} AnyFileMatchesSound(n: int, files: seq<File>, tokenize: Tokenizer)
    ensures var res := AnyFileMatches(n, files, None, tokenize);
      && (res.0 ==> res.1.Some? && FoundIn(files, n, res.1.value, tokenize) && FirstFoundIn(files, n, res.1.value, tokenize))
      && (!res.0 ==> res.1.None?)
  {
    if |files| > 0 {
      AnyLineMatchesSound(n, files[0].lines, 1, files[0].path, tokenize);
      var here := AnyLineMatches(n, files[0].lines, 1, files[0].path, None, tokenize);
      if here.0 {
        FirstOnLinesIsToken(files[0].lines, 1, files[0].path, n, here.1.value, tokenize);
        assert FoundInFile(files[0], n, here.1.value, tokenize);
        assert FirstInFile(files[0], n, here.1.value, tokenize);
      } else {
        NoLineMatchIsNoFileMatch(n, files[0], tokenize);
        AnyFileMatchesSound(n, files[1..], tokenize);
        var res := AnyFileMatches(n, files[1..], None, tokenize);
        if res.0 {
          FoundInShift(files, n, res.1.value, tokenize);
          FirstFoundInShift(files, n, res.1.value, tokenize);
        }
      }
    }
  }

  /** A match in the files after the first is a match in all of them. */
  lemma FoundInShift(files: seq<File>, n: int, w: LocatedWord, tokenize: Tokenizer)
    requires |files| > 0 && FoundIn(files[1..], n, w, tokenize)
    ensures FoundIn(files, n, w, tokenize)
  {
    var i :| 0 <= i < |files[1..]| && FoundInFile(files[1..][i], n, w, tokenize);
    assert files[i + 1] == files[1..][i];
  }

  /** After a first file without a match, the first match of the others is the first match of all. */
  lemma FirstFoundInShift(files: seq<File>, n: int, w: LocatedWord, tokenize: Tokenizer)
    requires |files| > 0 && !FileHasMatch(files[0], n, tokenize)
    requires FirstFoundIn(files[1..], n, w, tokenize)
    ensures FirstFoundIn(files, n, w, tokenize)
  {
    var k :| 0 <= k < |files[1..]| && FirstInFile(files[1..][k], n, w, tokenize)
      && forall e :: 0 <= e < k ==> !FileHasMatch(files[1..][e], n, tokenize);
    assert files[k + 1] == files[1..][k];
    forall e | 0 <= e < k + 1 ensures !FileHasMatch(files[e], n, tokenize) {
      if e > 0 {
        assert files[e] == files[1..][e - 1];
      }
    }
    assert FirstInFile(files[k + 1], n, w, tokenize);
  }

  /** A file whose line search misses has no matching line. */
  lemma NoLineMatchIsNoFileMatch(n: int, f: File, tokenize: Tokenizer)
    requires !AnyLineMatches(n, f.lines, 1, f.path, None, tokenize).0
    ensures !FileHasMatch(f, n, tokenize)
  {
    if FileHasMatch(f, n, tokenize) {
      var j :| 0 <= j < |f.lines| && LineHasMatch(f.lines[j], n, tokenize);
      AnyLineMatchesComplete(n, f.lines, 1, f.path, tokenize, j);
    }
  }

  /** Starting from an empty reference, a file with a match is never missed. */
  lemma {:induction false} AnyFileMatchesComplete(n: int, files: seq<File>, tokenize: Tokenizer, i: int, j: int)
    requires 0 <= i < |files| && 0 <= j < |files[i].lines| && LineHasMatch(files[i].lines[j], n, tokenize)
    ensures AnyFileMatches(n, files, None, tokenize).0
  {
    AnyLineMatchesSound(n, files[0].lines, 1, files[0].path, tokenize);
    if i == 0 {
      AnyLineMatchesComplete(n, files[0].lines, 1, files[0].path, tokenize, j);
    } else if !AnyLineMatches(n, files[0].lines, 1, files[0].path, None, tokenize).0 {
      assert files[i] == files[1..][i - 1];
      AnyFileMatchesComplete(n, files[1..], tokenize, i - 1, j);
    }
  }

  /** A found word makes its line a matching line. */
  lemma FoundInFileHasMatch(f: File, n: int, w: LocatedWord, tokenize: Tokenizer)
    requires FoundInFile(f, n, w, tokenize)
    ensures LineHasMatch(f.lines[w.line - 1], n, tokenize)
  {
    var words := tokenize(f.lines[w.line - 1]);
    var k :| 0 <= k < |words| && words[k] == w.word;
  }

  /**
   * The query answers with a word exactly when some word of some file has
   * exactly `n` consonants.
   */
  lemma WordWithConsonantsSpec(files: seq<File>, n: int, tokenize: Tokenizer)
    ensures WordWithConsonants(files, n, tokenize).Some? <==> AnyMatch(files, n, tokenize)
  {
    AnyFileMatchesSound(n, files, tokenize);
    var r := WordWithConsonants(files, n, tokenize);
    if AnyMatch(files, n, tokenize) {
      var i, j :| 0 <= i < |files| && 0 <= j < |files[i].lines| && LineHasMatch(files[i].lines[j], n, tokenize);
      AnyFileMatchesComplete(n, files, tokenize, i, j);
    }
    if r.Some? {
      var i :| 0 <= i < |files| && FoundInFile(files[i], n, r.value, tokenize);
      FoundInFileHasMatch(files[i], n, r.value, tokenize);
    }
  }
}
