/** The optional value used where the program answers "nothing found". */
module Wrappers {
  datatype Option<+T> = None | Some(value: T)
}

/**
 * The values the four queries exchange: the files they read, the word
 * segmentation they rely on, and the result records.
 */
module Records {
  import opened Wrappers

  /** An absolute file path. Paths are compared as strings. */
  type Path = string

  /**
   * One eligible text file as the directory lister and the line reader
   * deliver it: its absolute path and its lines in read order.
   */
  datatype File = File(path: Path, lines: seq<string>)

  /**
   * Word segmentation of one line (a locale-aware word-boundary iterator
   * in the program, keeping only tokens whose first character is a letter
   * or digit). Every query is stated for an arbitrary tokenizer.
   */
  type Tokenizer = string -> seq<string>

  /** One occurrence of a word: the word, its 1-based line and its file. */
  datatype LocatedWord = LocatedWord(word: string, line: int, filepath: Path)

  /** A line of a file; `Location(None, -1)` stands for "no line at all". */
  datatype Location = Location(filepath: Option<Path>, line: int)

  /** A line together with the number of times the letter a occurs on it. */
  datatype LocationWithCount = LocationWithCount(location: Location, count: int)

  /** The directory lister never reports the same path twice. */
  predicate DistinctPaths(files: seq<File>) {
    forall i, j :: 0 <= i < |files| && 0 <= j < |files| && files[i].path == files[j].path ==> i == j
  }

  predicate NoDuplicates<T(==)>(s: seq<T>) {
    forall i, j :: 0 <= i < j < |s| ==> s[i] != s[j]
  }
}
