# Exam queries over a directory of text files, in Dafny

This project models the four queries of `Exam.java`. Each query reads every
`.txt` file under a directory and answers one question about its words or
lines:

- **unique words**: within each file, the lower-cased words that occur exactly
  once in the file, each with its line and file;
- **line with most a**: the line with the most occurrences of `a`/`A`. Within
  a file the first such line wins; across files the highest count wins, and
  on a tie the smallest absolute path;
- **consonants**: a word with exactly `n` consonants, with its line and
  file, if there is one. It is the first such word on the first line of its
  file that has one;
- **substring**: at most `limit` words that contain a given substring. One
  task per file scans the file, and a counter shared by all tasks stops them
  once `limit` matches exist.

The files are given as a sequence of `File(path, lines)` values, in the order
the directory lister (or the thread pool) delivers them. Word segmentation is
a parameter, `Tokenizer = string -> seq<string>`, so every property holds for
any tokenizer. Line numbers are 1-based, as in the program.

Modules:

- `Wrappers`: the `Option` type, for Java's `Optional` and nullable references.
- `Records`: the records `LocatedWord`, `Location` and `LocationWithCount`,
  plus the input `File`.
- `Text`: ASCII lower-casing, the `a` counter, the consonant counter and
  substring containment.
- `Paths`: the lexicographic path order.
- `UniqueWords`, `MostA`, `Consonants`, `Substring`: the four queries.

Code that works by mutation is modelled as methods:

- The occurrence map of `ExtractUniqueWords` and its line counter.
- The nested loops of `getLocatedWordArrayList` with their early exits.
- The shared `AtomicInteger` (class `AtomicCounter`).
- The gathering loop of `wordsWithSubstring`.

Each method is proved against a specification function or predicate. The
stream pipelines are modelled as functions with lemmas: `countA`,
`countConsonants`, `highestForFile`, `lineWithMostA`, `isMatchingWordFound`,
the `anyMatch` searches and `ExtractLimit`.

The unique-words rule follows the code. A word is reported when its
occurrence queue holds exactly one entry, so a word that is repeated on a
single line is not reported. The comment at line 93 says the same. The
comment at lines 104 and 108 ("appearing only on one line") would also
accept such a word.

## Model

| member | source | states |
|---|---|---|
| Text.ToLower | exam/exam-project/src/Exam.java:143 | lower-casing keeps the length. Each character becomes itself up to case, with no upper-case ASCII letter left; characters that are not upper-case letters are kept |
| Text.ToLowerEqualIff | exam/exam-project/src/Exam.java:113-115 | two words lower-case alike exactly when they have the same length and agree character by character up to letter case, so words differing only in case are one word and all others stay apart |
| Text.ToLowerExample | exam/exam-project/src/Exam.java:113-115 | "Hello", "hEllo" and "HELLo" all become "hello", and "Hello" stays apart from "Jello", a different word of the same length |
| Text.CountA | exam/exam-project/src/Exam.java:205-207 | the number of `a`/`A` characters on a line is at most the line's length |
| Text.CountAExtremes | exam/exam-project/src/Exam.java:205-207 | the count is 0 exactly when the line holds neither `a` nor `A`, and equals the length exactly when every character is `a` or `A` |
| Text.CountAIgnoresCase | exam/exam-project/src/Exam.java:206 | counting `a` gives the same result on the lower-cased line |
| Text.CountConsonants | exam/exam-project/src/Exam.java:259-261 | the consonant count of a word is at most its length |
| Text.CountConsonantsZero | exam/exam-project/src/Exam.java:259-261 | the count is 0 exactly when no character of the word is in the consonant table (vowels, digits and other characters count nothing) |
| Text.ConsonantsAreNonVowelLetters | exam/exam-project/src/Exam.java:260 | the table has 42 characters, and a character is in it exactly when it is an English letter that is not a vowel |
| Text.ConsonantAtIsNonVowelLetter | exam/exam-project/src/Exam.java:260 | every entry of the table is an ASCII letter and not a vowel |
| Text.NonVowelLetterIsConsonant | exam/exam-project/src/Exam.java:260 | every ASCII letter that is not a vowel is in the table |
| Text.CountConsonantsIgnoresCase | exam/exam-project/src/Exam.java:260 | the consonant count is unchanged by lower-casing |
| Text.Contains | exam/exam-project/src/Exam.java:340 | a word contains a substring when the substring occurs at some position, so a contained substring is no longer than the word |
| Text.PrefixIsContained | exam/exam-project/src/Exam.java:340 | the empty substring is in every word, and so is every prefix of the word |
| Paths.PathLeq | exam/exam-project/src/Exam.java:183 | a prefix of a path comes first, and a path that comes first starts with a character no greater than the other's. `Paths.PathLeqReflexive`, `Paths.PathLeqTotal`, `Paths.PathLeqAntisymmetric` and `Paths.PathLeqTransitive` show that it is a total order |
| Paths.PathLeqReflexive | exam/exam-project/src/Exam.java:183 | every path is ordered before or equal to itself |
| Paths.PathLeqTotal | exam/exam-project/src/Exam.java:183 | any two paths are ordered one way or the other |
| Paths.PathLeqAntisymmetric | exam/exam-project/src/Exam.java:183 | two paths ordered both ways are equal |
| Paths.PathLeqTransitive | exam/exam-project/src/Exam.java:183 | the path order is transitive |
| UniqueWords.WithWordMembership | exam/exam-project/src/Exam.java:144-145 | the queue of a word holds exactly the occurrences of that word |
| UniqueWords.WithWordSingleton | exam/exam-project/src/Exam.java:151 | given one occurrence of a word, its queue has size 1 exactly when no other position holds the word |
| UniqueWords.FileOccurrencesUpToMembership | exam/exam-project/src/Exam.java:139-147 | the occurrences of the first k lines are exactly: the file's path, a line 1..k, and the lower-cased form of a token of that line |
| UniqueWords.GroupedAppend | exam/exam-project/src/Exam.java:144-145 | appending an occurrence to its word's queue, creating the queue when absent, keeps the map equal to the grouping of all occurrences seen |
| UniqueWords.GroupedQueuesHoldTheirWord | exam/exam-project/src/Exam.java:144-145 | every queue of the grouping holds only occurrences of its own key |
| UniqueWords.AddLineOccurrences | exam/exam-project/src/Exam.java:141-146 | after the word loop of one line, the map is the grouping of the occurrences seen so far followed by that line's lower-cased words |
| UniqueWords.SingleOccurrences | exam/exam-project/src/Exam.java:149-154 | the report holds an entry exactly when that entry is the whole queue of its word, with no two entries for one word |
| UniqueWords.ExtractUniqueWords | exam/exam-project/src/Exam.java:136-157 | an entry is reported exactly when it is the only occurrence of its lower-cased word in the file. Every entry carries the file's path, and there are no duplicates |
| UniqueWords.UniqueInFileIff | exam/exam-project/src/Exam.java:150-154 | being unique means being one occurrence, with no other occurrence in the file (same line or another) having the same lower-cased word |
| UniqueWords.RepeatedWordIsNotUnique | exam/exam-project/src/Exam.java:151 | two occurrences of a word, on one line or on two, exclude that word from the report |
| UniqueWords.UniqueInFileLocated | exam/exam-project/src/Exam.java:143-145 | a reported entry carries the file's path, a line 1..n and the lower-cased form of a token of that line, with no upper-case letter |
| UniqueWords.FindWordsUniqueToALine | exam/exam-project/src/Exam.java:123-131 | an entry is reported exactly when it is unique in one of the files. A word unique in two files is reported once for each. With distinct paths there are no duplicates |
| MostA.MaxOfStream | exam/exam-project/src/Exam.java:197 | the stream maximum is absent exactly for an empty stream. When present it is an element whose count is at least every count |
| MostA.MaxOfStreamIsFirstMax | exam/exam-project/src/Exam.java:197 | the maximum is the first element with the highest count: no earlier element reaches that count |
| MostA.HighestForFile | exam/exam-project/src/Exam.java:191-201 | the best line of a file names that file |
| MostA.HighestForFileIsEarliestBest | exam/exam-project/src/Exam.java:191-201 | the best line is 1-based and carries its own count of a. That count is at least every line's count and above every earlier line's count. An empty file gives line -1 with count -1 |
| MostA.HighestForFileTieGoesToEarlierLine | exam/exam-project/src/Exam.java:197 | of two lines tied on the count, the later one is never chosen |
| MostA.HighestForFileExample | exam/exam-project/src/Exam.java:191-201 | for the lines "aaa", "AAAA", "bb" the answer is line 2 |
| MostA.InsertByPath | exam/exam-project/src/Exam.java:183 | insertion adds exactly the inserted element (multiset) |
| MostA.InsertByPathAllFrom | exam/exam-project/src/Exam.java:183 | inserting an element whose path is not below a bound keeps every path at or above that bound |
| MostA.InsertByPathSorted | exam/exam-project/src/Exam.java:183 | inserting into a path-sorted list keeps it path-sorted |
| MostA.SortByPath | exam/exam-project/src/Exam.java:183 | the sort is a permutation of its input and is ordered by path |
| MostA.LineWithMostA | exam/exam-project/src/Exam.java:179-187 | with no files the answer is `Location(None, -1)`. Otherwise it always names a file |
| MostA.FirstMaxOfSortedHasSmallestPath | exam/exam-project/src/Exam.java:183-184 | in a path-sorted list, the first maximum by count has the smallest path among the elements tied with it |
| MostA.BestOfSortedIsBestFile | exam/exam-project/src/Exam.java:182-184 | the maximum of the sorted per-file bests is the best of a file with the highest count and the smallest path among tied files |
| MostA.LineWithMostAPicksBestFile | exam/exam-project/src/Exam.java:170-187 | for a non-empty listing, the answer is the best line of a file whose count is at least every file's count, and whose path comes first among files tied on that count |
| MostA.LineWithMostAIsDeterminedByBestFile | exam/exam-project/src/Exam.java:170-187 | with distinct paths, any file that is best in that sense gives the answer |
| MostA.BestFileIsUnique | exam/exam-project/src/Exam.java:183-184 | with distinct paths, two orderings of the same files agree on the best file |
| MostA.LineWithMostAOrderIndependent | exam/exam-project/src/Exam.java:180-186 | the answer is the same for every ordering of the same files (distinct paths) |
| Consonants.FirstWithConsonants | exam/exam-project/src/Exam.java:266-268 | a found word is a word of the line with exactly n consonants. Nothing is found only when no word has n consonants |
| Consonants.FirstWithConsonantsIsFirst | exam/exam-project/src/Exam.java:268 | the word found is the first word with n consonants |
| Consonants.IsMatchingWordFound | exam/exam-project/src/Exam.java:265-271 | the answer is true exactly when the reference holds a word. A matching line stores the first word of that line with n consonants, at that line and file. Otherwise the reference is unchanged |
| Consonants.AnyLineMatchesSound | exam/exam-project/src/Exam.java:250-252 | a hit within a file lies on the file's first line that has a match, and is the first word of that line with n consonants. No hit leaves the reference empty |
| Consonants.AnyLineMatchesComplete | exam/exam-project/src/Exam.java:250-252 | a file with a matching line is reported as a hit |
| Consonants.AnyFileMatchesSound | exam/exam-project/src/Exam.java:247-253 | a hit over the files is a word with n consonants on the reported line of the reported file. It is that file's first match (first matching line, first matching word), and no earlier file has a match |
| Consonants.AnyFileMatchesComplete | exam/exam-project/src/Exam.java:247-253 | if some file has a matching line, the search reports a hit |
| Consonants.AnyLineMatches | exam/exam-project/src/Exam.java:250-252 | the search over one file's lines leaves a word in the reference when it hits and leaves the reference as it was when it misses. A reference that already holds a word makes the first line hit. `Consonants.AnyLineMatchesSound` and `Consonants.AnyLineMatchesComplete` give the rest |
| Consonants.AnyFileMatches | exam/exam-project/src/Exam.java:247-253 | the search over the files leaves a word in the reference on a hit and the reference as it was on a miss. `Consonants.AnyFileMatchesSound` and `Consonants.AnyFileMatchesComplete` give the rest |
| Consonants.WordWithConsonants | exam/exam-project/src/Exam.java:245-255 | a returned word has exactly n consonants and is a token of the reported line of the reported file. It is the first word with n consonants on the first matching line of the first file that has a match |
| Consonants.WordWithConsonantsSpec | exam/exam-project/src/Exam.java:245-255 | a word is returned exactly when some token of some file has exactly n consonants |
| Substring.AtomicCounter.constructor | exam/exam-project/src/Exam.java:304 | the counter starts at the given value |
| Substring.AtomicCounter.Get | exam/exam-project/src/Exam.java:335 | reading the counter returns its value and changes nothing |
| Substring.AtomicCounter.IncrementAndGet | exam/exam-project/src/Exam.java:342 | the counter grows by one and the new value is returned |
| Substring.ExtractLimit | exam/exam-project/src/Exam.java:354-356 | the result is a prefix of the list, `min(length, limit)` long |
| Substring.ExtractLimitAppend | exam/exam-project/src/Exam.java:315-325 | truncating a list after a part no longer than the limit keeps that part and truncates the rest to the remaining room |
| Substring.LineMatchesMembership | exam/exam-project/src/Exam.java:339-341 | the matches of a line are exactly its words containing the substring, located at that line and file |
| Substring.FileMatchesUpToMembership | exam/exam-project/src/Exam.java:334-348 | the matches of the first k lines are exactly the words of those lines that contain the substring, with their 1-based line and the file's path |
| Substring.FileMatchesMembership | exam/exam-project/src/Exam.java:334-348 | every word of the file containing the substring is a match, and nothing else is |
| Substring.FileMatchesUpToInLineOrder | exam/exam-project/src/Exam.java:331-347 | the matches come in non-decreasing line order, with lines between 1 and k |
| Substring.PartialLineIsPrefix | exam/exam-project/src/Exam.java:339-343 | matches gathered part-way through a line are a prefix of all the file's matches |
| Substring.StopMidLineIsTaskResult | exam/exam-project/src/Exam.java:342-343 | a task that reaches the limit part-way through a line has returned exactly the first `limit - c0` matches of the file |
| Substring.ScanLine | exam/exam-project/src/Exam.java:339-346 | the word loop returns the matches among the words it scanned, and the counter grows by their number. It stops exactly when the counter reaches the limit, and otherwise scans every word |
| Substring.GetLocatedWordArrayList | exam/exam-project/src/Exam.java:330-350 | starting with the counter at c0: nothing is returned if c0 has reached the limit, otherwise the first `limit - c0` matches of the file; the counter grows by exactly the number returned |
| Substring.TaskResultSpec | exam/exam-project/src/Exam.java:330-350 | every entry of a task contains the substring and lies in the file. The result is empty when c0 has reached the limit, and otherwise at most `limit - c0` long. When the counter stays below the limit, every match of the file is returned |
| Substring.TaskResultInLineOrder | exam/exam-project/src/Exam.java:331-347 | a task's entries come in line order, with 1-based lines |
| Substring.TakeOneMoreTask | exam/exam-project/src/Exam.java:315-317 | gathering one more task result while below the limit gives the first `limit` matches of one more file |
| Substring.StopGathering | exam/exam-project/src/Exam.java:315-325 | once all files are taken or the limit is reached, the first `limit` gathered entries are the first `limit` matches of all files |
| Substring.WordsWithSubstring | exam/exam-project/src/Exam.java:302-326 | the answer is the first `limit` matches of all files, file after file. A negative limit fails |
| Substring.AllMatchesUpToMembership | exam/exam-project/src/Exam.java:310-317 | the gathered matches of the first i files are exactly the matches of those files |
| Substring.WordsWithSubstringSpec | exam/exam-project/src/Exam.java:302-326 | the answer holds at most `limit` entries and none for a limit of 0. It holds every match when there are no more than `limit`. Each entry is a word of a file containing the substring, at its line |

## Left out

- `main` and `checkArguments` (command-line handling and printing) are not part of this model.
- `GetStandardFileList` and `GetFileLinesStream` are replaced by the input sequence of `File` values. Walking the directory, the `.txt` filter, reading lines and turning I/O errors into `InternalException` are not modelled.
- `extractWords` is the `Tokenizer` parameter. It uses a locale-aware word-boundary iterator, and every property is stated for an arbitrary tokenizer.
- Text.ToLower: only ASCII letters are lower-cased. Java's Unicode `toLowerCase` (non-ASCII letters, locale rules, length changes) is not modelled.
- Parallel streams, virtual-thread executors and the completion service are replaced by one sequential order of the files. That order is the given sequence, and any order of completion is one of its permutations. `MostA.LineWithMostAOrderIndependent` shows the most-a answer does not depend on it. The other answers are stated for the order given.
- The races are not modelled: the unsynchronised `ArrayList.addAll` inside a parallel `forEach` (lines 124-129), and the shared reference that lets one file's search report true because of another file's hit (line 270).
- Substring.WordsWithSubstring: each task runs completely when it is taken, so the shared counter always equals the number of gathered entries. In the program, tasks not yet taken run at the same time and can also bump the counter or be interrupted by `shutdownNow`.
- Paths.PathLeq: paths are compared character by character on the absolute path string. `Path.compareTo` and `toAbsolutePath` resolution are not modelled; the given paths are taken to be absolute already.
- Substring.ExtractLimit: the limit is a natural number. The program's failure on a negative limit is modelled one level up, where `Substring.WordsWithSubstring` answers `None`.
- UniqueWords.ExtractUniqueWords: states which entries are reported, not their order. The program reports in the hash map's iteration order, which the model leaves unspecified, visiting keys in any order.
- UniqueWords.FindWordsUniqueToALine: likewise states membership and the absence of duplicates. The order among files (parallel `forEach`) is not stated.
- Java `int` overflow is not modelled. Counts are bounded by line lengths and line numbers by file lengths.
