/**
 * Character-level helpers shared by the queries: lower-casing, counting the
 * letter a, counting consonants and substring containment.
 */
module Text {

  /**
   * Two characters are the same up to ASCII letter case: equal, or an
   * upper-case letter and its lower-case partner.
   */
  predicate SameIgnoringCase(a: char, b: char) {
    a == b || (IsAsciiLetter(a) && IsAsciiLetter(b) && (a as int - b as int == 32 || b as int - a as int == 32))
  }

  /** Lower-cases one ASCII letter and leaves every other character alone. */
  function LowerChar(c: char): (r: char)
    ensures !('A' <= r <= 'Z')
    ensures !('A' <= c <= 'Z') ==> r == c
    ensures SameIgnoringCase(c, r)
  {
    if 'A' <= c <= 'Z' then (c as int + 32) as char else c
  }

  /** Lower-cases a word, character by character. */
  function ToLower(s: string): (r: string)
    ensures |r| == |s|
    ensures forall i :: 0 <= i < |r| ==> !('A' <= r[i] <= 'Z')
    ensures forall i :: 0 <= i < |s| && !('A' <= s[i] <= 'Z') ==> r[i] == s[i]
    ensures forall i :: 0 <= i < |s| ==> SameIgnoringCase(s[i], r[i])
  {
    seq(|s|, i requires 0 <= i < |s| => LowerChar(s[i]))
  }

  /** Two characters lower-case alike exactly when they are the same up to case. */
  lemma LowerCharEqualIff(a: char, b: char)
    ensures LowerChar(a) == LowerChar(b) <==> SameIgnoringCase(a, b)
  {
  }

  /**
   * Words are equal after lower-casing exactly when they have the same length
   * and agree character by character up to letter case.
   */
  lemma ToLowerEqualIff(a: string, b: string)
    ensures ToLower(a) == ToLower(b) <==> |a| == |b| && forall i :: 0 <= i < |a| ==> SameIgnoringCase(a[i], b[i])
  {
    if ToLower(a) == ToLower(b) {
      forall i | 0 <= i < |a| ensures SameIgnoringCase(a[i], b[i]) {
        assert ToLower(a)[i] == ToLower(b)[i];
        LowerCharEqualIff(a[i], b[i]);
      }
    }
    if |a| == |b| && forall i :: 0 <= i < |a| ==> SameIgnoringCase(a[i], b[i]) {
      forall i | 0 <= i < |a| ensures ToLower(a)[i] == ToLower(b)[i] {
        LowerCharEqualIff(a[i], b[i]);
      }
    }
  }

  /** "Hello", "hEllo" and "HELLo" are all the word "hello". */
  lemma ToLowerExample()
    ensures ToLower("Hello") == ToLower("hEllo") == ToLower("HELLo") == "hello"
    ensures ToLower("Hello") != ToLower("Jello")
  {
    assert ToLower("Hello") == "hello";
    assert ToLower("hEllo") == "hello";
    assert ToLower("HELLo") == "hello";
    assert ToLower("Jello")[0] == 'j';
  }

  /** Number of characters of `s` that satisfy `p`. */
  function CountChars(s: string, p: char -> bool): (r: nat)
    ensures r <= |s|
  {
    if |s| == 0 then 0
    else CountChars(s[1..], p) + (if p(s[0]) then 1 else 0)
  }

  /** The count is zero exactly when no character qualifies, and full exactly when all do. */
  lemma {:induction false} CountCharsExtremes(s: string, p: char -> bool)
    ensures CountChars(s, p) == 0 <==> forall i :: 0 <= i < |s| ==> !p(s[i])
    ensures CountChars(s, p) == |s| <==> forall i :: 0 <= i < |s| ==> p(s[i])
  {
    if |s| > 0 {
      CountCharsExtremes(s[1..], p);
      assert forall i :: 1 <= i < |s| ==> s[i] == s[1..][i - 1];
    }
  }

  /** Lower-casing does not change the count of a class closed under lower-casing. */
  lemma {:induction false} CountCharsToLower(s: string, p: char -> bool)
    requires forall c :: p(LowerChar(c)) == p(c)
    ensures CountChars(ToLower(s), p) == CountChars(s, p)
  {
    if |s| > 0 {
      assert ToLower(s)[1..] == ToLower(s[1..]);
      assert ToLower(s)[0] == LowerChar(s[0]);
      CountCharsToLower(s[1..], p);
    }
  }

  predicate IsA(c: char) {
    c == 'a' || c == 'A'
  }

  /** Number of occurrences of the letter a, in either case, on a line. */
  function CountA(line: string): (r: nat)
    ensures r <= |line|
  {
    CountChars(line, IsA)
  }

  /** A line counts no a exactly when it holds neither 'a' nor 'A'; all a when it holds nothing else. */
  lemma CountAExtremes(line: string)
    ensures CountA(line) == 0 <==> forall i :: 0 <= i < |line| ==> line[i] != 'a' && line[i] != 'A'
    ensures CountA(line) == |line| <==> forall i :: 0 <= i < |line| ==> line[i] == 'a' || line[i] == 'A'
  {
    CountCharsExtremes(line, IsA);
  }

  /** The count of a is case-insensitive. */
  lemma CountAIgnoresCase(line: string)
    ensures CountA(ToLower(line)) == CountA(line)
  {
    CountCharsToLower(line, IsA);
  }

  /** The consonants of the English alphabet, lower case then upper case (42 characters). */
  const LowerConsonants: string := "bcdfghjklmnpqrstvwxyz"
  const UpperConsonants: string := "BCDFGHJKLMNPQRSTVWXYZ"
  const Consonants: string := LowerConsonants + UpperConsonants

  predicate IsConsonant(c: char) {
    c in Consonants
  }

  predicate IsAsciiLetter(c: char) {
    'a' <= c <= 'z' || 'A' <= c <= 'Z'
  }

  predicate IsVowel(c: char) {
    || c == 'a' || c == 'e' || c == 'i' || c == 'o' || c == 'u'
    || c == 'A' || c == 'E' || c == 'I' || c == 'O' || c == 'U'
  }

  lemma LowerConsonantAt(i: nat)
    requires i < |LowerConsonants|
    ensures var c := LowerConsonants[i]; 'b' <= c <= 'z' && c != 'e' && c != 'i' && c != 'o' && c != 'u'
  {
  }

  lemma UpperConsonantAt(i: nat)
    requires i < |UpperConsonants|
    ensures var c := UpperConsonants[i]; 'B' <= c <= 'Z' && c != 'E' && c != 'I' && c != 'O' && c != 'U'
  {
  }

  lemma LetterOutsideVowelRange(c: char)
    requires 'b' <= c <= 'z' || 'B' <= c <= 'Z'
    requires c != 'e' && c != 'i' && c != 'o' && c != 'u' && c != 'E' && c != 'I' && c != 'O' && c != 'U'
    ensures !IsVowel(c)
  {
  }

  /** Each character of the consonant table is an English letter and not a vowel. */
  lemma ConsonantAtIsNonVowelLetter(i: nat)
    requires i < |Consonants|
    ensures IsAsciiLetter(Consonants[i]) && !IsVowel(Consonants[i])
  {
    if i < |LowerConsonants| {
      LowerConsonantAt(i);
      LetterOutsideVowelRange(LowerConsonants[i]);
      assert Consonants[i] == LowerConsonants[i];
    } else {
      UpperConsonantAt(i - |LowerConsonants|);
      LetterOutsideVowelRange(UpperConsonants[i - |LowerConsonants|]);
      assert Consonants[i] == UpperConsonants[i - |LowerConsonants|];
    }
  }

  /** Every English letter that is not a vowel is in the consonant table. */
  lemma NonVowelLetterIsConsonant(c: char)
    requires IsAsciiLetter(c) && !IsVowel(c)
    ensures IsConsonant(c)
  {
    if 'a' <= c <= 'z' {
      assert c != 'a' && c != 'e' && c != 'i' && c != 'o' && c != 'u';
      if c <= 'm' {
        assert c in "bcdfghjklm";
      } else {
        assert c in "npqrstvwxyz";
      }
      assert c in LowerConsonants;
      var k :| 0 <= k < |LowerConsonants| && LowerConsonants[k] == c;
      assert Consonants[k] == c;
    } else {
      assert c != 'A' && c != 'E' && c != 'I' && c != 'O' && c != 'U';
      if c <= 'M' {
        assert c in "BCDFGHJKLM";
      } else {
        assert c in "NPQRSTVWXYZ";
      }
      assert c in UpperConsonants;
      var k :| 0 <= k < |UpperConsonants| && UpperConsonants[k] == c;
      assert Consonants[|LowerConsonants| + k] == c;
    }
  }

  /** The consonant set is exactly the English letters that are not vowels. */
  lemma ConsonantsAreNonVowelLetters(c: char)
    ensures |Consonants| == 42
    ensures IsConsonant(c) <==> IsAsciiLetter(c) && !IsVowel(c)
  {
    if IsConsonant(c) {
      var i :| 0 <= i < |Consonants| && Consonants[i] == c;
      ConsonantAtIsNonVowelLetter(i);
    }
    if IsAsciiLetter(c) && !IsVowel(c) {
      NonVowelLetterIsConsonant(c);
    }
  }

  /** Number of consonants in a word. */
  function CountConsonants(word: string): (r: nat)
    ensures r <= |word|
  {
    CountChars(word, IsConsonant)
  }

  /**
   * A word counts no consonant exactly when every character is a vowel, a
   * digit or anything else outside the consonant set.
   */
  lemma CountConsonantsZero(word: string)
    ensures CountConsonants(word) == 0 <==> forall i :: 0 <= i < |word| ==> !IsConsonant(word[i])
  {
    CountCharsExtremes(word, IsConsonant);
  }

  /** Lower-casing a character keeps it a consonant or a non-consonant. */
  lemma LowerCharKeepsConsonant(c: char)
    ensures IsConsonant(LowerChar(c)) == IsConsonant(c)
  {
    ConsonantsAreNonVowelLetters(c);
    ConsonantsAreNonVowelLetters(LowerChar(c));
    if 'A' <= c <= 'Z' {
      assert IsAsciiLetter(LowerChar(c));
      assert IsVowel(c) <==> IsVowel(LowerChar(c));
    }
  }

  /** The consonant count is case-insensitive. */
  lemma CountConsonantsIgnoresCase(word: string)
    ensures CountConsonants(ToLower(word)) == CountConsonants(word)
  {
    forall c ensures IsConsonant(LowerChar(c)) == IsConsonant(c) {
      LowerCharKeepsConsonant(c);
    }
    CountCharsToLower(word, IsConsonant);
  }

  /** `sub` occurs in `s` starting at index `i`. */
  predicate OccursAt(s: string, sub: string, i: int) {
    0 <= i <= |s| - |sub| && s[i..i + |sub|] == sub
  }

  /** `sub` occurs in `s` at some position (string containment). */
  predicate Contains(s: string, sub: string)
    ensures Contains(s, sub) ==> |sub| <= |s|
  {
    exists i :: 0 <= i <= |s| - |sub| && OccursAt(s, sub, i)
  }

  /** The empty substring, and every prefix of a word, is contained in it. */
  lemma PrefixIsContained(s: string, sub: string)
    ensures |sub| == 0 ==> Contains(s, sub)
    ensures |sub| <= |s| && s[..|sub|] == sub ==> Contains(s, sub)
  {
    if |sub| <= |s| && (|sub| == 0 || s[..|sub|] == sub) {
      assert OccursAt(s, sub, 0);
    }
  }
}
