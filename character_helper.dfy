/** The alphabet constants and the letter-frequency count of `CharacterHelper`. */
module CharacterHelper {
  import opened Chars

  const EnglishAlphabet := "ABCDEFGHIJKLMNOPQRSTUVWXYZ"
  /** Á É Í Ó Ö Ő Ú Ü Ű */
  const HungarianAccentedCharacters := "\U{C1}\U{C9}\U{CD}\U{D3}\U{D6}\U{150}\U{DA}\U{DC}\U{170}"
  const HungarianAlphabet := EnglishAlphabet + HungarianAccentedCharacters

  /** The Hungarian alphabet is the 26 English capitals followed by the 9 accented capitals. */
  lemma HungarianAlphabetShape()
    ensures |HungarianAlphabet| == 35
    ensures HungarianAlphabet[..26] == EnglishAlphabet && HungarianAlphabet[26..] == HungarianAccentedCharacters
  {
  }

  /** Every character of the Hungarian alphabet is a capital. */
  lemma HungarianAlphabetUpper()
    ensures AllUpper(HungarianAlphabet)
  {
    var h := HungarianAlphabet;
    assert forall i :: 0 <= i < 26 ==> 'A' <= h[i] <= 'Z';
  }

  /** No character of the Hungarian alphabet appears twice. */
  lemma HungarianAlphabetDistinct()
    ensures NoDuplicates(HungarianAlphabet)
  {
    var h := HungarianAlphabet;
    assert forall i :: 0 <= i < 26 ==> h[i] as int == 'A' as int + i;
    assert forall i :: 26 <= i < 35 ==> h[i] as int >= 0xC1;
  }

  /** How many characters of `s` upper-case to `c`. */
  function Occurrences(s: string, c: char): nat
  {
    if s == [] then 0
    else Occurrences(s[..|s| - 1], c) + (if ToUpper(s[|s| - 1]) == c then 1 else 0)
  }

  /** The sum of the counts stored for `letters` (0 for a letter with no entry). */
  function Total(letters: string, counts: map<char, int>): int
  {
    if letters == [] then 0
    else (if letters[0] in counts then counts[letters[0]] else 0) + Total(letters[1..], counts)
  }

  /** The sum over `letters` of the occurrences in `s`. */
  function SumOccurrences(s: string, letters: string): nat
  {
    if letters == [] then 0 else Occurrences(s, letters[0]) + SumOccurrences(s, letters[1..])
  }

  /** How many positions of `letters` hold `u`. */
  function Hits(letters: string, u: char): nat
  {
    if letters == [] then 0 else (if letters[0] == u then 1 else 0) + Hits(letters[1..], u)
  }

  lemma {:induction false} HitsAtMostOnce(letters: string, u: char)
    requires NoDuplicates(letters)
    ensures Hits(letters, u) == if u in letters then 1 else 0
  {
    if letters != [] {
      HitsAtMostOnce(letters[1..], u);
      assert u in letters <==> u == letters[0] || u in letters[1..];
    }
  }

  lemma {:induction false} SumOccurrencesSnoc(s: string, x: char, letters: string)
    ensures SumOccurrences(s + [x], letters) == SumOccurrences(s, letters) + Hits(letters, ToUpper(x))
  {
    assert (s + [x])[..|s + [x]| - 1] == s;
    if letters != [] {
      SumOccurrencesSnoc(s, x, letters[1..]);
    }
  }

  /** Over a duplicate-free alphabet, the per-letter occurrences add up to the matching characters. */
  lemma {:induction false} SumOccurrencesIsLetterCount(s: string, letters: string)
    requires NoDuplicates(letters)
    ensures SumOccurrences(s, letters) == LetterCount(letters, s)
  {
    if s == [] {
      if letters != [] {
        SumOccurrencesIsLetterCount(s, letters[1..]);
      }
    } else {
      var init, x := s[..|s| - 1], s[|s| - 1];
      assert s == init + [x];
      SumOccurrencesIsLetterCount(init, letters);
      SumOccurrencesSnoc(init, x, letters);
      LetterCountSnoc(letters, init, x);
      HitsAtMostOnce(letters, ToUpper(x));
    }
  }

  lemma {:induction false} TotalIsSum(s: string, letters: string, counts: map<char, int>)
    requires forall c :: c in letters ==> (if c in counts then counts[c] else 0) == Occurrences(s, c)
    ensures Total(letters, counts) == SumOccurrences(s, letters)
  {
    if letters != [] {
      assert letters[0] in letters;
      TotalIsSum(s, letters[1..], counts);
    }
  }

  /** Reading one more character of `str` adds one to the count of its capital only. */
  lemma CountOneMore(str: string, i: int)
    requires 0 <= i < |str|
    ensures forall c :: Occurrences(str[..i + 1], c) == Occurrences(str[..i], c) + (if ToUpper(str[i]) == c then 1 else 0)
  {
    assert str[..i + 1][..i] == str[..i];
  }

  /**
   * `GetStringCharacterCounts`: for every character of the Hungarian alphabet that
   * occurs in `str` (after upper-casing), the number of its occurrences.
   */
  method GetStringCharacterCounts(str: string) returns (counts: map<char, int>)
    ensures forall c :: c in counts ==> c in HungarianAlphabet
    ensures forall c :: c in counts ==> counts[c] == Occurrences(str, c) && counts[c] >= 1
    ensures forall c :: c in HungarianAlphabet && c !in counts ==> Occurrences(str, c) == 0
    ensures Total(HungarianAlphabet, counts) == LetterCount(HungarianAlphabet, str)
  {
    counts := map[];
    var i := 0;
    while i < |str|
      invariant 0 <= i <= |str|
      invariant forall c :: c in counts ==> c in HungarianAlphabet
      invariant forall c :: c in counts ==> counts[c] == Occurrences(str[..i], c) && counts[c] >= 1
      invariant forall c :: c in HungarianAlphabet && c !in counts ==> Occurrences(str[..i], c) == 0
    {
      CountOneMore(str, i);
      var character := ToUpper(str[i]);
      if character in HungarianAlphabet {
        if character !in counts {
          counts := counts[character := 0];
        }
        counts := counts[character := counts[character] + 1];
      }
      i := i + 1;
    }
    assert str[..i] == str;
    HungarianAlphabetDistinct();
    TotalIsSum(str, HungarianAlphabet, counts);
    SumOccurrencesIsLetterCount(str, HungarianAlphabet);
  }
}
