/**
 * The .NET character and string helpers the ciphers call: `char.IsLower`,
 * `char.ToUpper`, `char.ToLower`, `string.ToUpper`, `string.Contains` and
 * `string.IndexOf`.
 *
 * Letter case is given to the ASCII letters, the Latin-1 letter pairs
 * (U+00C0..U+00DE paired with U+00E0..U+00FE, without the multiplication and
 * division signs) and the Hungarian double-acute letters Ő/ő and Ű/ű; every
 * other character is treated as having no case.
 */
module Chars {

  /** `char.IsLower` on the modelled table; no character is both small and a capital. */
  predicate IsLower(c: char): (r: bool)
    ensures r ==> !IsUpper(c)
  {
    ('a' <= c <= 'z') || ('\U{E0}' <= c <= '\U{FE}' && c != '\U{F7}') || c == '\U{151}' || c == '\U{171}'
  }

  predicate IsUpper(c: char) {
    ('A' <= c <= 'Z') || ('\U{C0}' <= c <= '\U{DE}' && c != '\U{D7}') || c == '\U{150}' || c == '\U{170}'
  }

  /** `char.ToUpper`: a small letter becomes its capital, anything else is unchanged. */
  function ToUpper(c: char): (u: char)
    ensures IsLower(c) ==> IsUpper(u)
    ensures !IsLower(c) ==> u == c
  {
    if c == '\U{151}' || c == '\U{171}' then (c as int - 1) as char
    else if IsLower(c) then (c as int - 32) as char
    else c
  }

  /** `char.ToLower`; lower-casing a capital is undone by `ToUpper`. */
  function ToLower(c: char): (l: char)
    ensures IsUpper(c) ==> IsLower(l) && ToUpper(l) == c
    ensures !IsUpper(c) ==> l == c
  {
    if c == '\U{150}' || c == '\U{170}' then (c as int + 1) as char
    else if IsUpper(c) then (c as int + 32) as char
    else c
  }

  /** Upper-casing is idempotent and never yields a small letter. */
  lemma UpperIsStable(c: char)
    ensures ToUpper(ToUpper(c)) == ToUpper(c) && !IsLower(ToUpper(c))
  {
  }

  /** Upper-casing a small letter is undone by `ToLower`. */
  lemma LowerRoundTrip(c: char)
    requires IsLower(c)
    ensures ToLower(ToUpper(c)) == c
  {
  }

  /**
   * `wasLower ? char.ToLower(e) : e`, the case restoration both ciphers apply to
   * a character computed in upper case.
   */
  function RestoreCase(wasLower: bool, e: char): (r: char)
    ensures IsUpper(e) ==> ToUpper(r) == e && IsLower(r) == wasLower && IsUpper(r) == !wasLower
  {
    if wasLower then ToLower(e) else e
  }

  /** Upper-casing a character with no small form gives back the capital `RestoreCase` started from. */
  lemma UpperOfRestored(wasLower: bool, e: char)
    requires !IsLower(e)
    ensures ToUpper(RestoreCase(wasLower, e)) == e
  {
  }

  /** `string.ToUpper`, character by character. */
  function UpperString(s: string): (u: string)
    ensures |u| == |s|
    ensures forall i :: 0 <= i < |u| ==> !IsLower(u[i]) && ToUpper(u[i]) == u[i]
  {
    seq(|s|, i requires 0 <= i < |s| => ToUpper(s[i]))
  }

  /**
   * How many characters of `s` upper-case to a character of `letters`: the
   * characters a cipher over the alphabet `letters` transforms.
   */
  function LetterCount(letters: string, s: string): nat
  {
    if s == [] then 0 else (if ToUpper(s[0]) in letters then 1 else 0) + LetterCount(letters, s[1..])
  }

  /** Counting over `s + [x]`: the count over `s`, plus one when x upper-cases into `letters`. */
  lemma {:induction false} LetterCountSnoc(letters: string, s: string, x: char)
    ensures LetterCount(letters, s + [x]) == LetterCount(letters, s) + (if ToUpper(x) in letters then 1 else 0)
    decreases |s|
  {
    if s == [] {
      assert [x][1..] == [];
    } else {
      assert (s + [x])[1..] == s[1..] + [x];
      LetterCountSnoc(letters, s[1..], x);
    }
  }

  /** The characters of `s` that upper-case to a character of `letters`, in their order. */
  function LettersOf(letters: string, s: string): (r: string)
    ensures |r| == LetterCount(letters, s)
    ensures forall i :: 0 <= i < |r| ==> ToUpper(r[i]) in letters
  {
    if s == [] then []
    else if ToUpper(s[0]) in letters then [s[0]] + LettersOf(letters, s[1..])
    else LettersOf(letters, s[1..])
  }

  /** `string.IndexOf(char)`: the first position of `c` in `s`, or -1. */
  function IndexOf(s: string, c: char): (i: int)
    ensures -1 <= i < |s|
    ensures i == -1 <==> c !in s
    ensures 0 <= i ==> s[i] == c
  {
    if |s| == 0 then -1
    else if s[0] == c then 0
    else
      var j := IndexOf(s[1..], c);
      if j == -1 then -1 else j + 1
  }

  /** `IndexOf` finds the first occurrence: no earlier position holds `c`. */
  lemma {:induction false} IndexOfFirst(s: string, c: char)
    ensures forall j :: 0 <= j < IndexOf(s, c) ==> s[j] != c
  {
    if |s| > 0 && s[0] != c {
      IndexOfFirst(s[1..], c);
    }
  }

  ghost predicate NoDuplicates(s: string) {
    forall i, j :: 0 <= i < j < |s| ==> s[i] != s[j]
  }

  ghost predicate AllUpper(s: string) {
    forall i :: 0 <= i < |s| ==> IsUpper(s[i])
  }

  /** Upper-casing a string of capitals leaves it unchanged. */
  lemma UpperStringOfCapitals(s: string)
    requires AllUpper(s)
    ensures UpperString(s) == s
  {
    forall i | 0 <= i < |s| ensures UpperString(s)[i] == s[i] {
      assert IsUpper(s[i]);
    }
  }

  /** In a duplicate-free string, `IndexOf` finds every character at its own position. */
  lemma IndexOfAt(s: string, k: int)
    requires NoDuplicates(s) && 0 <= k < |s|
    ensures IndexOf(s, s[k]) == k
  {
    assert s[k] in s;
  }
}
