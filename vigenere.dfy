/**
 * The Vigenère encryptor. The constructor upper-cases the alphabet and the key,
 * checks that every key character is in the alphabet and fills the table whose
 * row r, column c holds alphabet[(r + c) mod n]. `Encode` and `Decode` walk the
 * text with a key index that advances, cyclically, on alphabet characters only;
 * any other character is copied.
 */
module Vigenere {
  import opened Chars
  import opened Outcomes
  import opened Modular
  import CharacterHelper

  /** The checks of the VigenereEncryptor constructor, in order; None when it does not throw. */
  function VigenereError(alphabet: string, key: string): (e: Option<ArgumentError>)
    ensures e == None <==>
      && |alphabet| > 0 && |key| > 0
      && (forall i :: 0 <= i < |key| ==> UpperString(key)[i] in UpperString(alphabet))
    ensures e.Some? ==> e.value == if |alphabet| == 0 then EmptyAlphabet else if |key| == 0 then EmptyKey else KeyOutsideAlphabet
  {
    if |alphabet| == 0 then Some(EmptyAlphabet)
    else if |key| == 0 then Some(EmptyKey)
    else
      var upperAlphabet, upperKey := UpperString(alphabet), UpperString(key);
      if exists i | 0 <= i < |upperKey| :: upperKey[i] !in upperAlphabet then Some(KeyOutsideAlphabet)
      else None
  }

  /** What the constructor guarantees of the alphabet and key it keeps. */
  ghost predicate KeyFits(alphabet: string, key: string) {
    |alphabet| > 0 && |key| > 0 && forall i :: 0 <= i < |key| ==> key[i] in alphabet
  }

  /** The table entry at the row of u and the column of the key character. */
  function EncodeLetter(alphabet: string, u: char, keyCharacter: char): (e: char)
    requires u in alphabet && keyCharacter in alphabet
    ensures e in alphabet
  {
    alphabet[(IndexOf(alphabet, u) + IndexOf(alphabet, keyCharacter)) % |alphabet|]
  }

  /** The alphabet character as many places before u as the key character's index. */
  function DecodeLetter(alphabet: string, u: char, keyCharacter: char): (d: char)
    requires u in alphabet && keyCharacter in alphabet
    ensures d in alphabet
  {
    alphabet[(IndexOf(alphabet, u) - IndexOf(alphabet, keyCharacter) + |alphabet|) % |alphabet|]
  }

  /** `Encode`, starting at key index k. */
  function EncodeText(alphabet: string, key: string, k: nat, text: string): (r: string)
    requires KeyFits(alphabet, key) && k < |key|
    ensures |r| == |text|
    decreases |text|
  {
    if text == [] then []
    else
      var c := text[0];
      if ToUpper(c) !in alphabet then [c] + EncodeText(alphabet, key, k, text[1..])
      else [RestoreCase(IsLower(c), EncodeLetter(alphabet, ToUpper(c), key[k]))]
           + EncodeText(alphabet, key, (k + 1) % |key|, text[1..])
  }

  /** `Decode`, starting at key index k. */
  function DecodeText(alphabet: string, key: string, k: nat, text: string): (r: string)
    requires KeyFits(alphabet, key) && k < |key|
    ensures |r| == |text|
    decreases |text|
  {
    if text == [] then []
    else
      var c := text[0];
      if ToUpper(c) !in alphabet then [c] + DecodeText(alphabet, key, k, text[1..])
      else [RestoreCase(IsLower(c), DecodeLetter(alphabet, ToUpper(c), key[k]))]
           + DecodeText(alphabet, key, (k + 1) % |key|, text[1..])
  }

  /** Shifting back by j undoes shifting forward by j, modulo n. */
  lemma ShiftBack(n: int, i: int, j: int, o: int)
    requires n > 0 && 0 <= i < n && 0 <= j < n && o == (i + j) % n
    ensures (o - j + n) % n == i
  {
    Wrap(i + j, n);
    Wrap(o - j + n, n);
  }

  /** Shifting forward by j undoes shifting back by j, modulo n. */
  lemma ShiftForward(n: int, i: int, j: int, o: int)
    requires n > 0 && 0 <= i < n && 0 <= j < n && o == (i - j + n) % n
    ensures (o + j) % n == i
  {
    Wrap(i - j + n, n);
    Wrap(o + j, n);
  }

  /** Over a duplicate-free alphabet, decoding a letter undoes encoding it. */
  lemma DecodeEncodeLetter(alphabet: string, u: char, keyCharacter: char)
    requires NoDuplicates(alphabet) && u in alphabet && keyCharacter in alphabet
    ensures DecodeLetter(alphabet, EncodeLetter(alphabet, u, keyCharacter), keyCharacter) == u
  {
    var n, i, j := |alphabet|, IndexOf(alphabet, u), IndexOf(alphabet, keyCharacter);
    var o := (i + j) % n;
    IndexOfAt(alphabet, o);
    ShiftBack(n, i, j, o);
  }

  /** Over a duplicate-free alphabet, encoding a letter undoes decoding it. */
  lemma EncodeDecodeLetter(alphabet: string, u: char, keyCharacter: char)
    requires NoDuplicates(alphabet) && u in alphabet && keyCharacter in alphabet
    ensures EncodeLetter(alphabet, DecodeLetter(alphabet, u, keyCharacter), keyCharacter) == u
  {
    var n, i, j := |alphabet|, IndexOf(alphabet, u), IndexOf(alphabet, keyCharacter);
    var o := (i - j + n) % n;
    IndexOfAt(alphabet, o);
    ShiftForward(n, i, j, o);
  }

  /**
   * Over an alphabet of distinct capitals, decoding the encoded character with
   * the same key character gives the character back, in its own case.
   */
  lemma DecodeEncodeCharacter(alphabet: string, c: char, keyCharacter: char)
    requires NoDuplicates(alphabet) && AllUpper(alphabet)
    requires ToUpper(c) in alphabet && keyCharacter in alphabet
    ensures var d := RestoreCase(IsLower(c), EncodeLetter(alphabet, ToUpper(c), keyCharacter));
      && ToUpper(d) in alphabet
      && RestoreCase(IsLower(d), DecodeLetter(alphabet, ToUpper(d), keyCharacter)) == c
  {
    var e := EncodeLetter(alphabet, ToUpper(c), keyCharacter);
    assert IsUpper(alphabet[IndexOf(alphabet, e)]);
    DecodeEncodeLetter(alphabet, ToUpper(c), keyCharacter);
    if IsLower(c) {
      LowerRoundTrip(c);
    }
  }

  /** The same, decoding first. */
  lemma EncodeDecodeCharacter(alphabet: string, c: char, keyCharacter: char)
    requires NoDuplicates(alphabet) && AllUpper(alphabet)
    requires ToUpper(c) in alphabet && keyCharacter in alphabet
    ensures var d := RestoreCase(IsLower(c), DecodeLetter(alphabet, ToUpper(c), keyCharacter));
      && ToUpper(d) in alphabet
      && RestoreCase(IsLower(d), EncodeLetter(alphabet, ToUpper(d), keyCharacter)) == c
  {
    var e := DecodeLetter(alphabet, ToUpper(c), keyCharacter);
    assert IsUpper(alphabet[IndexOf(alphabet, e)]);
    EncodeDecodeLetter(alphabet, ToUpper(c), keyCharacter);
    if IsLower(c) {
      LowerRoundTrip(c);
    }
  }

  /** Round trip: over an alphabet of distinct capitals, `Decode(Encode(s)) == s`. */
  lemma {:induction false} DecodeEncode(alphabet: string, key: string, k: nat, text: string)
    requires KeyFits(alphabet, key) && k < |key| && NoDuplicates(alphabet) && AllUpper(alphabet)
    ensures DecodeText(alphabet, key, k, EncodeText(alphabet, key, k, text)) == text
    decreases |text|
  {
    if text != [] {
      var c, rest := text[0], text[1..];
      assert text == [c] + rest;
      var e := EncodeText(alphabet, key, k, text);
      if ToUpper(c) !in alphabet {
        assert e[0] == c && e[1..] == EncodeText(alphabet, key, k, rest);
        DecodeEncode(alphabet, key, k, rest);
      } else {
        var next := (k + 1) % |key|;
        assert e[1..] == EncodeText(alphabet, key, next, rest);
        DecodeEncodeCharacter(alphabet, c, key[k]);
        DecodeEncode(alphabet, key, next, rest);
      }
    }
  }

  /** The other round trip: over an alphabet of distinct capitals, `Encode(Decode(s)) == s`. */
  lemma {:induction false} EncodeDecode(alphabet: string, key: string, k: nat, text: string)
    requires KeyFits(alphabet, key) && k < |key| && NoDuplicates(alphabet) && AllUpper(alphabet)
    ensures EncodeText(alphabet, key, k, DecodeText(alphabet, key, k, text)) == text
    decreases |text|
  {
    if text != [] {
      var c, rest := text[0], text[1..];
      assert text == [c] + rest;
      var d := DecodeText(alphabet, key, k, text);
      if ToUpper(c) !in alphabet {
        assert d[0] == c && d[1..] == DecodeText(alphabet, key, k, rest);
        EncodeDecode(alphabet, key, k, rest);
      } else {
        var next := (k + 1) % |key|;
        assert d[1..] == DecodeText(alphabet, key, next, rest);
        EncodeDecodeCharacter(alphabet, c, key[k]);
        EncodeDecode(alphabet, key, next, rest);
      }
    }
  }

  /**
   * Character i of the encoded text: a character outside the alphabet is
   * copied; any other is encoded with the key character reached after one step
   * per alphabet character before it.
   */
  lemma {:induction false} EncodeAt(alphabet: string, key: string, k: nat, text: string, i: int)
    requires KeyFits(alphabet, key) && k < |key| && 0 <= i < |text|
    ensures ToUpper(text[i]) !in alphabet ==> EncodeText(alphabet, key, k, text)[i] == text[i]
    ensures ToUpper(text[i]) in alphabet ==>
      EncodeText(alphabet, key, k, text)[i]
      == RestoreCase(IsLower(text[i]),
                     EncodeLetter(alphabet, ToUpper(text[i]), key[(k + LetterCount(alphabet, text[..i])) % |key|]))
    decreases i
  {
    var r := EncodeText(alphabet, key, k, text);
    var letter := ToUpper(text[0]) in alphabet;
    var next := if letter then (k + 1) % |key| else k;
    EncodeStep(alphabet, key, k, text);
    if i == 0 {
      assert text[..0] == [];
      assert LetterCount(alphabet, text[..0]) == 0;
      Wrap(k, |key|);
    } else {
      var rest := text[1..];
      EncodeAt(alphabet, key, next, rest, i - 1);
      assert rest[i - 1] == text[i] && r[i] == r[1..][i - 1];
      var l := LetterCount(alphabet, rest[..i - 1]);
      LetterCountStep(alphabet, text, i);
      KeyIndexStep(|key|, k, letter, l);
      assert (next + l) % |key| == (k + LetterCount(alphabet, text[..i])) % |key|;
    }
  }

  /** The first character of the encoded text, and the encoded rest. */
  lemma EncodeStep(alphabet: string, key: string, k: nat, text: string)
    requires KeyFits(alphabet, key) && k < |key| && text != []
    ensures var r := EncodeText(alphabet, key, k, text);
      && r[0] == (if ToUpper(text[0]) in alphabet
                  then RestoreCase(IsLower(text[0]), EncodeLetter(alphabet, ToUpper(text[0]), key[k]))
                  else text[0])
      && r[1..] == EncodeText(alphabet, key, if ToUpper(text[0]) in alphabet then (k + 1) % |key| else k, text[1..])
  {
  }

  /** Character i of the decoded text, as for `EncodeAt`. */
  lemma {:induction false} DecodeAt(alphabet: string, key: string, k: nat, text: string, i: int)
    requires KeyFits(alphabet, key) && k < |key| && 0 <= i < |text|
    ensures ToUpper(text[i]) !in alphabet ==> DecodeText(alphabet, key, k, text)[i] == text[i]
    ensures ToUpper(text[i]) in alphabet ==>
      DecodeText(alphabet, key, k, text)[i]
      == RestoreCase(IsLower(text[i]),
                     DecodeLetter(alphabet, ToUpper(text[i]), key[(k + LetterCount(alphabet, text[..i])) % |key|]))
    decreases i
  {
    var r := DecodeText(alphabet, key, k, text);
    var letter := ToUpper(text[0]) in alphabet;
    var next := if letter then (k + 1) % |key| else k;
    DecodeStep(alphabet, key, k, text);
    if i == 0 {
      assert text[..0] == [];
      assert LetterCount(alphabet, text[..0]) == 0;
      Wrap(k, |key|);
    } else {
      var rest := text[1..];
      DecodeAt(alphabet, key, next, rest, i - 1);
      assert rest[i - 1] == text[i] && r[i] == r[1..][i - 1];
      var l := LetterCount(alphabet, rest[..i - 1]);
      LetterCountStep(alphabet, text, i);
      KeyIndexStep(|key|, k, letter, l);
      assert (next + l) % |key| == (k + LetterCount(alphabet, text[..i])) % |key|;
    }
  }

  /** The first character of the decoded text, and the decoded rest. */
  lemma DecodeStep(alphabet: string, key: string, k: nat, text: string)
    requires KeyFits(alphabet, key) && k < |key| && text != []
    ensures var r := DecodeText(alphabet, key, k, text);
      && r[0] == (if ToUpper(text[0]) in alphabet
                  then RestoreCase(IsLower(text[0]), DecodeLetter(alphabet, ToUpper(text[0]), key[k]))
                  else text[0])
      && r[1..] == DecodeText(alphabet, key, if ToUpper(text[0]) in alphabet then (k + 1) % |key| else k, text[1..])
  {
  }

  /** One step of the `Encode` loop: appending the encoded character i keeps the output a prefix of the whole. */
  lemma EncodeLoopStep(alphabet: string, key: string, input: string, i: int, k: nat, output: string, e: char)
    requires KeyFits(alphabet, key) && k < |key| && 0 <= i < |input|
    requires EncodeText(alphabet, key, 0, input) == output + EncodeText(alphabet, key, k, input[i..])
    requires e == if ToUpper(input[i]) in alphabet
                  then RestoreCase(IsLower(input[i]), EncodeLetter(alphabet, ToUpper(input[i]), key[k]))
                  else input[i]
    ensures EncodeText(alphabet, key, 0, input)
            == (output + [e]) + EncodeText(alphabet, key, if ToUpper(input[i]) in alphabet then (k + 1) % |key| else k, input[i + 1..])
  {
    EncodeStep(alphabet, key, k, input[i..]);
    assert input[i..][0] == input[i] && input[i..][1..] == input[i + 1..];
  }

  /** One step of the `Decode` loop, as for `EncodeLoopStep`. */
  lemma DecodeLoopStep(alphabet: string, key: string, input: string, i: int, k: nat, output: string, d: char)
    requires KeyFits(alphabet, key) && k < |key| && 0 <= i < |input|
    requires DecodeText(alphabet, key, 0, input) == output + DecodeText(alphabet, key, k, input[i..])
    requires d == if ToUpper(input[i]) in alphabet
                  then RestoreCase(IsLower(input[i]), DecodeLetter(alphabet, ToUpper(input[i]), key[k]))
                  else input[i]
    ensures DecodeText(alphabet, key, 0, input)
            == (output + [d]) + DecodeText(alphabet, key, if ToUpper(input[i]) in alphabet then (k + 1) % |key| else k, input[i + 1..])
  {
    DecodeStep(alphabet, key, k, input[i..]);
    assert input[i..][0] == input[i] && input[i..][1..] == input[i + 1..];
  }

  /** Over an alphabet of capitals, an encoded letter keeps the case of the input letter. */
  lemma EncodeKeepsCase(alphabet: string, key: string, text: string, i: int)
    requires KeyFits(alphabet, key) && AllUpper(alphabet) && 0 <= i < |text| && ToUpper(text[i]) in alphabet
    ensures IsLower(EncodeText(alphabet, key, 0, text)[i]) == IsLower(text[i])
  {
    EncodeAt(alphabet, key, 0, text, i);
    var e := EncodeLetter(alphabet, ToUpper(text[i]), key[LetterCount(alphabet, text[..i]) % |key|]);
    assert IsUpper(alphabet[IndexOf(alphabet, e)]);
  }

  /** Over an alphabet of capitals, a decoded letter keeps the case of the input letter. */
  lemma DecodeKeepsCase(alphabet: string, key: string, text: string, i: int)
    requires KeyFits(alphabet, key) && AllUpper(alphabet) && 0 <= i < |text| && ToUpper(text[i]) in alphabet
    ensures IsLower(DecodeText(alphabet, key, 0, text)[i]) == IsLower(text[i])
  {
    DecodeAt(alphabet, key, 0, text, i);
    var d := DecodeLetter(alphabet, ToUpper(text[i]), key[LetterCount(alphabet, text[..i]) % |key|]);
    assert IsUpper(alphabet[IndexOf(alphabet, d)]);
  }

  /** The letters among the first i characters: the first one, then those among the next i - 1. */
  lemma LetterCountStep(alphabet: string, text: string, i: int)
    requires 0 < i <= |text|
    ensures LetterCount(alphabet, text[..i])
            == (if ToUpper(text[0]) in alphabet then 1 else 0) + LetterCount(alphabet, text[1..][..i - 1])
  {
    assert text[..i][0] == text[0] && text[..i][1..] == text[1..][..i - 1];
  }

  /** The key index after a first character, then l more letters, is k advanced by all of them. */
  lemma KeyIndexStep(m: int, k: int, letter: bool, l: nat)
    requires 0 <= k < m
    ensures ((if letter then (k + 1) % m else k) + l) % m == (k + (if letter then 1 else 0) + l) % m
  {
    if letter {
      ModAddLeft(k + 1, l, m);
    }
  }

  /** With a repeated alphabet character the round trip fails: over "ABA" with key "B", "B" decodes back to "A". */
  lemma RepeatedCharacterBreaksRoundTrip()
    ensures VigenereError("ABA", "B") == None
    ensures EncodeText("ABA", "B", 0, "B") == "A"
    ensures DecodeText("ABA", "B", 0, "A") == "A"
  {
    assert UpperString("ABA") == "ABA" && UpperString("B") == "B";
    assert IndexOf("ABA", 'B') == 1 && IndexOf("ABA", 'A') == 0;
    assert EncodeLetter("ABA", 'B', 'B') == 'A';
    assert DecodeLetter("ABA", 'A', 'B') == 'A';
  }

  /**
   * With a character that has no case in the alphabet, a small letter can
   * encode to it and lose its case: over "A1" with key "1", "a" encodes to "1",
   * which decodes to "A".
   */
  lemma CaselessCharacterLosesCase()
    ensures VigenereError("A1", "1") == None
    ensures EncodeText("A1", "1", 0, "a") == "1"
    ensures DecodeText("A1", "1", 0, "1") == "A"
  {
    assert UpperString("A1") == "A1" && UpperString("1") == "1";
    assert IndexOf("A1", 'A') == 0 && IndexOf("A1", '1') == 1;
    assert EncodeLetter("A1", 'A', '1') == '1';
    assert DecodeLetter("A1", '1', '1') == 'A';
  }

  /** The Hungarian alphabet the program uses: for every key the constructor accepts, `Decode(Encode(s)) == s`. */
  lemma HungarianRoundTrip(key: string, text: string)
    requires VigenereError(CharacterHelper.HungarianAlphabet, key) == None
    ensures KeyFits(UpperString(CharacterHelper.HungarianAlphabet), UpperString(key))
    ensures var alphabet := UpperString(CharacterHelper.HungarianAlphabet);
      DecodeText(alphabet, UpperString(key), 0, EncodeText(alphabet, UpperString(key), 0, text)) == text
  {
    CharacterHelper.HungarianAlphabetUpper();
    CharacterHelper.HungarianAlphabetDistinct();
    UpperStringOfCapitals(CharacterHelper.HungarianAlphabet);
    DecodeEncode(CharacterHelper.HungarianAlphabet, UpperString(key), 0, text);
  }

  class VigenereEncryptor {
    const alphabetLength: int
    const alphabet: string
    const vigenereTable: array2<char>
    const key: string

    ghost predicate Valid()
      reads vigenereTable
    {
      && alphabetLength == |alphabet|
      && KeyFits(alphabet, key)
      && vigenereTable.Length0 == alphabetLength && vigenereTable.Length1 == alphabetLength
      && forall r, c :: 0 <= r < alphabetLength && 0 <= c < alphabetLength ==>
           vigenereTable[r, c] == alphabet[(r + c) % alphabetLength]
    }

    /** The constructor, for arguments it accepts; `TryCreate` models the refusals. */
    constructor (alphabet: string, key: string)
      requires VigenereError(alphabet, key) == None
      ensures Valid() && fresh(vigenereTable)
      ensures this.alphabet == UpperString(alphabet) && this.key == UpperString(key)
    {
      var upperAlphabet := UpperString(alphabet);
      var n := |upperAlphabet|;
      var table := new char[n, n];
      for rowIndex := 0 to n
        invariant forall r, c :: 0 <= r < rowIndex && 0 <= c < n ==> table[r, c] == upperAlphabet[(r + c) % n]
      {
        for columnIndex := 0 to n
          invariant forall r, c :: 0 <= r < rowIndex && 0 <= c < n ==> table[r, c] == upperAlphabet[(r + c) % n]
          invariant forall c :: 0 <= c < columnIndex ==> table[rowIndex, c] == upperAlphabet[(rowIndex + c) % n]
        {
          table[rowIndex, columnIndex] := upperAlphabet[(rowIndex + columnIndex) % n];
        }
      }
      alphabetLength := n;
      this.alphabet := upperAlphabet;
      vigenereTable := table;
      this.key := UpperString(key);
    }

    /** `new VigenereEncryptor(alphabet, key)`: either the encryptor, or the reason the constructor throws. */
    static method TryCreate(alphabet: string, key: string) returns (result: Result<VigenereEncryptor>)
      ensures result.Err? <==> VigenereError(alphabet, key) != None
      ensures result.Err? ==> Some(result.error) == VigenereError(alphabet, key)
      ensures result.Ok? ==>
        && fresh(result.value) && result.value.Valid()
        && result.value.alphabet == UpperString(alphabet) && result.value.key == UpperString(key)
    {
      var error := VigenereError(alphabet, key);
      if error.Some? {
        return Err(error.value);
      }
      var encryptor := new VigenereEncryptor(alphabet, key);
      return Ok(encryptor);
    }

    method Encode(input: string) returns (output: string)
      requires Valid()
      ensures output == EncodeText(alphabet, key, 0, input)
    {
      var keyIndex := 0;
      output := [];
      for i := 0 to |input|
        invariant 0 <= keyIndex < |key|
        invariant EncodeText(alphabet, key, 0, input) == output + EncodeText(alphabet, key, keyIndex, input[i..])
      {
        var character := input[i];
        var wasLower := IsLower(character);
        var upperCharacter := ToUpper(character);
        if upperCharacter !in alphabet {
          EncodeLoopStep(alphabet, key, input, i, keyIndex, output, character);
          output := output + [character];
          continue;
        }
        var characterIndex := IndexOf(alphabet, upperCharacter);
        var keyCharacterIndex := IndexOf(alphabet, key[keyIndex]);
        var encodedCharacter := vigenereTable[characterIndex, keyCharacterIndex];
        assert encodedCharacter == EncodeLetter(alphabet, upperCharacter, key[keyIndex]);
        encodedCharacter := RestoreCase(wasLower, encodedCharacter);
        EncodeLoopStep(alphabet, key, input, i, keyIndex, output, encodedCharacter);
        output := output + [encodedCharacter];
        keyIndex := (keyIndex + 1) % |key|;
      }
      assert input[|input|..] == [];
    }

    method Decode(input: string) returns (output: string)
      requires Valid()
      ensures output == DecodeText(alphabet, key, 0, input)
    {
      var keyIndex := 0;
      output := [];
      for i := 0 to |input|
        invariant 0 <= keyIndex < |key|
        invariant DecodeText(alphabet, key, 0, input) == output + DecodeText(alphabet, key, keyIndex, input[i..])
      {
        var character := input[i];
        var wasLower := IsLower(character);
        var upperCharacter := ToUpper(character);
        if upperCharacter !in alphabet {
          DecodeLoopStep(alphabet, key, input, i, keyIndex, output, character);
          output := output + [character];
          continue;
        }
        var keyCharacterIndex := IndexOf(alphabet, key[keyIndex]);
        var characterIndex := IndexOf(alphabet, upperCharacter);
        var decodedIndex := (characterIndex - keyCharacterIndex + alphabetLength) % alphabetLength;
        var decodedCharacter := alphabet[decodedIndex];
        decodedCharacter := RestoreCase(wasLower, decodedCharacter);
        DecodeLoopStep(alphabet, key, input, i, keyIndex, output, decodedCharacter);
        output := output + [decodedCharacter];
        keyIndex := (keyIndex + 1) % |key|;
      }
      assert input[|input|..] == [];
    }
  }
}
