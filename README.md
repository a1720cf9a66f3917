# CryptographyHomework ciphers in Dafny

This project models the two ciphers of the CryptographyHomework program, plus its
letter-frequency helper, and proves properties of the model.

**The Enigma simulator** is made of four parts:

- **Rotors.** Each rotor precomputes a forward offset table and a reverse offset table in its constructor. It keeps a current position that `Rotate` and `Reset` change.
- **A reflector.**
- **A plugboard.** It keeps a dictionary of plug pairs that `AddPlug` and `RemovePlug` change in place.
- **The machine.** It steps its three rotors like an odometer, with the double step of the middle rotor. It sends each letter through the plugboard, the three rotors, the reflector, the three rotors backwards and the plugboard again.

**The Vigenère encryptor** upper-cases its alphabet and key, checks the key and fills an n×n table. `Encode` and `Decode` walk the text with a cyclic key index. The index advances only on alphabet characters, and every other character is copied unchanged.

**`GetStringCharacterCounts`** counts, for each letter of the Hungarian alphabet, the characters of a string that upper-case to it.

## How the model is built

Each source entity takes the same form as in the C# code.

**Classes with state.** `Rotor`, `Plugboard`, `EnigmaMachine` and `VigenereEncryptor` are Dafny classes with the same fields:

- Rotor offsets are kept in `array<int>`.
- The Vigenère table is kept in an `array2<char>`.
- The plug dictionary is a `map<char, char>` field.

Their constructors, `BuildMaps` (the rotor constructor's loop), `Rotate`, `Reset`, `AddPlug`, `RemovePlug`, `StepRotors`, `EncodeCharacter`, `Run`, `Encode`, `Decode` and `GetStringCharacterCounts` are methods with the source's loops. Each method is proved against a function on values:

| method | function it is proved against |
|---|---|
| `BuildMaps` | `ForwardTable` and `ReverseTable` |
| `StepRotors` | `Stepped` |
| `EncodeCharacter` | `Signal` |
| `Run` | `Encipher` and `PositionsAfter` |
| `Encode` | `EncodeText` |
| `Decode` | `DecodeText` |
| `AddPlug` | `PlugAdded` |
| `RemovePlug` | `PlugRemoved` |

The properties of the source are then proved about those functions.

**The reflector** has only read-only fields, so it is a datatype.

**Constructors that throw.** An `ArgumentException` from a constructor is modelled in three parts:

- a validation function that returns the first failing check, in the source's order;
- a Dafny constructor that requires that function to return `None`;
- a `TryCreate` method that returns either the object or the error.

**Out-of-alphabet characters.** `IndexOf` returns -1 when a character is not in the alphabet, and the model follows that value through the C# arithmetic.

- `Reflect` then throws, which the model returns as `None`.
- A rotor computes the exit position `(-1 + map[index]) % n` with C#'s truncating `%`. This is -1, and so throws, exactly when the table entry read is 0 and n > 1. For n = 1, C#'s `-1 % 1` is 0 and `alphabet[0]` is returned (see `Rotors.GetMappedCharacter`).

**Character case.** The .NET case functions are modelled on:

- the ASCII letters;
- the Latin-1 letter pairs À–Þ / à–þ (without × and ÷);
- the Hungarian double-acute letters Ő/ő and Ű/ű.

Every other character has no case.

**Findings about the code, recorded as lemmas:**

- The rotor constructor's default ring and start character `'a'` is always refused for an alphabet of capitals (`DefaultRingRejected`).
- The reflector constructor accepts a wiring that is not an involution (`UncheckedInvolution`).
- `Swap` does not upper-case its input, although plugs are stored upper-cased (`SwapIsCaseSensitive`).
- The Vigenère round trip fails when the alphabet repeats a character (`RepeatedCharacterBreaksRoundTrip`).
- The Vigenère round trip also fails when the alphabet holds a character that has no case (`CaselessCharacterLosesCase`).
- For the Hungarian alphabet the program actually uses, the round trip holds for every key the constructor accepts, on every text built from characters the case table covers (`HungarianRoundTrip`).

## Model

| member | source | states |
|---|---|---|
| Chars.IsLower | CryptographyHomework/VigenereEncryptor.cs:48 | `char.IsLower`, which decides `wasLower` in `Encode`, `Decode` and `Run` (EnigmaMachine.cs:49): true only on the small letters of the modelled table, never on a capital; `ToUpper` maps exactly these letters to capitals |
| Chars.ToUpper | CryptographyHomework/VigenereEncryptor.cs:49 | a small letter becomes a capital; any other character is unchanged |
| Chars.ToLower | CryptographyHomework/VigenereEncryptor.cs:60 | a capital becomes a small letter that upper-cases back to it; any other character is unchanged |
| Chars.UpperIsStable | CryptographyHomework/VigenereEncryptor.cs:49 | upper-casing is idempotent and never yields a small letter |
| Chars.LowerRoundTrip | CryptographyHomework/VigenereEncryptor.cs:48-60 | for every small letter of the modelled case table, lower-casing its capital gives the letter back |
| Chars.RestoreCase | CryptographyHomework/VigenereEncryptor.cs:60 | applied to a capital e, `wasLower ? ToLower(e) : e` upper-cases back to e and is small exactly when `wasLower` |
| Chars.UpperString | CryptographyHomework/VigenereEncryptor.cs:17-18 | `string.ToUpper` keeps the length and leaves no small letter |
| Chars.UpperStringOfCapitals | CryptographyHomework/VigenereEncryptor.cs:17 | upper-casing a string of capitals leaves it unchanged |
| Chars.IndexOf | CryptographyHomework/Enigma/Rotor.cs:49-51 | `IndexOf` is -1 exactly when the character is absent, and otherwise a position holding it |
| Chars.IndexOfFirst | CryptographyHomework/Enigma/Rotor.cs:49-51 | `IndexOf` finds the first occurrence |
| Chars.IndexOfAt | CryptographyHomework/Enigma/Rotor.cs:96 | in a duplicate-free alphabet every character is found at its own position |
| Modular.Remainder | CryptographyHomework/Enigma/Rotor.cs:98 | C#'s `%` has the sign of the dividend and agrees with Euclidean `%` on non-negative dividends |
| Modular.MinusOneRemainder | CryptographyHomework/Enigma/Rotor.cs:98 | C#'s `-1 % n` is -1 for every n > 1 |
| CharacterHelper.HungarianAlphabetShape | CryptographyHomework/CharacterHelper.cs:5-7 | the Hungarian alphabet has 35 characters: the English alphabet followed by the nine accented capitals |
| CharacterHelper.HungarianAlphabetUpper | CryptographyHomework/CharacterHelper.cs:5-7 | every character of the Hungarian alphabet is a capital |
| CharacterHelper.HungarianAlphabetDistinct | CryptographyHomework/CharacterHelper.cs:5-7 | no character of the Hungarian alphabet is repeated |
| CharacterHelper.SumOccurrencesIsLetterCount | CryptographyHomework/CharacterHelper.cs:12-16 | over duplicate-free letters, the per-letter counts add up to the number of characters whose capital is one of the letters |
| CharacterHelper.GetStringCharacterCounts | CryptographyHomework/CharacterHelper.cs:9-19 | every key is a Hungarian letter; its count is the number of characters upper-casing to it and is at least 1; Hungarian letters that do not occur have no key; the counts sum to the number of characters whose capital is a Hungarian letter |
| Rotors.RotorError | CryptographyHomework/Enigma/Rotor.cs:17-45 | the constructor throws exactly when: the alphabet is empty; or the wiring's length differs; or a wiring character, the notch, the ring or the start character is outside the alphabet |
| Rotors.DefaultRingRejected | CryptographyHomework/Enigma/Rotor.cs:15-40 | membership is case-sensitive, so the default ring and start `'a'` are refused for an alphabet of capitals |
| Rotors.BackwardTableAt | CryptographyHomework/Enigma/Rotor.cs:56-60 | for a wiring without repeats, the reverse entry written in round i is never overwritten by a later round |
| Rotors.ReverseTableAt | CryptographyHomework/Enigma/Rotor.cs:56-60 | for a wiring without repeats, the reverse entry at the position contact i is wired to is `(n + i - wi) % n` |
| Rotors.ForwardMoves | CryptographyHomework/Enigma/Rotor.cs:58-59 | the forward table moves contact k to the position it is wired to |
| Rotors.BackwardMoves | CryptographyHomework/Enigma/Rotor.cs:58-60 | the reverse table moves that position back to contact k |
| Rotors.GetMappedCharacter | CryptographyHomework/Enigma/Rotor.cs:94-99 | an alphabet character maps to an alphabet character; a character outside the alphabet throws exactly when the entry read is 0 and n > 1; the result is always in the alphabet |
| Rotors.ForwardThenBackward | CryptographyHomework/Enigma/Rotor.cs:56-99 | when the wiring is a permutation, `Backward(Forward(c)) == c` at any fixed position |
| Rotors.BackwardThenForward | CryptographyHomework/Enigma/Rotor.cs:56-99 | when the wiring is a permutation, `Forward(Backward(c)) == c` at any fixed position |
| Rotors.RotationsAdvance | CryptographyHomework/Enigma/Rotor.cs:77-80 | k rotations advance the position by k modulo n |
| Rotors.FullTurn | CryptographyHomework/Enigma/Rotor.cs:77-80 | n rotations return the rotor to its position |
| Rotors.Rotor.constructor | CryptographyHomework/Enigma/Rotor.cs:15-62 | an accepted rotor stores the alphabet and the wiring; the notch, ring and start positions are the characters' indices; the current position is the start; the offset arrays hold the forward and reverse tables |
| Rotors.Rotor.BuildMaps | CryptographyHomework/Enigma/Rotor.cs:54-61 | the constructor's loop fills the arrays with exactly the forward and the reverse table |
| Rotors.Rotor.TryCreate | CryptographyHomework/Enigma/Rotor.cs:15-62 | construction fails with `RotorError`'s reason exactly when it reports one; otherwise it gives the rotor described for the constructor |
| Rotors.Rotor.Forward | CryptographyHomework/Enigma/Rotor.cs:67-70 | `Forward` is the mapped character under the forward table at the current position |
| Rotors.Rotor.Backward | CryptographyHomework/Enigma/Rotor.cs:72-75 | `Backward` is the mapped character under the reverse table at the current position |
| Rotors.Rotor.Rotate | CryptographyHomework/Enigma/Rotor.cs:77-80 | the position advances by one modulo n and stays in [0, n) |
| Rotors.Rotor.Reset | CryptographyHomework/Enigma/Rotor.cs:84-87 | the position returns to the start index |
| Reflectors.ReflectorError | CryptographyHomework/Enigma/Reflector.cs:10-23 | the constructor throws exactly when the alphabet is empty, the wiring's length differs, or a wiring character is outside the alphabet |
| Reflectors.NewReflector | CryptographyHomework/Enigma/Reflector.cs:8-29 | an accepted reflector keeps its alphabet and wiring verbatim, with no case change; otherwise the error is the one `ReflectorError` reports |
| Reflectors.Reflector.Reflect | CryptographyHomework/Enigma/Reflector.cs:31-35 | `Reflect` succeeds exactly on alphabet characters and then returns an alphabet character |
| Reflectors.ReflectAt | CryptographyHomework/Enigma/Reflector.cs:31-35 | over a duplicate-free alphabet, alphabet position i reflects to `wiring[i]` |
| Reflectors.PairedWiringIsInvolution | CryptographyHomework/Enigma/Reflector.cs:31-35 | a wiring that pairs positions up makes `Reflect(Reflect(c)) == c` |
| Reflectors.UncheckedInvolution | CryptographyHomework/Enigma/Reflector.cs:8-27 | the constructor accepts a wiring that is not an involution |
| Plugboards.SwapOf | CryptographyHomework/Enigma/Plugboard.cs:42-45 | `Swap` changes a character only if it is plugged, and on a symmetric board changes exactly the plugged ones |
| Plugboards.SwapTwice | CryptographyHomework/Enigma/Plugboard.cs:42-45 | on a symmetric board `Swap(Swap(c)) == c` |
| Plugboards.PlugAdded | CryptographyHomework/Enigma/Plugboard.cs:11-28 | after upper-casing: a self-plug or a plug touching an already plugged character is refused; otherwise both characters swap with each other, every other plug stays, and symmetry is kept |
| Plugboards.PlugRemoved | CryptographyHomework/Enigma/Plugboard.cs:30-40 | after upper-casing: if the first end is plugged to the second, both entries go and every other plug stays; otherwise nothing changes; symmetry is kept |
| Plugboards.RemoveUndoesAdd | CryptographyHomework/Enigma/Plugboard.cs:11-40 | removing the plug just added restores the board |
| Plugboards.RemoveEitherOrder | CryptographyHomework/Enigma/Plugboard.cs:30-40 | on a symmetric board a plug is removed whichever end is named first |
| Plugboards.SwapIsCaseSensitive | CryptographyHomework/Enigma/Plugboard.cs:11-45 | after `AddPlug('a', 'b')`, `Swap('A') == 'B'` but `Swap('a') == 'a'` |
| Plugboards.Plugboard.constructor | CryptographyHomework/Enigma/Plugboard.cs:9 | a new board has no plugs |
| Plugboards.Plugboard.AddPlug | CryptographyHomework/Enigma/Plugboard.cs:11-28 | the board becomes `PlugAdded`'s result, or stays unchanged with the error; symmetry is kept |
| Plugboards.Plugboard.RemovePlug | CryptographyHomework/Enigma/Plugboard.cs:30-40 | the board becomes `PlugRemoved`'s result and stays symmetric |
| Plugboards.Plugboard.Swap | CryptographyHomework/Enigma/Plugboard.cs:42-45 | `Swap` on the board's current plugs |
| Enigma.Starts | CryptographyHomework/Enigma/EnigmaMachine.cs:66-72 | the start positions are valid rotor positions |
| Enigma.Stepped | CryptographyHomework/Enigma/EnigmaMachine.cs:122-135 | the right rotor always advances; the middle advances if and only if it or the right rotor was notched; the left advances if and only if the middle was notched |
| Enigma.Signal | CryptographyHomework/Enigma/EnigmaMachine.cs:101-120 | the signal path only throws when the plugboard sends the character outside the alphabet; with plugs inside the alphabet, a letter always comes out as a letter |
| Enigma.Encipher | CryptographyHomework/Enigma/EnigmaMachine.cs:43-64 | the output has the input's length; every character whose capital is outside the alphabet is copied unchanged; with plugs inside the alphabet, `Run` never throws |
| Enigma.PositionsAfter | CryptographyHomework/Enigma/EnigmaMachine.cs:43-64 | the rotor positions after a run stay valid |
| Enigma.LettersPassThrough | CryptographyHomework/Enigma/EnigmaMachine.cs:43-64 | non-letters are copied without stepping the rotors: with plugs inside the alphabet, enciphering only the letters of a text gives exactly the letters of its encipherment |
| Enigma.RightRotorCounts | CryptographyHomework/Enigma/EnigmaMachine.cs:43-64 | after a run over text with m alphabet characters, the right rotor is at `(start + m) mod n` |
| Enigma.EncipherKeepsCase | CryptographyHomework/Enigma/EnigmaMachine.cs:49-58 | over an alphabet of capitals, each output character is small, or a capital, exactly when the input character is |
| Enigma.FirstKeepsCase | CryptographyHomework/Enigma/EnigmaMachine.cs:49-58 | the same for the first character |
| Enigma.SignalInvolution | CryptographyHomework/Enigma/EnigmaMachine.cs:101-120 | at fixed positions, the signal path sends the letter it produces back to the original letter. This needs permutation rotors, an involutive reflector, and a symmetric board with plugs inside the alphabet |
| Enigma.LetterReciprocity | CryptographyHomework/Enigma/EnigmaMachine.cs:49-58 | at fixed positions, enciphering a letter and then its result gives the letter back, in its own case |
| Enigma.Reciprocity | CryptographyHomework/Enigma/EnigmaMachine.cs:43-64 | self-reciprocity: from the same start positions, `Run(Run(t)) == t` |
| Enigma.MachineError | CryptographyHomework/Enigma/EnigmaMachine.cs:14-33 | the constructor throws exactly when the alphabet is empty, there are not three rotors, or a rotor's or the reflector's alphabet differs from the upper-cased machine alphabet |
| Enigma.EnigmaMachine.constructor | CryptographyHomework/Enigma/EnigmaMachine.cs:12-39 | an accepted machine keeps the upper-cased alphabet and its rotors, reflector and plugboard |
| Enigma.EnigmaMachine.TryCreate | CryptographyHomework/Enigma/EnigmaMachine.cs:12-39 | construction fails with `MachineError`'s reason exactly when it reports one |
| Enigma.EnigmaMachine.StepRotors | CryptographyHomework/Enigma/EnigmaMachine.cs:122-135 | the rotor positions become `Stepped` of the old ones; the setting is unchanged |
| Enigma.EnigmaMachine.EncodeCharacter | CryptographyHomework/Enigma/EnigmaMachine.cs:101-120 | the rotors step, then the result is `Signal` at the new positions |
| Enigma.EnigmaMachine.Reset | CryptographyHomework/Enigma/EnigmaMachine.cs:66-72 | every rotor returns to its start position; the setting is unchanged |
| Enigma.EnigmaMachine.Run | CryptographyHomework/Enigma/EnigmaMachine.cs:43-64 | the output is `Encipher` from the start positions, whatever the positions were before, and the rotors end at `PositionsAfter` |
| Vigenere.VigenereError | CryptographyHomework/VigenereEncryptor.cs:14-26 | the constructor throws exactly when the alphabet or the key is empty, or an upper-cased key character is outside the upper-cased alphabet. The first failing check is reported |
| Vigenere.EncodeLetter | CryptographyHomework/VigenereEncryptor.cs:56-59 | the table entry for two alphabet characters is an alphabet character |
| Vigenere.DecodeLetter | CryptographyHomework/VigenereEncryptor.cs:84-88 | the decoded character is an alphabet character |
| Vigenere.EncodeText | CryptographyHomework/VigenereEncryptor.cs:42-68 | the encoded text has the input's length |
| Vigenere.DecodeText | CryptographyHomework/VigenereEncryptor.cs:70-97 | the decoded text has the input's length |
| Vigenere.DecodeEncodeLetter | CryptographyHomework/VigenereEncryptor.cs:56-88 | over a duplicate-free alphabet, decoding a letter with the same key character undoes encoding it |
| Vigenere.EncodeDecodeLetter | CryptographyHomework/VigenereEncryptor.cs:56-88 | over a duplicate-free alphabet, encoding undoes decoding |
| Vigenere.DecodeEncodeCharacter | CryptographyHomework/VigenereEncryptor.cs:48-89 | over distinct capitals, the encoded character is decoded back to the original, case included |
| Vigenere.EncodeDecodeCharacter | CryptographyHomework/VigenereEncryptor.cs:48-89 | the same with decoding first |
| Vigenere.DecodeEncode | CryptographyHomework/VigenereEncryptor.cs:42-97 | `Decode(Encode(s)) == s` over an alphabet of distinct capitals |
| Vigenere.EncodeDecode | CryptographyHomework/VigenereEncryptor.cs:42-97 | `Encode(Decode(s)) == s` over an alphabet of distinct capitals |
| Vigenere.EncodeAt | CryptographyHomework/VigenereEncryptor.cs:46-64 | output character i: a non-alphabet character is copied; otherwise it is the table entry for its capital and the key character reached after one cyclic step per earlier alphabet character, in the input's case |
| Vigenere.DecodeAt | CryptographyHomework/VigenereEncryptor.cs:74-93 | output character i: a non-alphabet character is copied; otherwise it is `alphabet[(c - k + n) % n]` with the key index advanced once per earlier alphabet character, in the input's case |
| Vigenere.EncodeKeepsCase | CryptographyHomework/VigenereEncryptor.cs:48-60 | over an alphabet of capitals, an encoded letter is small exactly when the input letter is |
| Vigenere.DecodeKeepsCase | CryptographyHomework/VigenereEncryptor.cs:76-89 | the same for decoding |
| Vigenere.RepeatedCharacterBreaksRoundTrip | CryptographyHomework/VigenereEncryptor.cs:42-97 | over alphabet "ABA" (accepted with key "B"), "B" encodes to "A", which decodes to "A" |
| Vigenere.CaselessCharacterLosesCase | CryptographyHomework/VigenereEncryptor.cs:42-97 | over alphabet "A1" (accepted with key "1"), "a" encodes to "1", which decodes to "A" |
| Vigenere.HungarianRoundTrip | CryptographyHomework/Program.cs:99-102 | with the Hungarian alphabet, every key the constructor accepts gives `Decode(Encode(s)) == s` for every text s over the modelled case table |
| Vigenere.VigenereEncryptor.constructor | CryptographyHomework/VigenereEncryptor.cs:12-40 | the table entry at [r, c] is `alphabet[(r + c) mod n]` for every r and c in [0, n); the alphabet and key are stored upper-cased |
| Vigenere.VigenereEncryptor.TryCreate | CryptographyHomework/VigenereEncryptor.cs:12-40 | construction fails with `VigenereError`'s reason exactly when it reports one |
| Vigenere.VigenereEncryptor.Encode | CryptographyHomework/VigenereEncryptor.cs:42-68 | the table-driven loop computes `EncodeText` from key index 0 |
| Vigenere.VigenereEncryptor.Decode | CryptographyHomework/VigenereEncryptor.cs:70-97 | the loop computes `DecodeText` from key index 0 |

## Left out

- Case mapping: `char.ToUpper`, `char.ToLower` and `char.IsLower` follow .NET only on the letters listed above. Culture-specific and other Unicode case mappings are not modelled.
- Case of ß, ÿ and µ: .NET's `char.IsLower` is true for the Latin-1 small letters ß (U+00DF), ÿ (U+00FF) and µ (U+00B5), whose `char.ToUpper` is 'ß', 'Ÿ' (U+0178) and 'Μ' (U+039C). The model treats all three as caseless. So `wasLower` is wrong for them, and `ToUpper('ÿ')` and `ToUpper('µ')` are wrong too. For an alphabet that contains ß itself, such as "ßA" with key "A", .NET encodes "ß" to "a", while the model gives "A". Alphabets of capitals, the Hungarian one among them, and every lemma that requires one are unaffected.
- UTF-16: Dafny strings are sequences of Unicode scalar values, while C#'s `foreach`, `IndexOf` and `Contains` walk UTF-16 code units. An alphabet, key or text holding a character outside the Basic Multilingual Plane, which C# sees as two surrogate units, is not modelled with C#'s behaviour.
- Null arguments: `ThrowIfNull` and the null half of `ThrowIfNullOrEmpty` have no counterpart, because Dafny strings and object references here are never null.
- 32-bit `int` arithmetic is not modelled. Each Vigenère index sum stays below twice the alphabet length, and each count in `CharacterHelper` is at most a string's length. Neither can overflow, because a .NET string has fewer than 2^30 characters.
- Rotors.GetMappedCharacter: the rotor's entry sum `characterIndex + _currentIndex - _ringOffset + _alphabet.Length` (Rotor.cs:97) can reach 3n - 2. It exceeds `int.MaxValue` once the alphabet has at least 715,827,884 characters. Such a rotor can be built, for example from alphabet `'A'×(n−1)+"B"` and wiring `'A'×n`. For it, C# wraps the sum to a negative index and throws `IndexOutOfRangeException`, while the model computes with unbounded integers and returns a character. The model is faithful only for alphabets shorter than 715,827,884 characters.
- Display code is not modelled, because it is presentation only:
  - every `ToString` override;
  - `Rotor.CurrentTop`;
  - `VigenereEncryptor.GetTableString` and its `Append*` helpers;
  - `CharacterHelper.PrintCharacterCounts`.
- `Program.cs` is not part of this model (console and file I/O, and the `CreateEnigmaM3` factory built on rotor and reflector catalogs). The only exception is the Hungarian alphabet that `CreateVigenere` passes, used in `Vigenere.HungarianRoundTrip`.
- Rotor list by reference: `EnigmaMachine` keeps the caller's `List<Rotor>` itself (EnigmaMachine.cs:36), so adding, removing or replacing list entries later changes the machine. The model stores the rotors as a `seq<Rotor>` value, which later edits of a list cannot reach.
- Rotor sharing: the machine's three rotors must be distinct objects. A machine built from one `Rotor` object used twice, or rotors changed by other code between calls, is not modelled.
- `Plugboard` is modelled as a standalone class held by the machine. The source declares it both nested in `EnigmaMachine` and as a public property, inconsistently.
- Enigma.EnigmaMachine.Run: when a character throws part-way through, the model returns `None` and states nothing about the rotor positions left behind.
- `IsNotched` is the predicate `currentIndex == notchIndex`. It has no contract of its own, and `Stepped` states how it drives the stepping.
- Enigma.Reciprocity: proved only for:
  - duplicate-free alphabets of capitals;
  - rotor wirings that are permutations;
  - an involutive reflector;
  - a symmetric plugboard whose plugs lie inside the alphabet.

  The constructors check none of these, and `UncheckedInvolution` shows one that fails.
- Vigenere.DecodeEncode: proved only for duplicate-free alphabets of capitals. The constructor checks neither condition, and `RepeatedCharacterBreaksRoundTrip` and `CaselessCharacterLosesCase` show the round trip failing without them.
- Enigma.Reciprocity: the round trip also needs every small letter of the text whose capital is in the alphabet to lower back to itself from that capital. The case table meets this for every letter it covers, but .NET does not in general: `char.ToUpper('ſ')` (U+017F) is 'S' and `char.ToLower('S')` is 's', so over an alphabet containing S, `Run(Run("ſ"))` is "s". Such letters are outside the modelled case table.
- Vigenere.DecodeEncode: the same condition on small letters is needed. With 'ſ' in the text and S in the alphabet, `Decode(Encode("ſ"))` is "s" in .NET; the model does not capture this.
- Vigenere.HungarianRoundTrip: holds only for texts whose small letters lower back to themselves from their capital. The Hungarian alphabet contains S, so a text containing 'ſ' (U+017F) does not come back unchanged in .NET.
- Vigenere.EncodeDecode: the same condition on small letters is needed in this direction.
- Enigma.LetterReciprocity: this per-character round trip rests on `Chars.LowerRoundTrip`, which holds on the modelled case table but not for .NET letters such as 'ſ'.
- Vigenere.DecodeEncodeCharacter: this per-character round trip rests on `Chars.LowerRoundTrip`, which holds on the modelled case table but not for .NET letters such as 'ſ'.
- Vigenere.EncodeDecodeCharacter: this per-character round trip rests on `Chars.LowerRoundTrip`, which holds on the modelled case table but not for .NET letters such as 'ſ'.
- Chars.LowerRoundTrip: true of the modelled case table only. In .NET, 'ſ' (U+017F) is a small letter whose capital 'S' lowers to 's'; the table leaves it out.
