/**
 * The Enigma machine: three rotors, a reflector and a plugboard over one
 * alphabet. The functions give the machine's behaviour on its fixed setting and
 * the rotor positions; the class `EnigmaMachine` drives the rotor objects and is
 * proved against them.
 */
module Enigma {
  import opened Chars
  import opened Outcomes
  import opened Modular
  import opened Rotors
  import opened Reflectors
  import opened Plugboards

  /** What a machine does not change while it runs: its alphabet, rotor settings (left, middle, right), reflector and plugs. */
  datatype MachineSetting = MachineSetting(alphabet: string, rotors: seq<RotorSetting>, reflector: Reflector, swaps: map<char, char>)

  ghost predicate WellFormed(m: MachineSetting) {
    && |m.rotors| == 3
    && (forall i :: 0 <= i < 3 ==> SettingFits(m.alphabet, m.rotors[i]))
    && m.reflector.Valid() && m.reflector.alphabet == m.alphabet
  }

  /** The current positions of the left, middle and right rotor. */
  ghost predicate PositionsFit(m: MachineSetting, p: seq<int>) {
    |p| == 3 && forall i :: 0 <= i < 3 ==> 0 <= p[i] < |m.alphabet|
  }

  /** Every plug joins two characters of the alphabet (`AddPlug` does not check this). */
  ghost predicate PlugsInside(m: MachineSetting) {
    forall c :: c in m.swaps ==> c in m.alphabet && m.swaps[c] in m.alphabet
  }

  /** The conditions under which the machine deciphers what it enciphers. */
  ghost predicate Reciprocal(m: MachineSetting) {
    && WellFormed(m)
    && NoDuplicates(m.alphabet) && AllUpper(m.alphabet)
    && (forall i :: 0 <= i < 3 ==> IsPermutation(m.rotors[i].wiring, m.alphabet))
    && m.reflector.IsInvolution()
    && Symmetric(m.swaps) && PlugsInside(m)
  }

  /** The start positions `Reset` returns the rotors to. */
  function Starts(m: MachineSetting): (p: seq<int>)
    requires WellFormed(m)
    ensures PositionsFit(m, p)
  {
    [m.rotors[0].start, m.rotors[1].start, m.rotors[2].start]
  }

  /**
   * `StepRotors`: the right rotor always advances; the middle rotor advances when
   * the right one is at its notch or when it is at its own notch (the double
   * step); the left rotor advances when the middle one is at its notch.
   */
  function Stepped(m: MachineSetting, p: seq<int>): (q: seq<int>)
    requires WellFormed(m) && PositionsFit(m, p)
    ensures PositionsFit(m, q)
    ensures q[2] == (p[2] + 1) % |m.alphabet|
    ensures q[1] == if p[1] == m.rotors[1].notch || p[2] == m.rotors[2].notch then (p[1] + 1) % |m.alphabet| else p[1]
    ensures q[0] == if p[1] == m.rotors[1].notch then (p[0] + 1) % |m.alphabet| else p[0]
  {
    var n := |m.alphabet|;
    if p[1] == m.rotors[1].notch then [(p[0] + 1) % n, (p[1] + 1) % n, (p[2] + 1) % n]
    else if p[2] == m.rotors[2].notch then [p[0], (p[1] + 1) % n, (p[2] + 1) % n]
    else [p[0], p[1], (p[2] + 1) % n]
  }

  /**
   * The path of one signal at rotor positions q, after stepping: plugboard, right,
   * middle and left rotor forward, reflector, left, middle and right rotor
   * backward, plugboard. The first rotor can be reached by a character outside
   * the alphabet (through a plug), and may then throw (None); past it every
   * character is one of the alphabet.
   */
  function Signal(m: MachineSetting, q: seq<int>, c: char): (r: Option<char>)
    requires WellFormed(m) && PositionsFit(m, q)
    ensures r.None? ==> SwapOf(m.swaps, c) !in m.alphabet
    ensures PlugsInside(m) && c in m.alphabet ==> r.Some? && r.value in m.alphabet
  {
    var a := m.alphabet;
    match RotorForward(a, m.rotors[2], q[2], SwapOf(m.swaps, c))
    case None => None
    case Some(x2) =>
      var x1 := RotorForward(a, m.rotors[1], q[1], x2).value;
      var x0 := RotorForward(a, m.rotors[0], q[0], x1).value;
      var y := m.reflector.Reflect(x0).value;
      var y0 := RotorBackward(a, m.rotors[0], q[0], y).value;
      var y1 := RotorBackward(a, m.rotors[1], q[1], y0).value;
      var y2 := RotorBackward(a, m.rotors[2], q[2], y1).value;
      Some(SwapOf(m.swaps, y2))
  }

  /** Prepends a character to a text that may be missing because the machine threw. */
  function Prepend(c: char, rest: Option<string>): (r: Option<string>)
    ensures r.Some? <==> rest.Some?
    ensures r.Some? ==> |r.value| == |rest.value| + 1 && r.value[0] == c && r.value[1..] == rest.value
  {
    if rest.None? then None else Some([c] + rest.value)
  }

  /**
   * `Run` from rotor positions p: a character whose capital is not in the
   * alphabet is copied and does not step the rotors; any other character steps
   * them, is enciphered as its capital and keeps its case. None when the machine
   * throws.
   */
  function Encipher(m: MachineSetting, p: seq<int>, text: string): (r: Option<string>)
    requires WellFormed(m) && PositionsFit(m, p)
    ensures r.Some? ==> |r.value| == |text|
    ensures r.Some? ==> forall i :: 0 <= i < |text| && ToUpper(text[i]) !in m.alphabet ==> r.value[i] == text[i]
    ensures PlugsInside(m) ==> r.Some?
    decreases |text|
  {
    if text == [] then Some([])
    else
      var c := text[0];
      var rest := text[1..];
      var r := if ToUpper(c) !in m.alphabet then Prepend(c, Encipher(m, p, rest))
        else
          var q := Stepped(m, p);
          match Signal(m, q, ToUpper(c))
          case None => None
          case Some(e) => Prepend(RestoreCase(IsLower(c), e), Encipher(m, q, rest));
      assert r.Some? ==> forall i :: 1 <= i < |text| ==> r.value[i] == r.value[1..][i - 1] && text[i] == rest[i - 1];
      r
  }

  /** The rotor positions after `Run` from p has enciphered the whole text: each letter steps them once. */
  function PositionsAfter(m: MachineSetting, p: seq<int>, text: string): (q: seq<int>)
    requires WellFormed(m) && PositionsFit(m, p)
    ensures PositionsFit(m, q)
    decreases |text|
  {
    if text == [] then p
    else if ToUpper(text[0]) !in m.alphabet then PositionsAfter(m, p, text[1..])
    else PositionsAfter(m, Stepped(m, p), text[1..])
  }

  /** Each letter steps the right rotor once and nothing else does. */
  lemma {:induction false} RightRotorCounts(m: MachineSetting, p: seq<int>, text: string)
    requires WellFormed(m) && PositionsFit(m, p)
    ensures PositionsAfter(m, p, text)[2] == (p[2] + LetterCount(m.alphabet, text)) % |m.alphabet|
    decreases |text|
  {
    var n := |m.alphabet|;
    if text == [] {
      Wrap(p[2], n);
    } else if ToUpper(text[0]) !in m.alphabet {
      RightRotorCounts(m, p, text[1..]);
    } else {
      var q := Stepped(m, p);
      RightRotorCounts(m, q, text[1..]);
      AdvanceCount(n, p[2], q[2], LetterCount(m.alphabet, text[1..]), LetterCount(m.alphabet, text));
    }
  }

  /**
   * Over an alphabet of capitals whose plugs stay inside it, every output
   * character has the case of the input character: a small letter is enciphered
   * to a small letter and a capital to a capital.
   */
  lemma {:induction false} EncipherKeepsCase(m: MachineSetting, p: seq<int>, text: string, out: string, i: int)
    requires WellFormed(m) && PositionsFit(m, p) && PlugsInside(m) && AllUpper(m.alphabet)
    requires Encipher(m, p, text) == Some(out) && 0 <= i < |text|
    ensures IsLower(out[i]) == IsLower(text[i]) && IsUpper(out[i]) == IsUpper(text[i])
    decreases i
  {
    if i == 0 {
      FirstKeepsCase(m, p, text, out);
    } else {
      var next := if ToUpper(text[0]) in m.alphabet then Stepped(m, p) else p;
      EncipherStep(m, p, text);
      assert Encipher(m, next, text[1..]) == Some(out[1..]);
      EncipherKeepsCase(m, next, text[1..], out[1..], i - 1);
      assert out[1..][i - 1] == out[i] && text[1..][i - 1] == text[i];
    }
  }

  /** `EncipherKeepsCase` for the first character. */
  lemma FirstKeepsCase(m: MachineSetting, p: seq<int>, text: string, out: string)
    requires WellFormed(m) && PositionsFit(m, p) && PlugsInside(m) && AllUpper(m.alphabet)
    requires Encipher(m, p, text) == Some(out) && text != []
    ensures IsLower(out[0]) == IsLower(text[0]) && IsUpper(out[0]) == IsUpper(text[0])
  {
    var c := text[0];
    EncipherStep(m, p, text);
    if ToUpper(c) in m.alphabet {
      var e := Signal(m, Stepped(m, p), ToUpper(c)).value;
      assert out[0] == RestoreCase(IsLower(c), e);
      assert IsUpper(m.alphabet[IndexOf(m.alphabet, e)]);
      if !IsLower(c) {
        assert IsUpper(m.alphabet[IndexOf(m.alphabet, c)]);
      }
    }
  }

  /**
   * Non-letters pass through without touching the rotors: enciphering only the
   * letters of `text` gives exactly the letters of its encipherment. The
   * alphabet has no small letter, as the constructor upper-cases it, and the
   * plugs stay inside it, so every letter is enciphered to a letter.
   */
  lemma {:induction false} LettersPassThrough(m: MachineSetting, p: seq<int>, text: string, out: string)
    requires WellFormed(m) && PositionsFit(m, p) && PlugsInside(m)
    requires forall c :: c in m.alphabet ==> !IsLower(c)
    requires Encipher(m, p, text) == Some(out)
    ensures Encipher(m, p, LettersOf(m.alphabet, text)) == Some(LettersOf(m.alphabet, out))
    decreases |text|
  {
    if text != [] {
      var c := text[0];
      EncipherStep(m, p, text);
      if ToUpper(c) !in m.alphabet {
        assert Encipher(m, p, text[1..]) == Some(out[1..]);
        LettersPassThrough(m, p, text[1..], out[1..]);
        assert out == [c] + out[1..];
      } else {
        var q := Stepped(m, p);
        var e := Signal(m, q, ToUpper(c)).value;
        assert e in m.alphabet;
        assert Encipher(m, q, text[1..]) == Some(out[1..]);
        LettersPassThrough(m, q, text[1..], out[1..]);
        UpperOfRestored(IsLower(c), e);
        var letters := LettersOf(m.alphabet, text);
        assert letters == [c] + LettersOf(m.alphabet, text[1..]);
        assert letters[0] == c && letters[1..] == LettersOf(m.alphabet, text[1..]);
        EncipherStep(m, p, letters);
        assert out == [out[0]] + out[1..] && out[0] == RestoreCase(IsLower(c), e);
      }
    }
  }

  /** One step then l more advance the position by 1 + l. */
  lemma AdvanceCount(n: int, a: int, b: int, l: int, total: int)
    requires n > 0 && b == (a + 1) % n && total == 1 + l
    ensures (b + l) % n == (a + total) % n
  {
    ModAddLeft(a + 1, l, n);
  }

  /** The reflector sends x0 to y, and y back to x0. */
  lemma ReflectBack(m: MachineSetting, x0: char)
    requires Reciprocal(m) && x0 in m.alphabet
    ensures m.reflector.Reflect(m.reflector.Reflect(x0).value) == Some(x0)
  {
  }

  /**
   * At fixed rotor positions the signal path is an involution on the alphabet:
   * the character a letter is enciphered to is enciphered back to the letter.
   */
  lemma SignalInvolution(m: MachineSetting, q: seq<int>, c: char)
    requires Reciprocal(m) && PositionsFit(m, q) && c in m.alphabet
    ensures Signal(m, q, c).Some? && Signal(m, q, Signal(m, q, c).value) == Some(c)
  {
    var a, r := m.alphabet, m.rotors;
    var s := SwapOf(m.swaps, c);
    var x2 := RotorForward(a, r[2], q[2], s).value;
    var x1 := RotorForward(a, r[1], q[1], x2).value;
    var x0 := RotorForward(a, r[0], q[0], x1).value;
    var y := m.reflector.Reflect(x0).value;
    var y0 := RotorBackward(a, r[0], q[0], y).value;
    var y1 := RotorBackward(a, r[1], q[1], y0).value;
    var y2 := RotorBackward(a, r[2], q[2], y1).value;
    var e := SwapOf(m.swaps, y2);
    assert Signal(m, q, c) == Some(e);
    SwapTwice(m.swaps, y2);
    BackwardThenForward(a, r[2], q[2], y1);
    BackwardThenForward(a, r[1], q[1], y0);
    BackwardThenForward(a, r[0], q[0], y);
    ReflectBack(m, x0);
    ForwardThenBackward(a, r[0], q[0], x1);
    ForwardThenBackward(a, r[1], q[1], x2);
    ForwardThenBackward(a, r[2], q[2], s);
    SwapTwice(m.swaps, c);
  }

  /**
   * The machine is self-reciprocal: run from the same rotor positions, it turns
   * the enciphered text back into the original, case included.
   */
  lemma {:induction false} Reciprocity(m: MachineSetting, p: seq<int>, text: string)
    requires Reciprocal(m) && PositionsFit(m, p)
    ensures Encipher(m, p, text).Some? && Encipher(m, p, Encipher(m, p, text).value) == Some(text)
    decreases |text|
  {
    if text != [] {
      var c, rest := text[0], text[1..];
      assert text == [c] + rest;
      EncipherStep(m, p, text);
      var out := Encipher(m, p, text).value;
      EncipherStep(m, p, out);
      if ToUpper(c) !in m.alphabet {
        Reciprocity(m, p, rest);
      } else {
        var q := Stepped(m, p);
        LetterReciprocity(m, q, c);
        Reciprocity(m, q, rest);
      }
    }
  }

  /**
   * One letter: enciphering it and then its result at the same rotor positions
   * gives the letter back, in its own case.
   */
  lemma LetterReciprocity(m: MachineSetting, q: seq<int>, c: char)
    requires Reciprocal(m) && PositionsFit(m, q) && ToUpper(c) in m.alphabet
    ensures Signal(m, q, ToUpper(c)).Some?
    ensures var d := RestoreCase(IsLower(c), Signal(m, q, ToUpper(c)).value);
      && ToUpper(d) in m.alphabet && Signal(m, q, ToUpper(d)).Some?
      && RestoreCase(IsLower(d), Signal(m, q, ToUpper(d)).value) == c
  {
    var u := ToUpper(c);
    SignalInvolution(m, q, u);
    var e := Signal(m, q, u).value;
    var k := IndexOf(m.alphabet, e);
    assert IsUpper(m.alphabet[k]);
    if IsLower(c) {
      LowerRoundTrip(c);
    }
  }

  /** The checks of the EnigmaMachine constructor, in order, on the rotors' and reflector's alphabets. */
  function MachineError(alphabet: string, rotorAlphabets: seq<string>, reflectorAlphabet: string): (e: Option<ArgumentError>)
    ensures e == None <==>
      && |alphabet| > 0
      && |rotorAlphabets| == 3
      && (forall i :: 0 <= i < 3 ==> rotorAlphabets[i] == UpperString(alphabet))
      && reflectorAlphabet == UpperString(alphabet)
  {
    if |alphabet| == 0 then Some(EmptyAlphabet)
    else if |rotorAlphabets| != 3 then Some(RotorCount)
    else
      var upper := UpperString(alphabet);
      if exists i | 0 <= i < 3 :: rotorAlphabets[i] != upper then Some(RotorAlphabetMismatch)
      else if reflectorAlphabet != upper then Some(ReflectorAlphabetMismatch)
      else None
  }

  function RotorAlphabets(rotors: seq<Rotor>): (r: seq<string>)
    ensures |r| == |rotors| && forall i :: 0 <= i < |rotors| ==> r[i] == rotors[i].alphabet
  {
    seq(|rotors|, i requires 0 <= i < |rotors| => rotors[i].alphabet)
  }

  ghost predicate Distinct(rotors: seq<Rotor>) {
    forall i, j :: 0 <= i < j < |rotors| ==> rotors[i] != rotors[j]
  }

  class EnigmaMachine {
    const alphabet: string
    /** Left, middle and right rotor. */
    const rotors: seq<Rotor>
    const reflector: Reflector
    /** The `Plugboard` property. */
    const plugboard: Plugboard

    ghost predicate Valid()
      reads this, plugboard, rotors
      reads if |rotors| == 3 then {rotors[0].forwardMap, rotors[1].forwardMap, rotors[2].forwardMap} else {}
      reads if |rotors| == 3 then {rotors[0].reverseMap, rotors[1].reverseMap, rotors[2].reverseMap} else {}
    {
      && |rotors| == 3
      && rotors[0] != rotors[1] && rotors[0] != rotors[2] && rotors[1] != rotors[2]
      && rotors[0].Valid() && rotors[1].Valid() && rotors[2].Valid()
      && rotors[0].alphabet == alphabet && rotors[1].alphabet == alphabet && rotors[2].alphabet == alphabet
      && reflector.Valid() && reflector.alphabet == alphabet
      && plugboard.Valid()
    }

    ghost function Setting(): (m: MachineSetting)
      reads this, plugboard
      requires |rotors| == 3
    {
      MachineSetting(alphabet, [rotors[0].Setting(), rotors[1].Setting(), rotors[2].Setting()], reflector, plugboard.swaps)
    }

    ghost function Positions(): seq<int>
      reads this, rotors
      requires |rotors| == 3
    {
      [rotors[0].currentIndex, rotors[1].currentIndex, rotors[2].currentIndex]
    }

    lemma ValidSetting()
      requires Valid()
      ensures WellFormed(Setting()) && PositionsFit(Setting(), Positions()) && Symmetric(Setting().swaps)
    {
      assert rotors[0].Valid() && rotors[1].Valid() && rotors[2].Valid();
    }

    /** The constructor, for arguments it accepts; `TryCreate` models the refusals. */
    constructor (alphabet: string, rotors: seq<Rotor>, reflector: Reflector, plugboard: Plugboard)
      requires MachineError(alphabet, RotorAlphabets(rotors), reflector.alphabet) == None
      requires forall i :: 0 <= i < |rotors| ==> rotors[i].Valid()
      requires Distinct(rotors) && reflector.Valid() && plugboard.Valid()
      ensures Valid()
      ensures this.alphabet == UpperString(alphabet) && this.rotors == rotors
      ensures this.reflector == reflector && this.plugboard == plugboard
    {
      this.alphabet := UpperString(alphabet);
      this.rotors := rotors;
      this.reflector := reflector;
      this.plugboard := plugboard;
    }

    /** `new EnigmaMachine(...)`: either the machine, or the reason the constructor throws. */
    static method TryCreate(alphabet: string, rotors: seq<Rotor>, reflector: Reflector, plugboard: Plugboard)
      returns (result: Result<EnigmaMachine>)
      requires forall i :: 0 <= i < |rotors| ==> rotors[i].Valid()
      requires Distinct(rotors) && reflector.Valid() && plugboard.Valid()
      ensures result.Err? <==> MachineError(alphabet, RotorAlphabets(rotors), reflector.alphabet) != None
      ensures result.Err? ==> Some(result.error) == MachineError(alphabet, RotorAlphabets(rotors), reflector.alphabet)
      ensures result.Ok? ==>
        && fresh(result.value) && result.value.Valid()
        && result.value.alphabet == UpperString(alphabet) && result.value.rotors == rotors
        && result.value.reflector == reflector && result.value.plugboard == plugboard
    {
      var error := MachineError(alphabet, RotorAlphabets(rotors), reflector.alphabet);
      if error.Some? {
        return Err(error.value);
      }
      var machine := new EnigmaMachine(alphabet, rotors, reflector, plugboard);
      return Ok(machine);
    }

    method StepRotors()
      requires Valid()
      modifies rotors
      ensures Valid() && Setting() == old(Setting())
      ensures Positions() == Stepped(Setting(), old(Positions()))
    {
      ValidSetting();
      if rotors[1].IsNotched() {
        rotors[0].Rotate();
        rotors[1].Rotate();
      } else if rotors[2].IsNotched() {
        rotors[1].Rotate();
      }
      rotors[2].Rotate();
      assert rotors[0].Valid() && rotors[1].Valid() && rotors[2].Valid();
    }

    method EncodeCharacter(character: char) returns (encoded: Option<char>)
      requires Valid()
      modifies rotors
      ensures Valid() && Setting() == old(Setting())
      ensures Positions() == Stepped(Setting(), old(Positions()))
      ensures encoded == Signal(Setting(), Positions(), character)
    {
      StepRotors();
      ValidSetting();
      var c := plugboard.Swap(character);
      var f2 := rotors[2].Forward(c);
      if f2.None? {
        return None;
      }
      c := rotors[1].Forward(f2.value).value;
      c := rotors[0].Forward(c).value;
      c := reflector.Reflect(c).value;
      c := rotors[0].Backward(c).value;
      c := rotors[1].Backward(c).value;
      c := rotors[2].Backward(c).value;
      c := plugboard.Swap(c);
      return Some(c);
    }

    method Reset()
      requires Valid()
      modifies rotors
      ensures Valid() && Setting() == old(Setting()) && Positions() == Starts(Setting())
    {
      ValidSetting();
      for i := 0 to 3
        invariant Valid()
        invariant forall j :: 0 <= j < i ==> rotors[j].currentIndex == rotors[j].startIndex
      {
        rotors[i].Reset();
      }
    }

    /** `Run`: resets the rotors, then enciphers `input`; None when the C# code throws. */
    method Run(input: string) returns (output: Option<string>)
      requires Valid()
      modifies rotors
      ensures Valid() && Setting() == old(Setting())
      ensures output == Encipher(Setting(), Starts(Setting()), input)
      ensures output.Some? ==> Positions() == PositionsAfter(Setting(), Starts(Setting()), input)
    {
      Reset();
      ValidSetting();
      ghost var m := Setting();
      var text: string := [];
      for i := 0 to |input|
        invariant Valid() && Setting() == m && PositionsFit(m, Positions())
        invariant Encipher(m, Starts(m), input) == Concat(text, Encipher(m, Positions(), input[i..]))
        invariant PositionsAfter(m, Starts(m), input) == PositionsAfter(m, Positions(), input[i..])
      {
        ghost var p := Positions();
        EncipherStep(m, p, input[i..]);
        assert input[i..][0] == input[i] && input[i..][1..] == input[i + 1..];
        var character := input[i];
        var wasLower := IsLower(character);
        var upperCharacter := ToUpper(character);
        if upperCharacter !in alphabet {
          OptionConcatAssoc(text, character, Encipher(m, p, input[i + 1..]));
          text := text + [character];
        } else {
          var encoded := EncodeCharacter(upperCharacter);
          ValidSetting();
          assert Setting() == m;
          ghost var q := Positions();
          assert q == Stepped(m, p) && encoded == Signal(m, q, upperCharacter);
          if encoded.None? {
            assert Encipher(m, p, input[i..]) == None;
            return None;
          }
          OptionConcatAssoc(text, RestoreCase(wasLower, encoded.value), Encipher(m, Positions(), input[i + 1..]));
          text := text + [RestoreCase(wasLower, encoded.value)];
        }
      }
      assert input[|input|..] == [];
      assert Encipher(m, Positions(), []) == Some([]) && text + [] == text;
      return Some(text);
    }
  }

  /** One character of `Run` from positions p. */
  lemma EncipherStep(m: MachineSetting, p: seq<int>, text: string)
    requires WellFormed(m) && PositionsFit(m, p) && text != []
    ensures ToUpper(text[0]) !in m.alphabet ==>
      Encipher(m, p, text) == Prepend(text[0], Encipher(m, p, text[1..]))
    ensures ToUpper(text[0]) in m.alphabet && Signal(m, Stepped(m, p), ToUpper(text[0])).None? ==>
      Encipher(m, p, text) == None
    ensures ToUpper(text[0]) in m.alphabet && Signal(m, Stepped(m, p), ToUpper(text[0])).Some? ==>
      Encipher(m, p, text)
      == Prepend(RestoreCase(IsLower(text[0]), Signal(m, Stepped(m, p), ToUpper(text[0])).value),
                 Encipher(m, Stepped(m, p), text[1..]))
  {
  }

  lemma OptionConcatAssoc(prefix: string, c: char, rest: Option<string>)
    ensures Concat(prefix, Prepend(c, rest)) == Concat(prefix + [c], rest)
  {
    if rest.Some? {
      assert prefix + ([c] + rest.value) == (prefix + [c]) + rest.value;
    }
  }

  /** `prefix` followed by a text that may be missing because the machine threw. */
  function Concat(prefix: string, rest: Option<string>): (r: Option<string>)
    ensures r.Some? <==> rest.Some?
    ensures r.Some? ==> |r.value| == |prefix| + |rest.value| && r.value[..|prefix|] == prefix && r.value[|prefix|..] == rest.value
  {
    if rest.None? then None else Some(prefix + rest.value)
  }
}
