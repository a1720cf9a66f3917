/**
 * An Enigma rotor: a wiring over the alphabet, turned by a current position and
 * offset by a ring setting. The constructor precomputes, for every contact, how
 * far the signal travels forward (`forwardMap`) and backward (`reverseMap`).
 */
module Rotors {
  import opened Chars
  import opened Outcomes
  import opened Modular

  /** The checks of the Rotor constructor, in order; None when it does not throw. */
  function RotorError(alphabet: string, wiring: string, notch: char, ring: char, start: char): (e: Option<ArgumentError>)
    ensures e == None <==>
      && |alphabet| > 0
      && |wiring| == |alphabet|
      && (forall c :: c in wiring ==> c in alphabet)
      && notch in alphabet && ring in alphabet && start in alphabet
  {
    if |alphabet| == 0 then Some(EmptyAlphabet)
    else if |wiring| == 0 then Some(EmptyWiring)
    else if |alphabet| != |wiring| then Some(LengthMismatch)
    else if exists i | 0 <= i < |wiring| :: wiring[i] !in alphabet then Some(WiringOutsideAlphabet)
    else if notch !in alphabet then Some(NotchOutsideAlphabet)
    else if ring !in alphabet then Some(RingOutsideAlphabet)
    else if start !in alphabet then Some(StartOutsideAlphabet)
    else None
  }

  /**
   * Membership is case-sensitive: for an alphabet of capitals the default ring and
   * start character `'a'` is refused.
   */
  lemma DefaultRingRejected(alphabet: string, wiring: string, notch: char)
    requires AllUpper(alphabet) && |alphabet| == |wiring| > 0
    requires forall c :: c in wiring ==> c in alphabet
    requires notch in alphabet
    ensures RotorError(alphabet, wiring, notch, 'a', 'a') == Some(RingOutsideAlphabet)
  {
    assert 'a' !in alphabet by {
      forall i | 0 <= i < |alphabet| ensures alphabet[i] != 'a' {
        assert IsUpper(alphabet[i]);
      }
    }
  }

  /** The fixed part of a rotor: its wiring and its notch, ring and start positions. */
  datatype RotorSetting = RotorSetting(wiring: string, notch: int, ring: int, start: int)

  ghost predicate SettingFits(alphabet: string, r: RotorSetting) {
    && |alphabet| > 0
    && |r.wiring| == |alphabet|
    && (forall i :: 0 <= i < |r.wiring| ==> r.wiring[i] in alphabet)
    && 0 <= r.notch < |alphabet| && 0 <= r.ring < |alphabet| && 0 <= r.start < |alphabet|
  }

  /** The wiring is a permutation of the alphabet (the constructor does not check this). */
  ghost predicate IsPermutation(wiring: string, alphabet: string) {
    && |wiring| == |alphabet|
    && NoDuplicates(wiring)
    && (forall i :: 0 <= i < |wiring| ==> wiring[i] in alphabet)
    && (forall c :: c in alphabet ==> c in wiring)
  }

  /** How far contact i moves the signal forward: to the alphabet position IndexOf(wiring[i]). */
  function ForwardOffset(alphabet: string, wiring: string, i: int): (d: int)
    requires |alphabet| > 0 && |wiring| == |alphabet| && 0 <= i < |alphabet|
    requires forall j :: 0 <= j < |wiring| ==> wiring[j] in alphabet
    ensures 0 <= d < |alphabet|
  {
    (|alphabet| + IndexOf(alphabet, wiring[i]) - i) % |alphabet|
  }

  /** The forward offsets `_map`, one per contact. */
  function ForwardTable(alphabet: string, wiring: string): (t: seq<int>)
    requires |alphabet| > 0 && |wiring| == |alphabet|
    requires forall i :: 0 <= i < |wiring| ==> wiring[i] in alphabet
    ensures |t| == |alphabet|
    ensures forall i :: 0 <= i < |t| ==> 0 <= t[i] < |alphabet|
  {
    seq(|alphabet|, i requires 0 <= i < |alphabet| => ForwardOffset(alphabet, wiring, i))
  }

  /** Contact i, wired to alphabet position wi, moves the signal by wi - i. */
  lemma ForwardTableAt(alphabet: string, wiring: string, i: int, wi: int)
    requires |alphabet| > 0 && |wiring| == |alphabet| && 0 <= i < |alphabet|
    requires forall j :: 0 <= j < |wiring| ==> wiring[j] in alphabet
    requires wi == IndexOf(alphabet, wiring[i])
    ensures ForwardTable(alphabet, wiring)[i] == (|alphabet| + wi - i) % |alphabet|
  {
  }

  /**
   * `_reverseMap` after the first k rounds of the constructor loop: round i writes
   * the backward offset of contact i at the position it is wired to; positions no
   * round has written keep the array's initial 0.
   */
  function BackwardTable(alphabet: string, wiring: string, k: nat): (t: seq<int>)
    requires |alphabet| > 0 && |wiring| == |alphabet| && k <= |alphabet|
    requires forall i :: 0 <= i < |wiring| ==> wiring[i] in alphabet
    ensures |t| == |alphabet|
    ensures forall j :: 0 <= j < |t| ==> 0 <= t[j] < |alphabet|
  {
    var n := |alphabet|;
    if k == 0 then seq(n, _ => 0)
    else
      var target := IndexOf(alphabet, wiring[k - 1]);
      BackwardTable(alphabet, wiring, k - 1)[target := (n - target + k - 1) % n]
  }

  /** `_reverseMap` once the constructor's loop has run over every contact. */
  function ReverseTable(alphabet: string, wiring: string): (t: seq<int>)
    requires |alphabet| > 0 && |wiring| == |alphabet|
    requires forall i :: 0 <= i < |wiring| ==> wiring[i] in alphabet
    ensures |t| == |alphabet|
    ensures forall j :: 0 <= j < |t| ==> 0 <= t[j] < |alphabet|
  {
    BackwardTable(alphabet, wiring, |alphabet|)
  }

  /** For a wiring without repeated characters, round i's entry is never overwritten. */
  lemma {:induction false} BackwardTableAt(alphabet: string, wiring: string, k: nat, i: nat, wi: int)
    requires |alphabet| > 0 && |wiring| == |alphabet| && k <= |alphabet|
    requires forall j :: 0 <= j < |wiring| ==> wiring[j] in alphabet
    requires NoDuplicates(wiring) && i < k && wi == IndexOf(alphabet, wiring[i])
    ensures BackwardTable(alphabet, wiring, k)[wi] == (|alphabet| - wi + i) % |alphabet|
  {
    if i < k - 1 {
      BackwardTableAt(alphabet, wiring, k - 1, i, wi);
      var a, b := IndexOf(alphabet, wiring[k - 1]), IndexOf(alphabet, wiring[i]);
      assert alphabet[a] == wiring[k - 1] && alphabet[b] == wiring[i];
      assert a != b;
    }
  }

  /** In the finished reverse table, the position contact i is wired to holds the offset back to i. */
  lemma ReverseTableAt(alphabet: string, wiring: string, i: int, wi: int)
    requires |alphabet| > 0 && |wiring| == |alphabet| && 0 <= i < |alphabet|
    requires forall j :: 0 <= j < |wiring| ==> wiring[j] in alphabet
    requires NoDuplicates(wiring) && wi == IndexOf(alphabet, wiring[i])
    ensures ReverseTable(alphabet, wiring)[wi] == (|alphabet| + i - wi) % |alphabet|
  {
    BackwardTableAt(alphabet, wiring, |alphabet|, i, wi);
  }

  /**
   * `GetMappedCharacter`: the contact the signal enters at is shifted by the
   * rotor's position less its ring setting; the table gives how far the signal
   * travels from there. A character of the alphabet always comes out as one. A
   * character outside it has index -1: the C# remainder of the exit position is
   * then -1, and indexing the alphabet with it throws (None), exactly when the
   * table entry read is 0 and the alphabet has more than one character.
   */
  function GetMappedCharacter(alphabet: string, table: seq<int>, ring: int, position: int, character: char): (r: Option<char>)
    requires |table| == |alphabet| > 0
    requires forall i :: 0 <= i < |table| ==> 0 <= table[i] < |alphabet|
    requires 0 <= ring < |alphabet| && 0 <= position < |alphabet|
    ensures r.Some? ==> r.value in alphabet
    ensures character in alphabet ==> r.Some?
    ensures character !in alphabet ==>
      (r.None? <==> |alphabet| > 1 && table[(position - ring + |alphabet| - 1) % |alphabet|] == 0)
  {
    var n := |alphabet|;
    var characterIndex := IndexOf(alphabet, character);
    var index := (characterIndex + position - ring + n) % n;
    var target := Remainder(characterIndex + table[index], n);
    MinusOneRemainder(n);
    if target < 0 then None else Some(alphabet[target])
  }

  function RotorForward(alphabet: string, r: RotorSetting, position: int, character: char): (o: Option<char>)
    requires SettingFits(alphabet, r) && 0 <= position < |alphabet|
  {
    GetMappedCharacter(alphabet, ForwardTable(alphabet, r.wiring), r.ring, position, character)
  }

  function RotorBackward(alphabet: string, r: RotorSetting, position: int, character: char): (o: Option<char>)
    requires SettingFits(alphabet, r) && 0 <= position < |alphabet|
  {
    GetMappedCharacter(alphabet, ReverseTable(alphabet, r.wiring), r.ring, position, character)
  }

  /**
   * The offset arithmetic of two passes: entering at i, the first pass reads
   * contact k and moves by f, reaching contact wk and position o; when the second
   * table moves contact wk back to k by b, the second pass entering at o reads
   * contact wk and leaves at i.
   */
  lemma PassOffsets(n: int, i: int, position: int, ring: int, k: int, f: int, wk: int, b: int, o: int)
    requires n > 0 && 0 <= i < n && 0 <= position < n && 0 <= ring < n && 0 <= f < n && 0 <= b < n
    requires k == (i + position - ring + n) % n && wk == (k + f) % n && (wk + b) % n == k
    requires o == (i + f) % n
    ensures (o + position - ring + n) % n == wk && (o + b) % n == i
  {
    Wrap(i + position - ring + n, n);
    Wrap(k + f, n);
    Wrap(i + f, n);
    SecondEntry(n, i, position - ring + n, k, f, wk, o);
    SecondExit(n, i, k, f, wk, b, o);
  }

  /** The second pass enters at the contact the first one reached. */
  lemma SecondEntry(n: int, i: int, shift: int, k: int, f: int, wk: int, o: int)
    requires n > 0 && 0 <= i < n && 0 < shift < 2 * n && 0 <= f < n
    requires k == (if i + shift < n then i + shift else if i + shift < 2 * n then i + shift - n else i + shift - 2 * n)
    requires wk == (if k + f < n then k + f else k + f - n)
    requires o == (if i + f < n then i + f else i + f - n)
    ensures (o + shift) % n == wk
  {
    Wrap(o + shift, n);
  }

  /** The second pass leaves where the first one entered. */
  lemma SecondExit(n: int, i: int, k: int, f: int, wk: int, b: int, o: int)
    requires n > 0 && 0 <= i < n && 0 <= k < n && 0 <= f < n && 0 <= b < n
    requires wk == (if k + f < n then k + f else k + f - n) && (wk + b) % n == k
    requires o == (if i + f < n then i + f else i + f - n)
    ensures (o + b) % n == i
  {
    Wrap(wk + b, n);
    Wrap(o + b, n);
  }

  /** An offset of (to - from) modulo n, taken from `from`, arrives at `to`. */
  lemma OffsetArrives(n: int, from: int, to: int, offset: int)
    requires n > 0 && 0 <= from < n && 0 <= to < n
    requires offset == (n + to - from) % n
    ensures (from + offset) % n == to
  {
    Wrap(n + to - from, n);
    Wrap(from + offset, n);
  }

  /** The mapped character of the alphabet character at position idx, as positions. */
  lemma {:induction false} MappedAt(alphabet: string, table: seq<int>, ring: int, position: int, idx: int, entry: int, out: int)
    requires |table| == |alphabet| > 0 && NoDuplicates(alphabet)
    requires forall i :: 0 <= i < |table| ==> 0 <= table[i] < |alphabet|
    requires 0 <= ring < |alphabet| && 0 <= position < |alphabet| && 0 <= idx < |alphabet|
    requires entry == (idx + position - ring + |alphabet|) % |alphabet|
    requires out == (idx + table[entry]) % |alphabet|
    ensures GetMappedCharacter(alphabet, table, ring, position, alphabet[idx]) == Some(alphabet[out])
  {
    IndexOfAt(alphabet, idx);
  }

  /**
   * Two offset tables undo each other at the contact the first pass reads, when
   * the second table moves the contact the first one reaches back to it.
   */
  lemma {:induction false} TablesUndo(alphabet: string, first: seq<int>, second: seq<int>, ring: int, position: int,
                                      i: int, k: int, wk: int)
    requires |first| == |second| == |alphabet| > 0 && NoDuplicates(alphabet)
    requires forall j :: 0 <= j < |first| ==> 0 <= first[j] < |alphabet|
    requires forall j :: 0 <= j < |second| ==> 0 <= second[j] < |alphabet|
    requires 0 <= ring < |alphabet| && 0 <= position < |alphabet| && 0 <= i < |alphabet|
    requires 0 <= k < |alphabet| && k == (i + position - ring + |alphabet|) % |alphabet|
    requires 0 <= wk < |alphabet| && wk == (k + first[k]) % |alphabet| && (wk + second[wk]) % |alphabet| == k
    ensures GetMappedCharacter(alphabet, second, ring, position,
              GetMappedCharacter(alphabet, first, ring, position, alphabet[i]).value) == Some(alphabet[i])
  {
    var n := |alphabet|;
    var o := (i + first[k]) % n;
    PassOffsets(n, i, position, ring, k, first[k], wk, second[wk], o);
    MappedAt(alphabet, first, ring, position, i, k, o);
    MappedAt(alphabet, second, ring, position, o, wk, i);
  }

  /** The forward table takes contact k to the alphabet position wk it is wired to. */
  lemma ForwardMoves(alphabet: string, wiring: string, k: int, wk: int)
    requires |alphabet| > 0 && |wiring| == |alphabet|
    requires forall j :: 0 <= j < |wiring| ==> wiring[j] in alphabet
    requires 0 <= k < |alphabet| && wk == IndexOf(alphabet, wiring[k])
    ensures (k + ForwardTable(alphabet, wiring)[k]) % |alphabet| == wk
  {
    ForwardTableAt(alphabet, wiring, k, wk);
    OffsetArrives(|alphabet|, k, wk, ForwardTable(alphabet, wiring)[k]);
  }

  /** The reverse table takes the alphabet position wk back to the contact k wired to it. */
  lemma BackwardMoves(alphabet: string, wiring: string, k: int, wk: int)
    requires |alphabet| > 0 && |wiring| == |alphabet| && NoDuplicates(wiring)
    requires forall j :: 0 <= j < |wiring| ==> wiring[j] in alphabet
    requires 0 <= k < |alphabet| && wk == IndexOf(alphabet, wiring[k])
    ensures (wk + ReverseTable(alphabet, wiring)[wk]) % |alphabet| == k
  {
    ReverseTableAt(alphabet, wiring, k, wk);
    OffsetArrives(|alphabet|, wk, k, ReverseTable(alphabet, wiring)[wk]);
  }

  /** When the wiring is a permutation, alphabet position k is wired from contact j = IndexOf(wiring, alphabet[k]). */
  lemma WiredFrom(alphabet: string, wiring: string, k: int, j: int)
    requires IsPermutation(wiring, alphabet) && NoDuplicates(alphabet)
    requires 0 <= k < |alphabet| && j == IndexOf(wiring, alphabet[k])
    ensures 0 <= j < |alphabet| && IndexOf(alphabet, wiring[j]) == k
  {
    assert alphabet[k] in wiring;
    IndexOfAt(alphabet, k);
  }

  /** At any fixed position, `Backward` undoes `Forward` when the wiring is a permutation. */
  lemma ForwardThenBackward(alphabet: string, r: RotorSetting, position: int, c: char)
    requires SettingFits(alphabet, r) && IsPermutation(r.wiring, alphabet) && NoDuplicates(alphabet)
    requires 0 <= position < |alphabet| && c in alphabet
    ensures RotorBackward(alphabet, r, position, RotorForward(alphabet, r, position, c).value) == Some(c)
  {
    var n, i := |alphabet|, IndexOf(alphabet, c);
    var k := (i + position - r.ring + n) % n;
    Wrap(i + position - r.ring + n, n);
    var wk := IndexOf(alphabet, r.wiring[k]);
    ForwardMoves(alphabet, r.wiring, k, wk);
    BackwardMoves(alphabet, r.wiring, k, wk);
    TablesUndo(alphabet, ForwardTable(alphabet, r.wiring), ReverseTable(alphabet, r.wiring), r.ring, position, i, k, wk);
  }

  /** At any fixed position, `Forward` undoes `Backward` when the wiring is a permutation. */
  lemma BackwardThenForward(alphabet: string, r: RotorSetting, position: int, c: char)
    requires SettingFits(alphabet, r) && IsPermutation(r.wiring, alphabet) && NoDuplicates(alphabet)
    requires 0 <= position < |alphabet| && c in alphabet
    ensures RotorForward(alphabet, r, position, RotorBackward(alphabet, r, position, c).value) == Some(c)
  {
    var n, i := |alphabet|, IndexOf(alphabet, c);
    var k := (i + position - r.ring + n) % n;
    Wrap(i + position - r.ring + n, n);
    var j := IndexOf(r.wiring, alphabet[k]);
    WiredFrom(alphabet, r.wiring, k, j);
    ForwardMoves(alphabet, r.wiring, j, k);
    BackwardMoves(alphabet, r.wiring, j, k);
    TablesUndo(alphabet, ReverseTable(alphabet, r.wiring), ForwardTable(alphabet, r.wiring), r.ring, position, i, k, j);
  }

  /** Position after k rotations starting from p. */
  function Rotations(p: int, n: int, k: nat): int
    requires n > 0
  {
    if k == 0 then p else (Rotations(p, n, k - 1) + 1) % n
  }

  /** k rotations advance the position by k modulo n. */
  lemma {:induction false} RotationsAdvance(p: int, n: int, k: nat)
    requires n > 0 && 0 <= p < n
    ensures Rotations(p, n, k) == (p + k) % n
  {
    if k > 0 {
      RotationsAdvance(p, n, k - 1);
      ModAddLeft(p + k - 1, 1, n);
    }
  }

  /** n rotations bring the rotor back to where it started. */
  lemma FullTurn(p: int, n: int)
    requires n > 0 && 0 <= p < n
    ensures Rotations(p, n, n) == p
  {
    RotationsAdvance(p, n, n);
    Wrap(p + n, n);
  }

  class Rotor {
    const alphabet: string
    const wiring: string
    const notchIndex: int
    const ringOffset: int
    const startIndex: int
    var currentIndex: int
    const forwardMap: array<int>
    const reverseMap: array<int>

    ghost function Setting(): RotorSetting {
      RotorSetting(wiring, notchIndex, ringOffset, startIndex)
    }

    /** The offset arrays hold the constructor's tables; they never change afterwards. */
    ghost predicate Wired()
      reads forwardMap, reverseMap
    {
      && SettingFits(alphabet, Setting())
      && forwardMap.Length == |alphabet| && reverseMap.Length == |alphabet|
      && forwardMap[..] == ForwardTable(alphabet, wiring)
      && reverseMap[..] == ReverseTable(alphabet, wiring)
    }

    ghost predicate Valid()
      reads this, forwardMap, reverseMap
    {
      Wired() && 0 <= currentIndex < |alphabet|
    }

    /** The constructor, for arguments it accepts; `TryCreate` models the refusals. */
    constructor (alphabet: string, wiring: string, notchCharacter: char, ringCharacter: char, startCharacter: char)
      requires RotorError(alphabet, wiring, notchCharacter, ringCharacter, startCharacter) == None
      ensures Valid() && fresh(forwardMap) && fresh(reverseMap)
      ensures this.alphabet == alphabet && this.wiring == wiring
      ensures notchIndex == IndexOf(alphabet, notchCharacter)
      ensures ringOffset == IndexOf(alphabet, ringCharacter)
      ensures startIndex == IndexOf(alphabet, startCharacter)
      ensures currentIndex == startIndex
    {
      this.alphabet := alphabet;
      this.wiring := wiring;
      notchIndex := IndexOf(alphabet, notchCharacter);
      ringOffset := IndexOf(alphabet, ringCharacter);
      startIndex := IndexOf(alphabet, startCharacter);
      currentIndex := IndexOf(alphabet, startCharacter);

      var forward, backward := BuildMaps(alphabet, wiring);
      forwardMap := forward;
      reverseMap := backward;
    }

    /** The constructor's loop: fills the forward and reverse offset arrays contact by contact. */
    static method BuildMaps(alphabet: string, wiring: string) returns (forward: array<int>, backward: array<int>)
      requires |alphabet| > 0 && |wiring| == |alphabet|
      requires forall i :: 0 <= i < |wiring| ==> wiring[i] in alphabet
      ensures fresh(forward) && fresh(backward)
      ensures forward[..] == ForwardTable(alphabet, wiring)
      ensures backward[..] == ReverseTable(alphabet, wiring)
    {
      var n := |alphabet|;
      forward := new int[n](_ => 0);
      backward := new int[n](_ => 0);
      ghost var forwardTable := ForwardTable(alphabet, wiring);
      var characterIndex := 0;
      while characterIndex < n
        invariant 0 <= characterIndex <= n
        invariant forall i :: 0 <= i < characterIndex ==> forward[i] == forwardTable[i]
        invariant backward[..] == BackwardTable(alphabet, wiring, characterIndex)
      {
        var target := IndexOf(alphabet, wiring[characterIndex]);
        ghost var before := backward[..];
        forward[characterIndex] := (n + target - characterIndex) % n;
        assert backward[..] == before;
        backward[target] := (n - target + characterIndex) % n;
        assert backward[..] == before[target := (n - target + characterIndex) % n];
        characterIndex := characterIndex + 1;
      }
      assert forward[..] == forwardTable;
    }

    /** `new Rotor(...)`: either a rotor at its start position, or the reason it throws. */
    static method TryCreate(alphabet: string, wiring: string, notchCharacter: char,
                            ringCharacter: char := 'a', startCharacter: char := 'a')
      returns (result: Result<Rotor>)
      ensures result.Err? <==> RotorError(alphabet, wiring, notchCharacter, ringCharacter, startCharacter) != None
      ensures result.Err? ==> Some(result.error) == RotorError(alphabet, wiring, notchCharacter, ringCharacter, startCharacter)
      ensures result.Ok? ==>
        && fresh(result.value) && fresh(result.value.forwardMap) && fresh(result.value.reverseMap)
        && result.value.Valid()
        && result.value.alphabet == alphabet && result.value.wiring == wiring
        && result.value.notchIndex == IndexOf(alphabet, notchCharacter)
        && result.value.ringOffset == IndexOf(alphabet, ringCharacter)
        && result.value.currentIndex == result.value.startIndex == IndexOf(alphabet, startCharacter)
    {
      var error := RotorError(alphabet, wiring, notchCharacter, ringCharacter, startCharacter);
      if error.Some? {
        return Err(error.value);
      }
      var rotor := new Rotor(alphabet, wiring, notchCharacter, ringCharacter, startCharacter);
      return Ok(rotor);
    }

    /** The signal entering at `character` on the right, read on the left. */
    function Forward(character: char): (r: Option<char>)
      reads this, forwardMap, reverseMap
      requires Valid()
      ensures r == RotorForward(alphabet, Setting(), currentIndex, character)
    {
      GetMappedCharacter(alphabet, forwardMap[..], ringOffset, currentIndex, character)
    }

    /** The signal entering at `character` on the left, read on the right. */
    function Backward(character: char): (r: Option<char>)
      reads this, forwardMap, reverseMap
      requires Valid()
      ensures r == RotorBackward(alphabet, Setting(), currentIndex, character)
    {
      GetMappedCharacter(alphabet, reverseMap[..], ringOffset, currentIndex, character)
    }

    method Rotate()
      requires Valid()
      modifies this
      ensures Valid()
      ensures currentIndex == (old(currentIndex) + 1) % |alphabet|
    {
      currentIndex := (currentIndex + 1) % |alphabet|;
    }

    predicate IsNotched()
      reads this
    {
      currentIndex == notchIndex
    }

    method Reset()
      requires Valid()
      modifies this
      ensures Valid() && currentIndex == startIndex
    {
      currentIndex := startIndex;
    }
  }
}
