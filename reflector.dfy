/**
 * An Enigma reflector: a fixed wiring that sends the signal back through the
 * rotors. The constructor only checks that the wiring uses characters of the
 * alphabet; it does not check that the wiring pairs characters up.
 */
module Reflectors {
  import opened Chars
  import opened Outcomes

  /** The checks of the Reflector constructor, in order; None when it does not throw. */
  function ReflectorError(alphabet: string, wiring: string): (e: Option<ArgumentError>)
    ensures e == None <==>
      && |alphabet| > 0
      && |wiring| == |alphabet|
      && (forall c :: c in wiring ==> c in alphabet)
  {
    if |alphabet| == 0 then Some(EmptyAlphabet)
    else if |wiring| == 0 then Some(EmptyWiring)
    else if |alphabet| != |wiring| then Some(LengthMismatch)
    else if exists i | 0 <= i < |wiring| :: wiring[i] !in alphabet then Some(WiringOutsideAlphabet)
    else None
  }

  datatype Reflector = Reflector(alphabet: string, wiring: string)
  {
    ghost predicate Valid() {
      ReflectorError(alphabet, wiring) == None
    }

    /**
     * `Reflect`: the wiring character at the position of `character` in the
     * alphabet. A character outside the alphabet has index -1, and indexing the
     * wiring with it throws (None).
     */
    function Reflect(character: char): (r: Option<char>)
      requires Valid()
      ensures r.Some? <==> character in alphabet
      ensures r.Some? ==> r.value in alphabet
    {
      var index := IndexOf(alphabet, character);
      if index < 0 then None else Some(wiring[index])
    }

    /** Reflecting twice returns every character of the alphabet. */
    ghost predicate IsInvolution()
      requires Valid()
    {
      forall c :: c in alphabet ==> Reflect(Reflect(c).value) == Some(c)
    }
  }

  /** `new Reflector(alphabet, wiring)`: the reflector, or the reason the constructor throws. */
  function NewReflector(alphabet: string, wiring: string): (r: Result<Reflector>)
    ensures r.Ok? <==> ReflectorError(alphabet, wiring) == None
    ensures r.Err? ==> Some(r.error) == ReflectorError(alphabet, wiring)
    ensures r.Ok? ==> r.value.Valid() && r.value.alphabet == alphabet && r.value.wiring == wiring
  {
    match ReflectorError(alphabet, wiring)
    case Some(e) => Err(e)
    case None => Ok(Reflector(alphabet, wiring))
  }

  /** Over a duplicate-free alphabet, position i reflects to wiring position i. */
  lemma ReflectAt(reflector: Reflector, i: int)
    requires reflector.Valid() && NoDuplicates(reflector.alphabet) && 0 <= i < |reflector.alphabet|
    ensures reflector.Reflect(reflector.alphabet[i]) == Some(reflector.wiring[i])
  {
    IndexOfAt(reflector.alphabet, i);
  }

  /**
   * A wiring that sends the character it puts at position i back to position i
   * reflects every character back to itself when reflected twice.
   */
  lemma PairedWiringIsInvolution(reflector: Reflector)
    requires reflector.Valid() && NoDuplicates(reflector.alphabet)
    requires forall i :: 0 <= i < |reflector.alphabet| ==>
      reflector.wiring[IndexOf(reflector.alphabet, reflector.wiring[i])] == reflector.alphabet[i]
    ensures reflector.IsInvolution()
  {
    forall c | c in reflector.alphabet
      ensures reflector.Reflect(reflector.Reflect(c).value) == Some(c)
    {
      PairedAt(reflector, IndexOf(reflector.alphabet, c));
    }
  }

  lemma PairedAt(reflector: Reflector, i: int)
    requires reflector.Valid() && NoDuplicates(reflector.alphabet) && 0 <= i < |reflector.alphabet|
    requires reflector.wiring[IndexOf(reflector.alphabet, reflector.wiring[i])] == reflector.alphabet[i]
    ensures reflector.Reflect(reflector.Reflect(reflector.alphabet[i]).value) == Some(reflector.alphabet[i])
  {
    var a, w := reflector.alphabet, reflector.wiring;
    ReflectAt(reflector, i);
    assert w[i] in w;
    ReflectAt(reflector, IndexOf(a, w[i]));
  }

  /** The constructor accepts a wiring that is not an involution: "AA" over "AB". */
  lemma UncheckedInvolution()
    ensures NewReflector("AB", "AA").Ok?
    ensures !NewReflector("AB", "AA").value.IsInvolution()
  {
    var r := NewReflector("AB", "AA").value;
    assert r.Reflect('B') == Some('A');
    assert r.Reflect('A') == Some('A');
    assert 'B' in r.alphabet;
  }
}
