/**
 * The Enigma plugboard: a set of cables, each swapping two characters. The board
 * keeps a dictionary holding both directions of every cable. Plugs are
 * upper-cased when added or removed, but `Swap` looks its input up as given.
 */
module Plugboards {
  import opened Chars
  import opened Outcomes

  /** Every plugged character is plugged to a different one, which is plugged back to it. */
  ghost predicate Symmetric(swaps: map<char, char>) {
    forall a :: a in swaps ==> swaps[a] != a && swaps[a] in swaps && swaps[swaps[a]] == a
  }

  /** `Swap`: the partner of a plugged character; any other character passes through. */
  function SwapOf(swaps: map<char, char>, c: char): (r: char)
    ensures r != c ==> c in swaps
    ensures Symmetric(swaps) ==> (r != c <==> c in swaps)
  {
    if c in swaps then swaps[c] else c
  }

  /** On a symmetric board, swapping twice returns every character. */
  lemma SwapTwice(swaps: map<char, char>, c: char)
    requires Symmetric(swaps)
    ensures SwapOf(swaps, SwapOf(swaps, c)) == c
  {
  }

  /**
   * `AddPlug`: both ends are upper-cased; a plug from a character to itself, or
   * one touching an already plugged character, is refused; otherwise the two
   * characters now swap with each other and every other plug stays.
   */
  function PlugAdded(swaps: map<char, char>, from: char, to: char): (r: Result<map<char, char>>)
    ensures r.Err? <==> ToUpper(from) == ToUpper(to) || ToUpper(from) in swaps || ToUpper(to) in swaps
    ensures r.Err? ==> r.error == if ToUpper(from) == ToUpper(to) then SelfPlug else PlugInUse
    ensures r.Ok? ==>
      && r.value.Keys == swaps.Keys + {ToUpper(from), ToUpper(to)}
      && SwapOf(r.value, ToUpper(from)) == ToUpper(to) && SwapOf(r.value, ToUpper(to)) == ToUpper(from)
      && (forall c :: c in swaps ==> r.value[c] == swaps[c])
    ensures r.Ok? && Symmetric(swaps) ==> Symmetric(r.value)
  {
    var a, b := ToUpper(from), ToUpper(to);
    if a == b then Err(SelfPlug)
    else if a in swaps || b in swaps then Err(PlugInUse)
    else Ok(swaps[a := b][b := a])
  }

  /**
   * `RemovePlug`: both ends are upper-cased; when the first is plugged to the
   * second, both directions of that cable go and every other plug stays;
   * otherwise nothing changes.
   */
  function PlugRemoved(swaps: map<char, char>, from: char, to: char): (r: map<char, char>)
    ensures ToUpper(from) in swaps && swaps[ToUpper(from)] == ToUpper(to) ==>
      && r.Keys == swaps.Keys - {ToUpper(from), ToUpper(to)}
      && (forall c :: c in r ==> r[c] == swaps[c])
    ensures !(ToUpper(from) in swaps && swaps[ToUpper(from)] == ToUpper(to)) ==> r == swaps
    ensures Symmetric(swaps) ==> Symmetric(r)
  {
    var a, b := ToUpper(from), ToUpper(to);
    if a in swaps && swaps[a] == b then swaps - {a, b} else swaps
  }

  /** Removing the plug just added restores the board. */
  lemma RemoveUndoesAdd(swaps: map<char, char>, from: char, to: char)
    requires PlugAdded(swaps, from, to).Ok?
    ensures PlugRemoved(PlugAdded(swaps, from, to).value, from, to) == swaps
  {
    var m := PlugAdded(swaps, from, to).value;
    assert PlugRemoved(m, from, to).Keys == swaps.Keys;
  }

  /** On a symmetric board a cable can be removed naming its ends in either order. */
  lemma RemoveEitherOrder(swaps: map<char, char>, from: char, to: char)
    requires Symmetric(swaps)
    ensures PlugRemoved(swaps, from, to) == PlugRemoved(swaps, to, from)
  {
    var a, b := ToUpper(from), ToUpper(to);
    if a in swaps && swaps[a] == b {
      assert b in swaps && swaps[b] == a;
      assert swaps - {a, b} == swaps - {b, a};
    }
  }

  /** Plugs are stored upper-cased, but `Swap` does not upper-case its input. */
  lemma SwapIsCaseSensitive()
    ensures PlugAdded(map[], 'a', 'b') == Ok(map['A' := 'B', 'B' := 'A'])
    ensures SwapOf(PlugAdded(map[], 'a', 'b').value, 'A') == 'B'
    ensures SwapOf(PlugAdded(map[], 'a', 'b').value, 'a') == 'a'
  {
    assert ToUpper('a') == 'A' && ToUpper('b') == 'B';
  }

  class Plugboard {
    var swaps: map<char, char>

    ghost predicate Valid()
      reads this
    {
      Symmetric(swaps)
    }

    /** A board with no plugs. */
    constructor ()
      ensures Valid() && swaps == map[]
    {
      swaps := map[];
    }

    /** `AddPlug`: None when the plug is added, or the reason the C# code throws (the board is then unchanged). */
    method AddPlug(from: char, to: char) returns (error: Option<ArgumentError>)
      requires Valid()
      modifies this
      ensures Valid()
      ensures PlugAdded(old(swaps), from, to).Ok? ==> error == None && swaps == PlugAdded(old(swaps), from, to).value
      ensures PlugAdded(old(swaps), from, to).Err? ==>
        error == Some(PlugAdded(old(swaps), from, to).error) && swaps == old(swaps)
    {
      var a, b := ToUpper(from), ToUpper(to);
      if a == b {
        return Some(SelfPlug);
      }
      if a in swaps || b in swaps {
        return Some(PlugInUse);
      }
      swaps := swaps[a := b];
      swaps := swaps[b := a];
      return None;
    }

    method RemovePlug(from: char, to: char)
      requires Valid()
      modifies this
      ensures Valid() && swaps == PlugRemoved(old(swaps), from, to)
    {
      var a, b := ToUpper(from), ToUpper(to);
      if a in swaps && swaps[a] == b {
        swaps := swaps - {a};
        swaps := swaps - {b};
      }
    }

    function Swap(input: char): (r: char)
      reads this
      ensures r == SwapOf(swaps, input)
    {
      if input in swaps then swaps[input] else input
    }
  }
}
