/**
 * `random.shuffle` with its random source made explicit.
 *
 * Python shuffles in place by the Fisher-Yates method: for `i` from `len(x) - 1`
 * down to 1 it draws `j` in `0..i` and swaps `x[i]` and `x[j]`. Here the draws are a
 * parameter: draw number `d` (counted from the first swap) is reduced modulo `i + 1`,
 * and a missing draw reads as 0. The model fixes no particular order: every
 * rearrangement of the list is the outcome of some sequence of draws.
 */
module Shuffling {

  import Arith

  function FirstDraw(draws: seq<nat>): nat
  {
    if |draws| > 0 then draws[0] else 0
  }

  function LaterDraws(draws: seq<nat>): seq<nat>
  {
    if |draws| > 0 then draws[1..] else []
  }

  /** `s` with positions `i` and `j` exchanged. */
  function Swap<T>(s: seq<T>, i: nat, j: nat): (r: seq<T>)
    requires i < |s| && j < |s|
    ensures |r| == |s| && r[i] == s[j] && r[j] == s[i]
    ensures forall k :: 0 <= k < |s| && k != i && k != j ==> r[k] == s[k]
    ensures multiset(r) == multiset(s)
  {
    s[i := s[j]][j := s[i]]
  }

  /** The list `random.shuffle(s)` leaves behind when the generator yields `draws`. */
  function Shuffle<T(==)>(s: seq<T>, draws: seq<nat>): (r: seq<T>)
    ensures multiset(r) == multiset(s)
    decreases |s|
  {
    if |s| <= 1 then s
    else
      var i := |s| - 1;
      var swapped := Swap(s, i, FirstDraw(draws) % |s|);
      assert swapped == swapped[..i] + [swapped[i]];
      Shuffle(swapped[..i], LaterDraws(draws)) + [swapped[i]]
  }

  /** `s.index(x)`: the first position of `x` in `s`. */
  function IndexOf<T(==)>(s: seq<T>, x: T): (i: nat)
    requires x in s
    ensures i < |s| && s[i] == x
    ensures forall k :: 0 <= k < i ==> s[k] != x
  {
    if s[0] == x then 0 else 1 + IndexOf(s[1..], x)
  }

  /** Unfolds the first swap of the shuffle when the first draw is `j`. */
  lemma ShuffleFirstSwap<T>(s: seq<T>, j: nat, rest: seq<nat>)
    requires |s| >= 2 && j < |s|
    ensures Shuffle(s, [j] + rest) == Shuffle(Swap(s, |s| - 1, j)[..|s| - 1], rest) + [s[j]]
  {
    assert FirstDraw([j] + rest) == j;
    Arith.DivModOf(0, j, |s|);
    assert LaterDraws([j] + rest) == rest;
  }

  /** With two elements, a first draw of 0 exchanges them. */
  lemma ShuffleTwo<T>(a: T, b: T)
    ensures Shuffle([a, b], [0]) == [b, a]
  {
    var swapped := Swap([a, b], 1, 0);
    assert swapped == [b, a];
    assert swapped[..1] == [b];
    ShuffleFirstSwap([a, b], 0, []);
    assert [0] + [] == [0];
    assert Shuffle([b], []) == [b];
  }

  /** After moving `t`'s last element to the end of `s`, the prefixes hold the same elements. */
  lemma PrefixesPermuted<T>(s: seq<T>, t: seq<T>, j: nat)
    requires multiset(t) == multiset(s) && |s| >= 2 && j < |s| && |t| == |s|
    requires s[j] == t[|s| - 1]
    ensures multiset(t[..|s| - 1]) == multiset(Swap(s, |s| - 1, j)[..|s| - 1])
  {
    var i := |s| - 1;
    var swapped := Swap(s, i, j);
    MultisetInit(t);
    MultisetInit(swapped);
    assert swapped[i] == t[i];
  }

  /** The multiset of a non-empty list without its last element. */
  lemma MultisetInit<T>(s: seq<T>)
    requires |s| > 0
    ensures multiset(s[..|s| - 1]) == multiset(s) - multiset{s[|s| - 1]}
  {
    assert s == s[..|s| - 1] + [s[|s| - 1]];
  }

  lemma LastRestored<T>(t: seq<T>)
    requires |t| > 0
    ensures t[..|t| - 1] + [t[|t| - 1]] == t
  {
  }

  /** Draws that make `random.shuffle(s)` produce the rearrangement `t`: at each step, the position in `s` of the element `t` wants last. */
  function DrawsFor<T(==)>(s: seq<T>, t: seq<T>): seq<nat>
    requires multiset(t) == multiset(s)
    decreases |s|
  {
    assert |t| == |multiset(t)| == |s|;
    if |s| <= 1 then []
    else
      var i := |s| - 1;
      assert t[i] in multiset(s);
      var j := IndexOf(s, t[i]);
      PrefixesPermuted(s, t, j);
      [j] + DrawsFor(Swap(s, i, j)[..i], t[..i])
  }

  /** Under `DrawsFor(s, t)`, `random.shuffle(s)` produces `t`. */
  lemma {:induction false} DrawsForReaches<T>(s: seq<T>, t: seq<T>)
    requires multiset(t) == multiset(s)
    ensures Shuffle(s, DrawsFor(s, t)) == t
    decreases |s|
  {
    assert |t| == |multiset(t)| == |s|;
    if |s| == 1 {
      assert t[0] in multiset(s);
    } else if |s| > 1 {
      var i := |s| - 1;
      assert t[i] in multiset(s);
      var j := IndexOf(s, t[i]);
      PrefixesPermuted(s, t, j);
      var sub := Swap(s, i, j)[..i];
      DrawsForReaches(sub, t[..i]);
      var rest := DrawsFor(sub, t[..i]);
      assert DrawsFor(s, t) == [j] + rest;
      ShuffleFirstSwap(s, j, rest);
      LastRestored(t);
    }
  }

  /** Every rearrangement of `s` is a possible outcome of `random.shuffle(s)`. */
  lemma EveryPermutationReachable<T>(s: seq<T>, t: seq<T>)
    requires multiset(t) == multiset(s)
    ensures exists draws :: Shuffle(s, draws) == t
  {
    DrawsForReaches(s, t);
  }
}
