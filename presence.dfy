/**
  The decision logic of `isFontLoaded`. The browser is replaced by `width`,
  the rendered width of the 52-letter sample text when the helper span's
  `font-family` is set to a given chain.
*/
module Presence {

  /** The generic families every chain ends in, in the order they are probed. */
  const Fallbacks: seq<string> := ["serif", "sans-serif", "monospace", "cursive", "fantasy"]

  /** The `font-family` value of one probe: the named font, then a generic family. */
  function Chain(name: string, generic: string): string
  {
    name + "," + generic
  }

  /** The five chains, one per generic family, in probing order. */
  function Chains(name: string): (cs: seq<string>)
    ensures |cs| == |Fallbacks|
    ensures forall i :: 0 <= i < |cs| ==> cs[i] == Chain(name, Fallbacks[i])
  {
    seq(|Fallbacks|, i requires 0 <= i < |Fallbacks| => Chain(name, Fallbacks[i]))
  }

  /** The width measured for each chain. */
  function Widths(name: string, width: string -> int): (ws: seq<int>)
    ensures |ws| == |Fallbacks|
    ensures forall i :: 0 <= i < |ws| ==> ws[i] == width(Chains(name)[i])
  {
    var cs := Chains(name);
    seq(|cs|, i requires 0 <= i < |cs| => width(cs[i]))
  }

  /** All measurements agree. */
  predicate AllEqual(ws: seq<int>)
  {
    forall i, j :: 0 <= i < |ws| && 0 <= j < |ws| ==> ws[i] == ws[j]
  }

  /** The font counts as loaded when every chain renders at the same width. */
  predicate Loaded(name: string, width: string -> int)
  {
    AllEqual(Widths(name, width))
  }

  /** The first index `ix > 0` whose width differs from the one before it,
      searching from `from`, or `|ws|` when there is none. */
  function FirstChangeFrom(ws: seq<int>, from: nat): (k: nat)
    requires 1 <= from <= |ws|
    ensures from <= k <= |ws|
    ensures forall i :: from <= i < k ==> ws[i] == ws[i - 1]
    ensures k < |ws| ==> ws[k] != ws[k - 1]
    decreases |ws| - from
  {
    if from == |ws| then from
    else if ws[from] != ws[from - 1] then from
    else FirstChangeFrom(ws, from + 1)
  }

  /** Where the probing loop stops early, or `|ws|` when it runs to the end. */
  function FirstChange(ws: seq<int>): (k: nat)
    requires |ws| >= 1
    ensures 1 <= k <= |ws|
    ensures forall i :: 1 <= i < k ==> ws[i] == ws[i - 1]
    ensures k < |ws| ==> ws[k] != ws[k - 1]
  {
    FirstChangeFrom(ws, 1)
  }

  /** Equal neighbours up to `n` make every measurement before `n` equal to the first. */
  lemma {:induction false} NeighboursEqualFirst(ws: seq<int>, n: nat)
    requires n <= |ws|
    requires forall i :: 1 <= i < n ==> ws[i] == ws[i - 1]
    ensures forall i :: 0 <= i < n ==> ws[i] == ws[0]
  {
    if n > 1 {
      NeighboursEqualFirst(ws, n - 1);
      assert ws[n - 1] == ws[n - 2];
    }
  }

  /** Comparing each width with the previous one, as the loop does, decides
      the same thing as comparing all widths with each other. */
  lemma NeighboursEqualIffAllEqual(ws: seq<int>)
    ensures (forall i :: 1 <= i < |ws| ==> ws[i] == ws[i - 1]) <==> AllEqual(ws)
  {
    if forall i :: 1 <= i < |ws| ==> ws[i] == ws[i - 1] {
      NeighboursEqualFirst(ws, |ws|);
    }
  }

  /** The font is loaded exactly when the probing loop never stops early. */
  lemma LoadedIffNoChange(name: string, width: string -> int)
    ensures Loaded(name, width) <==> FirstChange(Widths(name, width)) == |Fallbacks|
  {
    var ws := Widths(name, width);
    NeighboursEqualIffAllEqual(ws);
  }

  /** The chains the loop assigns to the span, in order: all five when the
      font is loaded, otherwise up to and including the first one whose width
      differs from the previous one. */
  function Probed(name: string, width: string -> int): (ps: seq<string>)
    ensures Loaded(name, width) ==> ps == Chains(name)
    ensures !Loaded(name, width) ==>
      && 2 <= |ps| <= |Fallbacks|
      && ps == Chains(name)[..|ps|]
      && width(ps[|ps| - 1]) != width(ps[|ps| - 2])
      && (forall i :: 1 <= i < |ps| - 1 ==> width(ps[i]) == width(ps[i - 1]))
  {
    var k := FirstChange(Widths(name, width));
    LoadedIffNoChange(name, width);
    Chains(name)[..if k < |Fallbacks| then k + 1 else k]
  }

  /**
    The rendering model the comments in `isFontLoaded` reason with: for a
    chain "name,generic" the browser renders the first family that is
    available. A generic family is always available; `available` says
    whether the named font is, `nameWidth` is the sample's width in it and
    `genericWidth` its width in each generic family.
  */
  predicate FirstAvailableRendered(name: string, width: string -> int, available: bool,
                                   nameWidth: int, genericWidth: string -> int)
  {
    forall i :: 0 <= i < |Fallbacks| ==>
      width(Chains(name)[i]) == if available then nameWidth else genericWidth(Fallbacks[i])
  }

  /** An available font renders every probe in itself, so the check succeeds. */
  lemma AvailableIsLoaded(name: string, width: string -> int, nameWidth: int, genericWidth: string -> int)
    requires FirstAvailableRendered(name, width, true, nameWidth, genericWidth)
    ensures Loaded(name, width)
  {
    var ws := Widths(name, width);
    assert forall i :: 0 <= i < |ws| ==> ws[i] == nameWidth;
  }

  /** A missing font falls through to the generic families; if two that are
      probed one after the other differ in width, the check fails. */
  lemma UnavailableIsNotLoaded(name: string, width: string -> int, nameWidth: int,
                               genericWidth: string -> int, ix: nat)
    requires FirstAvailableRendered(name, width, false, nameWidth, genericWidth)
    requires 1 <= ix < |Fallbacks|
    requires genericWidth(Fallbacks[ix]) != genericWidth(Fallbacks[ix - 1])
    ensures !Loaded(name, width)
  {
    var ws := Widths(name, width);
    assert ws[ix] != ws[ix - 1];
  }

  /** The accepted limitation: when every generic family renders the sample
      at the same width, a missing font is reported as loaded. */
  lemma IdenticalGenericsFalsePositive(name: string, width: string -> int, nameWidth: int,
                                       genericWidth: string -> int)
    requires FirstAvailableRendered(name, width, false, nameWidth, genericWidth)
    requires forall i :: 0 <= i < |Fallbacks| ==> genericWidth(Fallbacks[i]) == genericWidth(Fallbacks[0])
    ensures Loaded(name, width)
  {
    var ws := Widths(name, width);
    assert forall i :: 0 <= i < |ws| ==> ws[i] == genericWidth(Fallbacks[0]);
  }
}
