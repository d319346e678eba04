/**
  The card palette and the initial deck of the matching game
  (`cardsSample` and `cardsAll` in src/matching/index.tsx). Card identities
  are the colour names the source uses as strings.
 */
module Deck {

  /** No value occurs twice. */
  ghost predicate Distinct<T>(s: seq<T>) {
    forall i, j :: 0 <= i < j < |s| ==> s[i] != s[j]
  }

  /** `cardsSample`: the five distinct card colours. */
  const Palette: seq<string> := ["red", "yellow", "olivedrab", "pink", "orange"]

  /** `cardsAll`: the palette concatenated with itself. */
  const CardsAll: seq<string> := Palette + Palette

  /** The number of pairs in a round, `cardsSample.length`. */
  const PaletteSize: int := |Palette|

  /** In a sequence without repetitions every value occurs at most once. */
  lemma {:induction false} DistinctOccursOnce<T>(s: seq<T>, c: T)
    requires Distinct(s)
    ensures multiset(s)[c] == if c in s then 1 else 0
  {
    if s != [] {
      assert s == [s[0]] + s[1..];
      assert Distinct(s[1..]);
      DistinctOccursOnce(s[1..], c);
      if c == s[0] {
        assert c !in s[1..];
      }
    }
  }

  /** Concatenating a palette of distinct identities with itself gives a
      deck of twice the size in which every identity of the palette occurs
      exactly twice and nothing else occurs. */
  lemma DoubledPaletteIsPairs<T>(palette: seq<T>)
    requires Distinct(palette)
    ensures |palette + palette| == 2 * |palette|
    ensures forall c :: multiset(palette + palette)[c] == if c in palette then 2 else 0
  {
    forall c
      ensures multiset(palette + palette)[c] == if c in palette then 2 else 0
    {
      DistinctOccursOnce(palette, c);
    }
  }

  /** The game's deck: ten cards, five colours, each colour exactly twice. */
  lemma CardsAllIsPairs()
    ensures PaletteSize == 5 && |CardsAll| == 10
    ensures forall c :: multiset(CardsAll)[c] == if c in Palette then 2 else 0
  {
    assert Distinct(Palette);
    DoubledPaletteIsPairs(Palette);
  }

  /** A value found at two different positions occurs at least twice. */
  lemma TwoPositionsTwice<T>(s: seq<T>, i: int, j: int)
    requires 0 <= i < |s| && 0 <= j < |s| && i != j && s[i] == s[j]
    ensures multiset(s)[s[i]] >= 2
  {
    var lo, hi := if i < j then i else j, if i < j then j else i;
    assert s == s[..hi] + s[hi..];
    assert s[..hi][lo] == s[i];
    assert s[hi..][0] == s[i];
    assert multiset(s[..hi])[s[i]] >= 1;
    assert multiset(s[hi..])[s[i]] >= 1;
  }
}
