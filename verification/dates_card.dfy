/**
 * The swipe card (`src/component/DatesCard.js`): it flips between the cover
 * and the details on a press, sizes the description's font by its length,
 * and shows the `genres` column with its list punctuation removed.
 */
module DatesCard {

  /** `calculateFontSize(text)`, on `text.length`. */
  function FontSize(length: nat): (size: nat)
    ensures length < 600 ==> size == 14
    ensures 600 <= length < 900 ==> size == 12
    ensures 900 <= length < 1400 ==> size == 10
    ensures 1400 <= length ==> size == 8
  {
    if length < 600 then 14
    else if length < 900 then 12
    else if length < 1400 then 10
    else 8
  }

  /** The size is always one of four values. */
  lemma FontSizeRange(length: nat)
    ensures FontSize(length) in {8, 10, 12, 14}
  {
  }

  /** A longer text never gets a larger font. */
  lemma FontSizeMonotone(a: nat, b: nat)
    requires a <= b
    ensures FontSize(b) <= FontSize(a)
  {
  }

  /** The characters the regular expression `/[\[\]']/g` matches. */
  predicate IsListPunctuation(c: char) {
    c == '[' || c == ']' || c == '\''
  }

  /** `genres.replace(/[\[\]']/g, '')`: drop every `[`, `]` and `'`, keep the rest in order. */
  function StripGenres(s: string): (r: string)
    ensures |r| <= |s|
  {
    if s == [] then []
    else if IsListPunctuation(s[0]) then StripGenres(s[1..])
    else [s[0]] + StripGenres(s[1..])
  }

  /** No `[`, `]` or `'` survives. */
  lemma {:induction false} StripRemovesPunctuation(s: string)
    ensures forall i :: 0 <= i < |StripGenres(s)| ==> !IsListPunctuation(StripGenres(s)[i])
  {
    if s != [] {
      StripRemovesPunctuation(s[1..]);
    }
  }

  /** Every other character stays, as often as it occurred. */
  lemma {:induction false} StripKeepsOthers(s: string, c: char)
    requires !IsListPunctuation(c)
    ensures multiset(StripGenres(s))[c] == multiset(s)[c]
  {
    if s != [] {
      StripKeepsOthers(s[1..], c);
      assert s == [s[0]] + s[1..];
    }
  }

  /** A string with no list punctuation is left as it is. */
  lemma {:induction false} StripClean(s: string)
    requires forall i :: 0 <= i < |s| ==> !IsListPunctuation(s[i])
    ensures StripGenres(s) == s
  {
    if s != [] {
      StripClean(s[1..]);
      assert s == [s[0]] + s[1..];
    }
  }

  /** Stripping twice is stripping once. */
  lemma StripIdempotent(s: string)
    ensures StripGenres(StripGenres(s)) == StripGenres(s)
  {
    StripRemovesPunctuation(s);
    StripClean(StripGenres(s));
  }

  /** Stripping distributes over concatenation, so the kept characters stay in their order. */
  lemma {:induction false} StripAppend(a: string, b: string)
    ensures StripGenres(a + b) == StripGenres(a) + StripGenres(b)
  {
    if a == [] {
      assert a + b == b;
    } else {
      var c := a + b;
      assert c[0] == a[0] && c[1..] == a[1..] + b;
      StripAppend(a[1..], b);
      var kept := if IsListPunctuation(a[0]) then [] else [a[0]];
      assert StripGenres(c) == kept + StripGenres(a[1..] + b);
      assert StripGenres(a) == kept + StripGenres(a[1..]);
    }
  }

  /** The card's state: `isFlipped`. */
  class Card {
    var isFlipped: bool

    /** `useState(false)`. */
    constructor ()
      ensures !isFlipped
    {
      isFlipped := false;
    }

    /** `toggleFlip`: negate `isFlipped`. */
    method ToggleFlip()
      modifies this
      ensures isFlipped == !old(isFlipped)
    {
      isFlipped := !isFlipped;
    }
  }
}
