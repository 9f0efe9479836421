/** Testimonial rotation (`setupTestimonialRotation`): with more than three review
    cards, three consecutive cards (wrapping around) are displayed and the window
    advances by one card on every tick of the interval timer. */
module Testimonials {
  import opened Common

  /** How many cards are displayed at once. */
  const VisibleCards: nat := 3

  /** The cards displayed when the window starts at card `current`. */
  function Window(current: nat, n: nat): set<nat>
    requires n > 0
  {
    {current % n, (current + 1) % n, (current + 2) % n}
  }

  /** With more than three cards the window always holds exactly three distinct cards. */
  lemma WindowHasThreeCards(current: nat, n: nat)
    requires n > VisibleCards && current < n
    ensures |Window(current, n)| == VisibleCards
    ensures forall j :: j in Window(current, n) ==> j < n
  {
    ModSmall(current, n);
    ModSmall(current + 1, n);
    ModSmall(current + 2, n);
    var a, b, c := current % n, (current + 1) % n, (current + 2) % n;
    assert a != b && b != c && a != c;
    assert Window(current, n) == {a} + {b} + {c};
  }

  /** One tick slides the window: the first card leaves and the card after the
      last one enters. */
  lemma WindowSlides(current: nat, n: nat)
    requires n > VisibleCards && current < n
    ensures Window((current + 1) % n, n)
         == Window(current, n) - {current} + {((current + 1) % n + VisibleCards - 1) % n}
    ensures current !in Window((current + 1) % n, n)
  {
    ModSmall(current + 1, n);
    var c' := (current + 1) % n;
    ModSmall(c', n);
    ModSmall(c' + 1, n);
    ModSmall(c' + 2, n);
    ModSmall(current + 2, n);
    ModSmall(current, n);
  }

  /** Hiding the window's first card and displaying the one after its last turns
      the display of one window into the display of the next. */
  lemma TickShowsNextWindow(shown: seq<bool>, current: nat, after: seq<bool>, next: nat)
    requires |shown| > VisibleCards && current < |shown|
    requires forall j :: 0 <= j < |shown| ==> (shown[j] <==> j in Window(current, |shown|))
    requires next == (current + 1) % |shown|
    requires after == shown[current := false][(next + VisibleCards - 1) % |shown| := true]
    ensures forall j :: 0 <= j < |after| ==> (after[j] <==> j in Window(next, |after|))
  {
    var n := |shown|;
    var last := (next + VisibleCards - 1) % n;
    WindowSlides(current, n);
    assert Window(next, n) == Window(current, n) - {current} + {last};
  }

  /** A display state that matches the window shows exactly three cards. */
  lemma DisplayedAreTheWindow(shown: seq<bool>, current: nat)
    requires |shown| > VisibleCards && current < |shown|
    requires forall j :: 0 <= j < |shown| ==> (shown[j] <==> j in Window(current, |shown|))
    ensures (set j | 0 <= j < |shown| && shown[j]) == Window(current, |shown|)
    ensures |set j | 0 <= j < |shown| && shown[j]| == VisibleCards
  {
    WindowHasThreeCards(current, |shown|);
  }

  class TestimonialRotator {
    const shown: array<bool>   // card i is displayed
    const rotating: bool       // the interval timer was installed
    var current: nat

    ghost predicate Valid()
      reads this, shown
    {
      && rotating == (shown.Length > VisibleCards)
      && (rotating ==> current < shown.Length
                       && forall j :: 0 <= j < shown.Length ==> (shown[j] <==> j in Window(current, shown.Length)))
      && (!rotating ==> current == 0 && forall j :: 0 <= j < shown.Length ==> shown[j])
    }

    /** The page's `n` review cards, all displayed by the markup; with more than
        three, every card from the fourth on is hidden and rotation starts at card 0. */
    constructor (n: nat)
      ensures Valid() && shown.Length == n && current == 0 && fresh(shown)
      ensures forall j :: 0 <= j < n ==> (shown[j] <==> n <= VisibleCards || j < VisibleCards)
    {
      shown := new bool[n](j => true);
      rotating := n > VisibleCards;
      current := 0;
      new;
      if n > VisibleCards {
        var j := 0;
        while j < n
          invariant 0 <= j <= n && current == 0
          invariant forall k :: 0 <= k < n ==> (shown[k] <==> k >= j || k < VisibleCards)
        {
          if j >= VisibleCards {
            shown[j] := false;
          }
          j := j + 1;
        }
        ModSmall(0, n);
        ModSmall(1, n);
        ModSmall(2, n);
        assert Window(0, n) == {0, 1, 2};
      }
    }

    /** One tick of the five-second interval: hide the first displayed card, advance
        the start of the window, display the card that now closes it. Without
        rotation there is no timer and a tick changes nothing. */
    method Tick()
      requires Valid()
      modifies this`current, shown
      ensures Valid()
      ensures rotating ==> current == (old(current) + 1) % shown.Length
      ensures rotating ==> forall j :: 0 <= j < shown.Length ==>
                (shown[j] <==> j in Window(current, shown.Length))
      ensures rotating ==> |set j | 0 <= j < shown.Length && shown[j]| == VisibleCards
      ensures !rotating ==> current == old(current) && shown[..] == old(shown[..])
    {
      if rotating {
        var n := shown.Length;
        ghost var before := shown[..];
        shown[current] := false;
        current := (current + 1) % n;
        var nextIndex := (current + VisibleCards - 1) % n;
        shown[nextIndex] := true;
        assert shown[..] == before[old(current) := false][nextIndex := true];
        TickShowsNextWindow(before, old(current), shown[..], current);
        DisplayedAreTheWindow(shown[..], current);
        assert (set j | 0 <= j < n && shown[j]) == (set j | 0 <= j < |shown[..]| && shown[..][j]);
      }
    }
  }
}
