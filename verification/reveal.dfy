/** Intersection-driven, one-shot effects: the fade-in reveal of animation targets
    (`setupScrollAnimations`) and the lazy `data-src` swap (`setupLazyLoading`).
    Only the fact "this element intersected" is modelled; thresholds and margins
    are not. */
module Reveal {
  import opened Common

  /** The class names whose elements are revealed one after another. */
  const StaggeredClasses: set<string> := {"problem-card", "usp-card", "review-card", "community-item"}

  predicate IsStaggered(classes: seq<string>) {
    exists k :: 0 <= k < |classes| && classes[k] in StaggeredClasses
  }

  /** When a target's final style is applied: synchronously, or by a timer after `ms`. */
  datatype Timing = Immediately | After(ms: nat)

  /** The timing of a revealed target with the given classes, at position
      `siblingIndex` among its parent's children: grid items wait 100ms per
      preceding sibling, everything else is revealed at once. */
  function RevealTiming(classes: seq<string>, siblingIndex: nat): (t: Timing)
    ensures t.Immediately? <==> !IsStaggered(classes)
    ensures t.After? ==> t.ms % 100 == 0 && t.ms / 100 == siblingIndex
  {
    if IsStaggered(classes) then After(siblingIndex * 100) else Immediately
  }

  /** Among grid siblings, a later sibling is revealed strictly later. */
  lemma StaggerIsIncreasing(classes: seq<string>, i: nat, j: nat)
    requires IsStaggered(classes) && i < j
    ensures RevealTiming(classes, i).ms < RevealTiming(classes, j).ms
  {
  }

  /** One fired reveal: the target and when its style is applied. */
  datatype RevealEffect = RevealEffect(target: nat, timing: Timing)

  function FiredTargets(effects: seq<RevealEffect>): set<nat> {
    set k | 0 <= k < |effects| :: effects[k].target
  }

  /** The animation targets, index-aligned: `observed[i]` is "the observer still
      watches target i", `visible[i]` is "target i has the class visible". */
  class RevealController {
    const observed: array<bool>
    const visible: array<bool>
    var effects: seq<RevealEffect>

    /** A target is visible exactly when it is no longer observed, exactly when its
        reveal has fired, and no reveal has fired twice. */
    ghost predicate Valid()
      reads this, observed, visible
    {
      && observed.Length == visible.Length && observed != visible
      && (forall i :: 0 <= i < visible.Length ==> (visible[i] <==> !observed[i]))
      && (forall i :: 0 <= i < visible.Length ==> (visible[i] <==> i in FiredTargets(effects)))
      && (forall k :: 0 <= k < |effects| ==> effects[k].target < visible.Length)
      && (forall k, l :: 0 <= k < l < |effects| ==> effects[k].target != effects[l].target)
    }

    /** `n` targets, each given the fade-in class and observed. */
    constructor (n: nat)
      ensures Valid() && observed.Length == n && effects == []
      ensures fresh(observed) && fresh(visible)
      ensures forall i :: 0 <= i < n ==> observed[i] && !visible[i]
    {
      observed := new bool[n](i => true);
      visible := new bool[n](i => false);
      effects := [];
    }

    /** Target `i` intersects the viewport. If it is still observed it is revealed,
        its effect fires with the timing for its classes and position, and it is no
        longer observed; otherwise the observer is not called and nothing happens. */
    method Intersect(i: nat, classes: seq<string>, siblingIndex: nat)
      requires Valid() && i < visible.Length
      modifies observed, visible, this`effects
      ensures Valid()
      ensures visible[i] && !observed[i]
      ensures old(observed[i]) ==> effects == old(effects) + [RevealEffect(i, RevealTiming(classes, siblingIndex))]
      ensures !old(observed[i]) ==> effects == old(effects)
      ensures forall j :: 0 <= j < visible.Length && j != i ==>
                visible[j] == old(visible[j]) && observed[j] == old(observed[j])
    {
      if observed[i] {
        visible[i] := true;
        effects := effects + [RevealEffect(i, RevealTiming(classes, siblingIndex))];
        observed[i] := false;
        assert FiredTargets(effects) == FiredTargets(old(effects)) + {i} by {
          assert effects[|effects| - 1].target == i;
          forall t | t in FiredTargets(effects) ensures t in FiredTargets(old(effects)) + {i} {
            var k :| 0 <= k < |effects| && effects[k].target == t;
            if k < |old(effects)| {
              assert old(effects)[k] == effects[k];
            }
          }
          forall t | t in FiredTargets(old(effects)) ensures t in FiredTargets(effects) {
            var k :| 0 <= k < |old(effects)| && old(effects)[k].target == t;
            assert effects[k] == old(effects)[k];
          }
        }
      }
    }
  }

  /** An image as the lazy loader sees it: its `src`, its `data-src` attribute (None
      when absent) and whether the loader observes it. */
  datatype Image = Image(src: string, dataSrc: Option<string>, observed: bool)

  /** The loader observes exactly the images that carry a `data-src` attribute. */
  function Observe(img: Image): (r: Image)
    ensures r.observed <==> img.dataSrc.Some?
    ensures r.src == img.src && r.dataSrc == img.dataSrc
  {
    img.(observed := img.dataSrc.Some?)
  }

  /** An observed image intersects: a non-empty `data-src` becomes the `src`, the
      attribute is removed and the image is no longer observed. An empty `data-src`
      is left in place and the image stays observed. */
  function LazyIntersect(img: Image): (r: Image)
    ensures img.observed && img.dataSrc.Some? && img.dataSrc.value != "" ==>
              r == Image(img.dataSrc.value, None, false)
    ensures !(img.observed && img.dataSrc.Some? && img.dataSrc.value != "") ==> r == img
  {
    if img.observed && img.dataSrc.Some? && img.dataSrc.value != "" then
      Image(img.dataSrc.value, None, false)
    else img
  }

  /** The swap happens at most once: a second intersection changes nothing. */
  lemma LazyIntersectIdempotent(img: Image)
    ensures LazyIntersect(LazyIntersect(img)) == LazyIntersect(img)
  {
  }

  /** An image observed with a non-empty `data-src` ends up showing that source. */
  lemma LazyLoadShowsDataSrc(img: Image)
    requires img.dataSrc.Some? && img.dataSrc.value != ""
    ensures LazyIntersect(Observe(img)).src == img.dataSrc.value
    ensures !LazyIntersect(Observe(img)).observed
  {
  }
}
