/** Position-derived behaviour: in-page anchor clicks (`setupSmoothScrolling`) and
    the floating order button's visibility (`createFloatingOrderButton`). DOM
    geometry (offsets, heights, scroll position) comes in as integer parameters. */
module Layout {
  import opened Common

  /** Space left between the sticky header and a scrolled-to section, in pixels. */
  const HeaderGap: int := 20

  /** Links the smooth-scroll handler returns early for, without preventing the default. */
  predicate IsOrderLink(href: string) {
    "#order-" <= href
  }

  /** What a click on an in-page anchor does. */
  datatype AnchorAction =
    | FollowLink        // this handler leaves the default alone
    | Nothing           // default prevented, no element matches the anchor
    | ScrollTo(top: int)

  /** A click on an anchor whose `href` starts with `#`. `targetTop` is the matched
      element's offsetTop (None when `querySelector(href)` finds nothing) and
      `headerHeight` the header's offsetHeight (None when there is no header). */
  function AnchorClick(href: string, targetTop: Option<int>, headerHeight: Option<int>): (a: AnchorAction)
    ensures a.FollowLink? <==> IsOrderLink(href)
    ensures a.Nothing? <==> !IsOrderLink(href) && targetTop.None?
    ensures a.ScrollTo? ==> a.top + HeaderGap + headerHeight.GetOr(0) == targetTop.value
  {
    if IsOrderLink(href) then FollowLink
    else if targetTop.None? then Nothing
    else ScrollTo(targetTop.value - headerHeight.GetOr(0) - HeaderGap)
  }

  /** Without a header the page scrolls to twenty pixels above the target; a taller
      header moves the stopping point up by exactly its height. */
  lemma ScrollStopsAboveTarget(href: string, top: int, header: nat)
    requires !IsOrderLink(href)
    ensures AnchorClick(href, Some(top), None) == ScrollTo(top - HeaderGap)
    ensures AnchorClick(href, Some(top), Some(header)).top <= AnchorClick(href, Some(top), None).top
  {
  }

  /** The hero section's geometry: its offsetTop and offsetHeight. */
  datatype Box = Box(top: int, height: int)

  /** The floating button's visibility after a scroll event. `None` means neither
      style is touched (the hero or the CTA section is missing); otherwise
      `Some(true)` is "slid in and opaque", `Some(false)` "slid out and transparent". */
  function FabVisibility(scrollY: int, hero: Option<Box>, ctaTop: Option<int>, innerHeight: int): (v: Option<bool>)
    ensures v.None? <==> hero.None? || ctaTop.None?
    ensures v == Some(true) <==>
              hero.Some? && ctaTop.Some? && hero.value.top + hero.value.height < scrollY < ctaTop.value - innerHeight
  {
    match (hero, ctaTop)
    case (Some(h), Some(c)) =>
      var heroBottom := h.top + h.height;
      Some(scrollY > heroBottom && scrollY < c - innerHeight)
    case _ => None
  }

  /** The positions at which the button shows form one interval: it is shown
      anywhere between two positions where it is shown, and hidden at both ends
      (at the hero's bottom and a viewport above the CTA section). */
  lemma FabShownOnInterval(a: int, b: int, c: int, hero: Box, ctaTop: int, innerHeight: int)
    requires a <= b <= c
    requires FabVisibility(a, Some(hero), Some(ctaTop), innerHeight) == Some(true)
    requires FabVisibility(c, Some(hero), Some(ctaTop), innerHeight) == Some(true)
    ensures FabVisibility(b, Some(hero), Some(ctaTop), innerHeight) == Some(true)
    ensures FabVisibility(hero.top + hero.height, Some(hero), Some(ctaTop), innerHeight) == Some(false)
    ensures FabVisibility(ctaTop - innerHeight, Some(hero), Some(ctaTop), innerHeight) == Some(false)
  {
  }
}
