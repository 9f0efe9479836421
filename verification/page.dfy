/** The document-level keyboard handler: Escape closes the FAQ, the arrow keys move
    focus among the size options. It is the one handler that reaches both the
    accordion and the selector. */
module Page {
  import opened Common
  import opened Faq
  import opened Sizes
  import opened Layout

  /** Where keyboard focus is: on size option `index`, or on something else. */
  datatype Focus = OnSizeOption(index: nat) | Elsewhere

  /** The arrow a key names, if it names one. */
  function ArrowOf(key: string): (a: Option<Arrow>)
    ensures a == Some(Left) <==> key == "ArrowLeft"
    ensures a == Some(Right) <==> key == "ArrowRight"
  {
    if key == "ArrowLeft" then Some(Left)
    else if key == "ArrowRight" then Some(Right)
    else None
  }

  /** The focus after a key press: an arrow pressed on a size option moves focus
      to the neighbouring option, wrapping around; anything else leaves it. */
  function FocusAfterKey(focus: Focus, n: nat, key: string): (f: Focus)
    requires focus.OnSizeOption? ==> focus.index < n
    ensures f.OnSizeOption? ==> f.index < n
    ensures f != focus ==> focus.OnSizeOption? && ArrowOf(key).Some?
    ensures focus.OnSizeOption? && ArrowOf(key).Some? ==>
              f == OnSizeOption(NextFocus(focus.index, n, ArrowOf(key).value))
  {
    match (focus, ArrowOf(key))
    case (OnSizeOption(i), Some(arrow)) => OnSizeOption(NextFocus(i, n, arrow))
    case _ => focus
  }

  class PageState {
    const faq: FaqAccordion
    const sizes: SizeSelector
    var focus: Focus

    ghost predicate Valid()
      reads this, faq
    {
      && faq.Valid()
      && sizes.active != faq.answerOpen && sizes.active != faq.questionActive
      && (focus.OnSizeOption? ==> focus.index < sizes.active.Length)
    }

    constructor (faq: FaqAccordion, sizes: SizeSelector)
      requires faq.Valid()
      requires sizes.active != faq.answerOpen && sizes.active != faq.questionActive
      ensures Valid() && this.faq == faq && this.sizes == sizes && focus == Elsewhere
    {
      this.faq := faq;
      this.sizes := sizes;
      focus := Elsewhere;
    }

    /** A keydown anywhere on the document. Escape closes every answer and clears
        every question's mark; an arrow key moves focus among the size options but
        never changes which option is selected, nor the CTAs. */
    method KeyDown(key: string)
      requires Valid()
      modifies faq.answerOpen, faq.questionActive, this`focus
      ensures Valid()
      ensures key == "Escape" ==> faq.answerOpen[..] == AllClosed(faq.answerOpen.Length)
      ensures key == "Escape" ==> faq.questionActive[..] == faq.answerOpen[..]
      ensures key != "Escape" ==>
        faq.answerOpen[..] == old(faq.answerOpen[..]) && faq.questionActive[..] == old(faq.questionActive[..])
      ensures focus == FocusAfterKey(old(focus), sizes.active.Length, key)
      ensures sizes.active[..] == old(sizes.active[..]) && sizes.ctas[..] == old(sizes.ctas[..])
    {
      if key == "Escape" {
        faq.CloseAll();
      }
      var arrow := ArrowOf(key);
      if arrow.Some? && focus.OnSizeOption? {
        focus := OnSizeOption(NextFocus(focus.index, sizes.active.Length, arrow.value));
      }
    }
  }

  /** Every CTA the selector writes links to an order anchor, so the smooth-scroll
      handler returns without preventing the default or scrolling. (The CTA's own
      click handler is the one that prevents the navigation and starts the cart flow.) */
  lemma CtaLinksAreLeftAlone(index: nat, targetTop: Option<int>, headerHeight: Option<int>)
    ensures AnchorClick(CtaFor(index).href, targetTop, headerHeight) == FollowLink
  {
    CtaForSpelledOut(index);
  }
}
