/** The size selector (`setupSizeSelector`) and the arrow-key focus movement among
    its options. Option 0 is the small bag, every other option the large one; a
    selection rewrites every call-to-action button. */
module Sizes {
  import opened Common
  import opened Text

  /** The size letter the selector derives from an option's position. */
  function SizeLetter(index: nat): string {
    if index == 0 then "S" else "L"
  }

  /** The price text the selector writes for an option's position. */
  function PriceText(index: nat): string {
    if index == 0 then "13,900원" else "18,500원"
  }

  /** The price, in won, that goes with an option's position. */
  function PriceOf(index: nat): nat {
    if index == 0 then 13900 else 18500
  }

  /** A call-to-action button: its text and the anchor it links to. */
  datatype Cta = Cta(text: string, href: string)

  /** What every CTA becomes after option `index` is selected. */
  function CtaFor(index: nat): Cta {
    var size := SizeLetter(index);
    Cta("💛 " + size + "사이즈 주문하기 (" + PriceText(index) + ")", "#order-" + LowerAscii(size))
  }

  /** The two CTA variants spelled out: S and 13,900원 with `#order-s` exactly for
      the first option, L and 18,500원 with `#order-l` for any other. */
  lemma CtaForSpelledOut(index: nat)
    ensures CtaFor(index) ==
      if index == 0 then Cta("💛 S사이즈 주문하기 (13,900원)", "#order-s")
      else Cta("💛 L사이즈 주문하기 (18,500원)", "#order-l")
  {
    if index == 0 {
      assert LowerAscii("S") == "s" by { assert "S"[1..] == []; }
      assert "💛 " + "S" + "사이즈 주문하기 (" + "13,900원" + ")" == "💛 S사이즈 주문하기 (13,900원)";
    } else {
      assert LowerAscii("L") == "l" by { assert "L"[1..] == []; }
      assert "💛 " + "L" + "사이즈 주문하기 (" + "18,500원" + ")" == "💛 L사이즈 주문하기 (18,500원)";
    }
  }

  /** The hard-coded price texts are the prices formatted the way the page formats prices. */
  lemma PriceTextIsFormatted(index: nat)
    ensures PriceText(index) == FormatWon(PriceOf(index))
  {
    if index == 0 {
      assert Decimal(13) == "13" by {
        assert Decimal(1) == "1";
        assert DigitChar(3) == '3';
      }
      assert Pad3(900) == "900" by {
        assert DigitChar(9) == '9' && DigitChar(0) == '0';
      }
      assert Grouped(13900) == "13" + "," + "900";
    } else {
      assert Decimal(18) == "18" by {
        assert Decimal(1) == "1";
        assert DigitChar(8) == '8';
      }
      assert Pad3(500) == "500" by {
        assert DigitChar(5) == '5' && DigitChar(0) == '0';
      }
      assert Grouped(18500) == "18" + "," + "500";
    }
  }

  /** The text around the price in a CTA label holds no digit. */
  lemma CtaTemplateHasNoDigits(index: nat)
    ensures DigitsOnly("💛 " + SizeLetter(index) + "사이즈 주문하기 (") == []
    ensures DigitsOnly(")") == []
  {
    var head := "💛 " + SizeLetter(index) + "사이즈 주문하기 (";
    assert |head| == 13;
    assert forall i :: 0 <= i < |head| ==> !IsDigit(head[i]);
    DigitsOnlyOfNonDigits(head);
    DigitsOnlyOfNonDigits(")");
  }

  /** Reading the digits of a rewritten CTA's text gives the selected option's price:
      every CTA advertises the price of the selected size. */
  lemma CtaAdvertisesPrice(index: nat)
    ensures PriceValue(CtaFor(index).text) == Some(PriceOf(index))
  {
    var head := "💛 " + SizeLetter(index) + "사이즈 주문하기 (";
    var price := PriceText(index);
    assert CtaFor(index).text == head + price + ")";
    DigitsOnlyAppend(head + price, ")");
    DigitsOnlyAppend(head, price);
    CtaTemplateHasNoDigits(index);
    assert DigitsOnly(CtaFor(index).text) == DigitsOnly(price);
    PriceTextIsFormatted(index);
    PriceRoundTrip(PriceOf(index));
    assert DigitsOnly(FormatWon(PriceOf(index))) == DigitsOnly(price);
  }

  /** The two arrow keys that move focus among the options. */
  datatype Arrow = Left | Right

  /** The option that receives focus when an arrow key is pressed on option
      `current` of `n`: one step to the left or right, wrapping at both ends. */
  function NextFocus(current: nat, n: nat, key: Arrow): (next: nat)
    requires current < n
    ensures next < n
    ensures key == Right ==> next == (current + 1) % n
    ensures key == Left ==> next == (current + n - 1) % n
  {
    ModSmall(current + 1, n);
    ModSmall(current + n - 1, n);
    match key
    case Left => if current > 0 then current - 1 else n - 1
    case Right => if current < n - 1 then current + 1 else 0
  }

  /** Left from the first option wraps to the last, Right from the last wraps to the first. */
  lemma NextFocusWraps(n: nat)
    requires n >= 1
    ensures NextFocus(0, n, Left) == n - 1
    ensures NextFocus(n - 1, n, Right) == 0
  {
  }

  /** Left undoes Right and Right undoes Left. */
  lemma NextFocusInverse(current: nat, n: nat)
    requires current < n
    ensures NextFocus(NextFocus(current, n, Right), n, Left) == current
    ensures NextFocus(NextFocus(current, n, Left), n, Right) == current
  {
  }

  /** The selector: `active[i]` is "option i has the class active"; `ctas` are the
      page's CTA buttons. */
  class SizeSelector {
    const active: array<bool>
    const ctas: array<Cta>

    /** The state a click on option `index` produces. */
    ghost predicate Selected(index: nat)
      reads this, active, ctas
    {
      (forall j :: 0 <= j < active.Length ==> active[j] == (j == index))
      && (forall k :: 0 <= k < ctas.Length ==> ctas[k] == CtaFor(index))
    }

    /** The options' active marks and the CTA buttons as the markup has them. */
    constructor (marks: seq<bool>, buttons: seq<Cta>)
      ensures fresh(active) && fresh(ctas)
      ensures active[..] == marks && ctas[..] == buttons
    {
      active := new bool[|marks|](j requires 0 <= j < |marks| => marks[j]);
      ctas := new Cta[|buttons|](k requires 0 <= k < |buttons| => buttons[k]);
    }

    /** A click on option `index`: it alone becomes active and every CTA is rewritten.
        Clicking the option that is already selected changes nothing. */
    method Click(index: nat)
      requires index < active.Length
      modifies active, ctas
      ensures active[..] == OneHot(active.Length, index)
      ensures forall k :: 0 <= k < ctas.Length ==> ctas[k] == CtaFor(index)
      ensures Selected(index)
      ensures old(Selected(index)) ==> active[..] == old(active[..]) && ctas[..] == old(ctas[..])
    {
      var j := 0;
      while j < active.Length
        invariant 0 <= j <= active.Length
        invariant forall m :: 0 <= m < j ==> !active[m]
        invariant forall k :: 0 <= k < ctas.Length ==> ctas[k] == old(ctas[k])
      {
        active[j] := false;
        j := j + 1;
      }
      active[index] := true;
      var cta := CtaFor(index);
      var k := 0;
      while k < ctas.Length
        invariant 0 <= k <= ctas.Length
        invariant forall m :: 0 <= m < k ==> ctas[m] == cta
        invariant forall m :: 0 <= m < active.Length ==> active[m] == (m == index)
      {
        ctas[k] := cta;
        k := k + 1;
      }
    }

    /** A key pressed on option `index`: Enter and Space click it. */
    method OptionKeyDown(index: nat, key: string)
      requires index < active.Length
      modifies active, ctas
      ensures IsActivationKey(key) ==> Selected(index)
      ensures !IsActivationKey(key) ==> active[..] == old(active[..]) && ctas[..] == old(ctas[..])
    {
      if IsActivationKey(key) {
        Click(index);
      }
    }
  }

  /** Whatever was active before, a selection leaves exactly one option active. */
  lemma SelectionIsExclusive(n: nat, index: nat)
    requires index < n
    ensures CountTrue(OneHot(n, index)) == 1
  {
    OneHotCount(n, index);
  }
}
