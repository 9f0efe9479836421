/** The cart and wishlist stubs: the product data a CTA click builds from the active
    size option, the add-to-cart toast and event with their fallbacks, and the
    wishlist toggle over the stored list of product ids. */
module Cart {
  import opened Common
  import opened Text
  import opened Effects
  import Sizes

  /** What the active size option shows: the text of its `strong` element and of
      its `.size-price` element (None when the element is missing). */
  datatype OptionView = OptionView(strong: Option<string>, priceText: Option<string>)

  /** `a?.textContent || fallback`: a missing element and an empty text both fall back. */
  function TextOr(t: Option<string>, fallback: string): (r: string)
    ensures t.Some? && t.value != "" ==> r == t.value
    ensures t.None? || t.value == "" ==> r == fallback
    ensures fallback != "" ==> r != ""
  {
    if t.Some? && t.value != "" then t.value else fallback
  }

  /** The product data a CTA click builds; `price` is None for NaN. */
  datatype Product = Product(id: string, name: string, size: string, price: Option<nat>)

  const ProductName: string := "Smile We Love 보냉백"

  /** The product data for a CTA click, given the active size option (None when no
      option is active): size and price text fall back to the small bag's. */
  function ProductForCta(active: Option<OptionView>): (p: Product)
    ensures "smile-cooler-" <= p.id && p.size != "" && p.name == ProductName
    ensures p.id == "smile-cooler-" + LowerAscii(p.size)
    ensures active.None? ==> p.size == "S사이즈" && p.price == PriceValue("13,900원")
    ensures active.Some? ==> p.size == TextOr(active.value.strong, "S사이즈")
    ensures active.Some? ==> p.price == PriceValue(TextOr(active.value.priceText, "13,900원"))
  {
    var sizeText := if active.Some? then TextOr(active.value.strong, "S사이즈") else "S사이즈";
    var priceText := if active.Some? then TextOr(active.value.priceText, "13,900원") else "13,900원";
    Product("smile-cooler-" + LowerAscii(sizeText), ProductName, sizeText, PriceValue(priceText))
  }

  /** `addToCart`: the success toast and the tracked event, whose fields fall back
      to defaults when empty, and whose price falls back to 13900 when it is NaN or 0. */
  function AddToCartOutcome(p: Product): (r: (Toast, Event))
    ensures r.0 == Toast("장바구니에 추가되었습니다! 🛒", "success")
    ensures r.1.AddToCart? && r.1.productId != "" && r.1.productName != "" && r.1.size != "" && r.1.price > 0
    ensures p.id != "" ==> r.1.productId == p.id
    ensures p.id == "" ==> r.1.productId == "smile-cooler-bag"
    ensures p.name != "" ==> r.1.productName == p.name
    ensures p.name == "" ==> r.1.productName == ProductName
    ensures p.size != "" ==> r.1.size == p.size
    ensures p.size == "" ==> r.1.size == "S"
    ensures p.price.Some? && p.price.value > 0 ==> r.1.price == p.price.value
    ensures p.price.None? || p.price.value == 0 ==> r.1.price == 13900
  {
    (Toast("장바구니에 추가되었습니다! 🛒", "success"),
     AddToCart(if p.id != "" then p.id else "smile-cooler-bag",
               if p.name != "" then p.name else "Smile We Love 보냉백",
               if p.size != "" then p.size else "S",
               if p.price.Some? && p.price.value != 0 then p.price.value else 13900))
  }

  /** Whatever positive price the active option shows in the page's won format, a
      CTA click tracks an 'add_to_cart' event for exactly that option's size and price. */
  lemma OrderTracksShownPrice(strong: string, n: nat)
    requires strong != "" && n > 0
    ensures AddToCartOutcome(ProductForCta(Some(OptionView(Some(strong), Some(FormatWon(n))))))
         == (Toast("장바구니에 추가되었습니다! 🛒", "success"),
             AddToCart("smile-cooler-" + LowerAscii(strong), ProductName, strong, n))
  {
    PriceRoundTrip(n);
  }

  /** With size L selected and its price shown as 18,500원, a CTA click ends in a
      success toast and an 'add_to_cart' event with price 18500. */
  lemma LargeOrderTracksItsPrice(strong: string)
    requires strong != ""
    ensures AddToCartOutcome(ProductForCta(Some(OptionView(Some(strong), Some("18,500원"))))).1.price == 18500
    ensures AddToCartOutcome(ProductForCta(Some(OptionView(Some(strong), Some("18,500원"))))).1.size == strong
  {
    Sizes.PriceTextIsFormatted(1);
    OrderTracksShownPrice(strong, 18500);
  }

  /** With no active option, the order is for the small bag at 13900. */
  lemma DefaultOrderIsSmall()
    ensures ProductForCta(None).size == "S사이즈"
    ensures AddToCartOutcome(ProductForCta(None)).1.price == 13900
  {
    Sizes.PriceTextIsFormatted(0);
    PriceRoundTrip(13900);
    assert ProductForCta(None).price == Some(13900);
  }

  /** A price text of zero is reported as the default price, not as 0. */
  lemma ZeroPriceFallsBack(p: Product)
    requires p.price == Some(0)
    ensures AddToCartOutcome(p).1.price == 13900
  {
  }

  /** `indexOf`: the first position of `x` in `s`, or -1. */
  function IndexOf(s: seq<string>, x: string): (k: int)
    ensures -1 <= k < |s|
    ensures k == -1 <==> x !in s
    ensures k >= 0 ==> s[k] == x && x !in s[..k]
  {
    if s == [] then -1
    else if s[0] == x then 0
    else
      var k := IndexOf(s[1..], x);
      assert s[1..][..(if k < 0 then 0 else k)] == s[1..(if k < 0 then 1 else k + 1)];
      if k == -1 then -1 else k + 1
  }

  /** The stored list after toggling `id`: its first occurrence spliced out if
      there is one, otherwise `id` appended. */
  function Toggled(s: seq<string>, id: string): (r: seq<string>)
    ensures id !in s ==> r == s + [id]
    ensures id in s ==> |r| == |s| - 1
  {
    var k := IndexOf(s, id);
    if k > -1 then s[..k] + s[k + 1..] else s + [id]
  }

  /** Removing the first occurrence takes exactly one copy of `id` out of the list
      and keeps the order of everything else. */
  lemma ToggleRemovesFirstOccurrence(s: seq<string>, id: string)
    requires id in s
    ensures multiset(Toggled(s, id)) == multiset(s) - multiset{id}
    ensures var k := IndexOf(s, id); Toggled(s, id) == s[..k] + s[k + 1..] && id !in s[..k]
  {
    var k := IndexOf(s, id);
    assert s == s[..k] + [s[k]] + s[k + 1..];
    assert multiset(s) == multiset(s[..k]) + multiset{id} + multiset(s[k + 1..]);
  }

  /** Starting from a list without `id`, toggling twice gives back the list exactly. */
  lemma ToggleTwiceRestores(s: seq<string>, id: string)
    requires id !in s
    ensures Toggled(Toggled(s, id), id) == s
  {
    var t := s + [id];
    assert Toggled(s, id) == t;
    assert t[..|s|] == s;
    assert id !in t[..|s|];
    var k := IndexOf(t, id);
    assert k == |s|;
  }

  predicate NoDuplicates(s: seq<string>) {
    forall i, j :: 0 <= i < j < |s| ==> s[i] != s[j]
  }

  /** A list without duplicates stays so, and then the toggle's result says
      whether `id` is in the list afterwards. */
  lemma ToggleKeepsNoDuplicates(s: seq<string>, id: string)
    requires NoDuplicates(s)
    ensures NoDuplicates(Toggled(s, id))
    ensures id in Toggled(s, id) <==> id !in s
  {
    var r := Toggled(s, id);
    if id in s {
      var k := IndexOf(s, id);
      assert r == s[..k] + s[k + 1..];
      assert |r| == |s| - 1;
      assert forall i :: 0 <= i < |r| ==> r[i] == s[if i < k then i else i + 1];
      forall i, j | 0 <= i < j < |r| ensures r[i] != r[j] {
        var i' := if i < k then i else i + 1;
        var j' := if j < k then j else j + 1;
        assert i' < j';
      }
      assert id !in r by {
        forall i | 0 <= i < |r| ensures r[i] != id {
          var i' := if i < k then i else i + 1;
          assert i' != k;
        }
      }
    } else {
      assert r == s + [id];
      forall i, j | 0 <= i < j < |r| ensures r[i] != r[j] {
        if j == |s| {
          assert r[i] == s[i];
        }
      }
      assert r[|s|] == id;
    }
  }

  /** A list with `id` twice keeps it after a removal: the toggle then reports
      "not added" although `id` is still present. */
  lemma DuplicateSurvivesRemoval()
    ensures Toggled(["a", "a"], "a") == ["a"]
  {
    assert IndexOf(["a", "a"], "a") == 0;
  }

  /** The wishlist: the list stored under the 'wishlist' key (empty when the key
      is absent), the toasts shown and the events tracked. */
  class Wishlist {
    var stored: seq<string>
    var toasts: seq<Toast>
    var events: seq<Event>

    constructor (stored: seq<string>)
      ensures this.stored == stored && toasts == [] && events == []
    {
      this.stored := stored;
      toasts := [];
      events := [];
    }

    /** `toggleWishlist(productId)`: returns whether the id was added. */
    method Toggle(productId: string) returns (added: bool)
      modifies this
      ensures added <==> productId !in old(stored)
      ensures stored == Toggled(old(stored), productId)
      ensures toasts == old(toasts) + [if added then Toast("위시리스트에 추가되었습니다! 💝", "success")
                                       else Toast("위시리스트에서 제거되었습니다", "info")]
      ensures events == old(events) + [WishlistToggle(productId, if added then "add" else "remove")]
    {
      var index := IndexOf(stored, productId);
      if index > -1 {
        stored := stored[..index] + stored[index + 1..];
        toasts := toasts + [Toast("위시리스트에서 제거되었습니다", "info")];
      } else {
        stored := stored + [productId];
        toasts := toasts + [Toast("위시리스트에 추가되었습니다! 💝", "success")];
      }
      events := events + [WishlistToggle(productId, if index > -1 then "remove" else "add")];
      added := index == -1;
    }
  }
}
