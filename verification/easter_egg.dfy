/** The logo easter egg (`setupEasterEgg`): five clicks on the brand logo, each
    within two seconds of the previous one, show a hidden-feature toast (with
    confetti) and start the count again. The two-second timer is the explicit
    `Timeout` event. */
module EasterEgg {
  import opened Effects

  /** The number of clicks that sets the egg off. */
  const Threshold: nat := 5

  const Celebration: Toast := Toast("위글위글 숨겨진 기능 발견! 🎉", "success")

  /** One logo click on a count: the new count and whether the egg went off. */
  function ClickStep(count: nat): (r: (nat, bool))
    requires count < Threshold
    ensures r.0 < Threshold
    ensures r.1 <==> count == Threshold - 1
    ensures r.1 ==> r.0 == 0
    ensures !r.1 ==> r.0 == count + 1
  {
    var c := count + 1;
    if c >= Threshold then (0, true) else (c, false)
  }

  /** `k` clicks in a row, none more than two seconds after the previous one:
      the final count and how many times the egg went off. */
  function Clicks(count: nat, k: nat): (r: (nat, nat))
    requires count < Threshold
    ensures r.0 < Threshold
  {
    if k == 0 then (count, 0)
    else
      var (c, fired) := Clicks(count, k - 1);
      var (c', now) := ClickStep(c);
      (c', fired + if now then 1 else 0)
  }

  /** A run of clicks behaves like counting modulo five: the egg goes off once for
      every five clicks, and the leftover clicks are what the count holds. */
  lemma {:induction false} ClicksCountModuloFive(count: nat, k: nat)
    requires count < Threshold
    ensures Clicks(count, k) == ((count + k) % Threshold, (count + k) / Threshold)
  {
    if k > 0 {
      ClicksCountModuloFive(count, k - 1);
    }
  }

  class LogoEasterEgg {
    var clickCount: nat
    var timerArmed: bool   // a reset timer is pending
    var toasts: seq<Toast>

    ghost predicate Valid()
      reads this
    {
      clickCount < Threshold
    }

    constructor ()
      ensures Valid() && clickCount == 0 && !timerArmed && toasts == []
    {
      clickCount := 0;
      timerArmed := false;
      toasts := [];
    }

    /** A click on the logo: count it, restart the two-second reset timer, and on the
        fifth click show the hidden-feature toast and reset the count. */
    method Click()
      requires Valid()
      modifies this
      ensures Valid() && timerArmed
      ensures (clickCount, toasts != old(toasts)) == ClickStep(old(clickCount))
      ensures toasts == old(toasts) || toasts == old(toasts) + [Celebration]
    {
      clickCount := clickCount + 1;
      timerArmed := true;
      if clickCount >= Threshold {
        toasts := toasts + [Celebration];
        clickCount := 0;
      }
    }

    /** The reset timer fires two seconds after the last click: the count starts over. */
    method Timeout()
      requires Valid()
      modifies this
      ensures Valid()
      ensures old(timerArmed) ==> clickCount == 0 && !timerArmed
      ensures !old(timerArmed) ==> clickCount == old(clickCount) && timerArmed == old(timerArmed)
      ensures toasts == old(toasts)
    {
      if timerArmed {
        clickCount := 0;
        timerArmed := false;
      }
    }
  }
}
