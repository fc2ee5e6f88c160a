/** The small click-driven widgets of the page: the mobile menu (hamburger),
    the monthly/yearly pricing toggle, the FAQ accordion and `setActive`.
    Each is a state record and a transition per kind of click; the page's
    elements are represented by the flags and texts the handlers write. */
module Widgets {
  import opened Wrappers

  // ---------------------------------------------------------------------
  // Mobile navigation menu (main.js lines 9-27)

  /** The `active` class on the hamburger button and on the link list. */
  datatype Menu = Menu(hamburgerActive: bool, linksActive: bool)

  /** The two flags agree, as they do on page load (both off). */
  predicate InLockstep(m: Menu) {
    m.hamburgerActive == m.linksActive
  }

  /** A click on the hamburger toggles each flag on its own. */
  function ToggleMenu(m: Menu): (r: Menu)
    ensures r.hamburgerActive != m.hamburgerActive && r.linksActive != m.linksActive
    ensures InLockstep(r) <==> InLockstep(m)
  {
    Menu(!m.hamburgerActive, !m.linksActive)
  }

  /** A click on any navigation link closes the menu. */
  function FollowNavLink(m: Menu): (r: Menu)
    ensures !r.hamburgerActive && !r.linksActive
    ensures InLockstep(r)
  {
    Menu(false, false)
  }

  /** Two hamburger clicks restore the menu. */
  lemma ToggleMenuTwice(m: Menu)
    ensures ToggleMenu(ToggleMenu(m)) == m
  {
  }

  // ---------------------------------------------------------------------
  // Pricing toggle (main.js lines 33-66)

  /** An element carrying `data-monthly-price` and `data-yearly-price`, and the
      text it shows. A missing yearly attribute is "" (setting `textContent`
      to null empties the element). */
  datatype PriceTag = PriceTag(monthly: string, yearly: string, shown: string)

  const YearLabel := "/year"
  const MonthLabel := "/month"

  /** The handler's `isYearly` flag, the button's `active` class, the price
      elements, the billing-period labels and whether each savings element
      is displayed. */
  datatype Pricing = Pricing(
    yearly: bool,
    buttonActive: bool,
    prices: seq<PriceTag>,
    periods: seq<string>,
    savingsShown: seq<bool>)

  /** Every element shows what the flag selects. */
  predicate ShowsCycle(p: Pricing) {
    && (forall i | 0 <= i < |p.prices| ::
          p.prices[i].shown == (if p.yearly then p.prices[i].yearly else p.prices[i].monthly))
    && (forall i | 0 <= i < |p.periods| :: p.periods[i] == (if p.yearly then YearLabel else MonthLabel))
    && (forall i | 0 <= i < |p.savingsShown| :: p.savingsShown[i] == p.yearly)
  }

  /** Rewrites every price to the attribute the flag selects. */
  function ShowPrices(prices: seq<PriceTag>, yearly: bool): (r: seq<PriceTag>)
    ensures |r| == |prices|
    ensures forall i | 0 <= i < |r| ::
              r[i].monthly == prices[i].monthly && r[i].yearly == prices[i].yearly
              && r[i].shown == (if yearly then prices[i].yearly else prices[i].monthly)
  {
    seq(|prices|, i requires 0 <= i < |prices| =>
      prices[i].(shown := if yearly then prices[i].yearly else prices[i].monthly))
  }

  /** A click on the billing-cycle button: flip the flag, toggle the button's
      class, then bring every price, period label and savings element in
      line with the new flag. The attributes and element counts are kept. */
  function PricingClick(p: Pricing): (r: Pricing)
    ensures r.yearly == !p.yearly
    ensures r.buttonActive == !p.buttonActive
    ensures ShowsCycle(r)
    ensures |r.prices| == |p.prices| && |r.periods| == |p.periods| && |r.savingsShown| == |p.savingsShown|
    ensures forall i | 0 <= i < |r.prices| ::
              r.prices[i].monthly == p.prices[i].monthly && r.prices[i].yearly == p.prices[i].yearly
  {
    var yearly := !p.yearly;
    Pricing(
      yearly,
      !p.buttonActive,
      ShowPrices(p.prices, yearly),
      seq(|p.periods|, _ => if yearly then YearLabel else MonthLabel),
      seq(|p.savingsShown|, _ => yearly))
  }

  /** The button's class tracks the flag: on page load both are off, and
      every click keeps them equal. */
  lemma PricingClickKeepsButtonInSync(p: Pricing)
    requires p.buttonActive == p.yearly
    ensures PricingClick(p).buttonActive == PricingClick(p).yearly
  {
  }

  /** Two clicks from a consistent page give back the same page. */
  lemma PricingClickTwice(p: Pricing)
    requires ShowsCycle(p)
    ensures PricingClick(PricingClick(p)) == p
  {
    var r := PricingClick(PricingClick(p));
    assert r.prices == p.prices;
    assert r.periods == p.periods;
    assert r.savingsShown == p.savingsShown;
  }

  // ---------------------------------------------------------------------
  // FAQ accordion (main.js lines 74-94)

  /** At most one flag is set: at most one FAQ item open, at most one
      button active. */
  predicate AtMostOneSet(open: seq<bool>) {
    forall i, j | 0 <= i < |open| && 0 <= j < |open| && open[i] && open[j] :: i == j
  }

  /** A click on the question of item `i`: close every other item, then
      toggle item `i`. */
  function FaqClick(open: seq<bool>, i: nat): (r: seq<bool>)
    requires i < |open|
    ensures |r| == |open|
    ensures r[i] == !open[i]
    ensures forall j | 0 <= j < |r| && j != i :: !r[j]
    ensures AtMostOneSet(r)
  {
    seq(|open|, j requires 0 <= j < |open| => if j == i then !open[i] else false)
  }

  /** Clicking an item twice restores the accordion when no other item was
      open before, in particular whenever that item was the open one or none
      was. */
  lemma FaqClickTwice(open: seq<bool>, i: nat)
    requires i < |open|
    requires forall j | 0 <= j < |open| && j != i :: !open[j]
    ensures FaqClick(FaqClick(open, i), i) == open
  {
  }

  /** Opening a closed item closes whichever item was open. */
  lemma FaqOpenClosesOthers(open: seq<bool>, i: nat, k: nat)
    requires i < |open| && k < |open| && i != k
    requires !open[i] && open[k]
    ensures FaqClick(open, i)[i] && !FaqClick(open, i)[k]
  {
  }

  // ---------------------------------------------------------------------
  // setActive (main.js lines 499-502); the blog's category buttons
  // (main.js lines 244-249) do the same.

  /** Remove `active` from every button, then add it to the chosen one if
      there is one. A chosen index outside the list (an element that is not
      one of the buttons) leaves every button inactive. */
  function SetActive(active: seq<bool>, chosen: Option<nat>): (r: seq<bool>)
    ensures |r| == |active|
    ensures forall j | 0 <= j < |r| :: r[j] <==> chosen == Some(j)
    ensures AtMostOneSet(r)
  {
    seq(|active|, j requires 0 <= j < |active| => chosen == Some(j))
  }

  /** Choosing one of the buttons leaves exactly that one active. */
  lemma SetActiveExactlyOne(active: seq<bool>, chosen: nat)
    requires chosen < |active|
    ensures var r := SetActive(active, Some(chosen));
            r[chosen] && forall j | 0 <= j < |r| && r[j] :: j == chosen
  {
  }
}
