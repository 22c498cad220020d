/** The responsive navigation bar of the landing page.

    Three class markers make up the mobile menu's state: `active` on the
    nav-links list, `active` on the navbar's CTA buttons and `open` on the
    hamburger icon.  A hamburger click toggles all three; a click on a
    nav link, and a click on any in-page anchor, removes all three, but
    only when the nav-links list is `active`. */
module Navigation {

  /** The three markers, as a value. */
  datatype Nav = Nav(linksActive: bool, ctaActive: bool, hamburgerOpen: bool)

  /** The menu is closed: no marker is set. */
  const Closed := Nav(false, false, false)

  /** The three markers agree: the menu is wholly open or wholly closed. */
  predicate InLockStep(n: Nav)
  {
    n.linksActive == n.ctaActive == n.hamburgerOpen
  }

  /** The markers after a hamburger click: each one is flipped. */
  function Toggled(n: Nav): (r: Nav)
    ensures r.linksActive != n.linksActive
    ensures r.ctaActive != n.ctaActive
    ensures r.hamburgerOpen != n.hamburgerOpen
    ensures InLockStep(n) <==> InLockStep(r)
  {
    n.(linksActive := !n.linksActive,
       ctaActive := !n.ctaActive,
       hamburgerOpen := !n.hamburgerOpen)
  }

  /** The markers after a nav-link or in-page anchor click: all removed when
      the nav-links list is active, otherwise nothing changes. */
  function ClosedIfOpen(n: Nav): (r: Nav)
    ensures !r.linksActive
    ensures !n.linksActive ==> r == n
    ensures n.linksActive ==> r == Closed
    ensures InLockStep(n) ==> InLockStep(r)
  {
    if n.linksActive then Closed else n
  }

  /** The clicks that change the menu's markers. */
  datatype Event = HamburgerClick | NavLinkClick | AnchorClick

  /** The markers after one click, dispatched to its handler. */
  function Step(n: Nav, e: Event): (r: Nav)
    ensures e != HamburgerClick ==> !r.linksActive
    ensures InLockStep(n) ==> InLockStep(r)
  {
    match e
    case HamburgerClick => Toggled(n)
    case NavLinkClick => ClosedIfOpen(n)
    case AnchorClick => ClosedIfOpen(n)
  }

  /** The markers after the clicks in `events`, one after the other: when
      the last click was on a nav link or an in-page anchor, the nav-links
      list is not active. */
  function Replay(n: Nav, events: seq<Event>): (r: Nav)
    ensures events != [] && events[|events| - 1] != HamburgerClick ==> !r.linksActive
    decreases |events|
  {
    if events == [] then n else Replay(Step(n, events[0]), events[1..])
  }

  /** Two hamburger clicks in a row restore all three markers. */
  lemma ToggledTwiceRestores(n: Nav)
    ensures Toggled(Toggled(n)) == n
  {
  }

  /** Closing twice is closing once: a nav link that is also an in-page
      anchor runs both handlers, with the effect of one. */
  lemma ClosedIfOpenIdempotent(n: Nav)
    ensures ClosedIfOpen(ClosedIfOpen(n)) == ClosedIfOpen(n)
  {
  }

  /** From markers in lock step (such as the closed menu, when the markup
      loads with no marker set), any sequence of clicks keeps them in lock
      step. */
  lemma {:induction false} ReplayKeepsLockStep(n: Nav, events: seq<Event>)
    requires InLockStep(n)
    ensures InLockStep(Replay(n, events))
    decreases |events|
  {
    if events != [] {
      ReplayKeepsLockStep(Step(n, events[0]), events[1..]);
    }
  }

  /** `k` hamburger clicks in a row. */
  function HamburgerClicks(k: nat): seq<Event>
  {
    seq(k, _ => HamburgerClick)
  }

  /** Any even number of hamburger clicks restores all three markers. */
  lemma {:induction false} EvenHamburgerClicksRestore(n: Nav, k: nat)
    ensures Replay(n, HamburgerClicks(2 * k)) == n
    decreases k
  {
    if k > 0 {
      var rest := HamburgerClicks(2 * (k - 1));
      assert HamburgerClicks(2 * k) == [HamburgerClick, HamburgerClick] + rest;
      assert HamburgerClicks(2 * k)[1..] == [HamburgerClick] + rest;
      EvenHamburgerClicksRestore(n, k - 1);
      calc {
        Replay(n, HamburgerClicks(2 * k));
        Replay(Toggled(n), [HamburgerClick] + rest);
        { assert ([HamburgerClick] + rest)[1..] == rest; }
        Replay(Toggled(Toggled(n)), rest);
        { ToggledTwiceRestores(n); }
        Replay(n, rest);
      }
    }
  }

  /** The menu on the page: the three markers as fields. */
  class NavMenu {
    var linksActive: bool
    var ctaActive: bool
    var hamburgerOpen: bool

    function State(): Nav
      reads this
    {
      Nav(linksActive, ctaActive, hamburgerOpen)
    }

    /** The menu as the page loads it, assuming the markup sets no marker:
        closed. */
    constructor ()
      ensures State() == Closed
    {
      linksActive, ctaActive, hamburgerOpen := false, false, false;
    }

    /** The hamburger click handler. */
    method ToggleHamburger()
      modifies this
      ensures State() == Toggled(old(State()))
    {
      linksActive := !linksActive;
      ctaActive := !ctaActive;
      hamburgerOpen := !hamburgerOpen;
    }

    /** The nav-link click handler, and the menu-closing part of the
        in-page anchor click handler. */
    method CloseIfOpen()
      modifies this
      ensures State() == ClosedIfOpen(old(State()))
    {
      if linksActive {
        linksActive := false;
        ctaActive := false;
        hamburgerOpen := false;
      }
    }
  }
}
