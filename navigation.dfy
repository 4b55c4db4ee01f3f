/**
  The navigation controller of the portfolio page (`initNavigation` in
  script.js): the burger button that opens and closes the mobile menu, the
  scroll handler that highlights the link of the section being read, and the
  navbar background that turns opaque once the page is scrolled.

  Sections are given as (id, offsetTop) pairs in document order and links by
  their `href` attribute; the live document is not modelled.
 */
module Navigation {

  /** A `<section>` element: its `id` attribute and its `offsetTop`. */
  datatype Section = Section(id: string, offsetTop: int)

  /** A section counts as reached this many pixels before its top scrolls into view. */
  const Lookahead: int := 200
  /** Scroll offset past which the navbar is drawn opaque. */
  const NavThreshold: int := 50
  const OpaqueBackground: string := "rgba(10, 10, 26, 0.95)"
  const TranslucentBackground: string := "rgba(10, 10, 26, 0.8)"

  /** The scroll handler's test `scrollY >= sectionTop - 200`. */
  predicate Reached(s: Section, scrollY: int)
  {
    scrollY >= s.offsetTop - Lookahead
  }

  predicate NoneReached(sections: seq<Section>, scrollY: int)
  {
    forall k :: 0 <= k < |sections| ==> !Reached(sections[k], scrollY)
  }

  /** Section `k` is reached and no section after it in document order is. */
  predicate IsLastReached(sections: seq<Section>, scrollY: int, k: int)
  {
    0 <= k < |sections| && Reached(sections[k], scrollY) &&
    forall j :: k < j < |sections| ==> !Reached(sections[j], scrollY)
  }

  /**
    The id the scroll handler settles on, read from the end of the document:
    the last section if it is reached, otherwise the choice among the sections
    before it, and `""` when there is none.
   */
  function SelectedId(sections: seq<Section>, scrollY: int): string
    decreases |sections|
  {
    if |sections| == 0 then ""
    else if Reached(sections[|sections| - 1], scrollY) then sections[|sections| - 1].id
    else SelectedId(sections[..|sections| - 1], scrollY)
  }

  /**
    The selected id is that of the last reached section in document order, or
    `""` if no section is reached; when some section is reached, a last one
    exists.
   */
  lemma {:induction false} SelectedIdIsLast(sections: seq<Section>, scrollY: int)
    ensures NoneReached(sections, scrollY) ==> SelectedId(sections, scrollY) == ""
    ensures !NoneReached(sections, scrollY) ==> exists k :: IsLastReached(sections, scrollY, k)
    ensures forall k :: IsLastReached(sections, scrollY, k) ==> SelectedId(sections, scrollY) == sections[k].id
    decreases |sections|
  {
    if |sections| > 0 {
      var last := |sections| - 1;
      var init := sections[..last];
      if Reached(sections[last], scrollY) {
        assert IsLastReached(sections, scrollY, last);
        forall k | IsLastReached(sections, scrollY, k) ensures k == last {
        }
      } else {
        SelectedIdIsLast(init, scrollY);
        assert NoneReached(sections, scrollY) <==> NoneReached(init, scrollY) by {
          assert forall k :: 0 <= k < last ==> init[k] == sections[k];
        }
        forall k | IsLastReached(init, scrollY, k) ensures IsLastReached(sections, scrollY, k) {
          assert init[k] == sections[k];
        }
        forall k | IsLastReached(sections, scrollY, k) ensures IsLastReached(init, scrollY, k) {
          assert init[k] == sections[k];
        }
      }
    }
  }

  /** The `forEach` over the sections that computes `current`. */
  method CurrentSection(sections: seq<Section>, scrollY: int) returns (current: string)
    ensures current == SelectedId(sections, scrollY)
    ensures NoneReached(sections, scrollY) ==> current == ""
    ensures forall k :: IsLastReached(sections, scrollY, k) ==> current == sections[k].id
  {
    current := "";
    for i := 0 to |sections|
      invariant current == SelectedId(sections[..i], scrollY)
    {
      assert sections[..i + 1][..i] == sections[..i];
      if scrollY >= sections[i].offsetTop - Lookahead {
        current := sections[i].id;
      }
    }
    assert sections[..|sections|] == sections;
    SelectedIdIsLast(sections, scrollY);
  }

  /** JavaScript's `href.slice(1)`: the href without its first character. */
  function HrefTarget(href: string): (r: string)
    ensures |href| == 0 ==> r == ""
    ensures |href| > 0 ==> [href[0]] + r == href
  {
    if |href| == 0 then "" else href[1..]
  }

  /** Whether each link carries the `active` class once `current` is chosen. */
  function ActiveFlags(hrefs: seq<string>, current: string): (r: seq<bool>)
    ensures |r| == |hrefs|
  {
    seq(|hrefs|, i requires 0 <= i < |hrefs| => HrefTarget(hrefs[i]) == current)
  }

  /** No two links point at the same id. */
  predicate DistinctTargets(hrefs: seq<string>)
  {
    forall i, j :: 0 <= i < j < |hrefs| ==> HrefTarget(hrefs[i]) != HrefTarget(hrefs[j])
  }

  /** A link is active exactly when its target is the chosen id. */
  lemma ActiveIffTarget(hrefs: seq<string>, current: string)
    ensures forall i :: 0 <= i < |hrefs| ==>
      (ActiveFlags(hrefs, current)[i] <==> HrefTarget(hrefs[i]) == current)
  {
  }

  /** With distinct link targets, at most one link is active. */
  lemma AtMostOneActive(hrefs: seq<string>, current: string)
    requires DistinctTargets(hrefs)
    ensures forall i, j ::
      (0 <= i < |hrefs| && 0 <= j < |hrefs| &&
       ActiveFlags(hrefs, current)[i] && ActiveFlags(hrefs, current)[j]) ==> i == j
  {
  }

  /**
    What the scroll handler highlights: every active link points at the last
    reached section (or has the empty target while no section is reached), and
    with distinct targets the link that points at the last reached section is
    the only active one.
   */
  lemma ScrollHighlight(sections: seq<Section>, hrefs: seq<string>, scrollY: int)
    ensures var flags := ActiveFlags(hrefs, SelectedId(sections, scrollY));
      forall i :: 0 <= i < |hrefs| && flags[i] ==>
        (NoneReached(sections, scrollY) && HrefTarget(hrefs[i]) == "") ||
        (exists k :: IsLastReached(sections, scrollY, k) && HrefTarget(hrefs[i]) == sections[k].id)
    ensures var flags := ActiveFlags(hrefs, SelectedId(sections, scrollY));
      DistinctTargets(hrefs) ==>
        forall k, i ::
          (IsLastReached(sections, scrollY, k) && 0 <= i < |hrefs| &&
           HrefTarget(hrefs[i]) == sections[k].id) ==>
            flags[i] && forall j :: 0 <= j < |hrefs| && j != i ==> !flags[j]
  {
    SelectedIdIsLast(sections, scrollY);
  }

  /** The inline background the scroll handler gives the navbar. */
  function NavBackground(scrollY: int): string
  {
    if scrollY > NavThreshold then OpaqueBackground else TranslucentBackground
  }

  /** The navbar is opaque exactly past the threshold, and translucent otherwise. */
  lemma NavBackgroundThreshold(scrollY: int)
    ensures NavBackground(scrollY) == OpaqueBackground <==> scrollY > NavThreshold
    ensures NavBackground(scrollY) == TranslucentBackground <==> scrollY <= NavThreshold
  {
  }

  /**
    The page state the navigation handlers change: the `active` class of the
    menu (`.nav-links`), of the burger button and of every `.nav-link`, and the
    navbar's inline background.
   */
  class Controller {
    const hrefs: seq<string>
    const linkActive: array<bool>
    var menuOpen: bool
    var burgerActive: bool
    var navBackground: string

    ghost predicate Valid()
      reads this
    {
      linkActive.Length == |hrefs|
    }

    /** The menu and the burger button show the same open/closed state. */
    predicate MenuConsistent()
      reads this
    {
      menuOpen == burgerActive
    }

    /** The state found in the markup when the page loads. */
    constructor (hrefs: seq<string>, initialActive: seq<bool>,
                 menuOpen: bool, burgerActive: bool, navBackground: string)
      requires |initialActive| == |hrefs|
      ensures Valid() && fresh(linkActive) && this.hrefs == hrefs
      ensures linkActive[..] == initialActive
      ensures this.menuOpen == menuOpen && this.burgerActive == burgerActive
      ensures this.navBackground == navBackground
    {
      this.hrefs := hrefs;
      this.menuOpen, this.burgerActive := menuOpen, burgerActive;
      this.navBackground := navBackground;
      linkActive := new bool[|initialActive|](i requires 0 <= i < |initialActive| => initialActive[i]);
    }

    /** A click on the burger toggles both classes. */
    method BurgerClick()
      modifies this`menuOpen, this`burgerActive
      ensures menuOpen == !old(menuOpen) && burgerActive == !old(burgerActive)
      ensures MenuConsistent() == old(MenuConsistent())
    {
      menuOpen := !menuOpen;
      burgerActive := !burgerActive;
    }

    /** A click on any link closes the menu: both classes are removed. */
    method LinkClick()
      modifies this`menuOpen, this`burgerActive
      ensures !menuOpen && !burgerActive
      ensures MenuConsistent()
    {
      menuOpen := false;
      burgerActive := false;
    }

    /**
      The scroll handler. Every link is first cleared and then marked by the
      chosen section alone, so the new flags do not depend on the old ones and
      running the handler again with the same scroll position changes nothing.
     */
    method Scroll(sections: seq<Section>, scrollY: int)
      requires Valid()
      modifies linkActive, this`navBackground
      ensures linkActive[..] == ActiveFlags(hrefs, SelectedId(sections, scrollY))
      ensures forall i :: 0 <= i < linkActive.Length ==>
        (linkActive[i] <==> HrefTarget(hrefs[i]) == SelectedId(sections, scrollY))
      ensures navBackground == NavBackground(scrollY)
    {
      var current := CurrentSection(sections, scrollY);
      for i := 0 to linkActive.Length
        invariant forall j :: 0 <= j < i ==> linkActive[j] == (HrefTarget(hrefs[j]) == current)
      {
        linkActive[i] := false;
        if HrefTarget(hrefs[i]) == current {
          linkActive[i] := true;
        }
      }
      if scrollY > NavThreshold {
        navBackground := OpaqueBackground;
      } else {
        navBackground := TranslucentBackground;
      }
    }
  }
}
