/** The mobile menu: the `show` class on `#primary-navigation`, mirrored into
    the `aria-expanded` attribute of the `#hamburger` button. A click reaches
    the hamburger's listener when it lands on the button or inside it, a
    link's listener when it lands inside a menu link, and the document's
    listener always; the hamburger is not inside the menu. */
module Menu {

  /** Where a click lands. */
  datatype ClickTarget =
    | OnHamburger        // the `#hamburger` element itself
    | InsideHamburger    // an element inside the button, such as an icon bar
    | OnMenuLink         // an `a` in the menu, or an element inside one
    | InsideMenu         // any other part of the menu
    | Outside            // anywhere else on the page

  /** `String(isOpen)`. */
  function Expanded(show: bool): (attr: string)
    ensures attr == "true" <==> show
    ensures attr == "false" <==> !show
  {
    if show then "true" else "false"
  }

  datatype MenuState = MenuState(show: bool, expanded: string)

  /** The state `closeMenu` leaves: class removed, attribute "false". */
  const Closed := MenuState(false, "false")

  /** The hamburger's listener: toggle the class and mirror it. */
  function ToggleMenu(s: MenuState): MenuState {
    MenuState(!s.show, Expanded(!s.show))
  }

  /** One click, as the listeners are written: the hamburger's listener for
      a click on or inside the button, the link listener for a click in a
      menu link, then the document's listener, which closes the menu unless
      the target is inside the menu or is the button element itself. */
  function ClickAsWritten(s: MenuState, t: ClickTarget): (r: MenuState)
    ensures t == OnHamburger ==> r == ToggleMenu(s)
    ensures t == InsideMenu ==> r == s
    ensures t != OnHamburger && t != InsideMenu ==> r == Closed
  {
    var s1 := if t == OnHamburger || t == InsideHamburger then ToggleMenu(s) else s;
    var s2 := if t == OnMenuLink then Closed else s1;
    var insideMenu := t == OnMenuLink || t == InsideMenu;
    if !insideMenu && t != OnHamburger then Closed else s2
  }

  /** As written, a click that lands on an element inside the button is
      toggled by the button and then closed by the document: the menu ends
      closed whatever its state, so such a click never opens it. */
  lemma ChildClickNeverOpens(s: MenuState)
    ensures ClickAsWritten(s, InsideHamburger) == Closed
    ensures !s.show ==> ClickAsWritten(s, OnHamburger).show
  {
  }

  /** One click with the document's listener testing containment in the
      button (`hamburger.contains(e.target)`) rather than identity. */
  function Click(s: MenuState, t: ClickTarget): (r: MenuState)
    ensures r.expanded == Expanded(r.show) || r == s
    ensures t == OnHamburger || t == InsideHamburger ==> r == ToggleMenu(s)
    ensures t == OnMenuLink || t == Outside ==> r == Closed
    ensures t == InsideMenu ==> r == s
  {
    var s1 := if t == OnHamburger || t == InsideHamburger then ToggleMenu(s) else s;
    var s2 := if t == OnMenuLink then Closed else s1;
    var insideMenu := t == OnMenuLink || t == InsideMenu;
    var insideButton := t == OnHamburger || t == InsideHamburger;
    if !insideMenu && !insideButton then Closed else s2
  }

  /** The corrected listeners agree with the written ones except on a click
      inside the button, which now toggles like a click on the button. */
  lemma ClickAgreesExceptInsideButton(s: MenuState, t: ClickTarget)
    ensures t != InsideHamburger ==> Click(s, t) == ClickAsWritten(s, t)
    ensures Click(s, InsideHamburger) == Click(s, OnHamburger)
  {
  }

  /** Only a click on the button opens the menu; every other click closes
      it or leaves it alone, and whatever a click changes it mirrors. */
  lemma OnlyButtonOpens(s: MenuState, t: ClickTarget)
    requires !s.show
    ensures Click(s, t).show <==> t == OnHamburger || t == InsideHamburger
  {
  }

  class MobileMenu {
    /** The `show` class of `#primary-navigation`. */
    var show: bool
    /** The `aria-expanded` attribute of `#hamburger`. */
    var expanded: string

    /** The markup's initial class and attribute. */
    constructor (show: bool, expanded: string)
      ensures this.show == show && this.expanded == expanded
    {
      this.show := show;
      this.expanded := expanded;
    }

    /** `closeMenu`, run by a menu link's listener and by the document's. */
    method CloseMenu()
      modifies this
      ensures !show && expanded == "false"
    {
      show := false;
      expanded := "false";
    }

    /** The hamburger's listener. */
    method ToggleMenu()
      modifies this
      ensures show == !old(show) && expanded == Expanded(show)
    {
      show := !show;
      expanded := if show then "true" else "false";
    }

    /** The listeners a click reaches, in bubbling order, as written: the
        document's listener tests identity with the button. */
    method OnClickAsWritten(t: ClickTarget)
      modifies this
      ensures MenuState(show, expanded) == ClickAsWritten(old(MenuState(show, expanded)), t)
    {
      var insideButton := t == OnHamburger || t == InsideHamburger;
      var insideMenu := t == OnMenuLink || t == InsideMenu;
      if insideButton {
        ToggleMenu();
      }
      if t == OnMenuLink {
        CloseMenu();
      }
      if !insideMenu && t != OnHamburger {
        CloseMenu();
      }
    }

    /** The listeners a click reaches, in bubbling order, with the
        document's listener testing containment in the button. */
    method OnClick(t: ClickTarget)
      modifies this
      ensures MenuState(show, expanded) == Click(old(MenuState(show, expanded)), t)
    {
      var insideButton := t == OnHamburger || t == InsideHamburger;
      var insideMenu := t == OnMenuLink || t == InsideMenu;
      if insideButton {
        ToggleMenu();
      }
      if t == OnMenuLink {
        CloseMenu();
      }
      if !insideMenu && !insideButton {
        CloseMenu();
      }
    }
  }
}
