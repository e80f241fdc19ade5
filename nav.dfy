/** The mobile navigation menu: the "open" class of the link list, the
    `aria-expanded` attribute of the toggle button and the toggle's icon. */
module Nav {

  /** "☰" and "✕". */
  datatype Icon = Menu | Close

  /** Where a click on the document landed. */
  datatype ClickTarget = InsideLinks | InsideToggle | Elsewhere

  class NavMenu {
    /** The link list carries the "open" class. */
    var open: bool
    /** The toggle's `aria-expanded` attribute reads "true". */
    var expanded: bool
    var icon: Icon

    /** Class, attribute and icon agree, as every handler leaves them. */
    predicate Consistent()
      reads this
    {
      open == expanded && icon == (if expanded then Close else Menu)
    }

    predicate Closed()
      reads this
    {
      !open && !expanded && icon == Menu
    }

    /** The menu as the page markup has it. */
    constructor (open0: bool, expanded0: bool, icon0: Icon)
      ensures open == open0 && expanded == expanded0 && icon == icon0
    {
      open, expanded, icon := open0, expanded0, icon0;
    }

    /** `closeNav`. */
    method CloseNav()
      modifies this
      ensures Closed() && Consistent()
    {
      open, expanded, icon := false, false, Menu;
    }

    /** A click on the toggle flips the attribute and the class
      independently, and shows the icon for the new attribute value. */
    method ToggleClick()
      modifies this
      ensures expanded == !old(expanded) && open == !old(open)
      ensures icon == (if expanded then Close else Menu)
      ensures old(Consistent()) ==> Consistent()
    {
      var wasExpanded := expanded;
      expanded := !wasExpanded;
      open := !open;
      icon := if wasExpanded then Menu else Close;
    }

    /** A click on one of the menu's links closes the menu. */
    method LinkClick()
      modifies this
      ensures Closed() && Consistent()
    {
      CloseNav();
    }

    /** A click anywhere in the document closes an open menu, unless it
      landed inside the link list or the toggle. */
    method DocumentClick(target: ClickTarget)
      modifies this
      ensures old(open) && target == Elsewhere ==> Closed()
      ensures !(old(open) && target == Elsewhere) ==>
                open == old(open) && expanded == old(expanded) && icon == old(icon)
      ensures old(Consistent()) ==> Consistent()
    {
      if !open {
        return;
      }
      if target == InsideLinks || target == InsideToggle {
        return;
      }
      CloseNav();
    }

    /** Escape closes the menu; other keys do nothing. */
    method DocumentKeyDown(key: string)
      modifies this
      ensures key == "Escape" ==> Closed()
      ensures key != "Escape" ==>
                open == old(open) && expanded == old(expanded) && icon == old(icon)
      ensures old(Consistent()) ==> Consistent()
    {
      if key == "Escape" {
        CloseNav();
      }
    }
  }
}
