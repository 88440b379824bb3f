/** The mobile menu of the header in components/custom/navbar.tsx: a
    `mobileOpen` flag that the toggle button flips, and that Escape, a
    pointer-down outside the header's island (the rounded box holding the
    top bar and the mobile panel), the backdrop or a link in the mobile
    panel clear. The panel shows only below the medium breakpoint, which is
    an input (`isMdUp`), not state. */
module MobileMenu {

  datatype Menu = Menu(mobileOpen: bool)

  const Closed: Menu := Menu(false)

  /** The panel is shown exactly when the flag is set and the viewport is
      narrower than the medium breakpoint. */
  predicate IsMobileOpen(m: Menu, isMdUp: bool): (r: bool)
    ensures isMdUp ==> !r
    ensures !isMdUp ==> (r <==> m.mobileOpen)
  {
    !isMdUp && m.mobileOpen
  }

  /** What the user does. `PointerDown(outside)` is a pointer-down anywhere
      in the document, `outside` meaning the island element is mounted and
      the target is a node outside it. The backdrop is not inside the
      island, so a pointer-down on it counts as outside. */
  datatype UiEvent =
    | Toggle
    | EscapeKey
    | OtherKey
    | PointerDown(outside: bool)
    | BackdropClick
    | MobileNavClick
    | DesktopNavClick

  /** The flag after one event. The Escape and pointer-down listeners and
      the backdrop exist only while the panel is shown; the toggle and the
      mobile links act on the flag directly. */
  function Step(m: Menu, isMdUp: bool, e: UiEvent): (r: Menu)
    ensures e == Toggle ==> r.mobileOpen == !m.mobileOpen
    ensures e == MobileNavClick ==> !r.mobileOpen
    ensures e in {EscapeKey, PointerDown(true), BackdropClick} ==>
      (r.mobileOpen <==> m.mobileOpen && !IsMobileOpen(m, isMdUp))
    ensures e in {OtherKey, PointerDown(false), DesktopNavClick} ==> r == m
  {
    match e
    case Toggle => Menu(!m.mobileOpen)
    case EscapeKey => if IsMobileOpen(m, isMdUp) then Closed else m
    case OtherKey => m
    case PointerDown(outside) => if IsMobileOpen(m, isMdUp) && outside then Closed else m
    case BackdropClick => if IsMobileOpen(m, isMdUp) then Closed else m
    case MobileNavClick => Closed
    case DesktopNavClick => m
  }

  /** The events that close a shown panel. */
  predicate Dismisses(e: UiEvent)
  {
    e.EscapeKey? || (e.PointerDown? && e.outside) || e.BackdropClick? || e.MobileNavClick?
  }

  /** Every dismissing event hides a shown panel, and only the toggle ever
      opens it. */
  lemma DismissAndOpen(m: Menu, isMdUp: bool, e: UiEvent)
    ensures IsMobileOpen(m, isMdUp) && Dismisses(e) ==> !IsMobileOpen(Step(m, isMdUp, e), isMdUp)
    ensures !m.mobileOpen && !e.Toggle? ==> !Step(m, isMdUp, e).mobileOpen
    ensures isMdUp ==> !IsMobileOpen(Step(m, isMdUp, e), isMdUp)
  {
  }

  /** Two toggles in a row leave the flag as it was. */
  lemma ToggleTwice(m: Menu, isMdUp: bool)
    ensures Step(Step(m, isMdUp, Toggle), isMdUp, Toggle) == m
  {
  }

  /** Escape on a wide viewport does not clear a flag set earlier on a
      narrow one, so the panel is shown again once the viewport narrows. */
  lemma EscapeOnWideViewportKeepsFlag()
    ensures IsMobileOpen(Step(Menu(true), true, EscapeKey), false)
  {
  }
}
