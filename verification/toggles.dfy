/**
 The "active" class flip shared by the sidebar, the filter dropdown and the
 modal (`elementToggleFunc` and `classList.toggle('active')`), and the
 sidebar behaviour built on it. An element is represented only by whether
 its class list currently holds "active".
 */
module Toggles {

  /** `classList.toggle('active')`: the flag is inverted, whatever it was. */
  function Toggle(active: bool): (r: bool)
    ensures r != active
  {
    !active
  }

  /** The flag after `n` consecutive toggles. */
  function ToggleTimes(active: bool, n: nat): (r: bool)
    ensures r == (if n % 2 == 0 then active else !active)
  {
    if n == 0 then active else Toggle(ToggleTimes(active, n - 1))
  }

  /** Toggling twice gives back the original flag, so toggles of n and n + 2 agree. */
  lemma ToggleTimesPeriodTwo(active: bool, n: nat)
    ensures ToggleTimes(active, n + 2) == ToggleTimes(active, n)
  {
    assert ToggleTimes(active, n + 2) == Toggle(Toggle(ToggleTimes(active, n)));
  }

  /** The sidebar container, reduced to its "active" flag. */
  datatype Sidebar = Sidebar(active: bool)

  /** A click on the sidebar trigger toggles the sidebar container. */
  function ClickSidebarBtn(s: Sidebar): (r: Sidebar)
    ensures r.active != s.active
  {
    Sidebar(Toggle(s.active))
  }

  /** The sidebar after `n` clicks on its trigger. */
  function ClickSidebarBtnTimes(s: Sidebar, n: nat): (r: Sidebar)
    ensures r.active == ToggleTimes(s.active, n)
  {
    if n == 0 then s else ClickSidebarBtn(ClickSidebarBtnTimes(s, n - 1))
  }

  /** Two clicks on the trigger put the sidebar back where it was. */
  lemma SidebarTwoClicksRestore(s: Sidebar)
    ensures ClickSidebarBtn(ClickSidebarBtn(s)) == s
  {
  }

  /** The sidebar is open after `n` clicks iff it was open and `n` is even, or closed and `n` is odd. */
  lemma SidebarClicksParity(s: Sidebar, n: nat)
    ensures ClickSidebarBtnTimes(s, n).active <==> (s.active <==> n % 2 == 0)
  {
  }
}
