/**
 * Section navigation: the page shows one section at a time. showSection
 * hides the current section, shows the requested one and marks the nav
 * button with the same index as active; an index out of range is ignored.
 */
module Navigation {

  /** style.display of a section element: "flex" or "none". */
  datatype Display = Flex | Hidden

  /** The display of n sections when section c, and no other, is shown. */
  function OnlyShown(n: nat, c: int): (ds: seq<Display>)
    ensures |ds| == n
    ensures forall j :: 0 <= j < n ==> (ds[j] == Flex <==> j == c)
  {
    seq(n, j requires 0 <= j < n => if j == c then Flex else Hidden)
  }

  /** The "active" class of n nav buttons when section c is current. */
  function ActiveFlags(n: nat, c: int): (fs: seq<bool>)
    ensures |fs| == n
    ensures forall j :: 0 <= j < n ==> (fs[j] <==> j == c)
  {
    seq(n, j requires 0 <= j < n => j == c)
  }

  /** The number of elements of s equal to x. */
  function Count<T(==)>(s: seq<T>, x: T): nat {
    if s == [] then 0 else Count(s[..|s| - 1], x) + (if s[|s| - 1] == x then 1 else 0)
  }

  /** Exactly one button is active when the current section has one, none otherwise. */
  lemma {:induction false} ExactlyOneActive(n: nat, c: int)
    ensures Count(ActiveFlags(n, c), true) == if 0 <= c < n then 1 else 0
  {
    if n > 0 {
      assert ActiveFlags(n, c)[..n - 1] == ActiveFlags(n - 1, c);
      ExactlyOneActive(n - 1, c);
    }
  }

  /** Exactly one section is displayed when the index is in range. */
  lemma {:induction false} ExactlyOneShown(n: nat, c: int)
    ensures Count(OnlyShown(n, c), Flex) == if 0 <= c < n then 1 else 0
  {
    if n > 0 {
      assert OnlyShown(n, c)[..n - 1] == OnlyShown(n - 1, c);
      ExactlyOneShown(n - 1, c);
    }
  }

  class Page {
    /** The global currentSection. */
    var currentSection: int
    /** The global sections: [] until initializeSections queries the section elements. */
    var sections: array<Display>
    /** The .bottom-nav .nav-btn elements; true when the button has class "active". */
    const navButtons: array<bool>

    /** The script's initial globals: currentSection = 0, sections = []. */
    constructor (navButtons: array<bool>)
      ensures currentSection == 0 && sections.Length == 0
      ensures this.navButtons == navButtons
    {
      currentSection := 0;
      sections := new Display[0];
      this.navButtons := navButtons;
    }

    /** The sections are on screen as they should be: only the current one is shown. */
    ghost predicate OnlyCurrentShown()
      reads this, sections
    {
      sections[..] == OnlyShown(sections.Length, currentSection)
    }

    /** initializeSections: section 0 is displayed, every other section hidden. */
    method InitializeSections(dom: array<Display>)
      modifies this, dom
      ensures sections == dom
      ensures dom[..] == OnlyShown(dom.Length, 0)
      ensures currentSection == old(currentSection)
    {
      sections := dom;
      var i := 0;
      while i < dom.Length
        invariant 0 <= i <= dom.Length
        invariant sections == dom && currentSection == old(currentSection)
        invariant forall j :: 0 <= j < i ==> dom[j] == (if j == 0 then Flex else Hidden)
      {
        dom[i] := if i == 0 then Flex else Hidden;
        i := i + 1;
      }
    }

    /** updateNavigation: toggle "active" on every button, on exactly for the current index. */
    method UpdateNavigation()
      modifies navButtons
      ensures navButtons[..] == ActiveFlags(navButtons.Length, currentSection)
    {
      var i := 0;
      while i < navButtons.Length
        invariant 0 <= i <= navButtons.Length
        invariant forall j :: 0 <= j < i ==> navButtons[j] == (j == currentSection)
      {
        navButtons[i] := i == currentSection;
        i := i + 1;
      }
    }

    /** showSection(index) */
    method ShowSection(index: int)
      modifies this`currentSection, sections, navButtons
      ensures sections == old(sections)
      ensures index < 0 || index >= sections.Length ==>
        currentSection == old(currentSection) && unchanged(sections) && unchanged(navButtons)
      ensures 0 <= index < sections.Length ==>
        && currentSection == index
        && sections[index] == Flex
        && (0 <= old(currentSection) < sections.Length && old(currentSection) != index ==>
              sections[old(currentSection)] == Hidden)
        && (forall j :: 0 <= j < sections.Length && j != index && j != old(currentSection) ==>
              sections[j] == old(sections[j]))
        && navButtons[..] == ActiveFlags(navButtons.Length, index)
      ensures old(OnlyCurrentShown()) ==> OnlyCurrentShown()
    {
      if index < 0 || index >= sections.Length {
        return;
      }
      if 0 <= currentSection < sections.Length {
        sections[currentSection] := Hidden;
      }
      currentSection := index;
      sections[currentSection] := Flex;
      UpdateNavigation();
    }
  }

  /**
   * The page after the preloader: initializeSections, then showSection(0).
   * One section is shown and, when there is a nav button for it, one button is active.
   */
  method Start(dom: array<Display>, buttons: array<bool>) returns (page: Page)
    modifies dom, buttons
    ensures page.sections == dom && page.navButtons == buttons
    ensures page.OnlyCurrentShown()
    ensures dom.Length > 0 ==> page.currentSection == 0 && buttons[..] == ActiveFlags(buttons.Length, 0)
  {
    page := new Page(buttons);
    page.InitializeSections(dom);
    page.ShowSection(0);
  }
}
