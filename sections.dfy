/** Collapsible sections: each toggle button carries an `aria-expanded`
    attribute, an arrow text, and controls a content element whose class
    list may hold `hidden`. A click flips the three together. */
module Sections {

  const ExpandedArrow: string := "[v]"
  const CollapsedArrow: string := "[>]"

  /** The observable triple of one section. */
  datatype SectionView = SectionView(ariaExpanded: string, arrow: string, hidden: bool)

  /** The triple agrees with itself: the attribute is "true" or "false", the
      arrow reads "[v]" when expanded and "[>]" when collapsed, and the
      content is shown exactly when expanded. */
  predicate Consistent(v: SectionView) {
    (v.ariaExpanded == "true" || v.ariaExpanded == "false") &&
    v.arrow == (if v.ariaExpanded == "true" then ExpandedArrow else CollapsedArrow) &&
    (v.hidden <==> v.ariaExpanded != "true")
  }

  /** The triple after one click. Any attribute value other than "true"
      counts as collapsed, so such a section expands. */
  function Toggled(v: SectionView): (t: SectionView)
    ensures Consistent(t)
    ensures t.ariaExpanded == "true" <==> v.ariaExpanded != "true"
  {
    if v.ariaExpanded == "true" then SectionView("false", CollapsedArrow, true)
    else SectionView("true", ExpandedArrow, false)
  }

  /** Two clicks on a consistent section give back the triple it started with. */
  lemma ToggleTwiceRestores(v: SectionView)
    requires Consistent(v)
    ensures Toggled(Toggled(v)) == v
  {
  }

  /** One section's toggle button together with its arrow and content. */
  class Section {
    var ariaExpanded: string
    var arrow: string
    var hidden: bool

    function View(): SectionView
      reads this
    {
      SectionView(ariaExpanded, arrow, hidden)
    }

    constructor (initial: SectionView)
      ensures View() == initial
    {
      ariaExpanded, arrow, hidden := initial.ariaExpanded, initial.arrow, initial.hidden;
    }

    /** The click handler of the toggle button. */
    method Toggle()
      modifies this
      ensures View() == Toggled(old(View()))
      ensures Consistent(View())
      ensures ariaExpanded == (if old(ariaExpanded) == "true" then "false" else "true")
    {
      var isExpanded := ariaExpanded == "true";
      if isExpanded {
        ariaExpanded := "false";
        arrow := CollapsedArrow;
        hidden := true;
      } else {
        ariaExpanded := "true";
        arrow := ExpandedArrow;
        hidden := false;
      }
    }
  }
}
