/** The lesson page: four tabbed sections and the Previous/Next buttons below them. */
module Lesson {
  import Navigation

  /** The titles of the lesson's sections, in tab order. */
  const SectionTitles: seq<string> := ["Dialogue", "Vocabulary", "Grammar", "Practice"]

  /** The one piece of navigation state of the lesson page: the active section. */
  class LessonView {
    const sections: seq<string>
    var activeSection: nat

    /** The active section always names one of the sections. */
    ghost predicate Valid()
      reads this
    {
      sections == SectionTitles && activeSection < |sections|
    }

    /** The page opens on the first section. */
    constructor ()
      ensures Valid() && activeSection == 0
    {
      sections := SectionTitles;
      activeSection := 0;
    }

    /** The section shown under the tabs: indexing the sections is always in range. */
    function ActiveTitle(): (t: string)
      reads this
      requires Valid()
      ensures t in SectionTitles
    {
      sections[activeSection]
    }

    /** Previous is disabled on the first section. */
    predicate PreviousEnabled()
      reads this
    {
      activeSection != 0
    }

    /** Next is disabled on the last section. */
    predicate NextEnabled()
      reads this
    {
      activeSection != |sections| - 1
    }

    /** Clicking the tab of section `k` shows that section. */
    method ClickTab(k: nat)
      requires Valid() && k < |sections|
      modifies this`activeSection
      ensures Valid() && activeSection == k
    {
      activeSection := k;
    }

    /** Previous: one section back, nothing when disabled. */
    method ClickPrevious()
      requires Valid()
      modifies this`activeSection
      ensures Valid()
      ensures activeSection == Navigation.Previous(old(activeSection))
      ensures !old(PreviousEnabled()) ==> activeSection == old(activeSection)
    {
      if PreviousEnabled() {
        activeSection := Navigation.Previous(activeSection);
      }
    }

    /** Next: one section on, nothing when disabled. */
    method ClickNext()
      requires Valid()
      modifies this`activeSection
      ensures Valid()
      ensures activeSection == Navigation.Next(old(activeSection), |sections|)
      ensures !old(NextEnabled()) ==> activeSection == old(activeSection)
    {
      if NextEnabled() {
        activeSection := Navigation.Next(activeSection, |sections|);
      }
    }
  }

  /** From an interior section, Next followed by Previous returns to it. */
  method NextThenPreviousReturns(view: LessonView)
    requires view.Valid() && view.NextEnabled()
    modifies view
    ensures view.Valid() && view.activeSection == old(view.activeSection)
  {
    view.ClickNext();
    view.ClickPrevious();
  }
}
