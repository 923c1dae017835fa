/**
 * The vesting-plans panel: an empty state when the wallet has no schedules,
 * otherwise an "all" tab and one tab per allocation category, each showing
 * the schedules of that category in their original order.
 */
module VestingPlans {
  import opened Types

  /** The category tabs, in display order. */
  const Categories: seq<AllocationCategory> := [Mining, Ecosystem, Team, Cornerstone]

  /** Every category has a tab, and each has exactly one. */
  lemma CategoriesListEachOnce()
    ensures forall c: AllocationCategory :: c in Categories
    ensures forall i, j :: 0 <= i < j < |Categories| ==> Categories[i] != Categories[j]
  {
    forall c: AllocationCategory ensures c in Categories {
      match c
      case Mining => assert Categories[0] == c;
      case Ecosystem => assert Categories[1] == c;
      case Team => assert Categories[2] == c;
      case Cornerstone => assert Categories[3] == c;
    }
  }

  /** `xs` can be obtained from `ys` by deleting elements, keeping the order of the rest. */
  ghost predicate IsSubsequence<T>(xs: seq<T>, ys: seq<T>)
    decreases |ys|
  {
    if xs == [] then true
    else if ys == [] then false
    else (xs[0] == ys[0] && IsSubsequence(xs[1..], ys[1..])) || IsSubsequence(xs, ys[1..])
  }

  /** `filteredSchedules(category)`: the schedules of that category, in list order. */
  function FilteredSchedules(schedules: seq<VestingScheduleWithId>, category: AllocationCategory)
    : (r: seq<VestingScheduleWithId>)
    ensures forall s :: s in r <==> s in schedules && s.schedule.category == category
  {
    if schedules == [] then []
    else
      var rest := FilteredSchedules(schedules[1..], category);
      assert forall s :: s in schedules ==> s == schedules[0] || s in schedules[1..];
      if schedules[0].schedule.category == category then [schedules[0]] + rest else rest
  }

  /** A category tab keeps the order in which the schedules were listed. */
  lemma {:induction false} FilteredIsSubsequence(schedules: seq<VestingScheduleWithId>, category: AllocationCategory)
    ensures IsSubsequence(FilteredSchedules(schedules, category), schedules)
  {
    if schedules != [] {
      var r := FilteredSchedules(schedules, category);
      FilteredIsSubsequence(schedules[1..], category);
      if schedules[0].schedule.category == category {
        assert r[0] == schedules[0] && r[1..] == FilteredSchedules(schedules[1..], category);
      } else if r != [] {
        assert r == FilteredSchedules(schedules[1..], category);
      }
    }
  }

  /**
   * The four category tabs split the list: counted with multiplicity, they hold
   * exactly the schedules of the "all" tab.
   */
  lemma {:induction false} CategoryTabsPartition(schedules: seq<VestingScheduleWithId>)
    ensures multiset(FilteredSchedules(schedules, Mining)) + multiset(FilteredSchedules(schedules, Ecosystem))
          + multiset(FilteredSchedules(schedules, Team)) + multiset(FilteredSchedules(schedules, Cornerstone))
         == multiset(schedules)
  {
    if schedules != [] {
      CategoryTabsPartition(schedules[1..]);
      assert schedules == [schedules[0]] + schedules[1..];
    }
  }

  /** A schedule appears in the tab of its own category and in no other. */
  lemma ScheduleInItsOwnTab(schedules: seq<VestingScheduleWithId>, s: VestingScheduleWithId, c: AllocationCategory)
    requires s in schedules
    ensures s in FilteredSchedules(schedules, c) <==> c == s.schedule.category
  {
  }

  datatype CategoryPanel =
    | NoSchedulesInCategory(category: AllocationCategory)
    | CategoryCards(category: AllocationCategory, cards: seq<VestingScheduleWithId>)

  datatype PlansView =
    | EmptyState
    | TabbedView(all: seq<VestingScheduleWithId>, panels: seq<CategoryPanel>)

  /** One category's tab: its cards, or the "no schedules in this category" notice. */
  function PanelFor(schedules: seq<VestingScheduleWithId>, category: AllocationCategory): (p: CategoryPanel)
    ensures p.category == category
    ensures p.CategoryCards? ==> p.cards == FilteredSchedules(schedules, category) && p.cards != []
    ensures p.NoSchedulesInCategory? <==> forall s :: s in schedules ==> s.schedule.category != category
  {
    var cards := FilteredSchedules(schedules, category);
    assert |cards| > 0 ==> cards[0] in cards;
    if |cards| > 0 then CategoryCards(category, cards) else NoSchedulesInCategory(category)
  }

  /** What the panel renders for the wallet's schedules. */
  function RenderPlans(schedules: seq<VestingScheduleWithId>): (v: PlansView)
    ensures v.EmptyState? <==> schedules == []
    ensures v.TabbedView? ==>
      && v.all == schedules
      && |v.panels| == |Categories|
      && forall i :: 0 <= i < |Categories| ==>
           && v.panels[i].category == Categories[i]
           && (v.panels[i].CategoryCards? <==> exists s :: s in schedules && s.schedule.category == Categories[i])
           && (v.panels[i].CategoryCards? ==> v.panels[i].cards == FilteredSchedules(schedules, Categories[i]))
  {
    if |schedules| == 0 then EmptyState
    else
      var panels := seq(|Categories|, i requires 0 <= i < |Categories| => PanelFor(schedules, Categories[i]));
      assert forall i :: 0 <= i < |Categories| ==> panels[i] == PanelFor(schedules, Categories[i]);
      assert forall c :: |FilteredSchedules(schedules, c)| > 0 ==> FilteredSchedules(schedules, c)[0] in schedules;
      TabbedView(schedules, panels)
  }
}
