/**
 * The project filter buttons of assets/js/main.js (lines 89-108).
 *
 * Clicking a `.filter-btn` makes it the only active button and shows the
 * `.project-category` whose id is the button's `data-filter` value followed
 * by "-content". Active flags live in two arrays, one per node list.
 */
module ProjectFilter {
  import opened Wrappers

  const ContentSuffix := "-content"

  /**
   * The id the template literal `${filter}-content` builds; a button without a
   * `data-filter` attribute yields null, which the template renders as "null".
   */
  function TargetId(filter: Option<string>): string
  {
    (if filter.Some? then filter.value else "null") + ContentSuffix
  }

  /** Which categories are active once a click with this filter value is handled. */
  function ShownCategories(ids: seq<string>, filter: Option<string>): seq<bool>
  {
    seq(|ids|, j requires 0 <= j < |ids| => ids[j] == TargetId(filter))
  }

  predicate DistinctIds(ids: seq<string>)
  {
    forall i, j :: 0 <= i < j < |ids| ==> ids[i] != ids[j]
  }

  /** With distinct element ids, no two categories are shown at once. */
  lemma AtMostOneShown(ids: seq<string>, filter: Option<string>)
    requires DistinctIds(ids)
    ensures |ShownCategories(ids, filter)| == |ids|
    ensures forall i, j :: 0 <= i < j < |ids| ==>
      !(ShownCategories(ids, filter)[i] && ShownCategories(ids, filter)[j])
  {
  }

  /** A category is shown exactly when its id is the clicked button's value followed by "-content". */
  lemma ShownIffTarget(ids: seq<string>, filter: string, j: nat)
    requires j < |ids|
    ensures ShownCategories(ids, Some(filter))[j] <==> ids[j] == filter + ContentSuffix
    ensures ShownCategories(ids, None)[j] <==> ids[j] == "null-content"
  {
    assert TargetId(Some(filter)) == filter + ContentSuffix;
    assert TargetId(None) == "null-content";
  }

  /** `classList.remove('active')` on every element of a node list. */
  method DeactivateAll(flags: array<bool>)
    modifies flags
    ensures forall j :: 0 <= j < flags.Length ==> !flags[j]
  {
    for i := 0 to flags.Length
      invariant forall j :: 0 <= j < i ==> !flags[j]
    {
      flags[i] := false;
    }
  }

  /**
   * The click handler of button `clicked`: exactly that button ends active,
   * and a category ends active exactly when its id is the button's target id.
   */
  method OnFilterClick(buttons: array<bool>, filters: seq<Option<string>>, clicked: nat,
                       categoryIds: seq<string>, categories: array<bool>)
    requires buttons.Length == |filters| && clicked < buttons.Length
    requires categories.Length == |categoryIds|
    requires buttons != categories
    modifies buttons, categories
    ensures forall j :: 0 <= j < buttons.Length ==> (buttons[j] <==> j == clicked)
    ensures categories[..] == ShownCategories(categoryIds, filters[clicked])
  {
    var filter := filters[clicked];
    DeactivateAll(buttons);
    buttons[clicked] := true;
    var target := TargetId(filter);
    for i := 0 to categories.Length
      invariant forall j :: 0 <= j < i ==> (categories[j] <==> categoryIds[j] == target)
      invariant forall j :: 0 <= j < buttons.Length ==> (buttons[j] <==> j == clicked)
    {
      categories[i] := false;
      if categoryIds[i] == target {
        categories[i] := true;
      }
    }
  }
}
