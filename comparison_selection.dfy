/** The branch comparison state of the home page (src/app/page.tsx): the
    comparison mode, the branches picked for comparison, and the diff shown
    in the sidebar. Each handler computes the next state from the current one. */
module ComparisonSelection {
  import opened Common

  const MaxSelected := 2

  datatype PageState = PageState(comparisonMode: bool, selected: seq<string>, currentDiff: string, diffTitle: string)

  /** The two branches `handleCompareBranches` sends to the compare route. */
  datatype CompareRequest = CompareRequest(branch1: string, branch2: string)

  /** What the handlers keep true of the selection: at most two branches, none twice. */
  ghost predicate Valid(s: PageState) {
    |s.selected| <= MaxSelected && NoDuplicates(s.selected)
  }

  /** The state the page starts in. */
  function Initial(): (s: PageState)
    ensures Valid(s) && !s.comparisonMode && s.selected == []
  {
    PageState(false, [], "", "")
  }

  /** `handleToggleBranchComparisonMode`: flips the mode, clears the
      selection and closes the diff. */
  function ToggleComparisonMode(s: PageState): (t: PageState)
    ensures t.comparisonMode == !s.comparisonMode
    ensures t.selected == [] && t.currentDiff == "" && t.diffTitle == ""
    ensures Valid(t)
  {
    PageState(!s.comparisonMode, [], "", "")
  }

  /** `handleBranchComparisonSelect(branch)`. */
  function SelectForComparison(s: PageState, branch: string): (t: PageState)
    ensures t.comparisonMode == s.comparisonMode && t.currentDiff == s.currentDiff && t.diffTitle == s.diffTitle
    ensures branch in s.selected ==> branch !in t.selected && forall b :: b != branch ==> (b in t.selected <==> b in s.selected)
    ensures branch !in s.selected && |s.selected| < MaxSelected ==> t.selected == s.selected + [branch]
    ensures branch !in s.selected && |s.selected| >= MaxSelected ==> t == s
  {
    if branch in s.selected then s.(selected := Without(s.selected, branch))
    else if |s.selected| < MaxSelected then s.(selected := s.selected + [branch])
    else s
  }

  /** The guard of `handleCompareBranches`: a request only with exactly two
      branches selected, first and second in selection order. */
  function CompareGuard(s: PageState): (r: Option<CompareRequest>)
    ensures r.Some? <==> |s.selected| == MaxSelected
    ensures r.Some? ==> r.value == CompareRequest(s.selected[0], s.selected[1])
  {
    if |s.selected| != MaxSelected then None else Some(CompareRequest(s.selected[0], s.selected[1]))
  }

  /** Selecting a selected branch removes it and keeps the others in order. */
  lemma DeselectKeepsOthers(s: PageState, branch: string)
    requires branch in s.selected
    ensures branch !in SelectForComparison(s, branch).selected
    ensures SelectForComparison(s, branch).selected == Without(s.selected, branch)
    ensures Valid(s) ==> |SelectForComparison(s, branch).selected| == |s.selected| - 1
  {
    if Valid(s) {
      WithoutOne(s.selected, branch);
    }
  }

  /** Removing an element that occurs once shortens the sequence by one. */
  lemma {:induction false} WithoutOne(xs: seq<string>, x: string)
    requires NoDuplicates(xs) && x in xs
    ensures |Without(xs, x)| == |xs| - 1
  {
    if xs[0] == x {
      assert x !in xs[1..];
    } else {
      assert NoDuplicates(xs[1..]);
      WithoutOne(xs[1..], x);
    }
  }

  /** Every handler keeps the selection to at most two distinct branches. */
  lemma SelectionStaysValid(s: PageState, branch: string)
    requires Valid(s)
    ensures Valid(SelectForComparison(s, branch))
    ensures Valid(ToggleComparisonMode(s))
  {
    if branch in s.selected {
      WithoutNoDuplicates(s.selected, branch);
    } else if |s.selected| < MaxSelected {
      var t := s.selected + [branch];
      forall i, j | 0 <= i < j < |t| ensures t[i] != t[j] {
        if j == |s.selected| {
          assert t[i] == s.selected[i];
        }
      }
    }
  }

  /** In a valid state the compare request names two different branches. */
  lemma CompareDistinctBranches(s: PageState)
    requires Valid(s) && CompareGuard(s).Some?
    ensures CompareGuard(s).value.branch1 != CompareGuard(s).value.branch2
  {
  }

  /** Selecting the same unselected branch twice, with room for it, leaves
      the selection as it was. */
  lemma SelectTwiceRestores(s: PageState, branch: string)
    requires branch !in s.selected && |s.selected| < MaxSelected
    ensures SelectForComparison(SelectForComparison(s, branch), branch) == s
  {
    WithoutAppend(s.selected, branch);
  }
}
