/** The layout pass of the commit graph component
    (src/components/CommitGraph.tsx): every commit of the list gets a column,
    a position and a colour index, and every (commit, parent) pair whose
    parent is in the list gets a link. Also the branch checkbox toggle and the
    truncation of the message shown next to a commit. */
module CommitGraph {
  import opened Common

  type ObjectId = string

  /** A commit as the component declares it. `primaryBranch` is optional;
      an absent or empty one counts as missing (JavaScript falsiness). */
  datatype LayoutCommit = LayoutCommit(oid: ObjectId, message: string, primaryBranch: Option<string>, parents: seq<ObjectId>)

  /** What the pass writes onto a commit: `branchIndex`, `x` and `y`. */
  datatype Placement = Placement(branchIndex: nat, x: int, y: int)

  /** A link from the commit at row `source` to the commit `target`. */
  datatype Link = Link(source: nat, target: ObjectId, isMerge: bool)

  const ColumnWidth := 50
  const RowHeight := 80
  const MaxMessageLength := 50

  /** The branch a commit names, if it names a non-empty one. */
  predicate Named(c: LayoutCommit) {
    c.primaryBranch.Some? && c.primaryBranch.value != ""
  }

  /** `commitMap.get(oid)` for `new Map(commits.map(c => [c.oid, c]))`: when
      two commits share an oid the later one wins. */
  function LastWith(commits: seq<LayoutCommit>, oid: ObjectId): (r: Option<LayoutCommit>)
    ensures r.None? <==> forall i :: 0 <= i < |commits| ==> commits[i].oid != oid
  {
    if commits == [] then None
    else if commits[|commits| - 1].oid == oid then Some(commits[|commits| - 1])
    else LastWith(commits[..|commits| - 1], oid)
  }

  /** The commit found for an oid is the last one in the list with that oid. */
  lemma {:induction false} LastWithIsLast(commits: seq<LayoutCommit>, oid: ObjectId)
    requires LastWith(commits, oid).Some?
    ensures exists i :: 0 <= i < |commits| && commits[i] == LastWith(commits, oid).value && commits[i].oid == oid
                        && forall j :: i < j < |commits| ==> commits[j].oid != oid
  {
    var n := |commits|;
    if commits[n - 1].oid != oid {
      var init := commits[..n - 1];
      LastWithIsLast(init, oid);
      var i :| 0 <= i < |init| && init[i] == LastWith(init, oid).value && init[i].oid == oid
               && forall j :: i < j < |init| ==> init[j].oid != oid;
      assert commits[i] == init[i];
      forall j | i < j < n ensures commits[j].oid != oid {
        if j < n - 1 {
          assert commits[j] == init[j];
        }
      }
    }
  }

  /** `Array.from(new Set(commits.map(c => c.primaryBranch).filter(Boolean)))`:
      the named branches, each once, in order of first appearance. */
  function UniqueBranches(commits: seq<LayoutCommit>): (bs: seq<string>)
    ensures NoDuplicates(bs)
    ensures forall b :: b in bs <==> exists i :: 0 <= i < |commits| && Named(commits[i]) && commits[i].primaryBranch.value == b
  {
    if commits == [] then []
    else
      var init, last := commits[..|commits| - 1], commits[|commits| - 1];
      var bs := UniqueBranches(init);
      assert forall i :: 0 <= i < |init| ==> init[i] == commits[i];
      if Named(last) then AddOnce(bs, last.primaryBranch.value) else bs
  }

  /** The row of the first commit that names `b`. */
  function FirstRow(commits: seq<LayoutCommit>, b: string): nat {
    if commits == [] then 0
    else if Named(commits[0]) && commits[0].primaryBranch.value == b then 0
    else 1 + FirstRow(commits[1..], b)
  }

  /** `uniqueBranches.forEach(...)` with the `nextAvailableColumn` counter:
      the branches get the columns 0, 1, 2, ... in their order. */
  method AssignColumns(uniqueBranches: seq<string>) returns (columns: map<string, nat>, next: nat)
    requires NoDuplicates(uniqueBranches)
    ensures next == |uniqueBranches|
    ensures forall b :: b in columns <==> b in uniqueBranches
    ensures forall k :: 0 <= k < |uniqueBranches| ==> columns[uniqueBranches[k]] == k
  {
    columns, next := map[], 0;
    for k := 0 to |uniqueBranches|
      invariant next == k
      invariant forall b :: b in columns <==> b in uniqueBranches[..k]
      invariant forall j :: 0 <= j < k ==> columns[uniqueBranches[j]] == j
    {
      var branchName := uniqueBranches[k];
      assert branchName !in uniqueBranches[..k];
      if branchName !in columns {
        columns := columns[branchName := next];
        next := next + 1;
      }
    }
  }

  // ---------------------------------------------------------------------
  // Columns and positions.

  /** The column a commit takes from its first parent `p` when it names no
      branch of the column map: the parent's branch column, else the column
      already given to `p`, else 0. */
  function ParentColumn(commits: seq<LayoutCommit>, columns: map<string, nat>, p: ObjectId, earlier: map<ObjectId, nat>): nat {
    var parent := LastWith(commits, p);
    if parent.Some? && Named(parent.value) && parent.value.primaryBranch.value in columns then
      columns[parent.value.primaryBranch.value]
    else if p in earlier then earlier[p]
    else 0
  }

  /** The column of commit `c`, given the columns already set for the rows before it.
      A single parent and a merge's first parent are treated alike. */
  function ColumnFor(commits: seq<LayoutCommit>, columns: map<string, nat>, c: LayoutCommit, earlier: map<ObjectId, nat>): nat {
    if Named(c) && c.primaryBranch.value in columns then columns[c.primaryBranch.value]
    else if |c.parents| == 0 then 0
    else ParentColumn(commits, columns, c.parents[0], earlier)
  }

  /** `branchAssignments` after the first `n` rows. */
  function Assigned(commits: seq<LayoutCommit>, columns: map<string, nat>, n: nat): map<ObjectId, nat>
    requires n <= |commits|
  {
    if n == 0 then map[]
    else
      var before := Assigned(commits, columns, n - 1);
      before[commits[n - 1].oid := ColumnFor(commits, columns, commits[n - 1], before)]
  }

  /** The placement of row `i`. */
  function PlacementAt(commits: seq<LayoutCommit>, columns: map<string, nat>, i: nat): (r: Placement)
    requires i < |commits|
    ensures r.branchIndex == Assigned(commits, columns, i + 1)[commits[i].oid]
    ensures r.x == ColumnWidth * r.branchIndex && r.y == RowHeight * i
  {
    var column := ColumnFor(commits, columns, commits[i], Assigned(commits, columns, i));
    Placement(column, column * ColumnWidth, i * RowHeight)
  }

  /** `commits.forEach((commit, idx) => ...)`: the rows in order, each placed
      from the assignments of the rows before it. */
  method PlaceCommits(commits: seq<LayoutCommit>, columns: map<string, nat>) returns (placements: seq<Placement>)
    ensures |placements| == |commits|
    ensures forall i :: 0 <= i < |commits| ==> placements[i] == PlacementAt(commits, columns, i)
  {
    var branchAssignments: map<ObjectId, nat> := map[];
    placements := [];
    for idx := 0 to |commits|
      invariant branchAssignments == Assigned(commits, columns, idx)
      invariant |placements| == idx
      invariant forall i :: 0 <= i < idx ==> placements[i] == PlacementAt(commits, columns, i)
    {
      var commit := commits[idx];
      var column: nat;
      if commit.primaryBranch.Some? && commit.primaryBranch.value != "" && commit.primaryBranch.value in columns {
        column := columns[commit.primaryBranch.value];
      } else if |commit.parents| == 0 {
        column := 0;
      } else {
        var parentOid := commit.parents[0];
        var parentCommit := LastWith(commits, parentOid);
        if parentCommit.Some? && parentCommit.value.primaryBranch.Some? && parentCommit.value.primaryBranch.value != ""
           && parentCommit.value.primaryBranch.value in columns {
          column := columns[parentCommit.value.primaryBranch.value];
        } else if parentOid in branchAssignments {
          column := branchAssignments[parentOid];
        } else {
          column := 0;
        }
      }
      assert column == ColumnFor(commits, columns, commit, branchAssignments);
      branchAssignments := branchAssignments[commit.oid := column];
      placements := placements + [Placement(column, column * ColumnWidth, idx * RowHeight)];
    }
  }

  /** The rows are laid out top to bottom in list order, `x` follows the column. */
  lemma Positions(commits: seq<LayoutCommit>, columns: map<string, nat>, i: nat, j: nat)
    requires i < j < |commits|
    ensures PlacementAt(commits, columns, i).y == 80 * i < PlacementAt(commits, columns, j).y
    ensures PlacementAt(commits, columns, i).x == 50 * PlacementAt(commits, columns, i).branchIndex
  {
  }

  /** A commit naming a branch of the map sits in that branch's column, so
      commits that name the same branch share a column. */
  lemma NamedBranchColumn(commits: seq<LayoutCommit>, i: nat, j: nat)
    requires i < |commits| && j < |commits|
    requires Named(commits[i]) && Named(commits[j]) && commits[i].primaryBranch == commits[j].primaryBranch
    ensures var columns := ColumnMap(commits);
            PlacementAt(commits, columns, i).branchIndex == PlacementAt(commits, columns, j).branchIndex
                                                           == columns[commits[i].primaryBranch.value]
  {
  }

  /** The column map the component builds: each named branch at the index of
      its first appearance among the named branches. */
  function ColumnMap(commits: seq<LayoutCommit>): (columns: map<string, nat>)
    ensures forall b :: b in columns <==> b in UniqueBranches(commits)
    ensures forall k :: 0 <= k < |UniqueBranches(commits)| ==> columns[UniqueBranches(commits)[k]] == k
  {
    var bs := UniqueBranches(commits);
    map b | b in bs :: IndexOf(bs, b)
  }

  /** The position of `b` in `bs`. */
  function IndexOf(bs: seq<string>, b: string): (k: nat)
    requires b in bs
    ensures k < |bs| && bs[k] == b
    ensures NoDuplicates(bs) ==> forall j :: 0 <= j < |bs| && bs[j] == b ==> j == k
  {
    if bs[0] == b then 0 else 1 + IndexOf(bs[1..], b)
  }

  /** The column map assigns the consecutive columns 0 .. k-1, one per named
      branch, so no two branches share a column. */
  lemma ColumnsConsecutive(commits: seq<LayoutCommit>, b1: string, b2: string)
    requires b1 in ColumnMap(commits) && b2 in ColumnMap(commits) && b1 != b2
    ensures ColumnMap(commits)[b1] < |UniqueBranches(commits)|
    ensures ColumnMap(commits)[b1] != ColumnMap(commits)[b2]
  {
  }

  /** The branches are numbered in order of first appearance in the list. */
  lemma {:induction false} UniqueBranchesInOrder(commits: seq<LayoutCommit>, k1: nat, k2: nat)
    requires k1 < k2 < |UniqueBranches(commits)|
    ensures FirstRow(commits, UniqueBranches(commits)[k1]) < FirstRow(commits, UniqueBranches(commits)[k2])
  {
    var init, last := commits[..|commits| - 1], commits[|commits| - 1];
    var bs, all := UniqueBranches(init), UniqueBranches(commits);
    assert bs <= all;
    assert forall i :: 0 <= i < |init| ==> init[i] == commits[i];
    var b1 := all[k1];
    assert b1 == bs[k1] && b1 in bs;
    FirstRowPrefix(commits, b1);
    if k2 < |bs| {
      UniqueBranchesInOrder(init, k1, k2);
      assert all[k2] == bs[k2] && all[k2] in bs;
      FirstRowPrefix(commits, all[k2]);
    } else {
      var b2 := all[k2];
      assert all == bs + [b2] && b2 !in bs;
      FirstRowAbsent(commits, b2);
    }
  }

  /** A branch named before the last row has the same first row without it. */
  lemma {:induction false} FirstRowPrefix(commits: seq<LayoutCommit>, b: string)
    requires commits != []
    requires exists i :: 0 <= i < |commits| - 1 && Named(commits[i]) && commits[i].primaryBranch.value == b
    ensures FirstRow(commits, b) == FirstRow(commits[..|commits| - 1], b) < |commits| - 1
  {
    if !(Named(commits[0]) && commits[0].primaryBranch.value == b) {
      var i :| 0 <= i < |commits| - 1 && Named(commits[i]) && commits[i].primaryBranch.value == b;
      assert commits[1..][i - 1] == commits[i];
      assert commits[1..][..|commits[1..]| - 1] == commits[..|commits| - 1][1..];
      FirstRowPrefix(commits[1..], b);
    }
  }

  /** A branch named only by the last row first appears there. */
  lemma {:induction false} FirstRowAbsent(commits: seq<LayoutCommit>, b: string)
    requires commits != []
    requires forall i :: 0 <= i < |commits| - 1 ==> !(Named(commits[i]) && commits[i].primaryBranch.value == b)
    ensures FirstRow(commits, b) >= |commits| - 1
  {
    if |commits| > 1 {
      assert forall i :: 0 <= i < |commits[1..]| - 1 ==> commits[1..][i] == commits[i + 1];
      FirstRowAbsent(commits[1..], b);
    }
  }

  /** The column map built by the component's counter loop is `ColumnMap`. */
  method BuildColumnMap(commits: seq<LayoutCommit>) returns (columns: map<string, nat>)
    ensures columns == ColumnMap(commits)
  {
    var uniqueBranches := UniqueBranches(commits);
    var next;
    columns, next := AssignColumns(uniqueBranches);
  }

  /** `branchAssignments` has a key for exactly the oids of the rows before `n`. */
  lemma {:induction false} AssignedKeys(commits: seq<LayoutCommit>, columns: map<string, nat>, n: nat, p: ObjectId)
    requires n <= |commits|
    ensures p in Assigned(commits, columns, n) <==> exists j :: 0 <= j < n && commits[j].oid == p
  {
    if n > 0 {
      AssignedKeys(commits, columns, n - 1, p);
    }
  }

  /** For an oid placed before row `n`, `branchAssignments` holds the column
      of the last such row. */
  lemma {:induction false} AssignedValue(commits: seq<LayoutCommit>, columns: map<string, nat>, n: nat, p: ObjectId, j: nat)
    requires j < n <= |commits| && commits[j].oid == p
    requires forall k :: j < k < n ==> commits[k].oid != p
    ensures p in Assigned(commits, columns, n)
    ensures Assigned(commits, columns, n)[p] == PlacementAt(commits, columns, j).branchIndex
  {
    if j < n - 1 {
      AssignedValue(commits, columns, n - 1, p, j);
    }
  }

  /** The fallback for a commit that names no branch of the map: a root
      commit goes to column 0, any other follows its first parent's branch
      column, else the column of the last earlier row with the parent's oid,
      else 0. */
  lemma FallbackColumn(commits: seq<LayoutCommit>, columns: map<string, nat>, i: nat)
    requires i < |commits|
    requires !(Named(commits[i]) && commits[i].primaryBranch.value in columns)
    ensures commits[i].parents == [] ==> PlacementAt(commits, columns, i).branchIndex == 0
    ensures commits[i].parents != [] ==>
              var p := commits[i].parents[0];
              var parent := LastWith(commits, p);
              if parent.Some? && Named(parent.value) && parent.value.primaryBranch.value in columns then
                PlacementAt(commits, columns, i).branchIndex == columns[parent.value.primaryBranch.value]
              else
                && (forall j :: 0 <= j < i && commits[j].oid == p && (forall k :: j < k < i ==> commits[k].oid != p) ==>
                      PlacementAt(commits, columns, i).branchIndex == PlacementAt(commits, columns, j).branchIndex)
                && ((forall j :: 0 <= j < i ==> commits[j].oid != p) ==> PlacementAt(commits, columns, i).branchIndex == 0)
  {
    if commits[i].parents != [] {
      var p := commits[i].parents[0];
      AssignedKeys(commits, columns, i, p);
      forall j | 0 <= j < i && commits[j].oid == p && (forall k :: j < k < i ==> commits[k].oid != p)
        ensures Assigned(commits, columns, i)[p] == PlacementAt(commits, columns, j).branchIndex
      {
        AssignedValue(commits, columns, i, p, j);
      }
    }
  }

  // ---------------------------------------------------------------------
  // Colours.

  /** `allUniqueBranches.forEach((branchName, idx) => branchColorMap.set(branchName, idx % 10))`. */
  method AssignColors(allUniqueBranches: seq<string>) returns (colorMap: map<string, nat>)
    requires NoDuplicates(allUniqueBranches)
    ensures forall b :: b in colorMap <==> b in allUniqueBranches
    ensures forall k :: 0 <= k < |allUniqueBranches| ==> colorMap[allUniqueBranches[k]] == k % 10
  {
    colorMap := map[];
    for idx := 0 to |allUniqueBranches|
      invariant forall b :: b in colorMap <==> b in allUniqueBranches[..idx]
      invariant forall k :: 0 <= k < idx ==> colorMap[allUniqueBranches[k]] == k % 10
    {
      assert allUniqueBranches[idx] !in allUniqueBranches[..idx];
      colorMap := colorMap[allUniqueBranches[idx] := idx % 10];
    }
  }

  /** The palette index of a commit's dot and of the links leaving it: its
      branch's entry in the colour map, else its column mod 10. */
  function ColorIndex(colorMap: map<string, nat>, c: LayoutCommit, placement: Placement): (k: nat)
    requires forall b :: b in colorMap ==> colorMap[b] < 10
    ensures k < 10
    ensures Named(c) && c.primaryBranch.value in colorMap ==> k == colorMap[c.primaryBranch.value]
    ensures !(Named(c) && c.primaryBranch.value in colorMap) ==> k == placement.branchIndex % 10
  {
    if Named(c) && c.primaryBranch.value in colorMap then colorMap[c.primaryBranch.value]
    else placement.branchIndex % 10
  }

  /** The colour map the component builds: each named branch at its first
      appearance index mod 10. */
  function ColorMap(commits: seq<LayoutCommit>): (colorMap: map<string, nat>)
    ensures forall b :: b in colorMap <==> b in UniqueBranches(commits)
    ensures forall k :: 0 <= k < |UniqueBranches(commits)| ==> colorMap[UniqueBranches(commits)[k]] == k % 10
    ensures forall b :: b in colorMap ==> colorMap[b] < 10
  {
    var bs := UniqueBranches(commits);
    map b | b in bs :: IndexOf(bs, b) % 10
  }

  /** Every dot, and every link leaving it, gets the palette entry of its
      column mod 10: a named branch's colour index and its column agree. */
  lemma ColorIsColumnMod10(commits: seq<LayoutCommit>, i: nat)
    requires i < |commits|
    ensures var placement := PlacementAt(commits, ColumnMap(commits), i);
            ColorIndex(ColorMap(commits), commits[i], placement) == placement.branchIndex % 10
  {
    var c := commits[i];
    if Named(c) && c.primaryBranch.value in ColorMap(commits) {
      var bs := UniqueBranches(commits);
      var k := IndexOf(bs, c.primaryBranch.value);
      assert ColumnMap(commits)[c.primaryBranch.value] == k;
    }
  }

  /** The whole layout pass: columns, rows, colours and links. */
  method LayoutPass(commits: seq<LayoutCommit>) returns (placements: seq<Placement>, colors: seq<nat>, links: seq<Link>)
    ensures |placements| == |commits| && |colors| == |commits|
    ensures forall i :: 0 <= i < |commits| ==> placements[i] == PlacementAt(commits, ColumnMap(commits), i)
    ensures forall i :: 0 <= i < |commits| ==> colors[i] == ColorIndex(ColorMap(commits), commits[i], placements[i])
    ensures links == Links(commits, |commits|)
  {
    var columns := BuildColumnMap(commits);
    placements := PlaceCommits(commits, columns);
    var allUniqueBranches := UniqueBranches(commits);
    var colorMap := AssignColors(allUniqueBranches);
    assert colorMap == ColorMap(commits);
    colors := seq(|commits|, i requires 0 <= i < |commits| => ColorIndex(colorMap, commits[i], placements[i]));
    links := BuildLinks(commits);
  }

  // ---------------------------------------------------------------------
  // Links.

  /** The links of row `i` for the first `k` parents of its commit. */
  function RowLinks(commits: seq<LayoutCommit>, i: nat, k: nat): (r: seq<Link>)
    requires i < |commits| && k <= |commits[i].parents|
    ensures forall j :: 0 <= j < |r| ==> r[j].source == i
  {
    if k == 0 then []
    else
      var p := commits[i].parents[k - 1];
      RowLinks(commits, i, k - 1)
        + (if LastWith(commits, p).Some? then [Link(i, p, |commits[i].parents| > 1)] else [])
  }

  /** The links of the first `n` rows. */
  function Links(commits: seq<LayoutCommit>, n: nat): (r: seq<Link>)
    requires n <= |commits|
    ensures forall j :: 0 <= j < |r| ==> r[j].source < n
    ensures forall a, b :: 0 <= a < b < |r| ==> r[a].source <= r[b].source
  {
    if n == 0 then [] else Links(commits, n - 1) + RowLinks(commits, n - 1, |commits[n - 1].parents|)
  }

  /** The nested `forEach` over commits and their parents. */
  method BuildLinks(commits: seq<LayoutCommit>) returns (links: seq<Link>)
    ensures links == Links(commits, |commits|)
  {
    links := [];
    for i := 0 to |commits|
      invariant links == Links(commits, i)
    {
      var commit := commits[i];
      for k := 0 to |commit.parents|
        invariant links == Links(commits, i) + RowLinks(commits, i, k)
      {
        var parentOid := commit.parents[k];
        var parent := LastWith(commits, parentOid);
        if parent.Some? {
          links := links + [Link(i, parentOid, |commit.parents| > 1)];
        }
      }
    }
  }

  lemma {:induction false} RowLinksMembership(commits: seq<LayoutCommit>, i: nat, k: nat, l: Link)
    requires i < |commits| && k <= |commits[i].parents|
    ensures l in RowLinks(commits, i, k) <==>
              && l.source == i && l.target in commits[i].parents[..k]
              && (exists j :: 0 <= j < |commits| && commits[j].oid == l.target)
              && l.isMerge == (|commits[i].parents| > 1)
  {
    if k > 0 {
      RowLinksMembership(commits, i, k - 1, l);
      assert commits[i].parents[..k] == commits[i].parents[..k - 1] + [commits[i].parents[k - 1]];
    }
  }

  /** A link exists exactly for a row and a parent of its commit that is in
      the list, and it is a merge link exactly when that commit has more than
      one parent. */
  lemma {:induction false} LinksMembership(commits: seq<LayoutCommit>, n: nat, l: Link)
    requires n <= |commits|
    ensures l in Links(commits, n) <==>
              && l.source < n && l.target in commits[l.source].parents
              && (exists j :: 0 <= j < |commits| && commits[j].oid == l.target)
              && l.isMerge == (|commits[l.source].parents| > 1)
  {
    if n > 0 {
      LinksMembership(commits, n - 1, l);
      RowLinksMembership(commits, n - 1, |commits[n - 1].parents|, l);
      assert commits[n - 1].parents[..|commits[n - 1].parents|] == commits[n - 1].parents;
    }
  }

  // ---------------------------------------------------------------------
  // Message text and branch selection.

  /** The message shown next to a commit: its first 50 characters and `...`
      when it is longer than 50, otherwise the message itself. */
  function ShownMessage(message: string): (shown: string)
    ensures |message| <= MaxMessageLength ==> shown == message
    ensures |message| > MaxMessageLength ==>
              |shown| == MaxMessageLength + 3 && shown[..MaxMessageLength] == message[..MaxMessageLength]
              && shown[MaxMessageLength..] == "..."
  {
    if |message| > MaxMessageLength then message[..MaxMessageLength] + "..." else message
  }

  /** `handleBranchToggle`: a selected branch is removed, any other appended. */
  function ToggleBranch(selected: seq<string>, branchName: string): (r: seq<string>)
    ensures branchName in selected ==> branchName !in r
    ensures branchName !in selected ==> r == selected + [branchName]
    ensures forall b :: b != branchName ==> (b in r <==> b in selected)
  {
    if branchName in selected then Without(selected, branchName) else selected + [branchName]
  }

  /** Toggling the same branch twice restores which branches are selected,
      and the selection never holds a branch twice. */
  lemma ToggleTwice(selected: seq<string>, branchName: string)
    ensures forall b :: b in ToggleBranch(ToggleBranch(selected, branchName), branchName) <==> b in selected
    ensures branchName !in selected ==> ToggleBranch(ToggleBranch(selected, branchName), branchName) == selected
    ensures NoDuplicates(selected) ==> NoDuplicates(ToggleBranch(selected, branchName))
  {
    if branchName in selected {
      if NoDuplicates(selected) {
        WithoutNoDuplicates(selected, branchName);
      }
    } else {
      assert Without(selected + [branchName], branchName) == selected by {
        WithoutAppend(selected, branchName);
      }
    }
  }
}
