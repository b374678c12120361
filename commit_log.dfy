/** What the two multi-branch routes (src/app/api/repo/all-commits/route.ts and
    src/app/api/repo/graph/route.ts) read: `git.log` of each requested branch.
    A log is a sequence of commit records; a branch whose log throws is absent
    from the `logs` map. Both routes visit the commits branch by branch, in
    the order of each log, and that sequence of visits is defined here once. */
module CommitLog {
  import opened Common

  type ObjectId = string

  datatype Author = Author(name: string, email: string, timestamp: int)

  /** The `parent` field as the routes accept it: an array, a single oid, or absent. */
  datatype ParentField = ParentList(oids: seq<ObjectId>) | SingleParent(oid: ObjectId) | NoParent

  /** One record of `git.log`: `{oid, commit: {message, author, parent}}`. */
  datatype LogEntry = LogEntry(oid: ObjectId, message: string, author: Author, parent: ParentField)

  /** The commit `entry` as seen while walking the log of `branch`. */
  datatype Visit = Visit(branch: string, entry: LogEntry)

  /** The visits of one branch: every commit of its log in log order, or none
      when its log throws. */
  function BranchVisits(branch: string, logs: map<string, seq<LogEntry>>): (vs: seq<Visit>)
    ensures branch !in logs ==> vs == []
    ensures branch in logs ==> |vs| == |logs[branch]|
    ensures forall k :: 0 <= k < |vs| ==> vs[k] == Visit(branch, logs[branch][k])
  {
    if branch in logs then seq(|logs[branch]|, k requires 0 <= k < |logs[branch]| => Visit(branch, logs[branch][k]))
    else []
  }

  /** All visits of `for (const branchName of branchNames) for (const commit of commits)`. */
  function Visits(branchNames: seq<string>, logs: map<string, seq<LogEntry>>): seq<Visit> {
    if branchNames == [] then []
    else Visits(branchNames[..|branchNames| - 1], logs) + BranchVisits(branchNames[|branchNames| - 1], logs)
  }

  /** A visit happens exactly for a commit of the log of a requested branch
      whose log does not throw; failing branches are skipped and the others
      still walked. */
  lemma {:induction false} VisitsMembership(branchNames: seq<string>, logs: map<string, seq<LogEntry>>, v: Visit)
    ensures v in Visits(branchNames, logs) <==> v.branch in branchNames && v.branch in logs && v.entry in logs[v.branch]
  {
    if branchNames != [] {
      var init, last := branchNames[..|branchNames| - 1], branchNames[|branchNames| - 1];
      VisitsMembership(init, logs, v);
      assert branchNames == init + [last];
      if v in BranchVisits(last, logs) {
        var k :| 0 <= k < |BranchVisits(last, logs)| && BranchVisits(last, logs)[k] == v;
        assert v.entry == logs[last][k];
      }
      if v.branch == last && last in logs && v.entry in logs[last] {
        var k :| 0 <= k < |logs[last]| && logs[last][k] == v.entry;
        assert BranchVisits(last, logs)[k] == v;
      }
    }
  }

  /** One more branch is its visits after those of the branches before it. */
  lemma VisitsStep(branchNames: seq<string>, logs: map<string, seq<LogEntry>>, i: nat)
    requires i < |branchNames|
    ensures Visits(branchNames[..i + 1], logs) == Visits(branchNames[..i], logs) + BranchVisits(branchNames[i], logs)
  {
    assert branchNames[..i + 1][..i] == branchNames[..i];
  }

  /** The requested branches whose log does not throw, in request order. */
  function Succeeding(branchNames: seq<string>, logs: map<string, seq<LogEntry>>): seq<string> {
    if branchNames == [] then []
    else
      var last := branchNames[|branchNames| - 1];
      Succeeding(branchNames[..|branchNames| - 1], logs) + (if last in logs then [last] else [])
  }

  /** A branch whose log throws contributes nothing: walking only the
      branches whose log succeeds gives the same visits. */
  lemma {:induction false} FailingBranchesSkipped(branchNames: seq<string>, logs: map<string, seq<LogEntry>>)
    ensures Visits(branchNames, logs) == Visits(Succeeding(branchNames, logs), logs)
    decreases |branchNames|
  {
    if branchNames != [] {
      var init, last := branchNames[..|branchNames| - 1], branchNames[|branchNames| - 1];
      FailingBranchesSkipped(init, logs);
      var ok := Succeeding(init, logs);
      assert Visits(branchNames, logs) == Visits(init, logs) + BranchVisits(last, logs);
      if last in logs {
        assert Succeeding(branchNames, logs) == ok + [last];
        assert (ok + [last])[..|ok + [last]| - 1] == ok;
      } else {
        assert Succeeding(branchNames, logs) == ok;
      }
    }
  }

  /** The first visit of commit `oid`: both routes keep the data of the
      first sighting of a commit and ignore later ones. */
  function FirstVisit(vs: seq<Visit>, oid: ObjectId): (r: Option<Visit>)
    ensures r.None? <==> forall k :: 0 <= k < |vs| ==> vs[k].entry.oid != oid
    ensures r.Some? ==> exists k :: 0 <= k < |vs| && vs[k] == r.value && r.value.entry.oid == oid
                                      && forall j :: 0 <= j < k ==> vs[j].entry.oid != oid
  {
    if vs == [] then None
    else
      var first := FirstVisit(vs[..|vs| - 1], oid);
      if first.Some? then first
      else if vs[|vs| - 1].entry.oid == oid then Some(vs[|vs| - 1])
      else None
  }

  /** The position of the first visit of commit `oid`, or `|vs|` when no
      visit has it: where a map keyed by oid first receives that key. */
  function FirstIndex(vs: seq<Visit>, oid: ObjectId): (k: nat)
    ensures k <= |vs|
    ensures k < |vs| ==> vs[k].entry.oid == oid
    ensures forall j :: 0 <= j < k ==> vs[j].entry.oid != oid
  {
    if vs == [] then 0
    else
      var first := FirstIndex(vs[..|vs| - 1], oid);
      if first < |vs| - 1 then first
      else if vs[|vs| - 1].entry.oid == oid then |vs| - 1
      else |vs|
  }

  /** The oids `xs` come in the order of their first visit in `vs`. */
  ghost predicate FirstSeenOrder(vs: seq<Visit>, xs: seq<ObjectId>) {
    forall i, j :: 0 <= i < j < |xs| ==> FirstIndex(vs, xs[i]) < FirstIndex(vs, xs[j])
  }

  /** Dropping the last oid keeps an order of first sighting. */
  lemma FirstSeenOrderInit(vs: seq<Visit>, xs: seq<ObjectId>)
    requires xs != [] && FirstSeenOrder(vs, xs)
    ensures FirstSeenOrder(vs, xs[..|xs| - 1])
  {
    var init := xs[..|xs| - 1];
    forall i, j | 0 <= i < j < |init| ensures FirstIndex(vs, init[i]) < FirstIndex(vs, init[j]) {
      assert init[i] == xs[i] && init[j] == xs[j];
    }
  }

  /** `Array.isArray(parent) ? parent : parent ? [parent] : []`: the empty
      string is falsy and gives no parent. */
  function NormalizeParents(parent: ParentField): (parents: seq<ObjectId>)
    ensures parent.ParentList? ==> parents == parent.oids
    ensures parent.SingleParent? ==> parents == (if parent.oid == "" then [] else [parent.oid])
    ensures parent.NoParent? ==> parents == []
  {
    match parent
    case ParentList(oids) => oids
    case SingleParent(oid) => if oid == "" then [] else [oid]
    case NoParent => []
  }
}
