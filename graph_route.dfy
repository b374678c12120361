/** The graph route (src/app/api/repo/graph/route.ts): the commits of the
    requested branches as nodes with parents and children, and the branches
    that contributed commits, each with a colour of the category-10 palette. */
module GraphRoute {
  import opened Common
  import opened CommitLog

  /** `d3SchemeCategory10`. */
  const Palette: seq<string> := ["#1f77b4", "#ff7f0e", "#2ca02c", "#d62728", "#9467bd",
                                 "#8c564b", "#e377c2", "#7f7f7f", "#bcbd22", "#17becf"]

  datatype GraphAuthor = GraphAuthor(name: string, email: string)

  /** A value of `allCommits`: the commit as first seen, with the branch it
      was first seen on. `date` holds the author timestamp in seconds. */
  datatype GraphEntry = GraphEntry(id: ObjectId, branch: string, parent: ParentField, author: GraphAuthor, message: string, date: int)

  /** A node of the response. */
  datatype GraphCommit = GraphCommit(id: ObjectId, branch: string, parents: seq<ObjectId>, children: seq<ObjectId>,
                                     author: GraphAuthor, message: string, date: int)

  datatype GraphBranch = GraphBranch(name: string, color: string)

  datatype GraphData = GraphData(branches: seq<GraphBranch>, commits: seq<GraphCommit>)

  /** The two maps the first loops fill: `allCommits` and `branchCommits`,
      each as its keys in insertion order and its entries. */
  datatype GraphState = GraphState(order: seq<ObjectId>, entries: map<ObjectId, GraphEntry>,
                                   branchOrder: seq<string>, branchCommits: map<string, seq<ObjectId>>)

  /** The names every plain object such as `branchCommits` inherits from
      `Object.prototype`. For such a name `branchCommits[name]` is already a
      truthy value, so no list is created for it, and `push` on that value
      throws a `TypeError`. */
  const InheritedKeys: set<string> := {"__proto__", "__defineGetter__", "__defineSetter__", "__lookupGetter__",
                                       "__lookupSetter__", "constructor", "hasOwnProperty", "isPrototypeOf",
                                       "propertyIsEnumerable", "toLocaleString", "toString", "valueOf"}

  /** The largest author timestamp, in seconds, whose `new Date(timestamp * 1000)`
      is a valid date: a time value lies at most 8.64·10^15 ms from the epoch. */
  const MaxDateSeconds: int := 8640000000000

  /** `toISOString` of the commit's date succeeds; outside this range it
      throws a `RangeError`. */
  predicate DateInRange(timestamp: int) {
    -MaxDateSeconds <= timestamp <= MaxDateSeconds
  }

  /** The visit reaches `toISOString`, because its oid is new, and the date
      throws there, before anything is stored. */
  predicate DateThrows(s: GraphState, v: Visit) {
    v.entry.oid !in s.entries && !DateInRange(v.entry.author.timestamp)
  }

  /** The visit's `push` throws: the name is inherited and has no list. */
  predicate PushThrows(s: GraphState, v: Visit) {
    v.branch !in s.branchCommits && v.branch in InheritedKeys
  }

  ghost predicate WellFormed(s: GraphState) {
    && NoDuplicates(s.order)
    && (forall oid :: oid in s.entries <==> oid in s.order)
    && (forall oid :: oid in s.entries ==> s.entries[oid].id == oid)
    && NoDuplicates(s.branchOrder)
    && (forall b :: b in s.branchCommits <==> b in s.branchOrder)
    && (forall b :: b in s.branchCommits ==> b !in InheritedKeys)
  }

  /** The entry stored for a commit first seen on `branch`. */
  function EntryOf(v: Visit): GraphEntry {
    GraphEntry(v.entry.oid, v.branch, v.entry.parent, GraphAuthor(v.entry.author.name, v.entry.author.email),
               v.entry.message, v.entry.author.timestamp)
  }

  /** One step of the inner loop: store the commit on first sight, create
      the branch's list unless `branchCommits[name]` is already truthy, and
      push the commit's oid onto it. For an inherited name the push throws,
      so only the first step happens. */
  function AddVisit(s: GraphState, v: Visit): GraphState {
    var oid := v.entry.oid;
    var s1 := if oid in s.entries then s
              else s.(order := s.order + [oid], entries := s.entries[oid := EntryOf(v)]);
    var s2 := if v.branch in s1.branchCommits || v.branch in InheritedKeys then s1
              else s1.(branchOrder := s1.branchOrder + [v.branch], branchCommits := s1.branchCommits[v.branch := []]);
    if v.branch in s2.branchCommits then s2.(branchCommits := s2.branchCommits[v.branch := s2.branchCommits[v.branch] + [oid]])
    else s2
  }

  /** Both maps after a sequence of visits. */
  function Collect(vs: seq<Visit>): GraphState {
    if vs == [] then GraphState([], map[], [], map[])
    else AddVisit(Collect(vs[..|vs| - 1]), vs[|vs| - 1])
  }

  lemma AddVisitWellFormed(s: GraphState, v: Visit)
    requires WellFormed(s)
    ensures WellFormed(AddVisit(s, v))
  {
    var oid := v.entry.oid;
    if oid !in s.entries {
      var order := s.order + [oid];
      forall i, j | 0 <= i < j < |order| ensures order[i] != order[j] {
        if j == |s.order| {
          assert order[i] == s.order[i];
        }
      }
    }
    if v.branch !in s.branchCommits && v.branch !in InheritedKeys {
      var branchOrder := s.branchOrder + [v.branch];
      forall i, j | 0 <= i < j < |branchOrder| ensures branchOrder[i] != branchOrder[j] {
        if j == |s.branchOrder| {
          assert branchOrder[i] == s.branchOrder[i];
        }
      }
    }
  }

  lemma {:induction false} CollectWellFormed(vs: seq<Visit>)
    ensures WellFormed(Collect(vs))
  {
    if vs != [] {
      CollectWellFormed(vs[..|vs| - 1]);
      AddVisitWellFormed(Collect(vs[..|vs| - 1]), vs[|vs| - 1]);
    }
  }

  /** `allCommits` and `branchCommits` after one more visit. */
  lemma CollectAppend(vs: seq<Visit>, v: Visit)
    ensures Collect(vs + [v]) == AddVisit(Collect(vs), v)
  {
    assert (vs + [v])[..|vs|] == vs;
  }

  // ---------------------------------------------------------------------
  // The walks as the route makes them.

  /** The visits the inner loop makes over `log` from the maps `s`: it leaves
      before a commit whose date throws and right after a commit whose push
      throws; the `catch` of the outer loop then moves on. */
  function WalkFrom(s: GraphState, branch: string, log: seq<LogEntry>): seq<Visit>
    decreases |log|
  {
    if log == [] then []
    else
      var v := Visit(branch, log[0]);
      if DateThrows(s, v) then []
      else if PushThrows(s, v) then [v]
      else [v] + WalkFrom(AddVisit(s, v), branch, log[1..])
  }

  /** A walk visits a prefix of the log, on its own branch. */
  lemma {:induction false} WalkFromPrefix(s: GraphState, branch: string, log: seq<LogEntry>)
    ensures var vs := WalkFrom(s, branch, log);
            |vs| <= |log| && forall k :: 0 <= k < |vs| ==> vs[k] == Visit(branch, log[k])
    decreases |log|
  {
    if log != [] {
      var v := Visit(branch, log[0]);
      if !DateThrows(s, v) && !PushThrows(s, v) {
        WalkFromPrefix(AddVisit(s, v), branch, log[1..]);
      }
    }
  }

  /** The walk of `branch` from the maps `s`; none when its log throws. */
  function WalkOf(s: GraphState, branch: string, logs: map<string, seq<LogEntry>>): seq<Visit> {
    if branch in logs then WalkFrom(s, branch, logs[branch]) else []
  }

  /** All visits of the route's two loops, branch by branch, each walk
      starting from the maps the earlier walks left. */
  function RouteVisits(branchNames: seq<string>, logs: map<string, seq<LogEntry>>): seq<Visit> {
    if branchNames == [] then []
    else
      var before := RouteVisits(branchNames[..|branchNames| - 1], logs);
      before + WalkOf(Collect(before), branchNames[|branchNames| - 1], logs)
  }

  lemma RouteVisitsStep(branchNames: seq<string>, logs: map<string, seq<LogEntry>>, i: nat)
    requires i < |branchNames|
    ensures RouteVisits(branchNames[..i + 1], logs)
            == RouteVisits(branchNames[..i], logs) + WalkOf(Collect(RouteVisits(branchNames[..i], logs)), branchNames[i], logs)
  {
    assert branchNames[..i + 1][..i] == branchNames[..i];
  }

  /** Every visit of the route is a commit of the log of a requested branch. */
  lemma {:induction false} RouteVisitsFromLogs(branchNames: seq<string>, logs: map<string, seq<LogEntry>>, v: Visit)
    requires v in RouteVisits(branchNames, logs)
    ensures v.branch in branchNames && v.branch in logs && v.entry in logs[v.branch]
  {
    var init, last := branchNames[..|branchNames| - 1], branchNames[|branchNames| - 1];
    var before := RouteVisits(init, logs);
    assert branchNames == init + [last];
    if v in before {
      RouteVisitsFromLogs(init, logs, v);
    } else {
      var walk := WalkOf(Collect(before), last, logs);
      WalkFromPrefix(Collect(before), last, logs[last]);
      var k :| 0 <= k < |walk| && walk[k] == v;
      assert v == Visit(last, logs[last][k]);
    }
  }

  /** Every stored commit has a valid date. */
  ghost predicate DatesValid(s: GraphState) {
    forall oid :: oid in s.entries ==> DateInRange(s.entries[oid].date)
  }

  /** A visit whose date does not throw keeps every stored date valid. */
  lemma AddVisitDatesValid(s: GraphState, v: Visit)
    requires DatesValid(s) && !DateThrows(s, v)
    ensures DatesValid(AddVisit(s, v))
  {
  }

  /** A walk stores only commits whose date is valid. */
  lemma {:induction false} WalkKeepsDatesValid(before: seq<Visit>, branch: string, log: seq<LogEntry>)
    requires DatesValid(Collect(before))
    ensures DatesValid(Collect(before + WalkFrom(Collect(before), branch, log)))
    decreases |log|
  {
    var s := Collect(before);
    var walk := WalkFrom(s, branch, log);
    if walk == [] {
      assert before + walk == before;
    } else {
      var v := Visit(branch, log[0]);
      assert !DateThrows(s, v);
      CollectAppend(before, v);
      AddVisitDatesValid(s, v);
      if PushThrows(s, v) {
        assert before + walk == before + [v];
      } else {
        WalkKeepsDatesValid(before + [v], branch, log[1..]);
        AppendAssoc(before, [v], WalkFrom(Collect(before + [v]), branch, log[1..]));
      }
    }
  }

  /** Every commit the route stores has a valid date. */
  lemma {:induction false} RouteDatesValid(branchNames: seq<string>, logs: map<string, seq<LogEntry>>)
    ensures DatesValid(Collect(RouteVisits(branchNames, logs)))
  {
    if branchNames != [] {
      var init, last := branchNames[..|branchNames| - 1], branchNames[|branchNames| - 1];
      RouteDatesValid(init, logs);
      var before := RouteVisits(init, logs);
      if last in logs {
        WalkKeepsDatesValid(before, last, logs[last]);
      } else {
        assert before + [] == before;
      }
    }
  }

  // ---------------------------------------------------------------------
  // The walks in closed form, for logs in which an oid names one commit.

  /** An oid names one commit: every log holding the oid holds the same entry
      for it, as `git.log` reads each commit from the object store by oid. */
  ghost predicate OidsNameOneCommit(logs: map<string, seq<LogEntry>>) {
    forall b1, b2, i, j ::
      (b1 in logs && b2 in logs && 0 <= i < |logs[b1]| && 0 <= j < |logs[b2]| && logs[b1][i].oid == logs[b2][j].oid)
      ==> logs[b1][i] == logs[b2][j]
  }

  /** Every log entry whose oid is stored has a valid date. */
  ghost predicate StoredInRange(s: GraphState, logs: map<string, seq<LogEntry>>) {
    forall b, k :: b in logs && 0 <= k < |logs[b]| && logs[b][k].oid in s.entries ==> DateInRange(logs[b][k].author.timestamp)
  }

  /** The visits of a walk of `log` when an oid names one commit: the
      commits before the first invalid date, and only the first of them when
      the name is inherited. */
  function WalkRef(branch: string, log: seq<LogEntry>): seq<Visit>
    decreases |log|
  {
    if log == [] || !DateInRange(log[0].author.timestamp) then []
    else if branch in InheritedKeys then [Visit(branch, log[0])]
    else [Visit(branch, log[0])] + WalkRef(branch, log[1..])
  }

  /** A walk in closed form visits a prefix of the log, on its own branch. */
  lemma {:induction false} WalkRefPrefix(branch: string, log: seq<LogEntry>)
    ensures var vs := WalkRef(branch, log);
            |vs| <= |log| && forall k :: 0 <= k < |vs| ==> vs[k] == Visit(branch, log[k])
    decreases |log|
  {
    if log != [] && DateInRange(log[0].author.timestamp) && branch !in InheritedKeys {
      WalkRefPrefix(branch, log[1..]);
    }
  }

  /** The walk of `branch` in closed form; none when its log throws. */
  function WalkVisits(branch: string, logs: map<string, seq<LogEntry>>): seq<Visit> {
    if branch in logs then WalkRef(branch, logs[branch]) else []
  }

  /** All walks in closed form, branch by branch. */
  function GraphVisits(branchNames: seq<string>, logs: map<string, seq<LogEntry>>): seq<Visit> {
    if branchNames == [] then []
    else GraphVisits(branchNames[..|branchNames| - 1], logs) + WalkVisits(branchNames[|branchNames| - 1], logs)
  }

  lemma AddVisitStoredInRange(s: GraphState, v: Visit, logs: map<string, seq<LogEntry>>, m: nat)
    requires OidsNameOneCommit(logs) && StoredInRange(s, logs)
    requires v.branch in logs && m < |logs[v.branch]| && logs[v.branch][m] == v.entry
    requires DateInRange(v.entry.author.timestamp)
    ensures StoredInRange(AddVisit(s, v), logs)
  {
    forall b, k | b in logs && 0 <= k < |logs[b]| && logs[b][k].oid in AddVisit(s, v).entries
      ensures DateInRange(logs[b][k].author.timestamp)
    {
      if logs[b][k].oid !in s.entries {
        assert logs[b][k] == logs[v.branch][m];
      }
    }
  }

  /** When an oid names one commit, the walk of the route from the rest of
      a log is its closed form: a stored oid never has an invalid date, and
      an inherited name never has a list. */
  lemma {:induction false} WalkFromIsRef(before: seq<Visit>, branch: string, logs: map<string, seq<LogEntry>>, m: nat)
    requires OidsNameOneCommit(logs) && branch in logs && m <= |logs[branch]|
    requires StoredInRange(Collect(before), logs)
    ensures WalkFrom(Collect(before), branch, logs[branch][m..]) == WalkRef(branch, logs[branch][m..])
    ensures StoredInRange(Collect(before + WalkRef(branch, logs[branch][m..])), logs)
    decreases |logs[branch]| - m
  {
    var log := logs[branch][m..];
    var s := Collect(before);
    if m == |logs[branch]| {
      assert before + WalkRef(branch, log) == before;
    } else {
      var e := logs[branch][m];
      var v := Visit(branch, e);
      assert log[0] == e;
      CollectWellFormed(before);
      CollectAppend(before, v);
      if !DateInRange(e.author.timestamp) {
        assert e.oid !in s.entries;
        assert before + WalkRef(branch, log) == before;
      } else {
        AddVisitStoredInRange(s, v, logs, m);
        if branch !in InheritedKeys {
          assert log[1..] == logs[branch][m + 1..];
          WalkFromIsRef(before + [v], branch, logs, m + 1);
          AppendAssoc(before, [v], WalkRef(branch, logs[branch][m + 1..]));
        }
      }
    }
  }

  /** When an oid names one commit, the route's visits are the walks in
      closed form. */
  lemma {:induction false} RouteIsReference(branchNames: seq<string>, logs: map<string, seq<LogEntry>>)
    requires OidsNameOneCommit(logs)
    ensures RouteVisits(branchNames, logs) == GraphVisits(branchNames, logs)
    ensures StoredInRange(Collect(GraphVisits(branchNames, logs)), logs)
  {
    if branchNames != [] {
      var init, last := branchNames[..|branchNames| - 1], branchNames[|branchNames| - 1];
      RouteIsReference(init, logs);
      var before := GraphVisits(init, logs);
      if last in logs {
        WalkFromIsRef(before, last, logs, 0);
        assert logs[last][0..] == logs[last];
      } else {
        assert before + [] == before;
      }
    }
  }

  /** The dates of a log are valid up to position k. */
  ghost predicate DatesInRange(log: seq<LogEntry>, k: nat) {
    forall j :: 0 <= j <= k && j < |log| ==> DateInRange(log[j].author.timestamp)
  }

  /** The position of `e` in `log` up to which every date is valid, and
      which is 0 when the name is inherited. */
  ghost predicate WalkedAt(branch: string, log: seq<LogEntry>, e: LogEntry, k: int) {
    0 <= k < |log| && log[k] == e && DatesInRange(log, k) && (branch in InheritedKeys ==> k == 0)
  }

  /** Commit `e` is walked for `branch`: the branch is requested, its log
      succeeds and holds `e` at a position k up to which every date is
      valid, and k is 0 when the name is inherited, since the walk throws
      right after it. */
  ghost predicate Walked(branchNames: seq<string>, logs: map<string, seq<LogEntry>>, branch: string, e: LogEntry) {
    && branch in branchNames && branch in logs
    && exists k :: WalkedAt(branch, logs[branch], e, k)
  }

  /** Past a valid first date, the dates of a log are valid up to k + 1
      exactly when those of its tail are valid up to k. */
  lemma DatesInRangeTail(log: seq<LogEntry>, k: nat)
    requires log != [] && DateInRange(log[0].author.timestamp)
    ensures DatesInRange(log, k + 1) <==> DatesInRange(log[1..], k)
  {
    if DatesInRange(log[1..], k) {
      forall j | 0 <= j <= k + 1 && j < |log| ensures DateInRange(log[j].author.timestamp) {
        if j > 0 {
          assert log[j] == log[1..][j - 1];
        }
      }
    }
    if DatesInRange(log, k + 1) {
      forall j | 0 <= j <= k && j < |log| - 1 ensures DateInRange(log[1..][j].author.timestamp) {
        assert log[1..][j] == log[j + 1];
      }
    }
  }

  lemma {:induction false} WalkRefMembership(branch: string, log: seq<LogEntry>, v: Visit)
    ensures v in WalkRef(branch, log) <==> v.branch == branch && exists k :: WalkedAt(branch, log, v.entry, k)
    decreases |log|
  {
    if log != [] {
      if !DateInRange(log[0].author.timestamp) {
        forall k | 0 <= k < |log| ensures !DatesInRange(log, k) {
        }
      } else {
        assert WalkedAt(branch, log, log[0], 0);
        if branch !in InheritedKeys {
          var tail := log[1..];
          WalkRefMembership(branch, tail, v);
          assert WalkRef(branch, log) == [Visit(branch, log[0])] + WalkRef(branch, tail);
          if exists k :: WalkedAt(branch, tail, v.entry, k) {
            var k :| WalkedAt(branch, tail, v.entry, k);
            DatesInRangeTail(log, k);
            assert WalkedAt(branch, log, v.entry, k + 1);
          }
          if exists k :: 0 < k && WalkedAt(branch, log, v.entry, k) {
            var k :| 0 < k && WalkedAt(branch, log, v.entry, k);
            DatesInRangeTail(log, k - 1);
            assert WalkedAt(branch, tail, v.entry, k - 1);
          }
        }
      }
    }
  }

  /** The visits of one walk are the walked commits of that branch. */
  lemma WalkVisitsMembership(branchNames: seq<string>, logs: map<string, seq<LogEntry>>, branch: string, v: Visit)
    requires branch in branchNames
    ensures v in WalkVisits(branch, logs) <==> v.branch == branch && Walked(branchNames, logs, branch, v.entry)
  {
    if branch in logs {
      WalkRefMembership(branch, logs[branch], v);
    }
  }

  /** The walks in closed form visit exactly the walked commits. */
  lemma {:induction false} GraphVisitsMembership(branchNames: seq<string>, logs: map<string, seq<LogEntry>>, v: Visit)
    ensures v in GraphVisits(branchNames, logs) <==> Walked(branchNames, logs, v.branch, v.entry)
  {
    if branchNames != [] {
      var init, last := branchNames[..|branchNames| - 1], branchNames[|branchNames| - 1];
      GraphVisitsMembership(init, logs, v);
      assert branchNames == init + [last];
      WalkVisitsMembership(branchNames, logs, last, v);
      assert Walked(branchNames, logs, v.branch, v.entry) <==>
             Walked(init, logs, v.branch, v.entry) || (v.branch == last && Walked(branchNames, logs, last, v.entry));
    }
  }

  /** The branches that contribute to `branchCommits`, in the order of their
      first contribution: each requested branch whose log succeeds, is not
      empty and starts with a valid date, and whose name is not inherited, at
      its first request. */
  function Contributing(branchNames: seq<string>, logs: map<string, seq<LogEntry>>): seq<string> {
    if branchNames == [] then []
    else
      var earlier := Contributing(branchNames[..|branchNames| - 1], logs);
      var b := branchNames[|branchNames| - 1];
      if b in logs && logs[b] != [] && DateInRange(logs[b][0].author.timestamp) && b !in InheritedKeys && b !in earlier
      then earlier + [b]
      else earlier
  }

  lemma {:induction false} ContributingMembership(branchNames: seq<string>, logs: map<string, seq<LogEntry>>, b: string)
    ensures b in Contributing(branchNames, logs) <==>
              b in branchNames && b in logs && logs[b] != [] && DateInRange(logs[b][0].author.timestamp) && b !in InheritedKeys
  {
    if branchNames != [] {
      var init := branchNames[..|branchNames| - 1];
      assert branchNames == init + [branchNames[|branchNames| - 1]];
      ContributingMembership(init, logs, b);
    }
  }

  lemma {:induction false} ContributingDistinct(branchNames: seq<string>, logs: map<string, seq<LogEntry>>)
    ensures NoDuplicates(Contributing(branchNames, logs))
  {
    if branchNames != [] {
      var init := branchNames[..|branchNames| - 1];
      var earlier := Contributing(init, logs);
      ContributingDistinct(init, logs);
      var b := branchNames[|branchNames| - 1];
      if Contributing(branchNames, logs) != earlier {
        var c := earlier + [b];
        forall i, j | 0 <= i < j < |c| ensures c[i] != c[j] {
          if j == |earlier| {
            assert c[i] == earlier[i];
          }
        }
      }
    }
  }

  /** One visit appends its branch to the key order when the name is neither
      inherited nor a key yet. */
  lemma AddVisitBranchOrder(s: GraphState, v: Visit)
    requires WellFormed(s)
    ensures AddVisit(s, v).branchOrder
            == s.branchOrder + (if v.branch !in InheritedKeys && v.branch !in s.branchOrder then [v.branch] else [])
  {
  }

  /** Walking more commits of one branch adds that branch to `branchOrder` at
      most once: when some commit was walked, its name is not inherited and it
      was not there before. */
  lemma {:induction false} WalkBranchOrder(before: seq<Visit>, ws: seq<Visit>, b: string)
    requires forall k :: 0 <= k < |ws| ==> ws[k].branch == b
    ensures Collect(before + ws).branchOrder
            == Collect(before).branchOrder
               + (if ws != [] && b !in InheritedKeys && b !in Collect(before).branchOrder then [b] else [])
    decreases |ws|
  {
    if ws == [] {
      assert before + ws == before;
    } else {
      var init := ws[..|ws| - 1];
      WalkBranchOrder(before, init, b);
      assert before + ws == (before + init) + [ws[|ws| - 1]];
      assert (before + ws)[..|before + ws| - 1] == before + init;
      CollectWellFormed(before + init);
      AddVisitBranchOrder(Collect(before + init), ws[|ws| - 1]);
      if init != [] && b !in InheritedKeys {
        assert b in Collect(before + init).branchOrder;
      }
    }
  }

  /** In closed form, `branchCommits` gets its keys in the order
      `Contributing` lists them. */
  lemma {:induction false} CollectBranchOrder(branchNames: seq<string>, logs: map<string, seq<LogEntry>>)
    ensures Collect(GraphVisits(branchNames, logs)).branchOrder == Contributing(branchNames, logs)
  {
    if branchNames != [] {
      var init, last := branchNames[..|branchNames| - 1], branchNames[|branchNames| - 1];
      CollectBranchOrder(init, logs);
      var walk := WalkVisits(last, logs);
      if last in logs {
        WalkRefPrefix(last, logs[last]);
      }
      WalkBranchOrder(GraphVisits(init, logs), walk, last);
      assert walk != [] <==> last in logs && logs[last] != [] && DateInRange(logs[last][0].author.timestamp);
    }
  }

  /** The colour of the branch at `index` among the keys of `branchCommits`. */
  function BranchColor(index: nat): (color: string)
    ensures color in Palette
  {
    Palette[index % 10]
  }

  /** `Object.keys(branchCommits).map((branchName, index) => ...)`. */
  function Branches(branchOrder: seq<string>): (bs: seq<GraphBranch>)
    ensures |bs| == |branchOrder|
    ensures forall i :: 0 <= i < |bs| ==> bs[i] == GraphBranch(branchOrder[i], BranchColor(i))
  {
    seq(|branchOrder|, i requires 0 <= i < |branchOrder| => GraphBranch(branchOrder[i], BranchColor(i)))
  }

  /** The oids in `order` whose commit lists `oid` among its parents, in that order. */
  function Children(order: seq<ObjectId>, entries: map<ObjectId, GraphEntry>, oid: ObjectId): seq<ObjectId>
    requires forall o :: o in order ==> o in entries
  {
    if order == [] then []
    else
      var other := order[|order| - 1];
      Children(order[..|order| - 1], entries, oid)
        + (if oid in NormalizeParents(entries[other].parent) then [other] else [])
  }

  /** The node built for the commit `oid`. */
  function Node(s: GraphState, oid: ObjectId): GraphCommit
    requires forall o :: o in s.order ==> o in s.entries
    requires oid in s.entries
  {
    var e := s.entries[oid];
    GraphCommit(oid, e.branch, NormalizeParents(e.parent), Children(s.order, s.entries, oid), e.author, e.message, e.date)
  }

  /** `branchNames || []`: a missing list requests no branch. */
  function Requested(branchNames: Option<seq<string>>): seq<string> {
    if branchNames.Some? then branchNames.value else []
  }

  /** What the route responds with. */
  function Graph(branchNames: Option<seq<string>>, logs: map<string, seq<LogEntry>>): (g: GraphData)
    ensures forall i :: 0 <= i < |g.branches| ==> g.branches[i].color == Palette[i % 10]
    ensures forall i, j :: 0 <= i < j < |g.commits| ==> g.commits[i].id != g.commits[j].id
  {
    var vs := RouteVisits(Requested(branchNames), logs);
    CollectWellFormed(vs);
    var s := Collect(vs);
    GraphData(Branches(s.branchOrder), seq(|s.order|, i requires 0 <= i < |s.order| => Node(s, s.order[i])))
  }

  // ---------------------------------------------------------------------
  // The route's loops.

  method BuildGraph(branchNames: Option<seq<string>>, logs: map<string, seq<LogEntry>>) returns (data: GraphData)
    ensures data == Graph(branchNames, logs)
  {
    var names := if branchNames.Some? then branchNames.value else [];
    var s := CollectBranches(names, logs);
    CollectWellFormed(RouteVisits(names, logs));
    var branches := seq(|s.branchOrder|, i requires 0 <= i < |s.branchOrder| => GraphBranch(s.branchOrder[i], Palette[i % 10]));
    var commits := BuildCommits(s);
    data := GraphData(branches, commits);
  }

  /** The loops over the requested branches and their logs. */
  method CollectBranches(names: seq<string>, logs: map<string, seq<LogEntry>>) returns (s: GraphState)
    ensures s == Collect(RouteVisits(names, logs))
  {
    s := GraphState([], map[], [], map[]);
    for i := 0 to |names|
      invariant s == Collect(RouteVisits(names[..i], logs))
    {
      var name := names[i];
      ghost var before := RouteVisits(names[..i], logs);
      RouteVisitsStep(names, logs, i);
      if name in logs {
        s := CollectLog(s, before, name, logs);
      } else {
        assert before + WalkOf(s, name, logs) == before;
      }
    }
    assert names[..|names|] == names;
  }

  /** The loop over `allCommits.entries()` that builds the nodes. */
  method BuildCommits(s: GraphState) returns (commits: seq<GraphCommit>)
    requires WellFormed(s)
    ensures commits == seq(|s.order|, i requires 0 <= i < |s.order| => Node(s, s.order[i]))
  {
    commits := [];
    for i := 0 to |s.order|
      invariant commits == seq(i, k requires 0 <= k < i => Node(s, s.order[k]))
    {
      var oid := s.order[i];
      var commitData := s.entries[oid];
      var parents := NormalizeParents(commitData.parent);
      var children := FindChildren(s.order, s.entries, oid);
      commits := commits + [GraphCommit(oid, commitData.branch, parents, children, commitData.author, commitData.message, commitData.date)];
    }
  }

  /** The inner loop over the log of one branch, left at the first commit
      whose date or push throws; the `catch` of the outer loop then moves on. */
  method CollectLog(s: GraphState, ghost before: seq<Visit>, name: string, logs: map<string, seq<LogEntry>>)
    returns (s': GraphState)
    requires name in logs
    requires s == Collect(before)
    ensures s' == Collect(before + WalkFrom(s, name, logs[name]))
  {
    s' := s;
    var log := logs[name];
    var j := 0;
    var thrown := false;
    ghost var done: seq<Visit> := [];
    LogWalkedStart(s, before, name, log);
    while j < |log| && !thrown
      invariant LogWalked(s, before, name, log, j, s', thrown, done)
      decreases |log| - j
    {
      s', thrown, done := VisitCommit(s, before, name, log, j, s', done);
      j := j + 1;
    }
    LogWalkedEnd(s, before, name, log, j, s', thrown, done);
  }

  /** The loop's invariant after j commits: `done` are the visits made so far,
      and unless the loop threw, the walk goes on from the current maps. */
  ghost predicate LogWalked(s: GraphState, before: seq<Visit>, name: string, log: seq<LogEntry>, j: int,
                            s': GraphState, thrown: bool, done: seq<Visit>) {
    && 0 <= j <= |log|
    && s' == Collect(before + done)
    && (!thrown ==> WalkFrom(s, name, log) == done + WalkFrom(s', name, log[j..]))
    && (thrown ==> WalkFrom(s, name, log) == done)
  }

  lemma LogWalkedStart(s: GraphState, before: seq<Visit>, name: string, log: seq<LogEntry>)
    requires s == Collect(before)
    ensures LogWalked(s, before, name, log, 0, s, false, [])
  {
    assert log[0..] == log;
    assert before + [] == before;
  }

  lemma LogWalkedEnd(s: GraphState, before: seq<Visit>, name: string, log: seq<LogEntry>, j: int,
                     s': GraphState, thrown: bool, done: seq<Visit>)
    requires LogWalked(s, before, name, log, j, s', thrown, done)
    requires j == |log| || thrown
    ensures s' == Collect(before + WalkFrom(s, name, log))
  {
    if !thrown {
      assert log[j..] == [];
      assert done + [] == done;
    }
  }

  /** One commit of the inner loop, which keeps its invariant. */
  method VisitCommit(ghost s: GraphState, ghost before: seq<Visit>, name: string, log: seq<LogEntry>, j: nat,
                     current: GraphState, ghost done: seq<Visit>)
    returns (next: GraphState, thrown: bool, ghost done': seq<Visit>)
    requires j < |log| && LogWalked(s, before, name, log, j, current, false, done)
    ensures LogWalked(s, before, name, log, j + 1, next, thrown, done')
  {
    ghost var stored := if DateThrows(current, Visit(name, log[j])) then [] else [Visit(name, log[j])];
    next, thrown := StoreCommit(current, log[j], name);
    WalkFromAdvance(current, before + done, name, log, j, next, thrown);
    LogWalkedStep(s, before, name, log, j, current, done, next, thrown, stored);
    done' := done + stored;
  }

  lemma LogWalkedStep(s: GraphState, before: seq<Visit>, name: string, log: seq<LogEntry>, j: nat,
                      current: GraphState, done: seq<Visit>, next: GraphState, thrown: bool, stored: seq<Visit>)
    requires j < |log| && LogWalked(s, before, name, log, j, current, false, done)
    requires next == Collect((before + done) + stored)
    requires WalkFrom(current, name, log[j..]) == stored + (if thrown then [] else WalkFrom(next, name, log[j + 1..]))
    ensures LogWalked(s, before, name, log, j + 1, next, thrown, done + stored)
  {
    AppendAssoc(before, done, stored);
    AppendAssoc(done, stored, if thrown then [] else WalkFrom(next, name, log[j + 1..]));
  }

  lemma AppendAssoc(a: seq<Visit>, b: seq<Visit>, c: seq<Visit>)
    ensures (a + b) + c == a + (b + c)
  {
  }

  /** One commit of the inner loop: the walk of the rest of the log is what
      the commit adds, then the walk from the new maps unless it threw. */
  lemma WalkFromAdvance(s: GraphState, vs: seq<Visit>, name: string, log: seq<LogEntry>, j: nat, s': GraphState, thrown: bool)
    requires j < |log| && s == Collect(vs)
    requires DateThrows(s, Visit(name, log[j])) ==> s' == s && thrown
    requires !DateThrows(s, Visit(name, log[j])) ==>
               s' == AddVisit(s, Visit(name, log[j])) && (thrown <==> PushThrows(s, Visit(name, log[j])))
    ensures var stored := if DateThrows(s, Visit(name, log[j])) then [] else [Visit(name, log[j])];
            && s' == Collect(vs + stored)
            && WalkFrom(s, name, log[j..]) == stored + (if thrown then [] else WalkFrom(s', name, log[j + 1..]))
  {
    var v := Visit(name, log[j]);
    assert log[j..][0] == log[j];
    assert log[j..][1..] == log[j + 1..];
    if DateThrows(s, v) {
      assert vs + [] == vs;
    } else {
      CollectAppend(vs, v);
    }
  }

  /** The body of the inner loop for one commit of the log of `name`;
      `thrown` says the date or the push threw. A new commit whose date
      throws is not stored. */
  method StoreCommit(s: GraphState, commit: LogEntry, name: string) returns (s': GraphState, thrown: bool)
    ensures DateThrows(s, Visit(name, commit)) ==> s' == s && thrown
    ensures !DateThrows(s, Visit(name, commit)) ==>
              s' == AddVisit(s, Visit(name, commit)) && (thrown <==> PushThrows(s, Visit(name, commit)))
  {
    var allCommits, branchCommits := s.entries, s.branchCommits;
    var order, branchOrder := s.order, s.branchOrder;
    if commit.oid !in allCommits {
      if commit.author.timestamp < -MaxDateSeconds || MaxDateSeconds < commit.author.timestamp {
        return s, true;
      }
      order := order + [commit.oid];
      allCommits := allCommits[commit.oid := GraphEntry(commit.oid, name, commit.parent,
                                                        GraphAuthor(commit.author.name, commit.author.email),
                                                        commit.message, commit.author.timestamp)];
    }
    if name !in branchCommits && name !in InheritedKeys {
      branchOrder := branchOrder + [name];
      branchCommits := branchCommits[name := []];
    }
    thrown := name !in branchCommits;
    if !thrown {
      branchCommits := branchCommits[name := branchCommits[name] + [commit.oid]];
    }
    s' := GraphState(order, allCommits, branchOrder, branchCommits);
  }

  /** The children loop: every commit of `order` whose parents include `oid`. */
  method FindChildren(order: seq<ObjectId>, entries: map<ObjectId, GraphEntry>, oid: ObjectId) returns (children: seq<ObjectId>)
    requires forall o :: o in order ==> o in entries
    ensures children == Children(order, entries, oid)
  {
    children := [];
    for k := 0 to |order|
      invariant children == Children(order[..k], entries, oid)
    {
      assert order[..k + 1][..k] == order[..k];
      var otherParents := NormalizeParents(entries[order[k]].parent);
      if oid in otherParents {
        children := children + [order[k]];
      }
    }
    assert order[..|order|] == order;
  }

  // ---------------------------------------------------------------------
  // Properties of the response.

  /** A commit is stored exactly when some visit saw it, with the data and
      the branch of its first sighting. */
  lemma {:induction false} CollectFirstVisit(vs: seq<Visit>, oid: ObjectId)
    ensures oid in Collect(vs).entries <==> FirstVisit(vs, oid).Some?
    ensures oid in Collect(vs).entries ==> Collect(vs).entries[oid] == EntryOf(FirstVisit(vs, oid).value)
  {
    if vs != [] {
      CollectFirstVisit(vs[..|vs| - 1], oid);
    }
  }

  /** A commit is stored exactly when some visit saw it. */
  lemma {:induction false} CollectFirstIndex(vs: seq<Visit>, oid: ObjectId)
    ensures oid in Collect(vs).entries <==> FirstIndex(vs, oid) < |vs|
  {
    if vs != [] {
      CollectFirstIndex(vs[..|vs| - 1], oid);
    }
  }

  /** `allCommits` keeps its keys in the order of their first sighting: the
      key at i was first visited before the key at j whenever i < j. */
  lemma {:induction false} CollectOrderFirstSeen(vs: seq<Visit>, i: nat, j: nat)
    requires i < j < |Collect(vs).order|
    ensures FirstIndex(vs, Collect(vs).order[i]) < FirstIndex(vs, Collect(vs).order[j])
  {
    var init, last := vs[..|vs| - 1], vs[|vs| - 1];
    CollectWellFormed(init);
    var s := Collect(init);
    var order := Collect(vs).order;
    assert order == if last.entry.oid in s.entries then s.order else s.order + [last.entry.oid];
    assert order[i] == s.order[i];
    CollectFirstIndex(init, s.order[i]);
    if j < |s.order| {
      assert order[j] == s.order[j];
      CollectOrderFirstSeen(init, i, j);
      CollectFirstIndex(init, s.order[j]);
    } else {
      CollectFirstIndex(init, last.entry.oid);
    }
  }

  /** Filtering an order sorted by first sighting keeps it sorted: the
      children loop lists them in the order of their first sighting. */
  lemma {:induction false} ChildrenFirstSeen(vs: seq<Visit>, order: seq<ObjectId>, entries: map<ObjectId, GraphEntry>, oid: ObjectId)
    requires forall o :: o in order ==> o in entries
    requires FirstSeenOrder(vs, order)
    ensures FirstSeenOrder(vs, Children(order, entries, oid))
  {
    if order != [] {
      var init, last := order[..|order| - 1], order[|order| - 1];
      FirstSeenOrderInit(vs, order);
      ChildrenFirstSeen(vs, init, entries, oid);
      var earlier := Children(init, entries, oid);
      if oid in NormalizeParents(entries[last].parent) {
        var c := earlier + [last];
        forall i, j | 0 <= i < j < |c| ensures FirstIndex(vs, c[i]) < FirstIndex(vs, c[j]) {
          assert c[i] == earlier[i];
          if j < |earlier| {
            assert c[j] == earlier[j];
          } else {
            ChildrenMembership(init, entries, oid, earlier[i]);
            var k :| 0 <= k < |init| && init[k] == earlier[i];
            assert order[k] == earlier[i] && c[j] == order[|order| - 1];
          }
        }
      }
    }
  }

  /** A branch gets a key in `branchCommits` exactly when one of its commits
      was visited and its name is not inherited. */
  lemma {:induction false} CollectBranchKeys(vs: seq<Visit>, b: string)
    ensures b in Collect(vs).branchCommits <==> b !in InheritedKeys && exists v :: v in vs && v.branch == b
  {
    if vs != [] {
      var init, last := vs[..|vs| - 1], vs[|vs| - 1];
      assert vs == init + [last];
      CollectBranchKeys(init, b);
    }
  }

  /** The branches of the response: entry i coloured `palette[i % 10]`, each
      name once, and each a requested branch whose log succeeds and is not
      empty and whose name is not inherited. */
  lemma GraphBranches(branchNames: Option<seq<string>>, logs: map<string, seq<LogEntry>>, b: string)
    ensures var bs := Graph(branchNames, logs).branches;
            forall i :: 0 <= i < |bs| ==> bs[i].color == Palette[i % 10]
    ensures var bs := Graph(branchNames, logs).branches;
            forall i, j :: 0 <= i < j < |bs| ==> bs[i].name != bs[j].name
    ensures (exists i :: 0 <= i < |Graph(branchNames, logs).branches| && Graph(branchNames, logs).branches[i].name == b)
            ==> b in Requested(branchNames) && b in logs && logs[b] != [] && b !in InheritedKeys
  {
    var names := Requested(branchNames);
    var vs := RouteVisits(names, logs);
    CollectWellFormed(vs);
    var s := Collect(vs);
    var bs := Graph(branchNames, logs).branches;
    assert bs == Branches(s.branchOrder);
    if exists i :: 0 <= i < |bs| && bs[i].name == b {
      var i :| 0 <= i < |bs| && bs[i].name == b;
      assert b in s.branchCommits;
      CollectBranchKeys(vs, b);
      var v :| v in vs && v.branch == b;
      RouteVisitsFromLogs(names, logs, v);
    }
  }

  /** When an oid names one commit, the branches of the response are the
      contributing branches in the order of their first contribution: exactly
      the requested branches whose log succeeds, is not empty and starts
      with a valid date, and whose name is not inherited. */
  lemma GraphBranchesContributing(branchNames: Option<seq<string>>, logs: map<string, seq<LogEntry>>, b: string)
    requires OidsNameOneCommit(logs)
    ensures var bs := Graph(branchNames, logs).branches;
            |bs| == |Contributing(Requested(branchNames), logs)|
            && forall i :: 0 <= i < |bs| ==> bs[i] == GraphBranch(Contributing(Requested(branchNames), logs)[i], Palette[i % 10])
    ensures (exists i :: 0 <= i < |Graph(branchNames, logs).branches| && Graph(branchNames, logs).branches[i].name == b)
            <==> b in Requested(branchNames) && b in logs && logs[b] != [] && DateInRange(logs[b][0].author.timestamp)
                 && b !in InheritedKeys
  {
    var names := Requested(branchNames);
    RouteIsReference(names, logs);
    CollectWellFormed(GraphVisits(names, logs));
    CollectBranchOrder(names, logs);
    ContributingMembership(names, logs, b);
    var bs := Graph(branchNames, logs).branches;
    var contributing := Contributing(names, logs);
    assert bs == Branches(contributing);
    if b in contributing {
      var i :| 0 <= i < |contributing| && contributing[i] == b;
      assert bs[i].name == b;
    }
  }

  /** A commit is a child of `oid` exactly when it is listed and `oid` is
      among its parents. */
  lemma {:induction false} ChildrenMembership(order: seq<ObjectId>, entries: map<ObjectId, GraphEntry>, oid: ObjectId, c: ObjectId)
    requires forall o :: o in order ==> o in entries
    ensures c in Children(order, entries, oid) <==> c in order && oid in NormalizeParents(entries[c].parent)
  {
    if order != [] {
      var init, last := order[..|order| - 1], order[|order| - 1];
      assert order == init + [last];
      ChildrenMembership(init, entries, oid, c);
    }
  }

  /** The nodes of the response: one per commit the walks store, each with
      the data and branch of its first sighting and a valid date, and parent
      and child links that mirror each other. */
  lemma GraphNodes(branchNames: Option<seq<string>>, logs: map<string, seq<LogEntry>>, i: nat, j: nat)
    requires i < |Graph(branchNames, logs).commits| && j < |Graph(branchNames, logs).commits|
    ensures var commits := Graph(branchNames, logs).commits;
            commits[j].id in commits[i].children <==> commits[i].id in commits[j].parents
    ensures var commits := Graph(branchNames, logs).commits;
            i != j ==> commits[i].id != commits[j].id
    ensures var c := Graph(branchNames, logs).commits[i];
            && FirstVisit(RouteVisits(Requested(branchNames), logs), c.id).Some?
            && var v := FirstVisit(RouteVisits(Requested(branchNames), logs), c.id).value;
               c.branch == v.branch && c.parents == NormalizeParents(v.entry.parent)
               && c.message == v.entry.message && c.date == v.entry.author.timestamp
    ensures DateInRange(Graph(branchNames, logs).commits[i].date)
  {
    var vs := RouteVisits(Requested(branchNames), logs);
    CollectWellFormed(vs);
    RouteDatesValid(Requested(branchNames), logs);
    var s := Collect(vs);
    var commits := Graph(branchNames, logs).commits;
    assert commits[i] == Node(s, s.order[i]) && commits[j] == Node(s, s.order[j]);
    ChildrenMembership(s.order, s.entries, s.order[i], s.order[j]);
    CollectFirstVisit(vs, s.order[i]);
  }

  /** The nodes come in the order in which the walks first saw their commits. */
  lemma GraphNodeOrder(branchNames: Option<seq<string>>, logs: map<string, seq<LogEntry>>, i: nat, j: nat)
    requires i < j < |Graph(branchNames, logs).commits|
    ensures var vs := RouteVisits(Requested(branchNames), logs);
            var commits := Graph(branchNames, logs).commits;
            FirstIndex(vs, commits[i].id) < FirstIndex(vs, commits[j].id)
  {
    var vs := RouteVisits(Requested(branchNames), logs);
    CollectWellFormed(vs);
    var s := Collect(vs);
    var commits := Graph(branchNames, logs).commits;
    assert commits[i] == Node(s, s.order[i]) && commits[j] == Node(s, s.order[j]);
    CollectOrderFirstSeen(vs, i, j);
  }

  /** The children of each node come in the order in which the walks first
      saw their commits. */
  lemma GraphChildrenOrder(branchNames: Option<seq<string>>, logs: map<string, seq<LogEntry>>, k: nat)
    requires k < |Graph(branchNames, logs).commits|
    ensures var vs := RouteVisits(Requested(branchNames), logs);
            FirstSeenOrder(vs, Graph(branchNames, logs).commits[k].children)
  {
    var vs := RouteVisits(Requested(branchNames), logs);
    CollectWellFormed(vs);
    var s := Collect(vs);
    forall i, j | 0 <= i < j < |s.order| ensures FirstIndex(vs, s.order[i]) < FirstIndex(vs, s.order[j]) {
      CollectOrderFirstSeen(vs, i, j);
    }
    assert Graph(branchNames, logs).commits[k] == Node(s, s.order[k]);
    ChildrenFirstSeen(vs, s.order, s.entries, s.order[k]);
    assert FirstSeenOrder(vs, Graph(branchNames, logs).commits[k].children);
  }

  /** The ids of the nodes are the oids of the visits. */
  lemma GraphIdsAreVisited(branchNames: Option<seq<string>>, logs: map<string, seq<LogEntry>>, oid: ObjectId)
    ensures var vs := RouteVisits(Requested(branchNames), logs);
            (exists i :: 0 <= i < |Graph(branchNames, logs).commits| && Graph(branchNames, logs).commits[i].id == oid)
            <==> exists k :: 0 <= k < |vs| && vs[k].entry.oid == oid
  {
    var vs := RouteVisits(Requested(branchNames), logs);
    CollectWellFormed(vs);
    var s := Collect(vs);
    var commits := Graph(branchNames, logs).commits;
    CollectFirstVisit(vs, oid);
    if exists i :: 0 <= i < |commits| && commits[i].id == oid {
      var i :| 0 <= i < |commits| && commits[i].id == oid;
      assert commits[i] == Node(s, s.order[i]);
    }
    if oid in s.order {
      var i :| 0 <= i < |s.order| && s.order[i] == oid;
      assert commits[i] == Node(s, oid);
    }
  }

  /** Every node is a commit of the log of a requested branch. */
  lemma GraphNodesFromLogs(branchNames: Option<seq<string>>, logs: map<string, seq<LogEntry>>, i: nat)
    requires i < |Graph(branchNames, logs).commits|
    ensures var oid := Graph(branchNames, logs).commits[i].id;
            exists b, k :: b in Requested(branchNames) && b in logs && 0 <= k < |logs[b]| && logs[b][k].oid == oid
  {
    var names := Requested(branchNames);
    var vs := RouteVisits(names, logs);
    var oid := Graph(branchNames, logs).commits[i].id;
    GraphIdsAreVisited(branchNames, logs, oid);
    var n :| 0 <= n < |vs| && vs[n].entry.oid == oid;
    RouteVisitsFromLogs(names, logs, vs[n]);
    var b := vs[n].branch;
    var k :| 0 <= k < |logs[b]| && logs[b][k] == vs[n].entry;
  }

  /** When an oid names one commit, a commit is a node exactly when some
      requested branch walks it. */
  lemma GraphListsEveryCommit(branchNames: Option<seq<string>>, logs: map<string, seq<LogEntry>>, oid: ObjectId)
    requires OidsNameOneCommit(logs)
    ensures (exists i :: 0 <= i < |Graph(branchNames, logs).commits| && Graph(branchNames, logs).commits[i].id == oid)
            <==> exists b, e :: Walked(Requested(branchNames), logs, b, e) && e.oid == oid
  {
    var names := Requested(branchNames);
    RouteIsReference(names, logs);
    var vs := GraphVisits(names, logs);
    GraphIdsAreVisited(branchNames, logs, oid);
    if exists k :: 0 <= k < |vs| && vs[k].entry.oid == oid {
      var k :| 0 <= k < |vs| && vs[k].entry.oid == oid;
      GraphVisitsMembership(names, logs, vs[k]);
    }
    if exists b, e :: Walked(names, logs, b, e) && e.oid == oid {
      var b, e :| Walked(names, logs, b, e) && e.oid == oid;
      GraphVisitsMembership(names, logs, Visit(b, e));
      var k :| 0 <= k < |vs| && vs[k] == Visit(b, e);
    }
  }
}
