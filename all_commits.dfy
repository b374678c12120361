/** The all-commits route (src/app/api/repo/all-commits/route.ts): the commits
    of every requested branch, each listed once with the set of branches whose
    log contains it, newest first. */
module AllCommits {
  import opened Common
  import opened CommitLog

  /** One element of the response: the commit as first seen, with the
      insertion-ordered set of branches it was seen on. */
  datatype CommitRecord = CommitRecord(oid: ObjectId, message: string, author: Author, parent: ParentField, branches: seq<string>)

  /** `commitMap`: its keys in insertion order and its values. */
  datatype Collected = Collected(order: seq<ObjectId>, records: map<ObjectId, CommitRecord>)

  /** The keys of the map are its insertion order, each once; every record
      is stored under its own oid and holds each branch once. */
  ghost predicate WellFormed(c: Collected) {
    && NoDuplicates(c.order)
    && (forall oid :: oid in c.records <==> oid in c.order)
    && (forall oid :: oid in c.records ==> c.records[oid].oid == oid && NoDuplicates(c.records[oid].branches))
  }

  /** One step of the inner loop: a commit not yet in the map is stored with
      the fields of this log entry and no branches; then the branch is added
      to the commit's set. */
  function AddVisit(c: Collected, v: Visit): Collected {
    var oid := v.entry.oid;
    var base :=
      if oid in c.records then c
      else Collected(c.order + [oid], c.records[oid := CommitRecord(oid, v.entry.message, v.entry.author, v.entry.parent, [])]);
    Collected(base.order, base.records[oid := base.records[oid].(branches := AddOnce(base.records[oid].branches, v.branch))])
  }

  /** The map after a sequence of visits. */
  function Collect(vs: seq<Visit>): Collected {
    if vs == [] then Collected([], map[])
    else AddVisit(Collect(vs[..|vs| - 1]), vs[|vs| - 1])
  }

  /** A visit keeps the map well formed. */
  lemma AddVisitWellFormed(c: Collected, v: Visit)
    requires WellFormed(c)
    ensures WellFormed(AddVisit(c, v))
  {
    var oid := v.entry.oid;
    if oid !in c.records {
      var order := c.order + [oid];
      forall i, j | 0 <= i < j < |order| ensures order[i] != order[j] {
        if j == |c.order| {
          assert order[i] == c.order[i];
        }
      }
    }
  }

  /** The map built by the loops is well formed. */
  lemma {:induction false} CollectWellFormed(vs: seq<Visit>)
    ensures WellFormed(Collect(vs))
  {
    if vs != [] {
      CollectWellFormed(vs[..|vs| - 1]);
      AddVisitWellFormed(Collect(vs[..|vs| - 1]), vs[|vs| - 1]);
    }
  }

  /** `Array.from(commitMap.values())`, with each set turned into an array. */
  function Records(c: Collected): (rs: seq<CommitRecord>)
    requires forall oid :: oid in c.order ==> oid in c.records
    ensures |rs| == |c.order|
    ensures forall k :: 0 <= k < |rs| ==> rs[k] == c.records[c.order[k]]
  {
    seq(|c.order|, k requires 0 <= k < |c.order| => c.records[c.order[k]])
  }

  /** `Array.from(commitMap.values())` after both loops. */
  function MapValues(branchNames: seq<string>, logs: map<string, seq<LogEntry>>): seq<CommitRecord> {
    CollectWellFormed(Visits(branchNames, logs));
    Records(Collect(Visits(branchNames, logs)))
  }

  /** The response: the map's values, newest first. */
  function AllCommits(branchNames: seq<string>, logs: map<string, seq<LogEntry>>): (r: seq<CommitRecord>)
    ensures NewestFirst(r)
    ensures multiset(r) == multiset(MapValues(branchNames, logs))
  {
    SortIsNewestFirst(MapValues(branchNames, logs));
    SortIsPermutation(MapValues(branchNames, logs));
    SortNewestFirst(MapValues(branchNames, logs))
  }

  /** The route's loops: for each branch whose log does not throw, each of
      its commits is stored on first sight and tagged with the branch; the
      values are then sorted newest first. */
  method CollectAllCommits(branchNames: seq<string>, logs: map<string, seq<LogEntry>>) returns (commits: seq<CommitRecord>)
    ensures commits == AllCommits(branchNames, logs)
  {
    var order: seq<ObjectId> := [];
    var records: map<ObjectId, CommitRecord> := map[];
    for i := 0 to |branchNames|
      invariant Collected(order, records) == Collect(Visits(branchNames[..i], logs))
    {
      var name := branchNames[i];
      ghost var before := Visits(branchNames[..i], logs);
      VisitsStep(branchNames, logs, i);
      if name in logs {
        order, records := CollectLog(order, records, before, name, logs);
      } else {
        assert before + BranchVisits(name, logs) == before;
      }
    }
    assert branchNames[..|branchNames|] == branchNames;
    CollectWellFormed(Visits(branchNames, logs));
    var values := seq(|order|, k requires 0 <= k < |order| => records[order[k]]);
    assert values == Records(Collected(order, records));
    commits := SortNewestFirst(values);
  }

  /** The inner loop over the log of one branch. */
  method CollectLog(order: seq<ObjectId>, records: map<ObjectId, CommitRecord>, ghost before: seq<Visit>,
                    name: string, logs: map<string, seq<LogEntry>>)
    returns (order': seq<ObjectId>, records': map<ObjectId, CommitRecord>)
    requires name in logs
    requires Collected(order, records) == Collect(before)
    ensures Collected(order', records') == Collect(before + BranchVisits(name, logs))
  {
    order', records' := order, records;
    var log := logs[name];
    assert before + BranchVisits(name, logs)[..0] == before;
    for j := 0 to |log|
      invariant Collected(order', records') == Collect(before + BranchVisits(name, logs)[..j])
    {
      CollectLogStep(before, name, logs, j);
      order', records' := StoreCommit(order', records', log[j], name);
    }
    assert BranchVisits(name, logs)[..|log|] == BranchVisits(name, logs);
  }

  /** The body of the inner loop for one commit of the log of `name`. */
  method StoreCommit(order: seq<ObjectId>, records: map<ObjectId, CommitRecord>, commit: LogEntry, name: string)
    returns (order': seq<ObjectId>, records': map<ObjectId, CommitRecord>)
    ensures Collected(order', records') == AddVisit(Collected(order, records), Visit(name, commit))
  {
    order', records' := order, records;
    if commit.oid !in records' {
      order' := order' + [commit.oid];
      records' := records'[commit.oid := CommitRecord(commit.oid, commit.message, commit.author, commit.parent, [])];
    }
    records' := records'[commit.oid := records'[commit.oid].(branches := AddOnce(records'[commit.oid].branches, name))];
  }

  /** One more commit of the log of `name` is one more step of the map. */
  lemma CollectLogStep(before: seq<Visit>, name: string, logs: map<string, seq<LogEntry>>, j: nat)
    requires name in logs && j < |logs[name]|
    ensures Collect(before + BranchVisits(name, logs)[..j + 1])
            == AddVisit(Collect(before + BranchVisits(name, logs)[..j]), Visit(name, logs[name][j]))
  {
    var visits := BranchVisits(name, logs);
    var seen := before + visits[..j];
    assert visits[j] == Visit(name, logs[name][j]);
    assert visits[..j + 1] == visits[..j] + [visits[j]];
    assert before + visits[..j + 1] == seen + [visits[j]];
    assert (seen + [visits[j]])[..|seen|] == seen;
  }


  /** A commit is in the map exactly when some visit saw it. */
  lemma {:induction false} CollectFirstIndex(vs: seq<Visit>, oid: ObjectId)
    ensures oid in Collect(vs).records <==> FirstIndex(vs, oid) < |vs|
  {
    if vs != [] {
      CollectFirstIndex(vs[..|vs| - 1], oid);
    }
  }

  /** `commitMap` keeps its keys in the order of their first sighting: the
      key at i was first visited before the key at j whenever i < j. */
  lemma {:induction false} CollectOrderFirstSeen(vs: seq<Visit>, i: nat, j: nat)
    requires i < j < |Collect(vs).order|
    ensures FirstIndex(vs, Collect(vs).order[i]) < FirstIndex(vs, Collect(vs).order[j])
  {
    var init, last := vs[..|vs| - 1], vs[|vs| - 1];
    CollectWellFormed(init);
    var c := Collect(init);
    var order := Collect(vs).order;
    assert order == if last.entry.oid in c.records then c.order else c.order + [last.entry.oid];
    assert order[i] == c.order[i];
    CollectFirstIndex(init, c.order[i]);
    if j < |c.order| {
      assert order[j] == c.order[j];
      CollectOrderFirstSeen(init, i, j);
      CollectFirstIndex(init, c.order[j]);
    } else {
      CollectFirstIndex(init, last.entry.oid);
    }
  }

  /** A commit is in the map exactly when some visit saw it, and its fields
      are those of the first visit. */
  lemma {:induction false} CollectFirstVisit(vs: seq<Visit>, oid: ObjectId)
    ensures oid in Collect(vs).records <==> FirstVisit(vs, oid).Some?
    ensures oid in Collect(vs).records ==>
              var r, e := Collect(vs).records[oid], FirstVisit(vs, oid).value.entry;
              r.oid == e.oid && r.message == e.message && r.author == e.author && r.parent == e.parent
  {
    if vs != [] {
      CollectFirstVisit(vs[..|vs| - 1], oid);
    }
  }

  /** A branch is in a commit's set exactly when some visit saw the commit on
      that branch. */
  lemma {:induction false} CollectBranches(vs: seq<Visit>, oid: ObjectId, branch: string)
    requires oid in Collect(vs).records
    ensures branch in Collect(vs).records[oid].branches <==> exists v :: v in vs && v.entry.oid == oid && v.branch == branch
  {
    var init, last := vs[..|vs| - 1], vs[|vs| - 1];
    assert vs == init + [last];
    if oid in Collect(init).records {
      CollectBranches(init, oid, branch);
    } else {
      assert forall v :: v in init ==> v.entry.oid != oid by {
        CollectFirstVisit(init, oid);
      }
    }
  }

  /** Every listed commit has at least one branch: the one it was first seen on. */
  lemma CollectBranchesNonEmpty(vs: seq<Visit>, oid: ObjectId)
    requires oid in Collect(vs).records
    ensures Collect(vs).records[oid].branches != []
  {
    CollectFirstVisit(vs, oid);
    var k :| 0 <= k < |vs| && vs[k] == FirstVisit(vs, oid).value;
    CollectBranches(vs, oid, vs[k].branch);
  }

  // ---------------------------------------------------------------------
  // `allCommits.sort((a, b) => b.author.timestamp - a.author.timestamp)`:
  // a stable sort, newest first.

  function Timestamp(c: CommitRecord): int {
    c.author.timestamp
  }

  ghost predicate NewestFirst(cs: seq<CommitRecord>) {
    forall i, j :: 0 <= i < j < |cs| ==> Timestamp(cs[i]) >= Timestamp(cs[j])
  }

  /** Places `x` after every element at least as new as it. */
  function Insert(sorted: seq<CommitRecord>, x: CommitRecord): seq<CommitRecord> {
    if sorted == [] || Timestamp(sorted[|sorted| - 1]) >= Timestamp(x) then sorted + [x]
    else Insert(sorted[..|sorted| - 1], x) + [sorted[|sorted| - 1]]
  }

  function SortNewestFirst(cs: seq<CommitRecord>): seq<CommitRecord> {
    if cs == [] then []
    else Insert(SortNewestFirst(cs[..|cs| - 1]), cs[|cs| - 1])
  }

  /** Inserting splits the sequence in two: the front part stays in front of
      `x`, the strictly older part behind it goes behind it. */
  lemma {:induction false} InsertSplits(sorted: seq<CommitRecord>, x: CommitRecord) returns (k: nat)
    ensures k <= |sorted|
    ensures Insert(sorted, x) == sorted[..k] + ([x] + sorted[k..])
    ensures forall c :: c in sorted[k..] ==> Timestamp(c) < Timestamp(x)
    ensures k > 0 ==> Timestamp(sorted[k - 1]) >= Timestamp(x)
  {
    if sorted == [] || Timestamp(sorted[|sorted| - 1]) >= Timestamp(x) {
      k := |sorted|;
      assert sorted[..k] == sorted && sorted[k..] == [];
    } else {
      var init, last := sorted[..|sorted| - 1], sorted[|sorted| - 1];
      k := InsertSplits(init, x);
      assert init[..k] == sorted[..k];
      assert init[k..] + [last] == sorted[k..];
      assert Insert(sorted, x) == (init[..k] + ([x] + init[k..])) + [last];
    }
  }

  /** The result holds the same commits, each as often as before. */
  lemma {:induction false} SortIsPermutation(cs: seq<CommitRecord>)
    ensures multiset(SortNewestFirst(cs)) == multiset(cs)
  {
    if cs != [] {
      var init, x := cs[..|cs| - 1], cs[|cs| - 1];
      assert multiset(cs) == multiset(init) + multiset{x} by {
        assert cs == init + [x];
      }
      var sorted := SortNewestFirst(init);
      SortIsPermutation(init);
      var k := InsertSplits(sorted, x);
      var front, back := sorted[..k], sorted[k..];
      assert multiset(sorted) == multiset(front) + multiset(back) by {
        assert sorted == front + back;
      }
      assert multiset(front + ([x] + back)) == multiset(front) + multiset{x} + multiset(back);
    }
  }

  /** `x` between a newer-or-equal sorted front and a strictly older sorted
      back gives a sorted sequence. */
  lemma NewestFirstAround(front: seq<CommitRecord>, x: CommitRecord, back: seq<CommitRecord>)
    requires NewestFirst(front + back)
    requires front != [] ==> Timestamp(front[|front| - 1]) >= Timestamp(x)
    requires forall c :: c in back ==> Timestamp(c) < Timestamp(x)
    ensures NewestFirst(front + ([x] + back))
  {
    var r := front + ([x] + back);
    var s := front + back;
    var n := |front|;
    forall i, j | 0 <= i < j < |r| ensures Timestamp(r[i]) >= Timestamp(r[j]) {
      if j < n {
        assert r[i] == s[i] && r[j] == s[j];
      } else if i < n {
        assert r[i] == s[i] && s[n - 1] == front[n - 1];
        if j > n {
          assert r[j] == back[j - n - 1];
        }
      } else if i == n {
        assert r[j] == back[j - n - 1];
      } else {
        assert r[i] == s[i - 1] && r[j] == s[j - 1];
      }
    }
  }

  /** The result is ordered newest first. */
  lemma {:induction false} SortIsNewestFirst(cs: seq<CommitRecord>)
    ensures NewestFirst(SortNewestFirst(cs))
  {
    if cs != [] {
      var sorted, x := SortNewestFirst(cs[..|cs| - 1]), cs[|cs| - 1];
      SortIsNewestFirst(cs[..|cs| - 1]);
      var k := InsertSplits(sorted, x);
      assert sorted == sorted[..k] + sorted[k..];
      NewestFirstAround(sorted[..k], x, sorted[k..]);
    }
  }

  /** The commits with timestamp `t`, in their order. */
  function WithTimestamp(cs: seq<CommitRecord>, t: int): seq<CommitRecord> {
    if cs == [] then []
    else WithTimestamp(cs[..|cs| - 1], t) + (if Timestamp(cs[|cs| - 1]) == t then [cs[|cs| - 1]] else [])
  }

  lemma {:induction false} WithTimestampAppend(a: seq<CommitRecord>, b: seq<CommitRecord>, t: int)
    ensures WithTimestamp(a + b, t) == WithTimestamp(a, t) + WithTimestamp(b, t)
    decreases |b|
  {
    if b == [] {
      assert a + b == a;
    } else {
      var init, last := b[..|b| - 1], b[|b| - 1];
      assert (a + b)[..|a + b| - 1] == a + init;
      WithTimestampAppend(a, init, t);
    }
  }

  /** No commit with timestamp `t` means none is kept. */
  lemma {:induction false} WithTimestampNone(cs: seq<CommitRecord>, t: int)
    requires forall c :: c in cs ==> Timestamp(c) != t
    ensures WithTimestamp(cs, t) == []
  {
    if cs != [] {
      assert forall c :: c in cs[..|cs| - 1] ==> c in cs;
      WithTimestampNone(cs[..|cs| - 1], t);
    }
  }

  /** The sort is stable: commits with equal timestamps keep their relative order. */
  lemma {:induction false} SortIsStable(cs: seq<CommitRecord>, t: int)
    ensures WithTimestamp(SortNewestFirst(cs), t) == WithTimestamp(cs, t)
  {
    if cs != [] {
      var sorted, x := SortNewestFirst(cs[..|cs| - 1]), cs[|cs| - 1];
      SortIsStable(cs[..|cs| - 1], t);
      var k := InsertSplits(sorted, x);
      var front, back := sorted[..k], sorted[k..];
      var mid := if Timestamp(x) == t then [x] else [];
      assert WithTimestamp([x], t) == mid by {
        assert [x][..0] == [];
      }
      WithTimestampAppend(front, [x] + back, t);
      WithTimestampAppend([x], back, t);
      WithTimestampAppend(front, back, t);
      assert front + back == sorted;
      var w, wf, wb := WithTimestamp(sorted, t), WithTimestamp(front, t), WithTimestamp(back, t);
      assert w == wf + wb;
      assert WithTimestamp([x] + back, t) == mid + wb;
      if Timestamp(x) == t {
        WithTimestampNone(back, t);
        assert w == wf + [] == wf;
        assert mid + wb == mid + [] == mid;
      } else {
        assert mid + wb == wb;
        assert w + mid == w + [] == w;
      }
      assert SortNewestFirst(cs) == front + ([x] + back);
      assert WithTimestamp(front + ([x] + back), t) == wf + (mid + wb);
      assert WithTimestamp(cs, t) == WithTimestamp(cs[..|cs| - 1], t) + mid;
    }
  }

  /** A commit is listed exactly when it is in the map, as the map holds it. */
  lemma ListedRecord(branchNames: seq<string>, logs: map<string, seq<LogEntry>>, c: CommitRecord)
    ensures c in AllCommits(branchNames, logs) <==>
              c.oid in Collect(Visits(branchNames, logs)).records && c == Collect(Visits(branchNames, logs)).records[c.oid]
  {
    var vs := Visits(branchNames, logs);
    CollectWellFormed(vs);
    var col := Collect(vs);
    var rs := MapValues(branchNames, logs);
    assert rs == Records(col);
    SortIsPermutation(rs);
    assert c in AllCommits(branchNames, logs) <==> c in rs by {
      assert c in AllCommits(branchNames, logs) <==> c in multiset(AllCommits(branchNames, logs));
    }
    if c in rs {
      var k :| 0 <= k < |rs| && rs[k] == c;
      var oid := col.order[k];
      assert oid in col.records && c == col.records[oid];
      assert c.oid == oid;
    }
    if c.oid in col.records && c == col.records[c.oid] {
      var k :| 0 <= k < |col.order| && col.order[k] == c.oid;
      assert rs[k] == c;
    }
  }

  /** The oids of a sequence of commits. */
  function Oids(cs: seq<CommitRecord>): (oids: seq<ObjectId>)
    ensures |oids| == |cs| && forall k :: 0 <= k < |cs| ==> oids[k] == cs[k].oid
  {
    seq(|cs|, k requires 0 <= k < |cs| => cs[k].oid)
  }

  /** A commit is kept exactly when it is there and has timestamp `t`. */
  lemma {:induction false} WithTimestampMembership(cs: seq<CommitRecord>, t: int, c: CommitRecord)
    ensures c in WithTimestamp(cs, t) <==> c in cs && Timestamp(c) == t
  {
    if cs != [] {
      var init := cs[..|cs| - 1];
      assert cs == init + [cs[|cs| - 1]];
      WithTimestampMembership(init, t, c);
    }
  }

  /** Keeping the commits with timestamp `t` keeps an order of first sighting. */
  lemma {:induction false} WithTimestampFirstSeen(vs: seq<Visit>, cs: seq<CommitRecord>, t: int)
    requires FirstSeenOrder(vs, Oids(cs))
    ensures FirstSeenOrder(vs, Oids(WithTimestamp(cs, t)))
  {
    if cs != [] {
      var init, last := cs[..|cs| - 1], cs[|cs| - 1];
      assert Oids(init) == Oids(cs)[..|cs| - 1];
      FirstSeenOrderInit(vs, Oids(cs));
      WithTimestampFirstSeen(vs, init, t);
      var earlier := WithTimestamp(init, t);
      if Timestamp(last) == t {
        var w := earlier + [last];
        forall i, j | 0 <= i < j < |w| ensures FirstIndex(vs, w[i].oid) < FirstIndex(vs, w[j].oid) {
          assert w[i] == earlier[i];
          if j < |earlier| {
            assert w[j] == earlier[j];
          } else {
            WithTimestampMembership(init, t, earlier[i]);
            var k :| 0 <= k < |init| && init[k] == earlier[i];
            assert Oids(cs)[k] == earlier[i].oid && Oids(cs)[|cs| - 1] == w[j].oid;
          }
        }
      }
    }
  }

  /** The map's values come in the order of their first sighting. */
  lemma MapValuesFirstSeen(branchNames: seq<string>, logs: map<string, seq<LogEntry>>)
    ensures FirstSeenOrder(Visits(branchNames, logs), Oids(MapValues(branchNames, logs)))
  {
    var vs := Visits(branchNames, logs);
    CollectWellFormed(vs);
    var rs := MapValues(branchNames, logs);
    forall i, j | 0 <= i < j < |rs| ensures FirstIndex(vs, rs[i].oid) < FirstIndex(vs, rs[j].oid) {
      assert rs[i].oid == Collect(vs).order[i] && rs[j].oid == Collect(vs).order[j];
      CollectOrderFirstSeen(vs, i, j);
    }
  }

  /** Listed commits with equal timestamps come in the order in which the
      logs, branch by branch in request order, first showed them. */
  lemma AllCommitsTiesFirstSeen(branchNames: seq<string>, logs: map<string, seq<LogEntry>>, t: int)
    ensures FirstSeenOrder(Visits(branchNames, logs), Oids(WithTimestamp(AllCommits(branchNames, logs), t)))
  {
    MapValuesFirstSeen(branchNames, logs);
    SortIsStable(MapValues(branchNames, logs), t);
    WithTimestampFirstSeen(Visits(branchNames, logs), MapValues(branchNames, logs), t);
  }

  /** The listing is ordered newest first, holds exactly the map's values,
      and commits with equal timestamps keep the order in which they were
      first seen. */
  lemma AllCommitsOrder(branchNames: seq<string>, logs: map<string, seq<LogEntry>>, t: int)
    ensures NewestFirst(AllCommits(branchNames, logs))
    ensures multiset(AllCommits(branchNames, logs)) == multiset(MapValues(branchNames, logs))
    ensures WithTimestamp(AllCommits(branchNames, logs), t) == WithTimestamp(MapValues(branchNames, logs), t)
  {
    SortIsNewestFirst(MapValues(branchNames, logs));
    SortIsPermutation(MapValues(branchNames, logs));
    SortIsStable(MapValues(branchNames, logs), t);
  }

  /** A commit is listed exactly when the log of some requested branch that
      does not throw contains it. */
  lemma AllCommitsListed(branchNames: seq<string>, logs: map<string, seq<LogEntry>>, oid: ObjectId)
    ensures (exists c :: c in AllCommits(branchNames, logs) && c.oid == oid) <==>
            (exists b, e :: b in branchNames && b in logs && e in logs[b] && e.oid == oid)
  {
    var vs := Visits(branchNames, logs);
    CollectWellFormed(vs);
    CollectFirstVisit(vs, oid);
    if exists c :: c in AllCommits(branchNames, logs) && c.oid == oid {
      var c :| c in AllCommits(branchNames, logs) && c.oid == oid;
      ListedRecord(branchNames, logs, c);
      var k :| 0 <= k < |vs| && vs[k] == FirstVisit(vs, oid).value;
      VisitsMembership(branchNames, logs, vs[k]);
    }
    if exists b, e :: b in branchNames && b in logs && e in logs[b] && e.oid == oid {
      var b, e :| b in branchNames && b in logs && e in logs[b] && e.oid == oid;
      VisitsMembership(branchNames, logs, Visit(b, e));
      var k :| 0 <= k < |vs| && vs[k] == Visit(b, e);
      ListedRecord(branchNames, logs, Collect(vs).records[oid]);
    }
  }

  /** Every listed commit carries the message, author and parent of the
      first log entry that showed it, branch by branch in request order. */
  lemma AllCommitsFirstSeen(branchNames: seq<string>, logs: map<string, seq<LogEntry>>, c: CommitRecord)
    requires c in AllCommits(branchNames, logs)
    ensures FirstVisit(Visits(branchNames, logs), c.oid).Some?
    ensures FirstVisit(Visits(branchNames, logs), c.oid).value.entry == LogEntry(c.oid, c.message, c.author, c.parent)
  {
    ListedRecord(branchNames, logs, c);
    CollectFirstVisit(Visits(branchNames, logs), c.oid);
  }

  /** A listed commit is tagged, each once and at least once, with exactly
      the requested branches whose log succeeds and contains it. */
  lemma AllCommitsBranches(branchNames: seq<string>, logs: map<string, seq<LogEntry>>, c: CommitRecord, b: string)
    requires c in AllCommits(branchNames, logs)
    ensures b in c.branches <==> b in branchNames && b in logs && exists e :: e in logs[b] && e.oid == c.oid
    ensures NoDuplicates(c.branches) && c.branches != []
  {
    var vs := Visits(branchNames, logs);
    ListedRecord(branchNames, logs, c);
    CollectWellFormed(vs);
    CollectBranchesNonEmpty(vs, c.oid);
    CollectBranches(vs, c.oid, b);
    if b in c.branches {
      var v :| v in vs && v.entry.oid == c.oid && v.branch == b;
      VisitsMembership(branchNames, logs, v);
    }
    if b in branchNames && b in logs && exists e :: e in logs[b] && e.oid == c.oid {
      var e :| e in logs[b] && e.oid == c.oid;
      VisitsMembership(branchNames, logs, Visit(b, e));
    }
  }

  ghost predicate DistinctOids(cs: seq<CommitRecord>) {
    forall i, j :: 0 <= i < j < |cs| ==> cs[i].oid != cs[j].oid
  }

  /** Sorting keeps oids distinct. */
  lemma {:induction false} SortKeepsDistinct(cs: seq<CommitRecord>)
    requires DistinctOids(cs)
    ensures DistinctOids(SortNewestFirst(cs))
  {
    if cs != [] {
      var init, x := cs[..|cs| - 1], cs[|cs| - 1];
      assert DistinctOids(init) by {
        forall i, j | 0 <= i < j < |init| ensures init[i].oid != init[j].oid {
          assert init[i] == cs[i] && init[j] == cs[j];
        }
      }
      SortKeepsDistinct(init);
      var sorted := SortNewestFirst(init);
      var k := InsertSplits(sorted, x);
      forall c | c in sorted ensures c.oid != x.oid {
        SortedFrom(init, c);
        var i :| 0 <= i < |init| && init[i] == c;
        assert cs[i] == c;
      }
      var front, back := sorted[..k], sorted[k..];
      assert sorted == front + back;
      DistinctAround(front, x, back);
    }
  }

  /** The sort lists only commits it was given. */
  lemma SortedFrom(cs: seq<CommitRecord>, c: CommitRecord)
    requires c in SortNewestFirst(cs)
    ensures c in cs
  {
    SortIsPermutation(cs);
    assert c in multiset(SortNewestFirst(cs));
  }

  /** `x` placed between two parts of a sequence with distinct oids, none of
      them its own, keeps the oids distinct. */
  lemma DistinctAround(front: seq<CommitRecord>, x: CommitRecord, back: seq<CommitRecord>)
    requires DistinctOids(front + back)
    requires forall c :: c in front + back ==> c.oid != x.oid
    ensures DistinctOids(front + ([x] + back))
  {
    var r := front + ([x] + back);
    var s := front + back;
    var n := |front|;
    forall i, j | 0 <= i < j < |r| ensures r[i].oid != r[j].oid {
      if j < n {
        assert r[i] == s[i] && r[j] == s[j];
      } else if j == n {
        assert r[i] == s[i];
      } else if i < n {
        assert r[i] == s[i] && r[j] == s[j - 1];
      } else if i == n {
        assert r[j] == s[j - 1];
      } else {
        assert r[i] == s[i - 1] && r[j] == s[j - 1];
      }
    }
  }

  /** No commit is listed twice, however many branches contain it. */
  lemma AllCommitsDistinct(branchNames: seq<string>, logs: map<string, seq<LogEntry>>)
    ensures DistinctOids(AllCommits(branchNames, logs))
  {
    var vs := Visits(branchNames, logs);
    CollectWellFormed(vs);
    var c := Collect(vs);
    var rs := MapValues(branchNames, logs);
    forall i, j | 0 <= i < j < |rs| ensures rs[i].oid != rs[j].oid {
      assert rs[i].oid == c.order[i] && rs[j].oid == c.order[j];
    }
    SortKeepsDistinct(rs);
  }
}
