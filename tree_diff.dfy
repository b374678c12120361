/** `GitService.getChangedFiles` (src/services/git.service.ts): the recursive
    comparison of two trees that lists the added, deleted and modified paths
    without reading any file content. */
module TreeDiff {
  import opened Common
  import opened GitObjects

  datatype ChangeKind = Added | Deleted | Modified

  /** One `{path, type}` record. */
  datatype Change = Change(path: string, kind: ChangeKind)

  /** The same record seen from the other side of the comparison. */
  function Flip(c: Change): Change {
    match c.kind
    case Added => c.(kind := Deleted)
    case Deleted => c.(kind := Added)
    case Modified => c
  }

  /** The records of comparing `tree1` with `tree2` below directory `prefix`:
      first, in the order of the first tree, a record for each of its entries
      (deleted, modified, or the records of the two subtrees), then the entries
      that only the second tree has. A tree that cannot be read gives none. */
  function ChangedFiles(repo: Repo, ghost rank: map<ObjectId, nat>, tree1: ObjectId, tree2: ObjectId, prefix: string): (changes: seq<Change>)
    requires ValidStore(repo, rank)
    ensures ReadTree(repo, tree1).None? || ReadTree(repo, tree2).None? ==> changes == []
    decreases Rank(rank, tree1), 2, 0
  {
    if ReadTree(repo, tree1).None? || ReadTree(repo, tree2).None? then []
    else
      ReadTreeValid(repo, rank, tree1);
      var entries1, entries2 := ReadTree(repo, tree1).value, ReadTree(repo, tree2).value;
      ExistingEntryChanges(repo, rank, Rank(rank, tree1), entries1, entries2, prefix)
        + AddedEntryChanges(entries1, entries2, prefix)
  }

  /** The records of the first loop, over the entries of the first tree. */
  function ExistingEntryChanges(repo: Repo, ghost rank: map<ObjectId, nat>, ghost bound: nat,
                                entries1: seq<TreeEntry>, entries2: seq<TreeEntry>, prefix: string): seq<Change>
    requires ValidStore(repo, rank)
    requires forall e :: e in entries1 ==> Rank(rank, e.oid) < bound
    decreases bound, 1, |entries1|
  {
    if entries1 == [] then []
    else
      ExistingEntryChanges(repo, rank, bound, entries1[..|entries1| - 1], entries2, prefix)
        + EntryChanges(repo, rank, bound, entries1[|entries1| - 1], entries2, prefix)
  }

  /** The records of one entry of the first tree against the second tree's entries. */
  function EntryChanges(repo: Repo, ghost rank: map<ObjectId, nat>, ghost bound: nat,
                        entry1: TreeEntry, entries2: seq<TreeEntry>, prefix: string): seq<Change>
    requires ValidStore(repo, rank)
    requires Rank(rank, entry1.oid) < bound
    decreases bound, 0, 0
  {
    var fullPath := JoinPath(prefix, entry1.path);
    match Find(entries2, entry1.path)
    case None => [Change(fullPath, Deleted)]
    case Some(entry2) =>
      if entry1.oid == entry2.oid then []
      else if entry1.kind == TreeKind && entry2.kind == TreeKind then
        ChangedFiles(repo, rank, entry1.oid, entry2.oid, fullPath)
      else [Change(fullPath, Modified)]
  }

  /** The records of the second loop: the entries only the second tree has. */
  function AddedEntryChanges(entries1: seq<TreeEntry>, entries2: seq<TreeEntry>, prefix: string): seq<Change> {
    if entries2 == [] then []
    else
      var entry2 := entries2[|entries2| - 1];
      AddedEntryChanges(entries1, entries2[..|entries2| - 1], prefix)
        + (if Find(entries1, entry2.path).None? then [Change(JoinPath(prefix, entry2.path), Added)] else [])
  }

  /** `getChangedFiles`: reads both trees, walks the first tree's entries and
      then the second's, pushing records and recursing into changed subtrees;
      a failed read yields no records. */
  method GetChangedFiles(repo: Repo, ghost rank: map<ObjectId, nat>, tree1Oid: ObjectId, tree2Oid: ObjectId, prefix: string)
    returns (changes: seq<Change>)
    requires ValidStore(repo, rank)
    ensures changes == ChangedFiles(repo, rank, tree1Oid, tree2Oid, prefix)
    decreases Rank(rank, tree1Oid)
  {
    changes := [];
    var tree1 := ReadTree(repo, tree1Oid);
    var tree2 := ReadTree(repo, tree2Oid);
    if tree1.None? || tree2.None? {
      return;
    }
    ReadTreeValid(repo, rank, tree1Oid);
    var entries1, entries2 := tree1.value, tree2.value;
    ghost var bound := Rank(rank, tree1Oid);

    var i := 0;
    while i < |entries1|
      invariant 0 <= i <= |entries1|
      invariant changes == ExistingEntryChanges(repo, rank, bound, entries1[..i], entries2, prefix)
    {
      var entry1 := entries1[i];
      var fullPath := JoinPath(prefix, entry1.path);
      var entry2 := Find(entries2, entry1.path);
      assert entries1[..i + 1] == entries1[..i] + [entry1];
      if entry2.None? {
        changes := changes + [Change(fullPath, Deleted)];
      } else if entry1.oid != entry2.value.oid {
        if entry1.kind == TreeKind && entry2.value.kind == TreeKind {
          var subChanges := GetChangedFiles(repo, rank, entry1.oid, entry2.value.oid, fullPath);
          changes := changes + subChanges;
        } else {
          changes := changes + [Change(fullPath, Modified)];
        }
      }
      i := i + 1;
    }
    assert entries1[..i] == entries1;

    var added := AddedFiles(entries1, entries2, prefix);
    changes := changes + added;
  }

  /** The second loop of `getChangedFiles`: a record for each entry of the
      second tree whose name the first tree lacks, in the second tree's order. */
  method AddedFiles(entries1: seq<TreeEntry>, entries2: seq<TreeEntry>, prefix: string) returns (added: seq<Change>)
    ensures added == AddedEntryChanges(entries1, entries2, prefix)
  {
    added := [];
    var j := 0;
    while j < |entries2|
      invariant 0 <= j <= |entries2|
      invariant added == AddedEntryChanges(entries1, entries2[..j], prefix)
    {
      var entry2 := entries2[j];
      if Find(entries1, entry2.path).None? {
        var fullPath := JoinPath(prefix, entry2.path);
        added := added + [Change(fullPath, Added)];
      }
      assert entries2[..j + 1][..j] == entries2[..j];
      j := j + 1;
    }
    assert entries2[..j] == entries2;
  }

  // ---------------------------------------------------------------------
  // Which records the comparison yields

  lemma {:induction false} ExistingMembership(repo: Repo, rank: map<ObjectId, nat>, bound: nat,
                                              entries1: seq<TreeEntry>, entries2: seq<TreeEntry>, prefix: string, c: Change)
    requires ValidStore(repo, rank)
    requires forall e :: e in entries1 ==> Rank(rank, e.oid) < bound
    ensures c in ExistingEntryChanges(repo, rank, bound, entries1, entries2, prefix) <==>
            exists e :: e in entries1 && c in EntryChanges(repo, rank, bound, e, entries2, prefix)
    decreases |entries1|
  {
    if entries1 != [] {
      var init, last := entries1[..|entries1| - 1], entries1[|entries1| - 1];
      ExistingMembership(repo, rank, bound, init, entries2, prefix, c);
      assert entries1 == init + [last];
      assert ExistingEntryChanges(repo, rank, bound, entries1, entries2, prefix)
          == ExistingEntryChanges(repo, rank, bound, init, entries2, prefix)
             + EntryChanges(repo, rank, bound, last, entries2, prefix);
      if e :| e in entries1 && c in EntryChanges(repo, rank, bound, e, entries2, prefix) {
        if e != last {
          assert e in init;
        }
      }
    }
  }

  lemma {:induction false} AddedMembership(entries1: seq<TreeEntry>, entries2: seq<TreeEntry>, prefix: string, c: Change)
    ensures c in AddedEntryChanges(entries1, entries2, prefix) <==>
            exists e :: e in entries2 && Find(entries1, e.path).None? && c == Change(JoinPath(prefix, e.path), Added)
    decreases |entries2|
  {
    if entries2 != [] {
      var init := entries2[..|entries2| - 1];
      AddedMembership(entries1, init, prefix, c);
      assert entries2 == init + [entries2[|entries2| - 1]];
    }
  }

  /** Two same-named entries whose content differs and that are not both directories. */
  ghost predicate ModifiedPair(e1: TreeEntry, e2: TreeEntry) {
    e1.path == e2.path && e1.oid != e2.oid && (e1.kind != TreeKind || e2.kind != TreeKind)
  }

  /** Two same-named directories whose content differs: the comparison descends into them. */
  ghost predicate SubtreePair(e1: TreeEntry, e2: TreeEntry) {
    e1.path == e2.path && e1.oid != e2.oid && e1.kind == TreeKind && e2.kind == TreeKind
  }

  /** The records of one entry of the first tree: deleted when the second tree
      lacks its name, modified or the subtree's records when the same-named
      entry differs, nothing when it is the same object. */
  lemma EntryMembership(repo: Repo, rank: map<ObjectId, nat>, bound: nat,
                        e1: TreeEntry, entries2: seq<TreeEntry>, prefix: string, c: Change)
    requires ValidStore(repo, rank) && Rank(rank, e1.oid) < bound && ValidTree(entries2)
    ensures c in EntryChanges(repo, rank, bound, e1, entries2, prefix) <==>
      || (Find(entries2, e1.path).None? && c == Change(JoinPath(prefix, e1.path), Deleted))
      || (exists e2 :: e2 in entries2 && ModifiedPair(e1, e2) && c == Change(JoinPath(prefix, e1.path), Modified))
      || (exists e2 :: e2 in entries2 && SubtreePair(e1, e2)
                       && c in ChangedFiles(repo, rank, e1.oid, e2.oid, JoinPath(prefix, e1.path)))
  {
    match Find(entries2, e1.path)
    case None =>
    case Some(f) =>
      forall e2 | e2 in entries2 && e2.path == e1.path ensures e2 == f {
        FindUnique(entries2, e2);
      }
  }

  /** A record of the comparison is exactly one of: a deleted entry of the
      first tree, an added entry of the second, a same-named entry whose oid
      changed and that is not a directory on both sides, or a record of the
      comparison of two same-named subtrees with different oids, one level
      further down. When either tree cannot be read there are no records. */
  lemma ChangedFilesMembership(repo: Repo, rank: map<ObjectId, nat>, tree1: ObjectId, tree2: ObjectId, prefix: string, c: Change)
    requires ValidStore(repo, rank)
    ensures c in ChangedFiles(repo, rank, tree1, tree2, prefix) <==>
      && ReadTree(repo, tree1).Some? && ReadTree(repo, tree2).Some?
      && var entries1, entries2 := ReadTree(repo, tree1).value, ReadTree(repo, tree2).value;
         || (exists e1 :: e1 in entries1 && Find(entries2, e1.path).None?
                         && c == Change(JoinPath(prefix, e1.path), Deleted))
         || (exists e2 :: e2 in entries2 && Find(entries1, e2.path).None?
                         && c == Change(JoinPath(prefix, e2.path), Added))
         || (exists e1, e2 :: e1 in entries1 && e2 in entries2 && ModifiedPair(e1, e2)
                             && c == Change(JoinPath(prefix, e1.path), Modified))
         || (exists e1, e2 :: e1 in entries1 && e2 in entries2 && SubtreePair(e1, e2)
                             && c in ChangedFiles(repo, rank, e1.oid, e2.oid, JoinPath(prefix, e1.path)))
  {
    if ReadTree(repo, tree1).Some? && ReadTree(repo, tree2).Some? {
      var entries1, entries2 := ReadTree(repo, tree1).value, ReadTree(repo, tree2).value;
      ReadTreeValid(repo, rank, tree1);
      ReadTreeValid(repo, rank, tree2);
      var bound := Rank(rank, tree1);
      assert ChangedFiles(repo, rank, tree1, tree2, prefix)
          == ExistingEntryChanges(repo, rank, bound, entries1, entries2, prefix) + AddedEntryChanges(entries1, entries2, prefix);
      ExistingMembership(repo, rank, bound, entries1, entries2, prefix, c);
      AddedMembership(entries1, entries2, prefix, c);
      if e1 :| e1 in entries1 && c in EntryChanges(repo, rank, bound, e1, entries2, prefix) {
        EntryMembership(repo, rank, bound, e1, entries2, prefix, c);
      }
      if e1 :| e1 in entries1 && Find(entries2, e1.path).None? && c == Change(JoinPath(prefix, e1.path), Deleted) {
        EntryMembership(repo, rank, bound, e1, entries2, prefix, c);
      }
      if e1, e2 :| e1 in entries1 && e2 in entries2 && ModifiedPair(e1, e2) && c == Change(JoinPath(prefix, e1.path), Modified) {
        EntryMembership(repo, rank, bound, e1, entries2, prefix, c);
      }
      if e1, e2 :| e1 in entries1 && e2 in entries2 && SubtreePair(e1, e2)
                   && c in ChangedFiles(repo, rank, e1.oid, e2.oid, JoinPath(prefix, e1.path)) {
        EntryMembership(repo, rank, bound, e1, entries2, prefix, c);
      }
    }
  }

  /** Entries that `find` returns from the other side unchanged contribute no records. */
  lemma {:induction false} ExistingSelfEmpty(repo: Repo, rank: map<ObjectId, nat>, bound: nat,
                                             part: seq<TreeEntry>, entries: seq<TreeEntry>, prefix: string)
    requires ValidStore(repo, rank)
    requires forall e :: e in part ==> Rank(rank, e.oid) < bound && Find(entries, e.path) == Some(e)
    ensures ExistingEntryChanges(repo, rank, bound, part, entries, prefix) == []
  {
    if part != [] {
      var init, last := part[..|part| - 1], part[|part| - 1];
      assert forall e :: e in init ==> e in part;
      ExistingSelfEmpty(repo, rank, bound, init, entries, prefix);
      assert last in part;
    }
  }

  /** Entries whose name the other side has are never reported as added. */
  lemma {:induction false} AddedSelfEmpty(entries: seq<TreeEntry>, part: seq<TreeEntry>, prefix: string)
    requires forall e :: e in part ==> Find(entries, e.path).Some?
    ensures AddedEntryChanges(entries, part, prefix) == []
  {
    if part != [] {
      var init, last := part[..|part| - 1], part[|part| - 1];
      assert forall e :: e in init ==> e in part;
      AddedSelfEmpty(entries, init, prefix);
      assert last in part;
    }
  }

  /** Comparing a tree with itself yields no records. */
  lemma DiffWithItselfIsEmpty(repo: Repo, rank: map<ObjectId, nat>, tree: ObjectId, prefix: string)
    requires ValidStore(repo, rank)
    ensures ChangedFiles(repo, rank, tree, tree, prefix) == []
  {
    if ReadTree(repo, tree).Some? {
      var entries := ReadTree(repo, tree).value;
      ReadTreeValid(repo, rank, tree);
      forall e | e in entries ensures Find(entries, e.path) == Some(e) {
        FindUnique(entries, e);
      }
      ExistingSelfEmpty(repo, rank, Rank(rank, tree), entries, entries, prefix);
      AddedSelfEmpty(entries, entries, prefix);
    }
  }

  /** Swapping the two trees swaps added and deleted and keeps modified: every
      record of one direction appears, flipped, in the other. */
  lemma FlipOneWay(repo: Repo, rank: map<ObjectId, nat>, tree1: ObjectId, tree2: ObjectId, prefix: string, c: Change)
    requires ValidStore(repo, rank)
    requires c in ChangedFiles(repo, rank, tree1, tree2, prefix)
    ensures Flip(c) in ChangedFiles(repo, rank, tree2, tree1, prefix)
    decreases Rank(rank, tree1)
  {
    ChangedFilesMembership(repo, rank, tree1, tree2, prefix, c);
    ChangedFilesMembership(repo, rank, tree2, tree1, prefix, Flip(c));
    var entries1, entries2 := ReadTree(repo, tree1).value, ReadTree(repo, tree2).value;
    ReadTreeValid(repo, rank, tree1);
    ReadTreeValid(repo, rank, tree2);
    if e1 :| e1 in entries1 && Find(entries2, e1.path).None? && c == Change(JoinPath(prefix, e1.path), Deleted) {
      assert Flip(c) == Change(JoinPath(prefix, e1.path), Added);
    } else if e2 :| e2 in entries2 && Find(entries1, e2.path).None? && c == Change(JoinPath(prefix, e2.path), Added) {
      assert Flip(c) == Change(JoinPath(prefix, e2.path), Deleted);
    } else if e1, e2 :| e1 in entries1 && e2 in entries2 && ModifiedPair(e1, e2)
                       && c == Change(JoinPath(prefix, e1.path), Modified) {
      assert ModifiedPair(e2, e1) && Flip(c) == Change(JoinPath(prefix, e2.path), Modified);
    } else {
      var e1, e2 :| e1 in entries1 && e2 in entries2 && SubtreePair(e1, e2)
                    && c in ChangedFiles(repo, rank, e1.oid, e2.oid, JoinPath(prefix, e1.path));
      assert SubtreePair(e2, e1);
      FlipOneWay(repo, rank, e1.oid, e2.oid, JoinPath(prefix, e1.path), c);
      assert Flip(c) in ChangedFiles(repo, rank, e2.oid, e1.oid, JoinPath(prefix, e2.path));
    }
  }

  /** Comparing the trees the other way round gives the same records with
      added and deleted exchanged. */
  lemma DiffReversedIsFlipped(repo: Repo, rank: map<ObjectId, nat>, tree1: ObjectId, tree2: ObjectId, prefix: string, c: Change)
    requires ValidStore(repo, rank)
    ensures c in ChangedFiles(repo, rank, tree1, tree2, prefix) <==> Flip(c) in ChangedFiles(repo, rank, tree2, tree1, prefix)
  {
    if c in ChangedFiles(repo, rank, tree1, tree2, prefix) {
      FlipOneWay(repo, rank, tree1, tree2, prefix, c);
    }
    if Flip(c) in ChangedFiles(repo, rank, tree2, tree1, prefix) {
      FlipOneWay(repo, rank, tree2, tree1, prefix, Flip(c));
      assert Flip(Flip(c)) == c;
    }
  }

  // ---------------------------------------------------------------------
  // Pruning: unchanged subtrees are never entered

  /** The name is present in both trees with the same oid. */
  ghost predicate Unchanged(entries1: seq<TreeEntry>, entries2: seq<TreeEntry>, name: string) {
    && Find(entries1, name).Some? && Find(entries2, name).Some?
    && Find(entries1, name).value.oid == Find(entries2, name).value.oid
  }

  /** `path` lies at or below an entry of one of the two trees whose name is not unchanged. */
  ghost predicate UnderChangedEntry(entries1: seq<TreeEntry>, entries2: seq<TreeEntry>, prefix: string, path: string) {
    exists e :: (e in entries1 || e in entries2) && !Unchanged(entries1, entries2, e.path)
                && Under(path, JoinPath(prefix, e.path))
  }

  /** Every record lies at or below some entry of one of the two trees whose
      name is not unchanged. */
  lemma RecordsUnderChangedEntries(repo: Repo, rank: map<ObjectId, nat>, tree1: ObjectId, tree2: ObjectId, prefix: string, c: Change)
    requires ValidStore(repo, rank)
    requires c in ChangedFiles(repo, rank, tree1, tree2, prefix)
    ensures ReadTree(repo, tree1).Some? && ReadTree(repo, tree2).Some?
    ensures UnderChangedEntry(ReadTree(repo, tree1).value, ReadTree(repo, tree2).value, prefix, c.path)
    decreases Rank(rank, tree1)
  {
    var entries1, entries2 := ReadTree(repo, tree1).value, ReadTree(repo, tree2).value;
    ReadTreeValid(repo, rank, tree1);
    ReadTreeValid(repo, rank, tree2);
    var bound := Rank(rank, tree1);
    assert ChangedFiles(repo, rank, tree1, tree2, prefix)
        == ExistingEntryChanges(repo, rank, bound, entries1, entries2, prefix) + AddedEntryChanges(entries1, entries2, prefix);
    if c in AddedEntryChanges(entries1, entries2, prefix) {
      AddedMembership(entries1, entries2, prefix, c);
      var e2 :| e2 in entries2 && Find(entries1, e2.path).None? && c == Change(JoinPath(prefix, e2.path), Added);
      assert !Unchanged(entries1, entries2, e2.path) && Under(c.path, JoinPath(prefix, e2.path));
    } else {
      ExistingMembership(repo, rank, bound, entries1, entries2, prefix, c);
      var e1 :| e1 in entries1 && c in EntryChanges(repo, rank, bound, e1, entries2, prefix);
      var fullPath := JoinPath(prefix, e1.path);
      FindUnique(entries1, e1);
      match Find(entries2, e1.path)
      case None =>
        assert !Unchanged(entries1, entries2, e1.path) && Under(c.path, fullPath);
      case Some(e2) =>
        assert e1.oid != e2.oid;
        assert !Unchanged(entries1, entries2, e1.path);
        if e1.kind == TreeKind && e2.kind == TreeKind {
          RecordsUnderChangedEntries(repo, rank, e1.oid, e2.oid, fullPath, c);
          var e :| (e in ReadTree(repo, e1.oid).value || e in ReadTree(repo, e2.oid).value)
                   && Under(c.path, JoinPath(fullPath, e.path));
          assert ValidName(e1.path);
          UnderParent(c.path, fullPath, e.path);
        }
        assert Under(c.path, fullPath);
    }
  }

  /** A same-named entry with the same oid on both sides contributes nothing:
      no record lies at or below its path. */
  lemma UnchangedEntryPruned(repo: Repo, rank: map<ObjectId, nat>, tree1: ObjectId, tree2: ObjectId, prefix: string,
                             e1: TreeEntry, e2: TreeEntry)
    requires ValidStore(repo, rank)
    requires ReadTree(repo, tree1).Some? && e1 in ReadTree(repo, tree1).value
    requires ReadTree(repo, tree2).Some? && e2 in ReadTree(repo, tree2).value
    requires e1.path == e2.path && e1.oid == e2.oid
    ensures forall c :: c in ChangedFiles(repo, rank, tree1, tree2, prefix) ==> !Under(c.path, JoinPath(prefix, e1.path))
  {
    var entries1, entries2 := ReadTree(repo, tree1).value, ReadTree(repo, tree2).value;
    ReadTreeValid(repo, rank, tree1);
    ReadTreeValid(repo, rank, tree2);
    FindUnique(entries1, e1);
    FindUnique(entries2, e2);
    assert Unchanged(entries1, entries2, e1.path);
    forall c | c in ChangedFiles(repo, rank, tree1, tree2, prefix)
      ensures !Under(c.path, JoinPath(prefix, e1.path))
    {
      RecordsUnderChangedEntries(repo, rank, tree1, tree2, prefix, c);
      assert UnderChangedEntry(entries1, entries2, prefix, c.path);
      var e :| (e in entries1 || e in entries2) && !Unchanged(entries1, entries2, e.path)
               && Under(c.path, JoinPath(prefix, e.path));
      assert e.path != e1.path;
      NamesDisjoint(prefix, e.path, e1.path, c.path);
    }
  }
}
