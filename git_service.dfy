/** `GitService.getSingleCommitDiff` and `GitService.compareBranches`
    (src/services/git.service.ts): straight-line compositions of a commit or
    ref lookup with `getDiff`, each wrapping what it throws in its own context. */
module GitService {
  import opened Common
  import opened Text
  import opened GitObjects
  import opened TreeDiff
  import opened DiffText

  const CommitDiffFailure := "Failed to get commit diff"
  const CompareFailure := "Failed to compare branches"

  /** The text shown for a commit without parents. */
  function InitialCommitText(commitOid: ObjectId): string {
    "diff --git (Initial Commit)\nCommit: " + Take(commitOid, 7)
      + "\nInitial commit - showing all files\nThis is the first commit in the repository.\n"
  }

  /** Adds the context of the calling operation to an error. */
  function Rethrow(operation: string, r: Result<string, GitError>): (s: Result<string, GitError>)
    ensures r.Ok? ==> s == r
    ensures r.Err? ==> s == Err(Failed(operation, r.error))
  {
    match r
    case Ok(text) => Ok(text)
    case Err(e) => Err(Failed(operation, e))
  }

  /** What `getSingleCommitDiff(commitOid)` returns or throws: the initial-commit
      text for a commit without parents, otherwise the diff from its first
      parent. */
  function SingleCommitDiff(repo: Repo, ghost rank: map<ObjectId, nat>, commitOid: ObjectId, createPatch: PatchMaker)
    : (r: Result<string, GitError>)
    requires ValidStore(repo, rank)
    ensures r.Ok? <==> && ReadCommit(repo, commitOid).Some?
                       && var parents := ReadCommit(repo, commitOid).value.parents;
                          parents == [] || ReadCommit(repo, parents[0]).Some?
    ensures r.Err? ==> r.error.Failed? && r.error.operation == CommitDiffFailure
  {
    match ReadCommit(repo, commitOid)
    case None => Err(Failed(CommitDiffFailure, ObjectNotFound(commitOid)))
    case Some(commit) =>
      if |commit.parents| == 0 then Ok(InitialCommitText(commitOid))
      else Rethrow(CommitDiffFailure, Diff(repo, rank, commit.parents[0], commitOid, createPatch))
  }

  /** What `compareBranches(branch1, branch2)` returns or throws. */
  function CompareBranches(repo: Repo, ghost rank: map<ObjectId, nat>, branch1: string, branch2: string, createPatch: PatchMaker)
    : (r: Result<string, GitError>)
    requires ValidStore(repo, rank)
    ensures r.Ok? <==> && ResolveRef(repo, branch1).Some? && ResolveRef(repo, branch2).Some?
                       && ReadCommit(repo, ResolveRef(repo, branch1).value).Some?
                       && ReadCommit(repo, ResolveRef(repo, branch2).value).Some?
    ensures r.Err? ==> r.error.Failed? && r.error.operation == CompareFailure
  {
    match ResolveRef(repo, branch1)
    case None => Err(Failed(CompareFailure, RefNotFound(branch1)))
    case Some(oid1) =>
      match ResolveRef(repo, branch2)
      case None => Err(Failed(CompareFailure, RefNotFound(branch2)))
      case Some(oid2) => Rethrow(CompareFailure, Diff(repo, rank, oid1, oid2, createPatch))
  }

  /** A root commit gets the placeholder, which names the commit by its first
      seven characters. */
  lemma SingleCommitDiffRoot(repo: Repo, rank: map<ObjectId, nat>, commitOid: ObjectId, createPatch: PatchMaker)
    requires ValidStore(repo, rank)
    requires ReadCommit(repo, commitOid).Some? && ReadCommit(repo, commitOid).value.parents == []
    ensures SingleCommitDiff(repo, rank, commitOid, createPatch).Ok?
    ensures var text := SingleCommitDiff(repo, rank, commitOid, createPatch).value;
            var short := Take(commitOid, 7);
            |text| >= 36 + |short|
            && text[..36] == "diff --git (Initial Commit)\nCommit: " && text[36..36 + |short|] == short
            && short <= commitOid && |short| == (if |commitOid| < 7 then |commitOid| else 7)
  {
    var text := InitialCommitText(commitOid);
    var short := Take(commitOid, 7);
    assert |"diff --git (Initial Commit)\nCommit: "| == 36;
    assert text == "diff --git (Initial Commit)\nCommit: " + (short
                   + "\nInitial commit - showing all files\nThis is the first commit in the repository.\n");
  }

  /** Any other commit is diffed against its first parent only, whatever its
      other parents, and a failure of that diff is wrapped once more. */
  lemma SingleCommitDiffFirstParent(repo: Repo, rank: map<ObjectId, nat>, commitOid: ObjectId, createPatch: PatchMaker)
    requires ValidStore(repo, rank)
    requires ReadCommit(repo, commitOid).Some? && ReadCommit(repo, commitOid).value.parents != []
    ensures var d := Diff(repo, rank, ReadCommit(repo, commitOid).value.parents[0], commitOid, createPatch);
            && (d.Ok? ==> SingleCommitDiff(repo, rank, commitOid, createPatch) == d)
            && (d.Err? ==> SingleCommitDiff(repo, rank, commitOid, createPatch) == Err(Failed(CommitDiffFailure, d.error)))
  {
  }

  /** Errors of the first parent's diff reach the caller wrapped twice: by
      `getDiff` and then by `getSingleCommitDiff`. */
  lemma SingleCommitDiffMissingParent(repo: Repo, rank: map<ObjectId, nat>, commitOid: ObjectId, createPatch: PatchMaker)
    requires ValidStore(repo, rank)
    requires ReadCommit(repo, commitOid).Some? && ReadCommit(repo, commitOid).value.parents != []
    requires ReadCommit(repo, ReadCommit(repo, commitOid).value.parents[0]).None?
    ensures SingleCommitDiff(repo, rank, commitOid, createPatch)
            == Err(Failed(CommitDiffFailure, Failed(DiffFailure, ObjectNotFound(ReadCommit(repo, commitOid).value.parents[0]))))
  {
    DiffFailsOnlyOnMissingCommit(repo, rank, ReadCommit(repo, commitOid).value.parents[0], commitOid, createPatch);
  }

  /** Comparing two branches fails only when one of them does not resolve or
      its commit cannot be read. */
  lemma CompareBranchesFailure(repo: Repo, rank: map<ObjectId, nat>, branch1: string, branch2: string, createPatch: PatchMaker)
    requires ValidStore(repo, rank)
    ensures CompareBranches(repo, rank, branch1, branch2, createPatch).Err? <==>
              || ResolveRef(repo, branch1).None? || ResolveRef(repo, branch2).None?
              || ReadCommit(repo, ResolveRef(repo, branch1).value).None?
              || ReadCommit(repo, ResolveRef(repo, branch2).value).None?
  {
    if ResolveRef(repo, branch1).Some? && ResolveRef(repo, branch2).Some? {
      DiffFailsOnlyOnMissingCommit(repo, rank, ResolveRef(repo, branch1).value, ResolveRef(repo, branch2).value, createPatch);
    }
  }

  /** Comparing a branch with itself, or with a branch at the same commit,
      reports `No changes found.` */
  lemma CompareSameCommitFindsNoChanges(repo: Repo, rank: map<ObjectId, nat>, branch1: string, branch2: string, createPatch: PatchMaker)
    requires ValidStore(repo, rank)
    requires ResolveRef(repo, branch1).Some? && ResolveRef(repo, branch1) == ResolveRef(repo, branch2)
    requires ReadCommit(repo, ResolveRef(repo, branch1).value).Some?
    ensures var oid := ResolveRef(repo, branch1).value;
            CompareBranches(repo, rank, branch1, branch2, createPatch) == Ok(NoChangesText(oid, oid))
  {
    var oid := ResolveRef(repo, branch1).value;
    var tree := ReadCommit(repo, oid).value.tree;
    DiffWithItselfIsEmpty(repo, rank, tree, "");
    DiffWithoutChanges(repo, rank, oid, oid, createPatch);
  }
}
