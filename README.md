# miniGit data logic in Dafny

miniGit is a web viewer for local Git repositories. This project models the
read-only data logic behind it, in three parts.

- **The git service** (`src/services/git.service.ts`):
  - the recursive comparison of two trees, which lists added, deleted and modified paths;
  - the walk that reads one file out of a tree;
  - the flattening of a tree into a path → content map;
  - the assembly of the diff text: the "No changes found." case, the cap of ten file blocks, the `new file` / `deleted file` hunks with their line counts, the size check, the placeholders and the trailing "more file(s)" note;
  - the single-commit diff, which compares a commit with its first parent or shows the initial-commit placeholder;
  - the branch comparison.
- **The two multi-branch routes**:
  - `all-commits` merges the logs of several branches into one list of commits, with the set of branches each is on, sorted newest first;
  - `graph` merges them into nodes with normalised parents and computed children, plus the list of contributing branches, each with a colour of the category-10 palette. A branch's walk ends early, and the route goes on with the next branch, at a new commit whose date `toISOString` rejects and after a commit whose branch name is inherited from `Object.prototype`.
- **The client-side state**:
  - the layout pass of the commit graph component: branch columns, fallback columns, positions, colour indices, links, message truncation and the branch toggle;
  - the branch comparison selection of the home page: at most two distinct branches, toggle semantics, and a compare guard.

The repository is an abstract object store (`GitObjects.Repo`): a map from object id to a blob, a tree or a commit, plus the branch refs. `ValidStore` asks that every tree's entry names are non-empty, contain no `/` and are distinct, and that a ghost rank strictly decreases from a tree to its entries. Content addressing guarantees the rank: a tree's id is the hash of its entries, so no tree contains itself. The entry names are a convention of the writers that `git fsck` checks, not something hashing enforces; the Left out section says which members assume it. `git.log` is a map from branch name to its log; a branch missing from the map is one whose log throws.

Loops that push, append or insert become methods with loop invariants. Each is proved equal to a function that is built element by element. The properties the source promises are lemmas about those functions.

Modules (one per file):

- `Common`: options, results, `filter` and `Set.add` on sequences;
- `Text`: `split`/`join`, decimal rendering, the `+`/`-` line marking of hunks;
- `GitObjects`: the object store and path joining;
- `TreeDiff`: `getChangedFiles`;
- `TreeRead`: `readFileFromTree` and `getTreeFiles`;
- `DiffText`: `getDiff`;
- `GitService`: `getSingleCommitDiff` and `compareBranches`;
- `CommitLog`: branch logs and visits, shared by both routes;
- `AllCommits`: the all-commits route;
- `GraphRoute`: the graph route;
- `CommitGraph`: the layout pass;
- `ComparisonSelection`: the page's comparison state.

## Model

| member | source | states |
|---|---|---|
| Common.Without | src/components/CommitGraph.tsx:79 | `filter(b => b !== x)`: `x` is gone, every other element stays, nothing new appears, and a sequence without `x` is unchanged |
| Common.WithoutNoDuplicates | src/app/page.tsx:221 | filtering a duplicate-free selection keeps it duplicate-free |
| Common.WithoutAppend | src/components/CommitGraph.tsx:78-80 | appending an absent element and then filtering it out restores the sequence |
| Common.AddOnce | src/app/api/repo/all-commits/route.ts:61 | `Set.add` keeps the old elements in order, contains the new one, adds nothing else and keeps the set duplicate-free |
| Text.Split | src/services/git.service.ts:92 | `split('\n')` gives one more piece than there are separators, and no piece contains the separator |
| Text.JoinSplit | src/services/git.service.ts:137 | joining the pieces of a split gives back the original string |
| Text.SplitJoin | src/services/git.service.ts:136-137 | splitting a join of separator-free pieces gives back the pieces |
| Text.SplitAfterPiece | src/services/git.service.ts:92 | a separator-free head followed by a separator splits off as the first piece |
| Text.SplitSinglePiece | src/services/git.service.ts:92 | a string without separator splits into itself alone |
| Text.SplitTrailingSeparator | src/services/git.service.ts:92 | a trailing separator adds exactly one empty piece |
| Text.DigitChar | src/services/git.service.ts:97 | a digit below 10 renders as the character of that value |
| Text.NatToString | src/services/git.service.ts:97 | the rendering of a count is a non-empty string of digits with no leading zero |
| Text.NatToStringRoundTrip | src/services/git.service.ts:97 | reading the rendered digits back gives the number |
| Text.Take | src/services/git.service.ts:278 | `substring(0, 7)` is a prefix of length min(7, length) |
| Text.MarkLinesSplit | src/services/git.service.ts:98-100 | the marked hunk body is one line per content line, each the mark followed by the line, ending in a newline |
| Text.MarkLinesAppend | src/services/git.service.ts:98-100 | marking one more line appends exactly that marked line |
| Text.HunkRoundTrip | src/services/git.service.ts:92-100 | the emitted lines number exactly as many as the split pieces, each starts with the mark, and stripping the marks and joining gives back the content |
| GitObjects.ReadTree | src/services/git.service.ts:177 | `readTree` succeeds exactly when the id names a tree object |
| GitObjects.ReadBlob | src/services/git.service.ts:194 | `readBlob` succeeds exactly when the id names a blob object |
| GitObjects.ReadCommit | src/services/git.service.ts:70-71 | `readCommit` succeeds exactly when the id names a commit object |
| GitObjects.ResolveRef | src/services/git.service.ts:254-255 | `resolveRef` succeeds exactly when the branch exists |
| GitObjects.Find | src/services/git.service.ts:178 | `tree.find` returns an entry of that name from the tree, and fails exactly when no entry has the name |
| GitObjects.FindIsFirst | src/services/git.service.ts:178 | the entry `tree.find` returns is the first one with that name: no earlier entry has it |
| GitObjects.ReadTreeValid | src/services/git.service.ts:210-211 | a tree read from a valid store has distinct valid names, and every entry ranks below the tree |
| GitObjects.FindUnique | src/services/git.service.ts:213-214 | in a tree with distinct names, looking an entry's name up finds that entry, so the `Map` by path loses nothing |
| GitObjects.ValidTreeInit | src/services/git.service.ts:213-214 | a tree without its last entry is still valid and does not contain the last entry's name |
| GitObjects.JoinPath | src/services/git.service.ts:218 | `prefix ? prefix/name : name` starts with the name or with `prefix/` |
| GitObjects.NamesDisjoint | src/services/git.service.ts:218 | paths under two different entries of one tree never coincide |
| GitObjects.UnderParent | src/services/git.service.ts:226 | a path under `prefix/name` is under `prefix` |
| TreeDiff.GetChangedFiles | src/services/git.service.ts:201-246 | the loops and the recursion push exactly the records of the reference comparison, in the same order |
| TreeDiff.ChangedFiles | src/services/git.service.ts:209-245 | the reference comparison; when either tree cannot be read, the `catch` leaves it empty |
| TreeDiff.AddedFiles | src/services/git.service.ts:234-240 | the second loop pushes an `added` record for each name of the second tree that is absent from the first, in second-tree order |
| TreeDiff.ExistingMembership | src/services/git.service.ts:217-232 | the first loop's records are exactly the records of the first tree's entries |
| TreeDiff.AddedMembership | src/services/git.service.ts:234-240 | an `added` record is listed iff some entry of the second tree has no same-named entry in the first |
| TreeDiff.EntryMembership | src/services/git.service.ts:219-231 | for one entry: `deleted` iff the second tree lacks the name; `modified` iff the oids differ and not both are trees; the subtree's records iff both are trees with different oids |
| TreeDiff.ChangedFilesMembership | src/services/git.service.ts:209-245 | a record is listed iff both trees are readable and it is a deletion, an addition, a modification or a record of a changed subtree; an unreadable tree gives none |
| TreeDiff.DiffWithItselfIsEmpty | src/services/git.service.ts:223 | comparing a tree with itself lists nothing |
| TreeDiff.FlipOneWay | src/services/git.service.ts:217-240 | every record of (tree1, tree2) appears, with added and deleted swapped, in the comparison of (tree2, tree1) |
| TreeDiff.DiffReversedIsFlipped | src/services/git.service.ts:217-240 | swapping the two trees swaps added and deleted and keeps modified, in both directions |
| TreeDiff.RecordsUnderChangedEntries | src/services/git.service.ts:217-240 | every record lies under a top-level name whose entry is not the same object in both trees |
| TreeDiff.UnchangedEntryPruned | src/services/git.service.ts:223 | an entry with the same oid on both sides contributes no record anywhere under its path, so it is not recursed into |
| TreeRead.WalkDirs | src/services/git.service.ts:176-183 | walking the directory components fails only with an unreadable tree or a missing directory |
| TreeRead.ReadFileFromTree | src/services/git.service.ts:171-196 | the loop returns what the reference walk returns, the blob content or the error |
| TreeRead.ReadFile | src/services/git.service.ts:171-196 | the reference walk; an unreadable root tree fails with that tree's id |
| TreeRead.WalkFindsFile | src/services/git.service.ts:176-195 | from any component on, the walk succeeds iff the path names a blob through trees, and then returns its content |
| TreeRead.ReadFileFindsFile | src/services/git.service.ts:171-196 | reading a path succeeds iff each intermediate component is a tree and the last is a blob, and then gives that blob's content |
| TreeRead.WalkErrorNamesPrefix | src/services/git.service.ts:179-181 | a missing directory is reported with the components up to and including the missing one |
| TreeRead.ReadFileErrors | src/services/git.service.ts:177-191 | every failure is an unreadable object, `File not found: <filepath>`, or `Directory not found: <a proper prefix of the path>` |
| TreeRead.BlobText | src/services/git.service.ts:307-313 | a readable blob's content, or `[Binary file]` when the read fails |
| TreeRead.SetKey | src/services/git.service.ts:309-312 | `files[fullPath] = text` on a plain object stores the text under the path, except that assigning a string to `__proto__` stores nothing |
| TreeRead.TreeFiles | src/services/git.service.ts:297-324 | the reference path → content map; an unreadable tree gives the empty map |
| TreeRead.ProtoKeyNeverStored | src/services/git.service.ts:298-316 | `__proto__` is never a key of the flattened map, at any depth |
| TreeRead.GetTreeFiles | src/services/git.service.ts:297-324 | the loop and recursion build exactly the reference path → content map |
| TreeRead.EntriesFilesKeys | src/services/git.service.ts:303-318 | a path is a key iff some entry provides it, as a blob at its full path other than `__proto__` or as a key of its subtree |
| TreeRead.TreeFilesKeys | src/services/git.service.ts:300-321 | the keys of a tree are exactly those its entries provide, `__proto__` never among them; an unreadable tree gives none |
| TreeRead.TreeFilesUnder | src/services/git.service.ts:304 | every key of a subtree flattened under a prefix lies under that prefix |
| TreeRead.KeyOfOtherEntry | src/services/git.service.ts:304 | an entry provides no key under a differently named sibling, so `Object.assign` never overwrites |
| TreeRead.EntriesFilesValue | src/services/git.service.ts:303-317 | the value at an entry's key is the blob text, or the subtree's value at that key |
| TreeRead.TreeFilesHoldsLookup | src/services/git.service.ts:297-324 | a blob reachable by a name path is a key iff its path is not `__proto__`, and then holds that blob's text |
| TreeRead.JoinAllIsJoin | src/services/git.service.ts:304 | the nested full path equals the prefix and the names joined with `/` |
| TreeRead.TreeFilesAgreesWithReadFile | src/services/git.service.ts:297-324 | except under the path `__proto__`, which the plain object never stores, the flattened map holds every reachable blob under its path, with the content `readFileFromTree` returns, or `[Binary file]` when the read fails |
| DiffText.PatchBodyDropsHeader | src/services/git.service.ts:135-137 | dropping the first two lines of a patch keeps exactly the rest, plus a newline |
| DiffText.AppendMarkedLines | src/services/git.service.ts:98-100 | the `forEach` appends exactly the marked lines |
| DiffText.AppendFileBlock | src/services/git.service.ts:85-152 | one iteration appends exactly the file block of the change |
| DiffText.GetDiff | src/services/git.service.ts:67-166 | the loop builds exactly the reference diff text, or fails as it does |
| DiffText.Diff | src/services/git.service.ts:67-166 | the reference diff text: it succeeds iff both commits can be read, and every failure is `Failed to get diff` around an unreadable object |
| DiffText.DiffFailsOnlyOnMissingCommit | src/services/git.service.ts:70-71 | the diff fails iff one of the two commits cannot be read, and a missing first commit is reported as such |
| DiffText.BlocksEndWithNewline | src/services/git.service.ts:152 | the text of one or more file blocks ends in a newline |
| DiffText.FileBlockEndsWithNewline | src/services/git.service.ts:152 | every file block ends in a newline |
| DiffText.DiffWithoutChanges | src/services/git.service.ts:76-78 | the diff is exactly `diff --git a/<oid1> b/<oid2>\n\nNo changes found.` iff there are no changed files |
| DiffText.DiffShowsFirstTen | src/services/git.service.ts:83-157 | the text is the blocks of the first min(10, n) changes in order, then the note; the note is present iff there are more than 10 changes |
| DiffText.MoreFilesNoteCount | src/services/git.service.ts:155-157 | the note starts with `\n# ` followed by the digits of n − 10 |
| DiffText.AddedHunkLines | src/services/git.service.ts:89-100 | the `new file` header's count equals the number of `+` lines, and the `+` lines give back the content |
| DiffText.DeletedHunkLines | src/services/git.service.ts:101-112 | the `deleted file` header's count equals the number of `-` lines, and the `-` lines give back the content |
| DiffText.TrailingNewlineAddsEmptyLine | src/services/git.service.ts:92 | content ending in a newline has one more line, an empty one, than content without it |
| DiffText.ModifiedBodyCases | src/services/git.service.ts:113-144 | a modified file shows the read-error placeholder if either read fails, the too-large placeholder if either side exceeds 1024·1024, and the patch without its first two lines otherwise |
| GitService.Rethrow | src/services/git.service.ts:286-291 | a success passes through unchanged; a failure is wrapped in the operation's message |
| GitService.SingleCommitDiff | src/services/git.service.ts:270-292 | succeeds iff the commit can be read and it has no parent or its first parent can be read; every failure carries `Failed to get commit diff` |
| GitService.CompareBranches | src/services/git.service.ts:251-265 | succeeds iff both branches resolve to readable commits; every failure carries `Failed to compare branches` |
| GitService.SingleCommitDiffRoot | src/services/git.service.ts:276-278 | a commit without parents gets the initial-commit placeholder, naming the commit by its first 7 oid characters |
| GitService.SingleCommitDiffFirstParent | src/services/git.service.ts:282-291 | any other commit is diffed against its first parent only, a failure of that diff rewrapped with `Failed to get commit diff` |
| GitService.SingleCommitDiffMissingParent | src/services/git.service.ts:282-285 | an unreadable first parent fails through both error wrappers |
| GitService.CompareBranchesFailure | src/services/git.service.ts:251-265 | comparing fails iff a branch does not resolve or its commit cannot be read |
| GitService.CompareSameCommitFindsNoChanges | src/services/git.service.ts:254-258 | two branches on the same commit compare to the "No changes found." text |
| CommitLog.BranchVisits | src/app/api/repo/all-commits/route.ts:46 | a branch's visits are its log entries in order, each with the branch; a failing log gives none |
| CommitLog.VisitsMembership | src/app/api/repo/all-commits/route.ts:36-62 | a (branch, commit) pair is visited iff the branch is requested, its log succeeds and contains the commit |
| CommitLog.FailingBranchesSkipped | src/app/api/repo/all-commits/route.ts:63-65 | dropping the failing branches from the request changes nothing |
| CommitLog.FirstVisit | src/app/api/repo/all-commits/route.ts:47 | the first visit of an oid exists iff some visit has that oid, and it is a visit with that oid |
| CommitLog.FirstIndex | src/app/api/repo/all-commits/route.ts:47 | the position of an oid's first visit: no earlier visit has the oid, and the visit there has it unless no visit does |
| CommitLog.NormalizeParents | src/app/api/repo/graph/route.ts:66-70 | an array of parents is kept, a non-empty single parent becomes a singleton, a missing or empty one becomes `[]` |
| AllCommits.Records | src/app/api/repo/all-commits/route.ts:69-72 | `Array.from(commitMap.values())` lists the records in key insertion order |
| AllCommits.CollectAllCommits | src/app/api/repo/all-commits/route.ts:36-75 | the nested loops and the sort produce exactly the reference list |
| AllCommits.CollectLog | src/app/api/repo/all-commits/route.ts:46-62 | walking one branch's log adds its visits to the map |
| AllCommits.StoreCommit | src/app/api/repo/all-commits/route.ts:47-61 | one commit is inserted if new, then the branch is added to its set |
| AllCommits.CollectFirstVisit | src/app/api/repo/all-commits/route.ts:47-59 | an oid is in the map iff it was visited, and its fields are those of its first visit |
| AllCommits.CollectBranches | src/app/api/repo/all-commits/route.ts:57-61 | a commit's branch set holds exactly the branches whose visits reached it |
| AllCommits.CollectBranchesNonEmpty | src/app/api/repo/all-commits/route.ts:61 | a commit in the map has at least one branch |
| AllCommits.SortIsPermutation | src/app/api/repo/all-commits/route.ts:75 | sorting keeps exactly the same elements |
| AllCommits.SortIsNewestFirst | src/app/api/repo/all-commits/route.ts:75 | the sorted list has non-increasing timestamps |
| AllCommits.SortIsStable | src/app/api/repo/all-commits/route.ts:75 | commits with equal timestamps keep their relative order |
| AllCommits.ListedRecord | src/app/api/repo/all-commits/route.ts:69-72 | a commit is listed iff it is the map's value for its oid |
| AllCommits.AllCommitsOrder | src/app/api/repo/all-commits/route.ts:69-75 | the response is the map's values, newest first, ties in insertion order |
| AllCommits.CollectFirstIndex | src/app/api/repo/all-commits/route.ts:47-55 | an oid is a key of `commitMap` iff its first visit lies within the visits |
| AllCommits.CollectOrderFirstSeen | src/app/api/repo/all-commits/route.ts:47-55 | the keys of `commitMap` come in the order of their first visit |
| AllCommits.MapValuesFirstSeen | src/app/api/repo/all-commits/route.ts:69-72 | `commitMap.values()` lists the commits in the order of their first visit |
| AllCommits.WithTimestampMembership | src/app/api/repo/all-commits/route.ts:75 | the commits with timestamp t are exactly those present with that timestamp |
| AllCommits.WithTimestampFirstSeen | src/app/api/repo/all-commits/route.ts:75 | keeping the commits with one timestamp keeps the first-sighting order |
| AllCommits.AllCommitsTiesFirstSeen | src/app/api/repo/all-commits/route.ts:46-75 | listed commits with equal timestamps come in the order in which the logs, branch by branch in request order, first showed them |
| AllCommits.AllCommits | src/app/api/repo/all-commits/route.ts:69-75 | the response is newest first and holds exactly the map's values |
| AllCommits.AllCommitsListed | src/app/api/repo/all-commits/route.ts:36-66 | an oid is listed iff the log of a requested branch that does not throw contains it |
| AllCommits.AllCommitsFirstSeen | src/app/api/repo/all-commits/route.ts:46-59 | a listed commit carries the data of its first sighting |
| AllCommits.AllCommitsBranches | src/app/api/repo/all-commits/route.ts:57-61 | a listed commit's `branches` is exactly the requested branches whose log succeeds and contains it, each once, and never empty |
| AllCommits.SortKeepsDistinct | src/app/api/repo/all-commits/route.ts:75 | sorting keeps the oids distinct |
| AllCommits.AllCommitsDistinct | src/app/api/repo/all-commits/route.ts:46-59 | each oid is listed at most once |
| GraphRoute.BranchColor | src/app/api/repo/graph/route.ts:59 | `d3SchemeCategory10[index % 10]` is a palette colour |
| GraphRoute.Branches | src/app/api/repo/graph/route.ts:57-60 | one branch entry per key, in key order, entry i coloured by position i |
| GraphRoute.BuildGraph | src/app/api/repo/graph/route.ts:21-95 | the route's loops produce exactly the reference graph |
| GraphRoute.CollectBranches | src/app/api/repo/graph/route.ts:21-54 | the outer loop fills both maps as the route's walks do, each walk starting from the maps the earlier ones left; a branch whose log throws adds nothing |
| GraphRoute.BuildCommits | src/app/api/repo/graph/route.ts:65-95 | one node per map entry, in insertion order |
| GraphRoute.Graph | src/app/api/repo/graph/route.ts:21-95 | the reference response: branch i coloured `palette[i % 10]`, node ids distinct |
| GraphRoute.CollectLog | src/app/api/repo/graph/route.ts:30-53 | walking one branch's log adds the route's walk to both maps: it stops before a new commit whose `new Date(timestamp * 1000).toISOString()` throws, and right after a commit whose `push` throws on a name inherited from `Object.prototype` |
| GraphRoute.StoreCommit | src/app/api/repo/graph/route.ts:31-49 | a new commit whose timestamp lies beyond ±8.64·10^12 s throws at `toISOString` before anything is stored; otherwise the commit is inserted if new, the branch's list is created unless the key is truthy, own or inherited, and the oid is pushed onto an own list, the push throwing for an inherited key |
| GraphRoute.WalkFromAdvance | src/app/api/repo/graph/route.ts:30-50 | one commit of the loop adds its visit unless its date throws, and the walk goes on from the new maps unless it threw |
| GraphRoute.WalkFromPrefix | src/app/api/repo/graph/route.ts:30-53 | the route's walk of a branch visits a prefix of its log, each visit on that branch |
| GraphRoute.RouteVisitsFromLogs | src/app/api/repo/graph/route.ts:21-54 | every visit of the route is an entry of the log of a requested branch |
| GraphRoute.WalkKeepsDatesValid | src/app/api/repo/graph/route.ts:41 | a walk stores only commits whose date lies within ±8.64·10^12 s |
| GraphRoute.RouteDatesValid | src/app/api/repo/graph/route.ts:21-54 | every commit the route stores has a date within ±8.64·10^12 s |
| GraphRoute.FindChildren | src/app/api/repo/graph/route.ts:73-84 | the inner loop collects exactly the reference children |
| GraphRoute.CollectFirstVisit | src/app/api/repo/graph/route.ts:31-43 | an oid is in the map iff it was visited, with the branch and data of its first visit |
| GraphRoute.CollectFirstIndex | src/app/api/repo/graph/route.ts:31-32 | an oid is a key of `allCommits` iff its first visit lies within the visits |
| GraphRoute.CollectOrderFirstSeen | src/app/api/repo/graph/route.ts:31-32 | the keys of `allCommits` come in the order of their first visit |
| GraphRoute.ChildrenFirstSeen | src/app/api/repo/graph/route.ts:73-84 | the children loop keeps the first-sighting order of `allCommits` |
| GraphRoute.CollectBranchKeys | src/app/api/repo/graph/route.ts:46-49 | a branch is a key of `branchCommits` iff some visit came from it and its name is not inherited from `Object.prototype` |
| GraphRoute.WalkRefPrefix | src/app/api/repo/graph/route.ts:30-53 | the closed-form walk of a branch visits a prefix of its log, each visit on that branch |
| GraphRoute.WalkFromIsRef | src/app/api/repo/graph/route.ts:30-53 | when an oid names one commit in every log, the route's walk from the maps the earlier walks left is the closed form: the commits before the first date beyond ±8.64·10^12 s, only the first of them for an inherited name; every stored oid then has an in-range date in every log |
| GraphRoute.RouteIsReference | src/app/api/repo/graph/route.ts:21-54 | when an oid names one commit in every log, the route's visits are the closed-form walks of the requested branches |
| GraphRoute.WalkRefMembership | src/app/api/repo/graph/route.ts:30-53 | a visit belongs to the closed-form walk of a log iff its commit is in the log at a position k with every date up to k in range, and k is 0 for an inherited name |
| GraphRoute.WalkVisitsMembership | src/app/api/repo/graph/route.ts:30-53 | a visit belongs to the closed-form walk of a requested branch iff the branch walks that commit |
| GraphRoute.GraphVisitsMembership | src/app/api/repo/graph/route.ts:21-54 | the closed-form visits of both loops are exactly the walked commits of the requested branches |
| GraphRoute.ContributingMembership | src/app/api/repo/graph/route.ts:21-54 | a branch contributes iff it is requested, its log succeeds, is non-empty and starts with an in-range date, and its name is not inherited |
| GraphRoute.ContributingDistinct | src/app/api/repo/graph/route.ts:46-47 | each branch contributes once |
| GraphRoute.WalkBranchOrder | src/app/api/repo/graph/route.ts:46-49 | the walk of one branch adds its name to the key order at most once, when it walks something, the name is not inherited and is not yet a key |
| GraphRoute.CollectBranchOrder | src/app/api/repo/graph/route.ts:19-57 | in closed form, the keys of `branchCommits` come in the order of first contribution |
| GraphRoute.GraphIdsAreVisited | src/app/api/repo/graph/route.ts:31-32 | the node ids are exactly the oids of the route's visits |
| GraphRoute.GraphNodesFromLogs | src/app/api/repo/graph/route.ts:21-65 | every node is a commit of the log of a requested branch |
| GraphRoute.GraphBranches | src/app/api/repo/graph/route.ts:46-60 | entry i of the branches has colour `palette[i % 10]`, no name is listed twice, and a listed name is requested, has a non-empty log that succeeds and is not inherited |
| GraphRoute.GraphBranchesContributing | src/app/api/repo/graph/route.ts:21-60 | when an oid names one commit in every log, the branches listed are the contributing ones in the order of their first contribution, entry i coloured `palette[i % 10]`: exactly the requested branches whose log succeeds, is non-empty and starts with an in-range date, and whose name is not inherited |
| GraphRoute.ChildrenMembership | src/app/api/repo/graph/route.ts:73-84 | c is a child of p iff c is in the map and p is among c's normalised parents |
| GraphRoute.GraphNodes | src/app/api/repo/graph/route.ts:65-95 | children and parents mirror each other, ids are distinct, each node has the branch, parents, message and date of its first sighting in the route's walks, and every date is within ±8.64·10^12 s |
| GraphRoute.GraphNodeOrder | src/app/api/repo/graph/route.ts:65-95 | the nodes come in the order in which the route's walks first saw their commits |
| GraphRoute.GraphChildrenOrder | src/app/api/repo/graph/route.ts:73-84 | each node's children come in the order in which the route's walks first saw them |
| GraphRoute.GraphListsEveryCommit | src/app/api/repo/graph/route.ts:21-95 | when an oid names one commit in every log, a commit is a node iff some requested branch walks it: its log succeeds and contains it at a position up to which every date is in range, as its first commit when the name is inherited from `Object.prototype` |
| CommitGraph.LastWith | src/components/CommitGraph.tsx:108 | `commitMap.get(oid)` is missing iff no commit has that oid |
| CommitGraph.LastWithIsLast | src/components/CommitGraph.tsx:108 | what `commitMap.get(oid)` returns is a commit with that oid, the last one with it |
| CommitGraph.UniqueBranches | src/components/CommitGraph.tsx:115 | the distinct named primary branches, each once, exactly those some commit names |
| CommitGraph.AssignColumns | src/components/CommitGraph.tsx:116-120 | the counter gives branch k column k, so the columns are 0..n−1 |
| CommitGraph.ColumnMap | src/components/CommitGraph.tsx:111-120 | the column map holds exactly the unique branches, the k-th at column k |
| CommitGraph.BuildColumnMap | src/components/CommitGraph.tsx:111-120 | the imperative construction equals the column map |
| CommitGraph.ColumnsConsecutive | src/components/CommitGraph.tsx:116-119 | columns are below the branch count and distinct for distinct branches |
| CommitGraph.UniqueBranchesInOrder | src/components/CommitGraph.tsx:115 | branches are ordered by the row where they first appear |
| CommitGraph.PlaceCommits | src/components/CommitGraph.tsx:125-161 | the `forEach` gives every row the placement of the reference layout |
| CommitGraph.Positions | src/components/CommitGraph.tsx:159-160 | `y` is 80·row and strictly increases down the list; `x` is 50·column |
| CommitGraph.PlacementAt | src/components/CommitGraph.tsx:157-160 | row i is placed in the column assigned to its commit after that row, at x = 50·column and y = 80·i |
| CommitGraph.NamedBranchColumn | src/components/CommitGraph.tsx:129-130 | commits naming the same primary branch share that branch's column |
| CommitGraph.AssignedKeys | src/components/CommitGraph.tsx:157 | `branchAssignments` holds exactly the oids of the rows already placed |
| CommitGraph.AssignedValue | src/components/CommitGraph.tsx:141-157 | `branchAssignments` holds, for an oid, the column of the last earlier row with it |
| CommitGraph.FallbackColumn | src/components/CommitGraph.tsx:132-154 | without a mapped primary branch: column 0 for a root; otherwise the first parent's branch column, else the column of the last earlier row with the parent's oid, else 0 |
| CommitGraph.AssignColors | src/components/CommitGraph.tsx:167-171 | the colour map gives the k-th distinct branch index k mod 10 |
| CommitGraph.ColorMap | src/components/CommitGraph.tsx:167-171 | the colour map holds exactly the unique branches, the k-th at k mod 10, all below 10 |
| CommitGraph.ColorIndex | src/components/CommitGraph.tsx:237-243 | the fill colour index is below 10: the branch's colour when mapped, else the column mod 10 |
| CommitGraph.ColorIsColumnMod10 | src/components/CommitGraph.tsx:237-243 | every commit's colour index equals its column mod 10 |
| CommitGraph.LayoutPass | src/components/CommitGraph.tsx:108-186 | the pass yields the reference placements, colours and links for every row |
| CommitGraph.BuildLinks | src/components/CommitGraph.tsx:174-186 | the nested loops build exactly the reference links |
| CommitGraph.RowLinks | src/components/CommitGraph.tsx:176-185 | the links of one row all start at that row |
| CommitGraph.Links | src/components/CommitGraph.tsx:174-186 | the links start only at rows already laid out, in row order |
| CommitGraph.RowLinksMembership | src/components/CommitGraph.tsx:176-185 | a row gets a link to each of its parents present in the list, merge iff more than one parent |
| CommitGraph.LinksMembership | src/components/CommitGraph.tsx:174-186 | a link exists iff its target is a parent of its source and is in the list; `isMerge` iff the source has more than one parent |
| CommitGraph.ShownMessage | src/components/CommitGraph.tsx:284 | a message of up to 50 characters is shown unchanged, a longer one as its first 50 characters and `...` |
| CommitGraph.ToggleBranch | src/components/CommitGraph.tsx:76-82 | a selected branch is removed, an unselected one appended, the others untouched |
| CommitGraph.ToggleTwice | src/components/CommitGraph.tsx:76-82 | toggling twice restores membership, restores the list when the branch was absent, and keeps it duplicate-free |
| ComparisonSelection.Initial | src/app/page.tsx:22-27 | the page starts outside comparison mode with nothing selected |
| ComparisonSelection.ToggleComparisonMode | src/app/page.tsx:210-216 | the mode flips, the selection empties and the diff closes |
| ComparisonSelection.SelectForComparison | src/app/page.tsx:218-226 | a selected branch is removed, a new one appended while fewer than 2 are selected, otherwise nothing changes |
| ComparisonSelection.CompareGuard | src/app/page.tsx:229-241 | a request is made iff exactly 2 branches are selected, with the first and second as `branch1` and `branch2` |
| ComparisonSelection.DeselectKeepsOthers | src/app/page.tsx:219-222 | deselecting removes the branch, keeps the others in order, and shortens a valid selection by one |
| ComparisonSelection.SelectionStaysValid | src/app/page.tsx:218-226 | every transition keeps the selection to at most 2 distinct branches |
| ComparisonSelection.CompareDistinctBranches | src/app/page.tsx:238-241 | in a valid state the two compared branches differ |
| ComparisonSelection.SelectTwiceRestores | src/app/page.tsx:218-226 | selecting a new branch and then selecting it again restores the selection |

## Left out

- isomorphic-git is not part of this model. Its `readTree`, `readBlob`, `readCommit`, `resolveRef` and `log` are lookups in an abstract store and a log map; packfiles, ref resolution rules, `depth: 50` and the commit-to-tree peeling `readTree` performs are not modelled.
- `Diff.createPatch` (jsdiff) is a function parameter: only the size check, the placeholders and the dropping of its first two lines are modelled, not the patch itself.
- `TextDecoder` is not modelled: blobs are strings, and a blob that cannot be read is the only read failure.
- DiffText.ModifiedBodyCases: `content.length` counts UTF-16 code units in the source and characters here, so the 1024·1024 limit is compared with the character count.
- GitObjects.ValidStore: the members over whole trees require every tree's entry names to be non-empty, free of `/` and distinct. These are TreeDiff.GetChangedFiles, TreeDiff.ChangedFiles and the lemmas about them; TreeRead.GetTreeFiles, TreeRead.TreeFiles and the lemmas about them; DiffText.GetDiff and DiffText.Diff; and the GitService members. Git's writers keep that convention and `git fsck` checks it, but the object format does not enforce it. On a tree that repeats a name, `new Map(tree.map(...))` keeps the last entry of that name at the position of the first one, and the model does not cover that case. The walk of `readFileFromTree` assumes nothing: it models `tree.find`, the first entry of the name (GitObjects.FindIsFirst).
- CommitGraph.ShownMessage: `message.length` and `substring` count UTF-16 code units, while the model counts characters. A message with a character outside the Basic Multilingual Plane in its first 50 code units is cut earlier by the source than by the model, and the source can split a surrogate pair at position 50.
- GraphRoute.GraphNodes: `date` is the author timestamp in seconds, not the ISO-8601 text `toISOString` makes from it; only the range outside which `toISOString` throws (a time value beyond 8.64·10^15 ms) is modelled.
- GraphRoute.GraphBranchesContributing: the closed form of the listed branches is proved only for logs in which an oid names one commit (`OidsNameOneCommit`), which holds because `git.log` reads every commit from the object store by its oid. For other logs a commit already stored skips the date check, so the route's walk depends on the maps the earlier walks left; `RouteVisits` models that exactly, and GraphRoute.GraphBranches states what holds in general.
- GraphRoute.GraphListsEveryCommit: the closed form of the nodes is proved under the same hypothesis; in general GraphRoute.GraphIdsAreVisited and GraphRoute.GraphNodesFromLogs state that the nodes are the commits the route's walks visit, all from the logs of requested branches.
- GraphRoute.GraphBranches: `Object.keys` enumerates integer-like branch names first, in ascending order, before the others; the model lists all keys in insertion order.
- The graph route returns nodes with `id` and `branch`, while the component declares and reads `oid` and `primaryBranch`. The layout is modelled on the component's declared `Commit` fields, as if the data had them; the mismatch between the two shapes is not modelled.
- `fs.existsSync`, `path.join`, the `.git` check, `listBranches`, `listCommits`, async/await, `NextResponse` and the 400/500 answers of the routes are I/O and plumbing. This includes the all-commits route throwing when `branchNames` is missing; the graph route's `branchNames || []` is modelled.
- Error messages are modelled as nested error values (`Failed(operation, cause)`), not as the formatted strings; the "Unknown error" branches for non-`Error` throws cannot arise in the model.
- D3 drawing is not modelled: the SVG, the Bézier and straight link paths, the hover transitions, the date text and the Gravatar avatar (an md5 foreign call). The palette lookup `branchColors[k]` is represented by the index k.
- React hooks, `useQuery`, `useEffect`, `localStorage`, and the compare `fetch` with its response handling, loading flags and the `↔` sidebar title are not modelled: only the guard and the request it sends.
- The layout pass writes `branchIndex`, `x` and `y` onto the commit objects; the model returns them as a parallel sequence of placements, so that aliasing is not captured.
- The in-place `Array.prototype.sort` of the all-commits route is modelled as a stable sort function (the language guarantees stability), not as an in-place array algorithm.
- The other components, the other routes, the sidebar and the configuration are presentation and are not modelled.
