/** The repository as the git service sees it through isomorphic-git: a
    content-addressed object store of blobs, trees and commits, and the branch
    refs. `readTree`, `readBlob`, `readCommit` and `resolveRef` either return
    the object or fail; failure is `None` here. */
module GitObjects {
  import opened Common

  type ObjectId = string

  /** The `type` of a tree entry: a file, a directory, or a submodule commit. */
  datatype EntryKind = BlobKind | TreeKind | CommitKind

  /** One tree entry `{path, type, oid}`; `path` is the entry's own name. */
  datatype TreeEntry = TreeEntry(path: string, kind: EntryKind, oid: ObjectId)

  /** The part of a commit object the service reads: its root tree and its parents. */
  datatype CommitInfo = CommitInfo(tree: ObjectId, parents: seq<ObjectId>)

  datatype GitObject =
    | BlobObject(content: string)
    | TreeObject(entries: seq<TreeEntry>)
    | CommitObject(commit: CommitInfo)

  datatype Repo = Repo(objects: map<ObjectId, GitObject>, refs: map<string, ObjectId>)

  /** The errors the service throws, each wrapped in the message context
      (`Failed to get diff: ...`) of every operation it passes through. */
  datatype GitError =
    | ObjectNotFound(oid: ObjectId)
    | RefNotFound(ref: string)
    | DirectoryNotFound(path: string)
    | FileNotFound(path: string)
    | Failed(operation: string, cause: GitError)

  function ReadTree(repo: Repo, oid: ObjectId): (r: Option<seq<TreeEntry>>)
    ensures r.Some? <==> oid in repo.objects && repo.objects[oid].TreeObject?
  {
    if oid in repo.objects && repo.objects[oid].TreeObject? then Some(repo.objects[oid].entries) else None
  }

  function ReadBlob(repo: Repo, oid: ObjectId): (r: Option<string>)
    ensures r.Some? <==> oid in repo.objects && repo.objects[oid].BlobObject?
  {
    if oid in repo.objects && repo.objects[oid].BlobObject? then Some(repo.objects[oid].content) else None
  }

  function ReadCommit(repo: Repo, oid: ObjectId): (r: Option<CommitInfo>)
    ensures r.Some? <==> oid in repo.objects && repo.objects[oid].CommitObject?
  {
    if oid in repo.objects && repo.objects[oid].CommitObject? then Some(repo.objects[oid].commit) else None
  }

  function ResolveRef(repo: Repo, name: string): (r: Option<ObjectId>)
    ensures r.Some? <==> name in repo.refs
  {
    if name in repo.refs then Some(repo.refs[name]) else None
  }

  /** `tree.find(e => e.path === name)`: the first entry with that name. */
  function Find(entries: seq<TreeEntry>, name: string): (r: Option<TreeEntry>)
    ensures r.Some? ==> r.value in entries && r.value.path == name
    ensures r.None? <==> forall e :: e in entries ==> e.path != name
  {
    if entries == [] then None
    else if entries[0].path == name then Some(entries[0])
    else Find(entries[1..], name)
  }

  /** What `find` returns is the first entry with the name: no entry before it has that name. */
  lemma {:induction false} FindIsFirst(entries: seq<TreeEntry>, name: string)
    requires Find(entries, name).Some?
    ensures exists k :: 0 <= k < |entries| && entries[k] == Find(entries, name).value
                        && forall j :: 0 <= j < k ==> entries[j].path != name
  {
    if entries[0].path == name {
      assert entries[0] == Find(entries, name).value;
    } else {
      var rest := entries[1..];
      FindIsFirst(rest, name);
      var k :| 0 <= k < |rest| && rest[k] == Find(rest, name).value && forall j :: 0 <= j < k ==> rest[j].path != name;
      assert entries[k + 1] == Find(entries, name).value;
      forall j | 0 <= j < k + 1
        ensures entries[j].path != name
      {
        if j > 0 {
          assert entries[j] == rest[j - 1];
        }
      }
    }
  }

  /** A name git accepts for a tree entry: non-empty and without `/`. */
  ghost predicate ValidName(name: string) {
    name != "" && '/' !in name
  }

  /** Entry names in one tree are valid and unique. */
  ghost predicate ValidTree(entries: seq<TreeEntry>) {
    && (forall e :: e in entries ==> ValidName(e.path))
    && (forall i, j :: 0 <= i < j < |entries| ==> entries[i].path != entries[j].path)
  }

  /** The height of an object under a ranking; objects outside it have height 0. */
  function Rank(rank: map<ObjectId, nat>, oid: ObjectId): nat {
    if oid in rank then rank[oid] else 0
  }

  /** The object at `oid`, if it is a tree, is valid and its entries rank
      strictly below it. */
  ghost predicate ValidTreeAt(repo: Repo, rank: map<ObjectId, nat>, oid: ObjectId) {
    oid in repo.objects && repo.objects[oid].TreeObject? ==>
      && ValidTree(repo.objects[oid].entries)
      && forall e :: e in repo.objects[oid].entries ==> Rank(rank, e.oid) < Rank(rank, oid)
  }

  /** The store is a well-formed git store: every tree is valid and every entry
      of a tree ranks strictly below the tree, so no tree contains itself. */
  ghost predicate ValidStore(repo: Repo, rank: map<ObjectId, nat>) {
    forall oid {:trigger ValidTreeAt(repo, rank, oid)} :: ValidTreeAt(repo, rank, oid)
  }

  /** What a successful `readTree` tells about the entries of a valid store. */
  lemma ReadTreeValid(repo: Repo, rank: map<ObjectId, nat>, oid: ObjectId)
    requires ValidStore(repo, rank)
    requires ReadTree(repo, oid).Some?
    ensures ValidTree(ReadTree(repo, oid).value)
    ensures forall e :: e in ReadTree(repo, oid).value ==> Rank(rank, e.oid) < Rank(rank, oid)
  {
    assert ValidTreeAt(repo, rank, oid);
  }

  /** In a tree with unique names, `find` by an entry's name returns that entry. */
  lemma {:induction false} FindUnique(entries: seq<TreeEntry>, e: TreeEntry)
    requires ValidTree(entries)
    requires e in entries
    ensures Find(entries, e.path) == Some(e)
  {
    if entries[0] != e {
      assert e in entries[1..];
      assert ValidTree(entries[1..]) by {
        forall i, j | 0 <= i < j < |entries| - 1
          ensures entries[1..][i].path != entries[1..][j].path
        {
          assert entries[1..][i] == entries[i + 1] && entries[1..][j] == entries[j + 1];
        }
      }
      var k :| 0 <= k < |entries| && entries[k] == e;
      assert entries[0].path != e.path;
      FindUnique(entries[1..], e);
    }
  }

  /** Dropping the last entry keeps a tree valid, and the last name occurs nowhere before it. */
  lemma ValidTreeInit(entries: seq<TreeEntry>)
    requires ValidTree(entries) && entries != []
    ensures ValidTree(entries[..|entries| - 1])
    ensures forall e :: e in entries[..|entries| - 1] ==> e.path != entries[|entries| - 1].path
  {
    var init := entries[..|entries| - 1];
    forall i, j | 0 <= i < j < |init| ensures init[i].path != init[j].path {
      assert init[i] == entries[i] && init[j] == entries[j];
    }
    forall e | e in init ensures e.path != entries[|entries| - 1].path {
      var k :| 0 <= k < |init| && init[k] == e;
      assert entries[k] == e;
    }
  }

  /** The path of entry `name` below directory `prefix`: `prefix ? prefix/name : name`. */
  function JoinPath(prefix: string, name: string): (path: string)
    ensures name <= path || (prefix != "" && prefix + "/" <= path)
  {
    if prefix == "" then name else prefix + "/" + name
  }

  /** `path` is `base` itself or lies in the directory `base`. */
  ghost predicate Under(path: string, base: string) {
    path == base || (|path| > |base| && path[..|base| + 1] == base + "/")
  }

  /** When one name is a proper prefix of another, the longer one has `/` where the shorter one's rest starts. */
  lemma SlashAfterShorter(m: string, n: string, rm: string, rn: string)
    requires rm == [] || rm[0] == '/'
    requires m + rm == n + rn
    requires |m| < |n|
    ensures n[|m|] == '/'
  {
    assert n[|m|] == (n + rn)[|m|] == (m + rm)[|m|];
  }

  /** A valid name followed by nothing or by `/...` determines the name. */
  lemma NameBeforeSlash(m: string, n: string, rm: string, rn: string)
    requires ValidName(m) && ValidName(n)
    requires rm == [] || rm[0] == '/'
    requires rn == [] || rn[0] == '/'
    requires m + rm == n + rn
    ensures m == n
  {
    if |m| < |n| {
      SlashAfterShorter(m, n, rm, rn);
    } else if |n| < |m| {
      SlashAfterShorter(n, m, rn, rm);
    } else {
      assert m == (m + rm)[..|m|];
      assert n == (n + rn)[..|n|];
    }
  }

  /** A path under `base` is `base` followed by nothing or by `/...`. */
  lemma UnderSplit(path: string, base: string) returns (rest: string)
    requires Under(path, base)
    ensures path == base + rest && (rest == [] || rest[0] == '/')
  {
    rest := path[|base|..];
    if path != base {
      assert path[..|base|] == (base + "/")[..|base|] == base;
      assert path == path[..|base|] + rest;
      assert rest[0] == path[..|base| + 1][|base|] == '/';
    }
  }

  /** Paths under two different valid names of the same directory never meet. */
  lemma NamesDisjoint(prefix: string, m: string, n: string, path: string)
    requires ValidName(m) && ValidName(n) && m != n
    requires Under(path, JoinPath(prefix, m))
    ensures !Under(path, JoinPath(prefix, n))
  {
    var p := if prefix == "" then "" else prefix + "/";
    assert JoinPath(prefix, m) == p + m && JoinPath(prefix, n) == p + n;
    if Under(path, p + n) {
      var rm := UnderSplit(path, p + m);
      var rn := UnderSplit(path, p + n);
      AfterPrefix(p, m, rm, path);
      AfterPrefix(p, n, rn, path);
      NameBeforeSlash(m, n, rm, rn);
    }
  }

  /** What follows a prefix of a path. */
  lemma AfterPrefix(p: string, name: string, rest: string, path: string)
    requires path == p + name + rest
    ensures path[|p|..] == name + rest
  {
    assert path == p + (name + rest);
  }

  /** A path under `prefix/name` is under `prefix` when `prefix` is a directory. */
  lemma UnderParent(path: string, prefix: string, name: string)
    requires prefix != ""
    requires Under(path, JoinPath(prefix, name))
    ensures Under(path, prefix)
  {
    assert JoinPath(prefix, name) == prefix + "/" + name;
    assert path[..|prefix| + 1] == (prefix + "/" + name)[..|prefix| + 1] == prefix + "/";
  }
}
