/** `GitService.readFileFromTree` and `GitService.getTreeFiles`
    (src/services/git.service.ts): reading one file by its slash-separated
    path, and flattening a whole tree into a path-to-content record. */
module TreeRead {
  import opened Common
  import opened Text
  import opened GitObjects

  // ---------------------------------------------------------------------
  // readFileFromTree

  /** `parts.slice(0, i + 1).join('/')`: the path up to component `i`. */
  function DirPrefix(parts: seq<string>, i: nat): string
    requires i < |parts|
  {
    Join(parts[..i + 1], '/')
  }

  /** The directory walk of `readFileFromTree` from component `i` on: every
      component but the last must name a directory of the current tree. */
  function WalkDirs(repo: Repo, current: ObjectId, parts: seq<string>, i: nat): (r: Result<ObjectId, GitError>)
    requires i < |parts|
    ensures r.Err? ==> r.error.ObjectNotFound? || r.error.DirectoryNotFound?
    decreases |parts| - i
  {
    if i == |parts| - 1 then Ok(current)
    else
      match ReadTree(repo, current)
      case None => Err(ObjectNotFound(current))
      case Some(tree) =>
        match Find(tree, parts[i])
        case Some(entry) =>
          if entry.kind == TreeKind then WalkDirs(repo, entry.oid, parts, i + 1)
          else Err(DirectoryNotFound(DirPrefix(parts, i)))
        case None => Err(DirectoryNotFound(DirPrefix(parts, i)))
  }

  /** The last step of `readFileFromTree`: the file `name` of directory `dir`. */
  function FileInDir(repo: Repo, dir: ObjectId, name: string, filepath: string): Result<string, GitError> {
    match ReadTree(repo, dir)
    case None => Err(ObjectNotFound(dir))
    case Some(tree) =>
      match Find(tree, name)
      case Some(entry) =>
        if entry.kind != BlobKind then Err(FileNotFound(filepath))
        else if ReadBlob(repo, entry.oid).None? then Err(ObjectNotFound(entry.oid))
        else Ok(ReadBlob(repo, entry.oid).value)
      case None => Err(FileNotFound(filepath))
  }

  /** What `readFileFromTree(treeOid, filepath)` returns or throws. */
  function ReadFile(repo: Repo, treeOid: ObjectId, filepath: string): (r: Result<string, GitError>)
    ensures ReadTree(repo, treeOid).None? ==> r == Err(ObjectNotFound(treeOid))
  {
    var parts := Split(filepath, '/');
    match WalkDirs(repo, treeOid, parts, 0)
    case Err(e) => Err(e)
    case Ok(dir) => FileInDir(repo, dir, parts[|parts| - 1], filepath)
  }

  /** `readFileFromTree`: splits the path, walks the directories updating the
      current tree, then reads the named blob. */
  method ReadFileFromTree(repo: Repo, treeOid: ObjectId, filepath: string) returns (r: Result<string, GitError>)
    ensures r == ReadFile(repo, treeOid, filepath)
  {
    var parts := Split(filepath, '/');
    var currentTreeOid := treeOid;
    for i := 0 to |parts| - 1
      invariant WalkDirs(repo, treeOid, parts, 0) == WalkDirs(repo, currentTreeOid, parts, i)
    {
      var tree := ReadTree(repo, currentTreeOid);
      if tree.None? {
        return Err(ObjectNotFound(currentTreeOid));
      }
      var entry := Find(tree.value, parts[i]);
      if entry.None? || entry.value.kind != TreeKind {
        return Err(DirectoryNotFound(DirPrefix(parts, i)));
      }
      currentTreeOid := entry.value.oid;
    }
    var tree := ReadTree(repo, currentTreeOid);
    if tree.None? {
      return Err(ObjectNotFound(currentTreeOid));
    }
    var filename := parts[|parts| - 1];
    var entry := Find(tree.value, filename);
    if entry.None? || entry.value.kind != BlobKind {
      return Err(FileNotFound(filepath));
    }
    var blob := ReadBlob(repo, entry.value.oid);
    if blob.None? {
      return Err(ObjectNotFound(entry.value.oid));
    }
    r := Ok(blob.value);
  }

  /** The entry reached by following a sequence of names from a tree, every
      name but the last through a directory. */
  ghost function Lookup(repo: Repo, tree: ObjectId, names: seq<string>): Option<TreeEntry>
    requires |names| >= 1
    decreases |names|
  {
    match ReadTree(repo, tree)
    case None => None
    case Some(entries) =>
      match Find(entries, names[0])
      case None => None
      case Some(entry) =>
        if |names| == 1 then Some(entry)
        else if entry.kind == TreeKind then Lookup(repo, entry.oid, names[1..])
        else None
  }

  /** The content of the file reached by `names`, when it is a readable blob. */
  ghost function FileAt(repo: Repo, tree: ObjectId, names: seq<string>): Option<string>
    requires |names| >= 1
  {
    match Lookup(repo, tree, names)
    case Some(e) => if e.kind == BlobKind then ReadBlob(repo, e.oid) else None
    case None => None
  }

  /** The walk from component `i` on reads exactly the file the remaining names reach. */
  lemma {:induction false} WalkFindsFile(repo: Repo, current: ObjectId, parts: seq<string>, i: nat, filepath: string)
    requires i < |parts|
    ensures var r := match WalkDirs(repo, current, parts, i)
                     case Err(e) => Err(e)
                     case Ok(dir) => FileInDir(repo, dir, parts[|parts| - 1], filepath);
            (r.Ok? <==> FileAt(repo, current, parts[i..]).Some?)
            && (r.Ok? ==> r.value == FileAt(repo, current, parts[i..]).value)
    decreases |parts| - i
  {
    if i < |parts| - 1 {
      assert parts[i..][1..] == parts[i + 1..];
      match ReadTree(repo, current)
      case None =>
      case Some(tree) =>
        match Find(tree, parts[i])
        case None =>
        case Some(entry) =>
          if entry.kind == TreeKind {
            WalkFindsFile(repo, entry.oid, parts, i + 1, filepath);
          }
    } else {
      assert parts[i..] == [parts[|parts| - 1]];
    }
  }

  /** `readFileFromTree` succeeds exactly on the paths that lead through
      directories to a readable blob, and returns that blob's content: it fails
      when an intermediate component is missing or not a directory, or the
      last one is missing or not a file. */
  lemma ReadFileFindsFile(repo: Repo, treeOid: ObjectId, filepath: string)
    ensures ReadFile(repo, treeOid, filepath).Ok? <==> FileAt(repo, treeOid, Split(filepath, '/')).Some?
    ensures ReadFile(repo, treeOid, filepath).Ok? ==>
              ReadFile(repo, treeOid, filepath).value == FileAt(repo, treeOid, Split(filepath, '/')).value
  {
    var parts := Split(filepath, '/');
    WalkFindsFile(repo, treeOid, parts, 0, filepath);
    assert parts[0..] == parts;
  }

  /** A directory error of the walk names the components up to one that is
      not a directory: a proper prefix of the path. */
  lemma {:induction false} WalkErrorNamesPrefix(repo: Repo, current: ObjectId, parts: seq<string>, i: nat)
    requires i < |parts|
    ensures WalkDirs(repo, current, parts, i).Err? && WalkDirs(repo, current, parts, i).error.DirectoryNotFound? ==>
              exists k :: i <= k < |parts| - 1 && WalkDirs(repo, current, parts, i).error.path == DirPrefix(parts, k)
    decreases |parts| - i
  {
    if i < |parts| - 1 && ReadTree(repo, current).Some? {
      var entry := Find(ReadTree(repo, current).value, parts[i]);
      if entry.Some? && entry.value.kind == TreeKind {
        WalkErrorNamesPrefix(repo, entry.value.oid, parts, i + 1);
      }
    }
  }

  /** `readFileFromTree` fails only in the ways the source throws: an object
      that cannot be read, `Directory not found` for a proper prefix of the
      path's components, or `File not found` for the whole path. */
  lemma ReadFileErrors(repo: Repo, treeOid: ObjectId, filepath: string)
    ensures var r := ReadFile(repo, treeOid, filepath);
            var parts := Split(filepath, '/');
            r.Err? ==>
              || r.error.ObjectNotFound?
              || r.error == FileNotFound(filepath)
              || (r.error.DirectoryNotFound? && exists k :: 0 <= k < |parts| - 1 && r.error.path == DirPrefix(parts, k))
  {
    var parts := Split(filepath, '/');
    WalkErrorNamesPrefix(repo, treeOid, parts, 0);
    match WalkDirs(repo, treeOid, parts, 0)
    case Err(e) =>
      assert ReadFile(repo, treeOid, filepath) == Err(e);
      if e.DirectoryNotFound? {
        var k :| 0 <= k < |parts| - 1 && e.path == DirPrefix(parts, k);
        assert ReadFile(repo, treeOid, filepath).error.path == DirPrefix(Split(filepath, '/'), k);
        assert ReadFile(repo, treeOid, filepath).error.DirectoryNotFound?;
      }
    case Ok(dir) =>
      assert ReadFile(repo, treeOid, filepath) == FileInDir(repo, dir, parts[|parts| - 1], filepath);
  }

  // ---------------------------------------------------------------------
  // getTreeFiles

  /** The text `getTreeFiles` records for a blob: its content, or
      `[Binary file]` when the blob cannot be read. */
  function BlobText(repo: Repo, oid: ObjectId): (text: string)
    ensures ReadBlob(repo, oid).Some? ==> text == ReadBlob(repo, oid).value
    ensures ReadBlob(repo, oid).None? ==> text == "[Binary file]"
  {
    match ReadBlob(repo, oid)
    case Some(content) => content
    case None => "[Binary file]"
  }

  /** The one key a plain object does not store on assignment: setting
      `__proto__` to a string changes nothing. */
  const ProtoKey := "__proto__"

  /** `files[key] = value` on the plain object `files`. */
  function SetKey(files: map<string, string>, key: string, value: string): (r: map<string, string>)
    ensures key != ProtoKey ==> r == files[key := value]
    ensures key == ProtoKey ==> r == files
  {
    if key == ProtoKey then files else files[key := value]
  }

  /** The record of all files below `tree`, keyed by their path under `prefix`;
      an unreadable tree gives the empty record. */
  function TreeFiles(repo: Repo, ghost rank: map<ObjectId, nat>, tree: ObjectId, prefix: string): (files: map<string, string>)
    requires ValidStore(repo, rank)
    ensures ReadTree(repo, tree).None? ==> files == map[]
    decreases Rank(rank, tree), 1, 0
  {
    match ReadTree(repo, tree)
    case None => map[]
    case Some(entries) =>
      ReadTreeValid(repo, rank, tree);
      EntriesFiles(repo, rank, Rank(rank, tree), entries, prefix)
  }

  /** The record after the loop has visited `entries`: a blob sets its path,
      a subtree's record is merged in (later keys win, as `Object.assign`),
      a submodule entry is ignored. */
  function EntriesFiles(repo: Repo, ghost rank: map<ObjectId, nat>, ghost bound: nat,
                        entries: seq<TreeEntry>, prefix: string): map<string, string>
    requires ValidStore(repo, rank)
    requires forall e :: e in entries ==> Rank(rank, e.oid) < bound
    decreases bound, 0, |entries|
  {
    if entries == [] then map[]
    else
      var files := EntriesFiles(repo, rank, bound, entries[..|entries| - 1], prefix);
      var entry := entries[|entries| - 1];
      var fullPath := JoinPath(prefix, entry.path);
      if entry.kind == BlobKind then SetKey(files, fullPath, BlobText(repo, entry.oid))
      else if entry.kind == TreeKind then files + TreeFiles(repo, rank, entry.oid, fullPath)
      else files
  }

  /** `getTreeFiles`: reads the tree and fills `files` entry by entry,
      recursing into subtrees. */
  method GetTreeFiles(repo: Repo, ghost rank: map<ObjectId, nat>, treeOid: ObjectId, prefix: string)
    returns (files: map<string, string>)
    requires ValidStore(repo, rank)
    ensures files == TreeFiles(repo, rank, treeOid, prefix)
    decreases Rank(rank, treeOid)
  {
    files := map[];
    var tree := ReadTree(repo, treeOid);
    if tree.None? {
      return;
    }
    ReadTreeValid(repo, rank, treeOid);
    var entries := tree.value;
    ghost var bound := Rank(rank, treeOid);
    for i := 0 to |entries|
      invariant files == EntriesFiles(repo, rank, bound, entries[..i], prefix)
    {
      var entry := entries[i];
      var fullPath := JoinPath(prefix, entry.path);
      assert entries[..i + 1][..i] == entries[..i];
      if entry.kind == BlobKind {
        var blob := ReadBlob(repo, entry.oid);
        if blob.Some? {
          files := SetKey(files, fullPath, blob.value);
        } else {
          files := SetKey(files, fullPath, "[Binary file]");
        }
      } else if entry.kind == TreeKind {
        var subFiles := GetTreeFiles(repo, rank, entry.oid, fullPath);
        files := files + subFiles;
      }
    }
    assert entries[..|entries|] == entries;
  }

  /** Entry `e` puts `path` into the record: a blob at exactly its path,
      unless that path is `__proto__`, or a directory whose own record has `path`. */
  ghost predicate ProvidesKey(repo: Repo, rank: map<ObjectId, nat>, e: TreeEntry, prefix: string, path: string)
    requires ValidStore(repo, rank)
  {
    || (e.kind == BlobKind && path == JoinPath(prefix, e.path) && path != ProtoKey)
    || (e.kind == TreeKind && path in TreeFiles(repo, rank, e.oid, JoinPath(prefix, e.path)))
  }

  lemma {:induction false} EntriesFilesKeys(repo: Repo, rank: map<ObjectId, nat>, bound: nat,
                                            entries: seq<TreeEntry>, prefix: string, path: string)
    requires ValidStore(repo, rank)
    requires forall e :: e in entries ==> Rank(rank, e.oid) < bound
    ensures path in EntriesFiles(repo, rank, bound, entries, prefix) <==>
            exists e :: e in entries && ProvidesKey(repo, rank, e, prefix, path)
    decreases |entries|
  {
    if entries != [] {
      var init, last := entries[..|entries| - 1], entries[|entries| - 1];
      assert entries == init + [last];
      EntriesFilesKeys(repo, rank, bound, init, prefix, path);
      assert path in EntriesFiles(repo, rank, bound, entries, prefix) <==>
             path in EntriesFiles(repo, rank, bound, init, prefix) || ProvidesKey(repo, rank, last, prefix, path);
      if e :| e in entries && ProvidesKey(repo, rank, e, prefix, path) {
        if e != last {
          assert e in init;
        }
      }
    }
  }

  /** The record's keys are exactly the paths of the tree's blobs and the keys
      of its subdirectories' records; an unreadable tree has none. */
  lemma TreeFilesKeys(repo: Repo, rank: map<ObjectId, nat>, tree: ObjectId, prefix: string, path: string)
    requires ValidStore(repo, rank)
    ensures path in TreeFiles(repo, rank, tree, prefix) <==>
            ReadTree(repo, tree).Some? && exists e :: e in ReadTree(repo, tree).value && ProvidesKey(repo, rank, e, prefix, path)
  {
    if ReadTree(repo, tree).Some? {
      ReadTreeValid(repo, rank, tree);
      EntriesFilesKeys(repo, rank, Rank(rank, tree), ReadTree(repo, tree).value, prefix, path);
    }
  }

  /** Below a non-empty prefix every key lies in the directory `prefix`. */
  lemma {:induction false} TreeFilesUnder(repo: Repo, rank: map<ObjectId, nat>, tree: ObjectId, prefix: string, path: string)
    requires ValidStore(repo, rank) && prefix != ""
    requires path in TreeFiles(repo, rank, tree, prefix)
    ensures Under(path, prefix)
    decreases Rank(rank, tree)
  {
    TreeFilesKeys(repo, rank, tree, prefix, path);
    ReadTreeValid(repo, rank, tree);
    var e :| e in ReadTree(repo, tree).value && ProvidesKey(repo, rank, e, prefix, path);
    var fullPath := JoinPath(prefix, e.path);
    assert fullPath == prefix + "/" + e.path;
    if e.kind == TreeKind {
      assert ValidName(e.path);
      TreeFilesUnder(repo, rank, e.oid, fullPath, path);
    } else {
      assert Under(path, fullPath);
    }
    UnderParent(path, prefix, e.path);
  }

  /** No key of entry `other` lies at or below the path of a differently named entry `e`. */
  lemma KeyOfOtherEntry(repo: Repo, rank: map<ObjectId, nat>, prefix: string, e: TreeEntry, other: TreeEntry, path: string)
    requires ValidStore(repo, rank)
    requires ValidName(e.path) && ValidName(other.path) && e.path != other.path
    requires Under(path, JoinPath(prefix, e.path))
    ensures !ProvidesKey(repo, rank, other, prefix, path)
  {
    NamesDisjoint(prefix, e.path, other.path, path);
    var otherPath := JoinPath(prefix, other.path);
    if other.kind == TreeKind && path in TreeFiles(repo, rank, other.oid, otherPath) {
      TreeFilesUnder(repo, rank, other.oid, otherPath, path);
    }
  }

  /** A key at or below an entry's path keeps the value that entry gave it:
      no other entry of a valid tree overwrites it. */
  lemma {:induction false} EntriesFilesValue(repo: Repo, rank: map<ObjectId, nat>, bound: nat,
                                             entries: seq<TreeEntry>, prefix: string, e: TreeEntry, path: string)
    requires ValidStore(repo, rank)
    requires forall x :: x in entries ==> Rank(rank, x.oid) < bound
    requires ValidTree(entries) && e in entries && ProvidesKey(repo, rank, e, prefix, path)
    ensures path in EntriesFiles(repo, rank, bound, entries, prefix)
    ensures e.kind == BlobKind ==> EntriesFiles(repo, rank, bound, entries, prefix)[path] == BlobText(repo, e.oid)
    ensures e.kind == TreeKind ==>
              EntriesFiles(repo, rank, bound, entries, prefix)[path]
              == TreeFiles(repo, rank, e.oid, JoinPath(prefix, e.path))[path]
    decreases |entries|
  {
    var init, last := entries[..|entries| - 1], entries[|entries| - 1];
    if e != last {
      assert e in init;
      ValidTreeInit(entries);
      EntriesFilesValue(repo, rank, bound, init, prefix, e, path);
      if e.kind == TreeKind {
        assert ValidName(e.path);
        TreeFilesUnder(repo, rank, e.oid, JoinPath(prefix, e.path), path);
      }
      KeyOfOtherEntry(repo, rank, prefix, e, last, path);
    }
  }

  /** `__proto__` is never a key of the flattened record, at any depth. */
  lemma {:induction false} ProtoKeyNeverStored(repo: Repo, rank: map<ObjectId, nat>, tree: ObjectId, prefix: string)
    requires ValidStore(repo, rank)
    ensures ProtoKey !in TreeFiles(repo, rank, tree, prefix)
    decreases Rank(rank, tree)
  {
    TreeFilesKeys(repo, rank, tree, prefix, ProtoKey);
    if ReadTree(repo, tree).Some? {
      ReadTreeValid(repo, rank, tree);
      forall e | e in ReadTree(repo, tree).value
        ensures !ProvidesKey(repo, rank, e, prefix, ProtoKey)
      {
        ProtoKeyNeverStored(repo, rank, e.oid, JoinPath(prefix, e.path));
      }
    }
  }

  /** Every file path the walk reaches is a key of the flattened record,
      holding that blob's text, except the path `__proto__`. */
  lemma {:induction false} TreeFilesHoldsLookup(repo: Repo, rank: map<ObjectId, nat>, tree: ObjectId, prefix: string, names: seq<string>)
    requires ValidStore(repo, rank) && |names| >= 1
    requires Lookup(repo, tree, names).Some? && Lookup(repo, tree, names).value.kind == BlobKind
    ensures JoinAll(prefix, names) in TreeFiles(repo, rank, tree, prefix) <==> JoinAll(prefix, names) != ProtoKey
    ensures JoinAll(prefix, names) != ProtoKey ==>
              TreeFiles(repo, rank, tree, prefix)[JoinAll(prefix, names)] == BlobText(repo, Lookup(repo, tree, names).value.oid)
    decreases |names|
  {
    if JoinAll(prefix, names) == ProtoKey {
      ProtoKeyNeverStored(repo, rank, tree, prefix);
      return;
    }
    var entries := ReadTree(repo, tree).value;
    ReadTreeValid(repo, rank, tree);
    var entry := Find(entries, names[0]).value;
    var fullPath := JoinPath(prefix, entry.path);
    if |names| == 1 {
      EntriesFilesValue(repo, rank, Rank(rank, tree), entries, prefix, entry, JoinAll(prefix, names));
    } else {
      TreeFilesHoldsLookup(repo, rank, entry.oid, fullPath, names[1..]);
      EntriesFilesValue(repo, rank, Rank(rank, tree), entries, prefix, entry, JoinAll(prefix, names));
    }
  }

  /** Joining names one by one below `prefix` with `JoinPath`. */
  function JoinAll(prefix: string, names: seq<string>): string
    requires |names| >= 1
    decreases |names|
  {
    if |names| == 1 then JoinPath(prefix, names[0]) else JoinAll(JoinPath(prefix, names[0]), names[1..])
  }

  /** Below a non-empty prefix, `JoinAll` is the prefix, a slash and the joined names. */
  lemma {:induction false} JoinAllIsJoin(prefix: string, names: seq<string>)
    requires |names| >= 1 && forall i :: 0 <= i < |names| ==> names[i] != ""
    ensures prefix != "" ==> JoinAll(prefix, names) == prefix + "/" + Join(names, '/')
    ensures prefix == "" ==> JoinAll(prefix, names) == Join(names, '/')
    decreases |names|
  {
    if |names| > 1 {
      JoinAllIsJoin(JoinPath(prefix, names[0]), names[1..]);
      assert Join(names, '/') == names[0] + "/" + Join(names[1..], '/');
    }
  }

  /** `getTreeFiles` and `readFileFromTree` agree: every path that leads to a
      file, except `__proto__`, is a key of the flattened record, and the record
      holds exactly what `readFileFromTree` returns, or `[Binary file]` where
      reading the blob fails. */
  lemma TreeFilesAgreesWithReadFile(repo: Repo, rank: map<ObjectId, nat>, tree: ObjectId, names: seq<string>)
    requires ValidStore(repo, rank) && |names| >= 1
    requires forall i :: 0 <= i < |names| ==> ValidName(names[i])
    requires Lookup(repo, tree, names).Some? && Lookup(repo, tree, names).value.kind == BlobKind
    ensures Join(names, '/') in TreeFiles(repo, rank, tree, "") <==> Join(names, '/') != ProtoKey
    ensures Join(names, '/') != ProtoKey && ReadFile(repo, tree, Join(names, '/')).Ok? ==>
              TreeFiles(repo, rank, tree, "")[Join(names, '/')] == ReadFile(repo, tree, Join(names, '/')).value
    ensures Join(names, '/') != ProtoKey && ReadFile(repo, tree, Join(names, '/')).Err? ==>
              TreeFiles(repo, rank, tree, "")[Join(names, '/')] == "[Binary file]"
  {
    TreeFilesHoldsLookup(repo, rank, tree, "", names);
    JoinAllIsJoin("", names);
    SplitJoin(names, '/');
    ReadFileFindsFile(repo, tree, Join(names, '/'));
  }
}
