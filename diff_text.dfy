/** `GitService.getDiff` (src/services/git.service.ts): the unified-diff text
    for two commits, assembled block by block from the changed paths. File
    contents come from `readFileFromTree`; the patch of a modified file comes
    from the `createPatch` function of the jsdiff library, which is a
    parameter here. */
module DiffText {
  import opened Common
  import opened Text
  import opened GitObjects
  import opened TreeDiff
  import opened TreeRead

  /** At most this many changed files are rendered. */
  const MaxFilesShown: nat := 10

  /** Files longer than this are not passed to `createPatch`. */
  const MaxFileLength: nat := 1024 * 1024

  /** `Diff.createPatch(path, oldContent, newContent, 'a/' + path, 'b/' + path, {context: 3})`. */
  type PatchMaker = (string, string, string) -> string

  /** The first line of every file block. */
  function BlockHeader(path: string): string {
    "diff --git a/" + path + " b/" + path + "\n"
  }

  /** The hunk of a file that only the second commit has: every line of its
      content prefixed by `+`, counted as `content.split('\n').length`. */
  function AddedHunk(path: string, content: string): string {
    var lines := Split(content, '\n');
    AddedHeader(path, |lines|) + MarkLines('+', lines)
  }

  /** The four header lines of a new file's hunk, announcing `count` lines. */
  function AddedHeader(path: string, count: nat): string {
    "new file mode 100644\n--- /dev/null\n+++ b/" + path + "\n@@ -0,0 +1," + NatToString(count) + " @@\n"
  }

  /** The four header lines of a deleted file's hunk, announcing `count` lines. */
  function DeletedHeader(path: string, count: nat): string {
    "deleted file mode 100644\n--- a/" + path + "\n+++ /dev/null\n@@ -1," + NatToString(count) + " +0,0 @@\n"
  }

  /** The hunk of a file that only the first commit has, every line prefixed by `-`. */
  function DeletedHunk(path: string, content: string): string {
    var lines := Split(content, '\n');
    DeletedHeader(path, |lines|) + MarkLines('-', lines)
  }

  /** What is shown instead of a file whose content cannot be read. */
  function ReadErrorPlaceholder(path: string): string {
    "--- a/" + path + "\n+++ b/" + path + "\n@@ Binary file or read error @@\n"
  }

  /** What is shown instead of a modified file longer than `MaxFileLength`. */
  function TooLargePlaceholder(path: string): string {
    "--- a/" + path + "\n+++ b/" + path + "\n@@ File too large to display @@\n"
  }

  /** `patch.split('\n').slice(2).join('\n') + '\n'`: the patch without its
      `Index:` and `===` lines. */
  function PatchBody(patch: string): string {
    var lines := Split(patch, '\n');
    Join(if |lines| >= 2 then lines[2..] else [], '\n') + "\n"
  }

  /** Dropping the two header lines leaves exactly the rest of the patch. */
  lemma PatchBodyDropsHeader(index: string, separator: string, rest: string)
    requires '\n' !in index && '\n' !in separator
    ensures PatchBody(index + "\n" + separator + "\n" + rest) == rest + "\n"
  {
    SplitAfterPiece(separator, rest, '\n');
    assert index + "\n" + separator + "\n" + rest == index + ['\n'] + (separator + ['\n'] + rest);
    SplitAfterPiece(index, separator + ['\n'] + rest, '\n');
    assert (([index] + ([separator] + Split(rest, '\n')))[2..]) == Split(rest, '\n');
    JoinSplit(rest, '\n');
  }

  /** The body of a modified file's block. */
  function ModifiedBody(path: string, before: Result<string, GitError>, after: Result<string, GitError>,
                        createPatch: PatchMaker): string
  {
    if before.Err? || after.Err? then ReadErrorPlaceholder(path)
    else if |before.value| > MaxFileLength || |after.value| > MaxFileLength then TooLargePlaceholder(path)
    else PatchBody(createPatch(path, before.value, after.value))
  }

  /** The block of one changed path: the header, then the new-file or
      deleted-file hunk, the patch, or a placeholder, then an empty line. */
  function FileBlock(repo: Repo, tree1: ObjectId, tree2: ObjectId, change: Change, createPatch: PatchMaker): string {
    BlockHeader(change.path) + BlockBody(repo, tree1, tree2, change, createPatch) + "\n"
  }

  /** What follows the header line in the block of one changed path. */
  function BlockBody(repo: Repo, tree1: ObjectId, tree2: ObjectId, change: Change, createPatch: PatchMaker): string {
    var path := change.path;
    match change.kind
    case Added =>
      (match ReadFile(repo, tree2, path)
       case Ok(content) => AddedHunk(path, content)
       case Err(_) => ReadErrorPlaceholder(path))
    case Deleted =>
      (match ReadFile(repo, tree1, path)
       case Ok(content) => DeletedHunk(path, content)
       case Err(_) => ReadErrorPlaceholder(path))
    case Modified =>
      ModifiedBody(path, ReadFile(repo, tree1, path), ReadFile(repo, tree2, path), createPatch)
  }

  /** The strings one after the other. */
  function Concat(parts: seq<string>): string {
    if parts == [] then "" else Concat(parts[..|parts| - 1]) + parts[|parts| - 1]
  }

  /** The blocks of the given changes, in their order. */
  function Blocks(repo: Repo, tree1: ObjectId, tree2: ObjectId, changes: seq<Change>, createPatch: PatchMaker): seq<string> {
    seq(|changes|, i requires 0 <= i < |changes| => FileBlock(repo, tree1, tree2, changes[i], createPatch))
  }

  /** The note after the blocks when some changes were not rendered. */
  function MoreFilesNote(count: nat): string {
    if count > MaxFilesShown
    then "\n# " + NatToString(count - MaxFilesShown) + " more file(s) changed (showing first 10 for performance)\n"
    else ""
  }

  /** The text when the two trees do not differ. */
  function NoChangesText(oid1: ObjectId, oid2: ObjectId): string {
    "diff --git a/" + oid1 + " b/" + oid2 + "\n\nNo changes found."
  }

  function Min(a: nat, b: nat): nat {
    if a <= b then a else b
  }

  /** The context `getDiff` puts in front of any error it throws. */
  const DiffFailure := "Failed to get diff"

  /** What `getDiff(commitOid1, commitOid2)` returns or throws. */
  function Diff(repo: Repo, ghost rank: map<ObjectId, nat>, oid1: ObjectId, oid2: ObjectId, createPatch: PatchMaker)
    : (r: Result<string, GitError>)
    requires ValidStore(repo, rank)
    ensures r.Ok? <==> ReadCommit(repo, oid1).Some? && ReadCommit(repo, oid2).Some?
    ensures r.Err? ==> r.error.Failed? && r.error.operation == DiffFailure && r.error.cause.ObjectNotFound?
  {
    match ReadCommit(repo, oid1)
    case None => Err(Failed(DiffFailure, ObjectNotFound(oid1)))
    case Some(commit1) =>
      match ReadCommit(repo, oid2)
      case None => Err(Failed(DiffFailure, ObjectNotFound(oid2)))
      case Some(commit2) =>
        var changes := ChangedFiles(repo, rank, commit1.tree, commit2.tree, "");
        if |changes| == 0 then Ok(NoChangesText(oid1, oid2))
        else
          var shown := changes[..Min(MaxFilesShown, |changes|)];
          Ok(Concat(Blocks(repo, commit1.tree, commit2.tree, shown, createPatch)) + MoreFilesNote(|changes|))
  }

  // ---------------------------------------------------------------------
  // The imperative assembly

  /** `lines.forEach(line => { diffOutput += `${mark}${line}\n` })`. */
  method AppendMarkedLines(output: string, mark: char, lines: seq<string>) returns (result: string)
    ensures result == output + MarkLines(mark, lines)
  {
    result := output;
    for k := 0 to |lines|
      invariant result == output + MarkLines(mark, lines[..k])
    {
      MarkLinesAppend(mark, lines[..k], lines[k]);
      assert lines[..k + 1] == lines[..k] + [lines[k]];
      result := result + [mark] + lines[k] + "\n";
    }
    assert lines[..|lines|] == lines;
  }

  /** One iteration of the loop over the files to show: appends the block of `change`. */
  method AppendFileBlock(output: string, repo: Repo, tree1: ObjectId, tree2: ObjectId, change: Change,
                         createPatch: PatchMaker) returns (result: string)
    ensures result == output + FileBlock(repo, tree1, tree2, change, createPatch)
  {
    var path := change.path;
    var body: string;
    if change.kind == Added {
      var content := ReadFileFromTree(repo, tree2, path);
      if content.Ok? {
        var lines := Split(content.value, '\n');
        body := AddedHeader(path, |lines|);
        body := AppendMarkedLines(body, '+', lines);
      } else {
        body := ReadErrorPlaceholder(path);
      }
    } else if change.kind == Deleted {
      var content := ReadFileFromTree(repo, tree1, path);
      if content.Ok? {
        var lines := Split(content.value, '\n');
        body := DeletedHeader(path, |lines|);
        body := AppendMarkedLines(body, '-', lines);
      } else {
        body := ReadErrorPlaceholder(path);
      }
    } else {
      var content1 := ReadFileFromTree(repo, tree1, path);
      var content2 := ReadFileFromTree(repo, tree2, path);
      if content1.Err? || content2.Err? {
        body := ReadErrorPlaceholder(path);
      } else if |content1.value| > MaxFileLength || |content2.value| > MaxFileLength {
        body := TooLargePlaceholder(path);
      } else {
        var patch := createPatch(path, content1.value, content2.value);
        body := PatchBody(patch);
      }
    }
    assert body == BlockBody(repo, tree1, tree2, change, createPatch);
    result := output + (BlockHeader(path) + body + "\n");
  }

  /** `getDiff`: reads both commits, lists the changed files, and appends the
      block of each of the first ten, then the note about the rest. */
  method GetDiff(repo: Repo, ghost rank: map<ObjectId, nat>, commitOid1: ObjectId, commitOid2: ObjectId,
                 createPatch: PatchMaker) returns (r: Result<string, GitError>)
    requires ValidStore(repo, rank)
    ensures r == Diff(repo, rank, commitOid1, commitOid2, createPatch)
  {
    var commit1 := ReadCommit(repo, commitOid1);
    if commit1.None? {
      return Err(Failed(DiffFailure, ObjectNotFound(commitOid1)));
    }
    var commit2 := ReadCommit(repo, commitOid2);
    if commit2.None? {
      return Err(Failed(DiffFailure, ObjectNotFound(commitOid2)));
    }
    var tree1, tree2 := commit1.value.tree, commit2.value.tree;
    var changes := GetChangedFiles(repo, rank, tree1, tree2, "");
    if |changes| == 0 {
      return Ok(NoChangesText(commitOid1, commitOid2));
    }
    var diffOutput := "";
    var filesToShow := changes[..Min(MaxFilesShown, |changes|)];
    for i := 0 to |filesToShow|
      invariant diffOutput == Concat(Blocks(repo, tree1, tree2, filesToShow[..i], createPatch))
    {
      BlocksAppend(repo, tree1, tree2, filesToShow, i, createPatch);
      diffOutput := AppendFileBlock(diffOutput, repo, tree1, tree2, filesToShow[i], createPatch);
    }
    assert filesToShow[..|filesToShow|] == filesToShow;
    ghost var blocks := diffOutput;
    if |changes| > MaxFilesShown {
      diffOutput := diffOutput + MoreFilesNote(|changes|);
    } else {
      assert blocks + MoreFilesNote(|changes|) == blocks;
    }
    assert diffOutput == blocks + MoreFilesNote(|changes|);
    r := Ok(diffOutput);
  }

  // ---------------------------------------------------------------------
  // What the text says

  /** `getDiff` throws exactly when one of the commits cannot be read. */
  lemma DiffFailsOnlyOnMissingCommit(repo: Repo, rank: map<ObjectId, nat>, oid1: ObjectId, oid2: ObjectId, createPatch: PatchMaker)
    requires ValidStore(repo, rank)
    ensures Diff(repo, rank, oid1, oid2, createPatch).Err? <==> ReadCommit(repo, oid1).None? || ReadCommit(repo, oid2).None?
    ensures ReadCommit(repo, oid1).None? ==> Diff(repo, rank, oid1, oid2, createPatch) == Err(Failed(DiffFailure, ObjectNotFound(oid1)))
  {
  }

  /** The last character of a non-empty rendering is a newline. */
  lemma BlocksEndWithNewline(repo: Repo, tree1: ObjectId, tree2: ObjectId, changes: seq<Change>, createPatch: PatchMaker)
    requires |changes| >= 1
    ensures var text := Concat(Blocks(repo, tree1, tree2, changes, createPatch));
            |text| >= 1 && text[|text| - 1] == '\n'
  {
    var blocks := Blocks(repo, tree1, tree2, changes, createPatch);
    var last := blocks[|blocks| - 1];
    FileBlockEndsWithNewline(repo, tree1, tree2, changes[|changes| - 1], createPatch);
    assert Concat(blocks) == Concat(blocks[..|blocks| - 1]) + last;
  }

  /** Every block ends with the empty line that separates it from the next. */
  lemma FileBlockEndsWithNewline(repo: Repo, tree1: ObjectId, tree2: ObjectId, change: Change, createPatch: PatchMaker)
    ensures var block := FileBlock(repo, tree1, tree2, change, createPatch);
            |block| >= 1 && block[|block| - 1] == '\n'
  {
    var body := BlockBody(repo, tree1, tree2, change, createPatch);
    var block := BlockHeader(change.path) + body + "\n";
    assert block[|block| - 1] == '\n';
  }

  /** Rendering one more change appends its block. */
  lemma BlocksAppend(repo: Repo, tree1: ObjectId, tree2: ObjectId, changes: seq<Change>, i: nat, createPatch: PatchMaker)
    requires i < |changes|
    ensures Concat(Blocks(repo, tree1, tree2, changes[..i + 1], createPatch))
            == Concat(Blocks(repo, tree1, tree2, changes[..i], createPatch)) + FileBlock(repo, tree1, tree2, changes[i], createPatch)
  {
    var blocks := Blocks(repo, tree1, tree2, changes[..i + 1], createPatch);
    assert blocks[..i] == Blocks(repo, tree1, tree2, changes[..i], createPatch);
  }

  /** Two commits whose trees do not differ give the `No changes found.` text,
      and only then. */
  lemma DiffWithoutChanges(repo: Repo, rank: map<ObjectId, nat>, oid1: ObjectId, oid2: ObjectId, createPatch: PatchMaker)
    requires ValidStore(repo, rank)
    requires ReadCommit(repo, oid1).Some? && ReadCommit(repo, oid2).Some?
    ensures var changes := ChangedFiles(repo, rank, ReadCommit(repo, oid1).value.tree, ReadCommit(repo, oid2).value.tree, "");
            changes == [] <==> Diff(repo, rank, oid1, oid2, createPatch) == Ok(NoChangesText(oid1, oid2))
  {
    var tree1, tree2 := ReadCommit(repo, oid1).value.tree, ReadCommit(repo, oid2).value.tree;
    var changes := ChangedFiles(repo, rank, tree1, tree2, "");
    if changes != [] {
      var shown := changes[..Min(MaxFilesShown, |changes|)];
      var blocks := Concat(Blocks(repo, tree1, tree2, shown, createPatch));
      var note := MoreFilesNote(|changes|);
      BlocksEndWithNewline(repo, tree1, tree2, shown, createPatch);
      var text := blocks + note;
      assert text[|text| - 1] == '\n' by {
        if note == "" {
          assert text == blocks;
        } else {
          assert text[|text| - 1] == note[|note| - 1];
        }
      }
      var none := NoChangesText(oid1, oid2);
      assert none[|none| - 1] == '.';
    }
  }

  /** When the trees differ, the text is the blocks of the first
      `min(10, n)` changes in their order, followed by the note about the
      `n - 10` others exactly when there are more than ten. */
  lemma DiffShowsFirstTen(repo: Repo, rank: map<ObjectId, nat>, oid1: ObjectId, oid2: ObjectId, createPatch: PatchMaker)
    requires ValidStore(repo, rank)
    requires ReadCommit(repo, oid1).Some? && ReadCommit(repo, oid2).Some?
    requires ChangedFiles(repo, rank, ReadCommit(repo, oid1).value.tree, ReadCommit(repo, oid2).value.tree, "") != []
    ensures var tree1, tree2 := ReadCommit(repo, oid1).value.tree, ReadCommit(repo, oid2).value.tree;
            var changes := ChangedFiles(repo, rank, tree1, tree2, "");
            exists blocks: seq<string> ::
              && |blocks| == Min(MaxFilesShown, |changes|)
              && (forall i :: 0 <= i < |blocks| ==> blocks[i] == FileBlock(repo, tree1, tree2, changes[i], createPatch))
              && Diff(repo, rank, oid1, oid2, createPatch) == Ok(Concat(blocks) + MoreFilesNote(|changes|))
    ensures MoreFilesNote(|ChangedFiles(repo, rank, ReadCommit(repo, oid1).value.tree, ReadCommit(repo, oid2).value.tree, "")|) != ""
            <==> |ChangedFiles(repo, rank, ReadCommit(repo, oid1).value.tree, ReadCommit(repo, oid2).value.tree, "")| > MaxFilesShown
  {
    var tree1, tree2 := ReadCommit(repo, oid1).value.tree, ReadCommit(repo, oid2).value.tree;
    var changes := ChangedFiles(repo, rank, tree1, tree2, "");
    var shown := changes[..Min(MaxFilesShown, |changes|)];
    var blocks := Blocks(repo, tree1, tree2, shown, createPatch);
    assert forall i :: 0 <= i < |blocks| ==> blocks[i] == FileBlock(repo, tree1, tree2, changes[i], createPatch);
  }

  /** The note's count reads back as the number of changes not shown. */
  lemma MoreFilesNoteCount(count: nat)
    requires count > MaxFilesShown
    ensures var note := MoreFilesNote(count);
            var digits := NatToString(count - MaxFilesShown);
            note[..3] == "\n# " && note[3..3 + |digits|] == digits && DigitsValue(digits) == count - MaxFilesShown
  {
    NatToStringRoundTrip(count - MaxFilesShown);
  }

  /** A new file's hunk header counts `content.split('\n').length` lines, and
      that is exactly the number of `+` lines after it, which together spell
      the content; a content ending in a newline has one more, empty line. */
  lemma AddedHunkLines(path: string, content: string)
    ensures var lines := Split(content, '\n');
            var header := "new file mode 100644\n--- /dev/null\n+++ b/" + path + "\n@@ -0,0 +1," + NatToString(|lines|) + " @@\n";
            var body := MarkLines('+', lines);
            var emitted := Split(body, '\n')[..Count(body, '\n')];
            && AddedHunk(path, content) == header + body
            && DigitsValue(NatToString(|lines|)) == |emitted|
            && (forall i :: 0 <= i < |emitted| ==> |emitted[i]| >= 1 && emitted[i][0] == '+')
            && Join(seq(|emitted|, i requires 0 <= i < |emitted| => emitted[i][1..]), '\n') == content
  {
    HunkRoundTrip('+', content);
    NatToStringRoundTrip(|Split(content, '\n')|);
  }

  /** The same for a deleted file's hunk and its `-` lines. */
  lemma DeletedHunkLines(path: string, content: string)
    ensures var lines := Split(content, '\n');
            var header := "deleted file mode 100644\n--- a/" + path + "\n+++ /dev/null\n@@ -1," + NatToString(|lines|) + " +0,0 @@\n";
            var body := MarkLines('-', lines);
            var emitted := Split(body, '\n')[..Count(body, '\n')];
            && DeletedHunk(path, content) == header + body
            && DigitsValue(NatToString(|lines|)) == |emitted|
            && (forall i :: 0 <= i < |emitted| ==> |emitted[i]| >= 1 && emitted[i][0] == '-')
            && Join(seq(|emitted|, i requires 0 <= i < |emitted| => emitted[i][1..]), '\n') == content
  {
    HunkRoundTrip('-', content);
    NatToStringRoundTrip(|Split(content, '\n')|);
  }

  /** Content that ends in a newline gets one more hunk line than without
      it, and that line is empty. */
  lemma TrailingNewlineAddsEmptyLine(content: string)
    ensures Split(content + "\n", '\n') == Split(content, '\n') + [""]
    ensures |Split(content + "\n", '\n')| == |Split(content, '\n')| + 1
  {
    SplitTrailingSeparator(content, '\n');
  }

  /** A modified file is passed to `createPatch` only when both contents were
      read and neither is longer than 1 MiB; a read failure wins over size. */
  lemma ModifiedBodyCases(path: string, before: Result<string, GitError>, after: Result<string, GitError>, createPatch: PatchMaker)
    ensures ModifiedBody(path, before, after, createPatch) == ReadErrorPlaceholder(path) <== before.Err? || after.Err?
    ensures before.Ok? && after.Ok? && (|before.value| > MaxFileLength || |after.value| > MaxFileLength) ==>
              ModifiedBody(path, before, after, createPatch) == TooLargePlaceholder(path)
    ensures before.Ok? && after.Ok? && |before.value| <= MaxFileLength && |after.value| <= MaxFileLength ==>
              ModifiedBody(path, before, after, createPatch) == PatchBody(createPatch(path, before.value, after.value))
  {
  }
}
