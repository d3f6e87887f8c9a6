/**
 * `WorktreeProvider.parseWorktreeList`: the parser of
 * `git worktree list --porcelain` output, with the marking of the current
 * worktree. The workspace root that `parseWorktreeList` reads from the editor
 * is a parameter here. Its line loop and its marking step are two methods.
 */
module WorktreeProvider {
  import opened Wrappers
  import opened Text
  import opened Porcelain
  import opened Listing
  import opened CurrentWorktree

  /**
   * The line loop: sets the fields of the record in progress from
   * `worktree `, `HEAD ` and `branch ` lines, and at each empty line pushes
   * the record when its path is non-empty and starts a new one.
   */
  method CollectWorktrees(lines: seq<string>) returns (worktrees: seq<WorktreeInfo>)
    ensures worktrees == ParseLines(lines)
  {
    worktrees := [];
    var current := NoFields;

    for n := 0 to |lines|
      invariant current == BlockFields(Blocks(lines[..n]).open)
      invariant worktrees == RecordsOf(Blocks(lines[..n]).closed)
    {
      var line := lines[n];
      assert lines[..n + 1][..n] == lines[..n] && lines[..n + 1][n] == line;
      ghost var open := Blocks(lines[..n]).open;
      if StartsWith(line, "worktree ") {
        current := current.(path := Some(line[9..]));
        LaterLineOverwrites(open, line);
      } else if StartsWith(line, "HEAD ") {
        current := current.(commit := Some(line[5..]));
        LaterLineOverwrites(open, line);
      } else if StartsWith(line, "branch ") {
        current := current.(branch := Some(RemoveFirst(line[7..], "refs/heads/")));
        LaterLineOverwrites(open, line);
      } else if line == "" {
        if current.path.Some? && current.path.value != "" {
          worktrees := worktrees + [
            WorktreeInfo(
              current.path.value,
              if current.branch.Some? && current.branch.value != "" then current.branch.value else "detached",
              if current.commit.Some? && current.commit.value != "" then current.commit.value else "",
              false)];
        }
        current := NoFields;
        ghost var closed := Blocks(lines[..n]).closed;
        assert (closed + [open])[..|closed|] == closed;
      } else {
        LaterLineOverwrites(open, line);
      }
    }
    assert lines[..|lines|] == lines;
  }

  /**
   * The marking step: when the root is set and non-empty, finds the first
   * record whose path equals it and sets its `isCurrent`.
   */
  method MarkCurrentWorktree(parsed: seq<WorktreeInfo>, root: Option<string>) returns (worktrees: seq<WorktreeInfo>)
    ensures worktrees == MarkCurrent(parsed, root)
  {
    worktrees := parsed;
    if root.Some? && root.value != "" {
      var currentPath := root.value;
      var k := 0;
      while k < |worktrees| && worktrees[k].path != currentPath
        invariant k <= |worktrees|
        invariant forall j :: 0 <= j < k ==> worktrees[j].path != currentPath
      {
        k := k + 1;
      }
      if k < |worktrees| {
        MarkFirstAt(worktrees, currentPath, k);
        worktrees := worktrees[k := worktrees[k].(isCurrent := true)];
      } else {
        MarkFirstNone(worktrees, currentPath);
      }
    }
  }

  /**
   * The whole parse: every record has a path and a branch, and a record is
   * current exactly when it is the first whose path equals a non-empty root.
   */
  method ParseWorktreeList(output: string, root: Option<string>) returns (worktrees: seq<WorktreeInfo>)
    ensures worktrees == MarkCurrent(ParseLines(SplitLines(output)), root)
    ensures forall i :: 0 <= i < |worktrees| ==> worktrees[i].path != "" && worktrees[i].branch != ""
    ensures forall i :: 0 <= i < |worktrees| ==>
      (worktrees[i].isCurrent <==> HasRoot(root) && FirstWithPath(worktrees, root.value, i))
  {
    var lines := SplitLines(output);
    var parsed := CollectWorktrees(lines);
    worktrees := MarkCurrentWorktree(parsed, root);
    ParsedRecordsShape(lines);
    MarkKeepsRecords(parsed, root);
    MarkedIsFirstMatch(parsed, root);
    forall i | 0 <= i < |worktrees| && HasRoot(root)
      ensures FirstWithPath(worktrees, root.value, i) <==> FirstWithPath(parsed, root.value, i)
    {
    }
  }
}
