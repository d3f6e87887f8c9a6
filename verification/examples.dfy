/** Worked examples of the parser on small listings. */
module Examples {
  import opened Wrappers
  import opened Text
  import opened Porcelain
  import opened Listing
  import opened CurrentWorktree

  /** `branch refs/heads/feature/x` gives the branch name `feature/x`. */
  lemma BranchOfFeature()
    ensures BranchName("refs/heads/feature/x") == "feature/x"
  {
    RemoveFirstAt("refs/heads/feature/x", HeadsRef, 0);
  }

  /** The first `refs/heads/` is removed wherever it stands, not only at the start. */
  lemma BranchRemovesInnerRef()
    ensures BranchName("origin/refs/heads/x") == "origin/x"
  {
    var s := "origin/refs/heads/x";
    assert s == "origin/" + HeadsRef + "x";
    assert OccursAt(s, HeadsRef, 7) by {
      assert s[7..18] == HeadsRef;
    }
    forall j | 0 <= j < 7 ensures !OccursAt(s, HeadsRef, j) {
      if j == 1 {
        Mismatch(s, HeadsRef, 1, 1);
      } else {
        Mismatch(s, HeadsRef, j, 0);
      }
    }
    RemoveFirstAt(s, HeadsRef, 7);
  }

  /** Empty output splits into one empty line and yields no record. */
  lemma EmptyOutput()
    ensures SplitLines("") == [""]
    ensures ParseLines(SplitLines("")) == []
  {
    ParseOneBlock([]);
    RecordDefaults([]);
  }

  /** The fields of a block without a `branch ` line. */
  lemma DetachedBlockFields()
    ensures BlockFields(["worktree /wt", "HEAD abc", "detached"]) == Fields(Some("/wt"), Some("abc"), None)
  {
    var l0, l1, l2 := "worktree /wt", "HEAD abc", "detached";
    assert StartsWith(l0, WorktreePrefix) && l0[9..] == "/wt";
    assert StartsWith(l1, HeadPrefix) && l1[5..] == "abc";
    Mismatch(l1, WorktreePrefix, 0, 0);
    Mismatch(l2, WorktreePrefix, 0, 0);
    Mismatch(l2, HeadPrefix, 0, 0);
    Mismatch(l2, BranchPrefix, 0, 0);
    LaterLineOverwrites([], l0);
    LaterLineOverwrites([l0], l1);
    LaterLineOverwrites([l0, l1], l2);
    assert [] + [l0] == [l0] && [l0] + [l1] == [l0, l1] && [l0, l1] + [l2] == [l0, l1, l2];
  }

  /** A block without a `branch ` line is reported as `detached`. */
  lemma DetachedBlock()
    ensures ParseLines(["worktree /wt", "HEAD abc", "detached", ""]) ==
      [WorktreeInfo("/wt", "detached", "abc", false)]
  {
    var block := ["worktree /wt", "HEAD abc", "detached"];
    assert block + [""] == ["worktree /wt", "HEAD abc", "detached", ""];
    ParseOneBlock(block);
    DetachedBlockFields();
  }

  /** The listing of `/repo` on `main` and `/repo-feature` on `feature-x`, in that order. */
  lemma TwoWorktreesParsed()
    ensures ParseLines([
      "worktree /repo", "HEAD abc", "branch refs/heads/main", "",
      "worktree /repo-feature", "HEAD def", "branch refs/heads/feature-x", ""]) ==
      [WorktreeInfo("/repo", "main", "abc", false), WorktreeInfo("/repo-feature", "feature-x", "def", false)]
  {
    var w1, w2 := WorktreeInfo("/repo", "main", "abc", false), WorktreeInfo("/repo-feature", "feature-x", "def", false);
    var a, b := Written(w1), Written(w2);
    RepoListing();
    assert ParseLines(a) == [w1] by { ParseEntry(w1); }
    assert ParseLines(b) == [w2] by { ParseEntry(w2); }
    ParseAppend(a, b);
  }

  /** The lines of the two-worktree listing, entry by entry. */
  lemma RepoListing()
    ensures Written(WorktreeInfo("/repo", "main", "abc", false)) +
      Written(WorktreeInfo("/repo-feature", "feature-x", "def", false)) == [
      "worktree /repo", "HEAD abc", "branch refs/heads/main", "",
      "worktree /repo-feature", "HEAD def", "branch refs/heads/feature-x", ""]
  {
    WrittenLines("/repo", "abc", "main");
    WrittenLines("/repo-feature", "def", "feature-x");
    assert "worktree " + "/repo" == "worktree /repo" && "HEAD " + "abc" == "HEAD abc";
    assert "branch refs/heads/" + "main" == "branch refs/heads/main";
    assert "worktree " + "/repo-feature" == "worktree /repo-feature" && "HEAD " + "def" == "HEAD def";
    assert "branch refs/heads/" + "feature-x" == "branch refs/heads/feature-x";
  }

  /** The lines written for one worktree, with the prefixes spelled out. */
  lemma WrittenLines(path: string, commit: string, name: string)
    ensures Written(WorktreeInfo(path, name, commit, false)) ==
      ["worktree " + path, "HEAD " + commit, "branch refs/heads/" + name, ""]
  {
    assert BranchPrefix + HeadsRef == "branch refs/heads/";
    assert BranchPrefix + HeadsRef + name == (BranchPrefix + HeadsRef) + name;
  }

  /** Queried from `/repo`, the first of the two worktrees is current and the second is not. */
  lemma TwoWorktrees()
    ensures MarkCurrent(ParseLines([
      "worktree /repo", "HEAD abc", "branch refs/heads/main", "",
      "worktree /repo-feature", "HEAD def", "branch refs/heads/feature-x", ""]), Some("/repo")) ==
      [WorktreeInfo("/repo", "main", "abc", true), WorktreeInfo("/repo-feature", "feature-x", "def", false)]
  {
    TwoWorktreesParsed();
    var ws := [WorktreeInfo("/repo", "main", "abc", false), WorktreeInfo("/repo-feature", "feature-x", "def", false)];
    assert MarkFirst(ws, "/repo") == [ws[0].(isCurrent := true)] + ws[1..];
  }
}
