/**
 * The records that `git worktree list --porcelain` describes, and a
 * block-by-block definition of what the parser of src/worktreeProvider.ts
 * makes of the lines of that listing.
 *
 * A listing is a sequence of lines. Every empty line closes a block; lines
 * after the last empty line form an open block that is never closed. Within a
 * block only the LAST `worktree `, `HEAD ` and `branch ` line counts, and
 * every other line is ignored.
 */
module Porcelain {
  import opened Wrappers
  import opened Text

  /** One entry of the worktree list (the `WorktreeInfo` interface). */
  datatype WorktreeInfo = WorktreeInfo(path: string, branch: string, commit: string, isCurrent: bool)

  /** The fields of the record in progress; `None` is a field never set. */
  datatype Fields = Fields(path: Option<string>, commit: Option<string>, branch: Option<string>)

  const NoFields := Fields(None, None, None)

  const WorktreePrefix := "worktree "
  const HeadPrefix := "HEAD "
  const BranchPrefix := "branch "
  const HeadsRef := "refs/heads/"
  const Detached := "detached"

  /** The branch name of a `branch ` value: its first `refs/heads/` removed. */
  function BranchName(value: string): string
  {
    RemoveFirst(value, HeadsRef)
  }

  /** JavaScript's `v || default` on an optional string: absent or empty gives the default. */
  function OrElse(v: Option<string>, default: string): string
  {
    if v.Some? && v.value != "" then v.value else default
  }

  /** What one non-empty line does to the record in progress. */
  function Apply(f: Fields, line: string): Fields
  {
    if StartsWith(line, WorktreePrefix) then f.(path := Some(line[9..]))
    else if StartsWith(line, HeadPrefix) then f.(commit := Some(line[5..]))
    else if StartsWith(line, BranchPrefix) then f.(branch := Some(BranchName(line[7..])))
    else f
  }

  /** A record in progress is emitted only when its path is set and non-empty. */
  predicate Emits(f: Fields)
  {
    f.path.Some? && f.path.value != ""
  }

  /** The record pushed for an emitted block, with the defaults for missing fields. */
  function Complete(f: Fields): (w: WorktreeInfo)
    requires Emits(f)
    ensures w.path != "" && w.branch != "" && !w.isCurrent
  {
    WorktreeInfo(f.path.value, OrElse(f.branch, Detached), OrElse(f.commit, ""), false)
  }

  /** The index of the last line of `block` that starts with `prefix`. */
  function LastIndex(block: seq<string>, prefix: string): (k: Option<nat>)
    ensures k.Some? ==> k.value < |block| && StartsWith(block[k.value], prefix)
    ensures k.Some? ==> forall j :: k.value < j < |block| ==> !StartsWith(block[j], prefix)
    ensures k.None? ==> forall j :: 0 <= j < |block| ==> !StartsWith(block[j], prefix)
    decreases |block|
  {
    if block == [] then None
    else if StartsWith(block[|block| - 1], prefix) then Some(|block| - 1)
    else LastIndex(block[..|block| - 1], prefix)
  }

  /** The text after `prefix` on the last line of `block` that starts with it. */
  function LastValue(block: seq<string>, prefix: string): Option<string>
  {
    match LastIndex(block, prefix)
    case None => None
    case Some(k) => Some(block[k][|prefix|..])
  }

  function MapBranch(v: Option<string>): Option<string>
  {
    match v
    case None => None
    case Some(b) => Some(BranchName(b))
  }

  /** The fields a block of lines sets: for each prefix, its last line in the block. */
  function BlockFields(block: seq<string>): Fields
  {
    Fields(LastValue(block, WorktreePrefix), LastValue(block, HeadPrefix), MapBranch(LastValue(block, BranchPrefix)))
  }

  /** The records (none or one) that a closed block contributes. */
  function Record(block: seq<string>): seq<WorktreeInfo>
  {
    var f := BlockFields(block);
    if Emits(f) then [Complete(f)] else []
  }

  // ---------------------------------------------------------------------------
  // Lemmas about a single block

  lemma LastValueSnoc(block: seq<string>, x: string, prefix: string)
    ensures LastValue(block + [x], prefix) ==
            if StartsWith(x, prefix) then Some(x[|prefix|..]) else LastValue(block, prefix)
  {
    var b := block + [x];
    assert b[|b| - 1] == x && b[..|b| - 1] == block;
  }

  /** The three prefixes exclude one another: a line sets at most one field. */
  lemma PrefixesDisjoint(line: string)
    ensures !(StartsWith(line, WorktreePrefix) && StartsWith(line, HeadPrefix))
    ensures !(StartsWith(line, WorktreePrefix) && StartsWith(line, BranchPrefix))
    ensures !(StartsWith(line, HeadPrefix) && StartsWith(line, BranchPrefix))
  {
    if StartsWith(line, WorktreePrefix) { assert line[0] == 'w'; }
    if StartsWith(line, HeadPrefix) { assert line[0] == 'H'; }
  }

  /**
   * Appending a line to a block changes exactly the field its prefix names,
   * overwriting an earlier value; a line with another prefix changes nothing.
   */
  lemma LaterLineOverwrites(block: seq<string>, x: string)
    ensures BlockFields(block + [x]) == Apply(BlockFields(block), x)
  {
    LastValueSnoc(block, x, WorktreePrefix);
    LastValueSnoc(block, x, HeadPrefix);
    LastValueSnoc(block, x, BranchPrefix);
    PrefixesDisjoint(x);
  }

  /**
   * The values of an emitted record: the branch is the name on the last
   * `branch ` line, or `detached` when there is no such line or the name is
   * empty; the commit is the value of the last `HEAD ` line, or "" when there
   * is none; and no record starts out current.
   */
  lemma RecordDefaults(block: seq<string>)
    ensures |Record(block)| <= 1
    ensures forall w :: w in Record(block) ==> w.path != "" && w.branch != "" && !w.isCurrent
    ensures (forall j :: 0 <= j < |block| ==> !StartsWith(block[j], BranchPrefix)) ==>
      forall w :: w in Record(block) ==> w.branch == Detached
    ensures (forall j :: 0 <= j < |block| ==> !StartsWith(block[j], HeadPrefix)) ==>
      forall w :: w in Record(block) ==> w.commit == ""
    ensures forall j :: 0 <= j < |block| && LastLineWith(block, BranchPrefix, j) ==>
      forall w :: w in Record(block) ==>
        w.branch == if BranchName(block[j][7..]) == "" then Detached else BranchName(block[j][7..])
    ensures forall j :: 0 <= j < |block| && LastLineWith(block, HeadPrefix, j) ==>
      forall w :: w in Record(block) ==> w.commit == block[j][5..]
  {
    forall j | 0 <= j < |block| && LastLineWith(block, BranchPrefix, j)
      ensures LastIndex(block, BranchPrefix) == Some(j)
    {
      LastIndexIs(block, BranchPrefix, j);
    }
    forall j | 0 <= j < |block| && LastLineWith(block, HeadPrefix, j)
      ensures LastIndex(block, HeadPrefix) == Some(j)
    {
      LastIndexIs(block, HeadPrefix, j);
    }
  }

  /**
   * A block emits a record exactly when it has a `worktree ` line and the
   * last such line has a non-empty path; that path is the record's.
   */
  lemma RecordEmitted(block: seq<string>)
    ensures |Record(block)| == 1 <==>
      exists j :: 0 <= j < |block| && LastLineWith(block, WorktreePrefix, j) && |block[j]| > 9
    ensures forall j :: 0 <= j < |block| && LastLineWith(block, WorktreePrefix, j) && |block[j]| > 9 ==>
      Record(block) == [Record(block)[0]] && Record(block)[0].path == block[j][9..]
  {
    var wt := LastIndex(block, WorktreePrefix);
    if wt.Some? {
      assert LastLineWith(block, WorktreePrefix, wt.value);
    }
    forall j | 0 <= j < |block| && LastLineWith(block, WorktreePrefix, j)
      ensures wt == Some(j)
    {
    }
  }

  /** A line with none of the three prefixes leaves a block's fields alone. */
  lemma {:induction false} BlockIgnoresLine(b: seq<string>, x: string, c: seq<string>)
    requires !StartsWith(x, WorktreePrefix) && !StartsWith(x, HeadPrefix) && !StartsWith(x, BranchPrefix)
    ensures BlockFields(b + [x] + c) == BlockFields(b + c)
    decreases |c|
  {
    if c == [] {
      assert b + [x] + c == b + [x] && b + c == b;
      LaterLineOverwrites(b, x);
    } else {
      var c', y := c[..|c| - 1], c[|c| - 1];
      assert b + [x] + c == (b + [x] + c') + [y];
      assert b + c == (b + c') + [y];
      LaterLineOverwrites(b + [x] + c', y);
      LaterLineOverwrites(b + c', y);
      BlockIgnoresLine(b, x, c');
    }
  }

  /** A line with none of the three prefixes leaves a block's record alone. */
  lemma RecordIgnoresLine(b: seq<string>, x: string, c: seq<string>)
    requires !StartsWith(x, WorktreePrefix) && !StartsWith(x, HeadPrefix) && !StartsWith(x, BranchPrefix)
    ensures Record(b + [x] + c) == Record(b + c)
  {
    BlockIgnoresLine(b, x, c);
  }

  /** Line `j` is the last line of `block` starting with `prefix`. */
  predicate LastLineWith(block: seq<string>, prefix: string, j: int)
    requires 0 <= j < |block|
  {
    StartsWith(block[j], prefix) && forall k :: j < k < |block| ==> !StartsWith(block[k], prefix)
  }

  lemma LastIndexIs(block: seq<string>, prefix: string, j: nat)
    requires j < |block| && LastLineWith(block, prefix, j)
    ensures LastIndex(block, prefix) == Some(j)
  {
  }

  /** The block git writes for a worktree on a branch, without its closing empty line. */
  function Entry(w: WorktreeInfo): seq<string>
  {
    [WorktreePrefix + w.path, HeadPrefix + w.commit, BranchPrefix + HeadsRef + w.branch]
  }

  /** A `HEAD ` line of an entry sets the commit and nothing else. */
  lemma HeadLineApply(f: Fields, commit: string)
    ensures Apply(f, HeadPrefix + commit) == f.(commit := Some(commit))
  {
    var l := HeadPrefix + commit;
    assert StartsWith(l, HeadPrefix) && l[5..] == commit;
    Mismatch(l, WorktreePrefix, 0, 0);
  }

  /** A `branch refs/heads/` line of an entry sets the branch to the name after it. */
  lemma BranchLineApply(f: Fields, name: string)
    ensures Apply(f, BranchPrefix + HeadsRef + name) == f.(branch := Some(name))
  {
    var l := BranchPrefix + HeadsRef + name;
    assert StartsWith(l, BranchPrefix) && l[7..] == HeadsRef + name;
    Mismatch(l, WorktreePrefix, 0, 0);
    Mismatch(l, HeadPrefix, 0, 0);
    assert OccursAt(HeadsRef + name, HeadsRef, 0);
    RemoveFirstAt(HeadsRef + name, HeadsRef, 0);
    assert (HeadsRef + name)[11..] == name;
  }

  /** The fields an entry sets are the worktree's path, commit and branch. */
  lemma EntryFields(w: WorktreeInfo)
    ensures BlockFields(Entry(w)) == Fields(Some(w.path), Some(w.commit), Some(w.branch))
  {
    var l0, l1, l2 := WorktreePrefix + w.path, HeadPrefix + w.commit, BranchPrefix + HeadsRef + w.branch;
    assert StartsWith(l0, WorktreePrefix) && l0[9..] == w.path;
    LaterLineOverwrites([], l0);
    LaterLineOverwrites([l0], l1);
    LaterLineOverwrites([l0, l1], l2);
    assert [] + [l0] == [l0] && [l0] + [l1] == [l0, l1] && [l0, l1] + [l2] == Entry(w);
    var f0 := Apply(NoFields, l0);
    HeadLineApply(f0, w.commit);
    BranchLineApply(Apply(f0, l1), w.branch);
  }

  /** A worktree with a path and a branch, not current, is read back from its entry unchanged. */
  lemma EntryRecord(w: WorktreeInfo)
    requires w.path != "" && w.branch != "" && !w.isCurrent
    ensures Record(Entry(w)) == [w]
  {
    EntryFields(w);
  }
}
