/**
 * Marking the current worktree: after parsing, the first record whose path
 * equals the workspace root exactly gets `isCurrent`; nothing else changes.
 */
module CurrentWorktree {
  import opened Wrappers
  import opened Porcelain

  /** The workspace root is usable: a folder is open and its path is non-empty (JavaScript truthiness). */
  predicate HasRoot(root: Option<string>)
  {
    root.Some? && root.value != ""
  }

  /** Record `i` is the first one whose path is `path`. */
  predicate FirstWithPath(ws: seq<WorktreeInfo>, path: string, i: int)
    requires 0 <= i < |ws|
  {
    ws[i].path == path && forall j :: 0 <= j < i ==> ws[j].path != path
  }

  /** Sets `isCurrent` on the first record whose path is `path`. */
  function MarkFirst(ws: seq<WorktreeInfo>, path: string): (r: seq<WorktreeInfo>)
    ensures |r| == |ws|
  {
    if ws == [] then []
    else if ws[0].path == path then [ws[0].(isCurrent := true)] + ws[1..]
    else [ws[0]] + MarkFirst(ws[1..], path)
  }

  /** The marking step of the parser, given the workspace root it reads. */
  function MarkCurrent(ws: seq<WorktreeInfo>, root: Option<string>): (r: seq<WorktreeInfo>)
    ensures |r| == |ws|
  {
    if HasRoot(root) then MarkFirst(ws, root.value) else ws
  }

  /** MarkFirst keeps the order and every path, branch and commit; only `isCurrent` may differ. */
  lemma {:induction false} MarkFirstKeepsFields(ws: seq<WorktreeInfo>, path: string)
    ensures forall i :: 0 <= i < |ws| ==>
      MarkFirst(ws, path)[i] == ws[i].(isCurrent := MarkFirst(ws, path)[i].isCurrent)
  {
    if ws != [] && ws[0].path != path {
      var tail := ws[1..];
      MarkFirstKeepsFields(tail, path);
      var r := MarkFirst(ws, path);
      assert r == [ws[0]] + MarkFirst(tail, path);
      forall i | 1 <= i < |ws|
        ensures r[i] == ws[i].(isCurrent := r[i].isCurrent)
      {
        assert r[i] == MarkFirst(tail, path)[i - 1] && ws[i] == tail[i - 1];
      }
    }
  }

  /** A record ends up current exactly when it was already, or it is the first one with the path. */
  lemma {:induction false} MarkFirstFlag(ws: seq<WorktreeInfo>, path: string)
    ensures forall i :: 0 <= i < |ws| ==>
      (MarkFirst(ws, path)[i].isCurrent <==> ws[i].isCurrent || FirstWithPath(ws, path, i))
  {
    if ws != [] && ws[0].path != path {
      var tail := ws[1..];
      MarkFirstFlag(tail, path);
      var r := MarkFirst(ws, path);
      assert r == [ws[0]] + MarkFirst(tail, path);
      forall i | 1 <= i < |ws|
        ensures r[i].isCurrent <==> ws[i].isCurrent || FirstWithPath(ws, path, i)
      {
        assert r[i] == MarkFirst(tail, path)[i - 1] && ws[i] == tail[i - 1];
        if FirstWithPath(tail, path, i - 1) {
          forall j | 0 <= j < i ensures ws[j].path != path {
            if j > 0 { assert ws[j] == tail[j - 1]; }
          }
        }
        assert FirstWithPath(ws, path, i) ==> FirstWithPath(tail, path, i - 1);
      }
    }
  }

  /** Marking replaces records only by themselves with `isCurrent` set: same length, order and fields. */
  lemma MarkKeepsRecords(ws: seq<WorktreeInfo>, root: Option<string>)
    ensures |MarkCurrent(ws, root)| == |ws|
    ensures forall i :: 0 <= i < |ws| ==>
      MarkCurrent(ws, root)[i].path == ws[i].path &&
      MarkCurrent(ws, root)[i].branch == ws[i].branch &&
      MarkCurrent(ws, root)[i].commit == ws[i].commit
    ensures forall i :: 0 <= i < |ws| && MarkCurrent(ws, root)[i].isCurrent != ws[i].isCurrent ==>
      HasRoot(root) && FirstWithPath(ws, root.value, i)
  {
    if HasRoot(root) {
      MarkFirstKeepsFields(ws, root.value);
      MarkFirstFlag(ws, root.value);
    }
  }

  /**
   * On records none of which is current yet, the current one after marking is
   * exactly the first whose path equals the root, and only when there is a root.
   */
  lemma MarkedIsFirstMatch(ws: seq<WorktreeInfo>, root: Option<string>)
    requires forall i :: 0 <= i < |ws| ==> !ws[i].isCurrent
    ensures forall i :: 0 <= i < |ws| ==>
      (MarkCurrent(ws, root)[i].isCurrent <==> HasRoot(root) && FirstWithPath(ws, root.value, i))
  {
    MarkKeepsRecords(ws, root);
    if HasRoot(root) {
      MarkFirstKeepsFields(ws, root.value);
      MarkFirstFlag(ws, root.value);
    }
  }

  /** At most one record is current after marking. */
  lemma AtMostOneCurrent(ws: seq<WorktreeInfo>, root: Option<string>)
    requires forall i :: 0 <= i < |ws| ==> !ws[i].isCurrent
    ensures forall i, j ::
      0 <= i < |ws| && 0 <= j < |ws| && MarkCurrent(ws, root)[i].isCurrent && MarkCurrent(ws, root)[j].isCurrent
      ==> i == j
  {
    MarkedIsFirstMatch(ws, root);
    MarkKeepsRecords(ws, root);
  }

  /** Some record is current after marking exactly when there is a root and some path equals it. */
  lemma CurrentExactlyWhenMatched(ws: seq<WorktreeInfo>, root: Option<string>)
    requires forall i :: 0 <= i < |ws| ==> !ws[i].isCurrent
    ensures (exists i :: 0 <= i < |ws| && MarkCurrent(ws, root)[i].isCurrent) <==>
      HasRoot(root) && exists i :: 0 <= i < |ws| && ws[i].path == root.value
  {
    MarkedIsFirstMatch(ws, root);
    MarkKeepsRecords(ws, root);
    if HasRoot(root) && exists i :: 0 <= i < |ws| && ws[i].path == root.value {
      var i :| 0 <= i < |ws| && ws[i].path == root.value;
      FirstMatchExists(ws, root.value, i);
    }
  }

  /** If some record has the path, one of them is the first. */
  lemma {:induction false} FirstMatchExists(ws: seq<WorktreeInfo>, path: string, i: nat)
    requires i < |ws| && ws[i].path == path
    ensures exists k :: 0 <= k <= i && FirstWithPath(ws, path, k)
    decreases i
  {
    if !FirstWithPath(ws, path, i) {
      var j :| 0 <= j < i && ws[j].path == path;
      FirstMatchExists(ws, path, j);
    }
  }

  /** The first record with the path, found by position, is the one MarkFirst marks. */
  lemma MarkFirstAt(ws: seq<WorktreeInfo>, path: string, k: nat)
    requires k < |ws| && FirstWithPath(ws, path, k)
    ensures MarkFirst(ws, path) == ws[k := ws[k].(isCurrent := true)]
  {
    MarkFirstKeepsFields(ws, path);
    MarkFirstFlag(ws, path);
    var r, s := MarkFirst(ws, path), ws[k := ws[k].(isCurrent := true)];
    forall i | 0 <= i < |ws| ensures r[i] == s[i] {
      if i != k && !ws[i].isCurrent {
        assert !FirstWithPath(ws, path, i);
      }
    }
  }

  /** With no record having the path, MarkFirst changes nothing. */
  lemma MarkFirstNone(ws: seq<WorktreeInfo>, path: string)
    requires forall i :: 0 <= i < |ws| ==> ws[i].path != path
    ensures MarkFirst(ws, path) == ws
  {
    MarkFirstKeepsFields(ws, path);
    MarkFirstFlag(ws, path);
  }
}
