/**
 * A whole `git worktree list --porcelain` listing, as the lines that
 * `split('\n')` gives: its closed blocks, its open tail, and the records the
 * closed blocks produce.
 */
module Listing {
  import opened Text
  import opened Porcelain

  /**
   * A listing cut at its empty lines: the closed blocks in order (each one the
   * lines before an empty line, back to the previous one) and the open block
   * of lines after the last empty line.
   */
  datatype Blocked = Blocked(closed: seq<seq<string>>, open: seq<string>)

  /** Reads the listing line by line, closing the open block at each empty line. */
  function Blocks(lines: seq<string>): Blocked
    decreases |lines|
  {
    if lines == [] then Blocked([], [])
    else
      var r := Blocks(lines[..|lines| - 1]);
      var x := lines[|lines| - 1];
      if x == "" then Blocked(r.closed + [r.open], []) else Blocked(r.closed, r.open + [x])
  }

  /** The closed blocks written back out, each followed by its empty line. */
  function Unblock(bs: seq<seq<string>>): seq<string>
    decreases |bs|
  {
    if bs == [] then [] else Unblock(bs[..|bs| - 1]) + bs[|bs| - 1] + [""]
  }

  /** A decomposition whose blocks hold no empty line. */
  predicate WellFormed(b: Blocked)
  {
    "" !in b.open && forall i :: 0 <= i < |b.closed| ==> "" !in b.closed[i]
  }

  /** The concatenation of `f` applied to each element of `xs`, in order. */
  function FlatMap<T, U>(xs: seq<T>, f: T -> seq<U>): seq<U>
    decreases |xs|
  {
    if xs == [] then [] else FlatMap(xs[..|xs| - 1], f) + f(xs[|xs| - 1])
  }

  /** The records of a sequence of closed blocks, one block after the other. */
  function RecordsOf(bs: seq<seq<string>>): seq<WorktreeInfo>
  {
    FlatMap(bs, Record)
  }

  /** What the parser returns, before the current worktree is marked. */
  function ParseLines(lines: seq<string>): seq<WorktreeInfo>
  {
    RecordsOf(Blocks(lines).closed)
  }

  /** The number of lines that start with `prefix`. */
  function CountPrefixed(lines: seq<string>, prefix: string): nat
    decreases |lines|
  {
    if lines == [] then 0
    else CountPrefixed(lines[..|lines| - 1], prefix) + (if StartsWith(lines[|lines| - 1], prefix) then 1 else 0)
  }

  // ---------------------------------------------------------------------------
  // Blocks

  /** The blocks hold no empty line. */
  lemma {:induction false} BlocksWellFormed(lines: seq<string>)
    ensures WellFormed(Blocks(lines))
    decreases |lines|
  {
    if lines != [] {
      BlocksWellFormed(lines[..|lines| - 1]);
    }
  }

  /** There is one closed block per empty line. */
  lemma {:induction false} BlocksCount(lines: seq<string>)
    ensures |Blocks(lines).closed| == multiset(lines)[""]
    decreases |lines|
  {
    if lines != [] {
      var init, x := lines[..|lines| - 1], lines[|lines| - 1];
      BlocksCount(init);
      assert lines == init + [x];
      assert multiset(lines) == multiset(init) + multiset{x};
    }
  }

  /** Writing the closed blocks back out, followed by the open block, gives the listing back. */
  lemma {:induction false} BlocksPartition(lines: seq<string>)
    ensures Unblock(Blocks(lines).closed) + Blocks(lines).open == lines
    decreases |lines|
  {
    if lines != [] {
      var init, x := lines[..|lines| - 1], lines[|lines| - 1];
      BlocksPartition(init);
      var r := Blocks(init);
      assert lines == init + [x];
      if x == "" {
        var c := r.closed + [r.open];
        assert c[..|c| - 1] == r.closed;
        assert Unblock(c) == Unblock(r.closed) + r.open + [""];
      } else {
        assert Unblock(r.closed) + (r.open + [x]) == Unblock(r.closed) + r.open + [x];
      }
    }
  }

  /** Appending lines without an empty line only extends the open block. */
  lemma {:induction false} BlocksExtendOpen(lines: seq<string>, tail: seq<string>)
    requires "" !in tail
    ensures Blocks(lines + tail) == Blocked(Blocks(lines).closed, Blocks(lines).open + tail)
    decreases |tail|
  {
    if tail == [] {
      assert lines + tail == lines && Blocks(lines).open + tail == Blocks(lines).open;
    } else {
      var t, x := tail[..|tail| - 1], tail[|tail| - 1];
      assert t + [x] == tail;
      assert x != "" by { assert x in tail; }
      var all := lines + tail;
      assert all[..|all| - 1] == lines + t && all[|all| - 1] == x;
      BlocksExtendOpen(lines, t);
      var o := Blocks(lines).open;
      assert o + t + [x] == o + tail;
    }
  }

  /** Written-out closed blocks followed by an open block are cut back into exactly those blocks. */
  lemma {:induction false} BlocksUnblock(b: Blocked)
    requires WellFormed(b)
    ensures Blocks(Unblock(b.closed) + b.open) == b
    decreases |b.closed|
  {
    BlocksExtendOpen(Unblock(b.closed), b.open);
    if b.closed == [] {
      assert Blocks([]) == Blocked([], []);
    } else {
      var c := b.closed[..|b.closed| - 1];
      var last := b.closed[|b.closed| - 1];
      BlocksUnblock(Blocked(c, last));
      var lines := Unblock(b.closed);
      assert lines == (Unblock(c) + last) + [""];
      assert lines[..|lines| - 1] == Unblock(c) + last;
      assert c + [last] == b.closed;
    }
  }

  // ---------------------------------------------------------------------------
  // Records of blocks

  lemma {:induction false} FlatMapAppend<T, U>(a: seq<T>, b: seq<T>, f: T -> seq<U>)
    ensures FlatMap(a + b, f) == FlatMap(a, f) + FlatMap(b, f)
    decreases |b|
  {
    if b == [] {
      assert a + b == a;
    } else {
      var b' := b[..|b| - 1];
      FlatMapAppend(a, b', f);
      var ab := a + b;
      assert ab[..|ab| - 1] == a + b' && ab[|ab| - 1] == b[|b| - 1];
      assert FlatMap(ab, f) == FlatMap(a + b', f) + f(b[|b| - 1]);
      assert FlatMap(b, f) == FlatMap(b', f) + f(b[|b| - 1]);
    }
  }

  lemma {:induction false} RecordsOfShape(bs: seq<seq<string>>)
    ensures |RecordsOf(bs)| <= |bs|
    ensures forall i :: 0 <= i < |RecordsOf(bs)| ==>
      RecordsOf(bs)[i].path != "" && RecordsOf(bs)[i].branch != "" && !RecordsOf(bs)[i].isCurrent
    decreases |bs|
  {
    if bs != [] {
      var init := bs[..|bs| - 1];
      RecordDefaults(bs[|bs| - 1]);
      RecordsOfShape(init);
      var head: seq<WorktreeInfo>, last: seq<WorktreeInfo> := RecordsOf(init), Record(bs[|bs| - 1]);
      assert RecordsOf(bs) == head + last;
      forall i | 0 <= i < |head + last|
        ensures (head + last)[i].path != "" && (head + last)[i].branch != "" && !(head + last)[i].isCurrent
      {
        if i >= |head| {
          assert (head + last)[i] in last;
        }
      }
    }
  }

  lemma {:induction false} CountPrefixedAppend(a: seq<string>, b: seq<string>, prefix: string)
    ensures CountPrefixed(a + b, prefix) == CountPrefixed(a, prefix) + CountPrefixed(b, prefix)
    decreases |b|
  {
    if b == [] {
      assert a + b == a;
    } else {
      var b' := b[..|b| - 1];
      CountPrefixedAppend(a, b', prefix);
      assert (a + b)[..|a + b| - 1] == a + b';
    }
  }

  lemma {:induction false} CountPrefixedPositive(lines: seq<string>, prefix: string, j: nat)
    requires j < |lines| && StartsWith(lines[j], prefix)
    ensures CountPrefixed(lines, prefix) >= 1
    decreases |lines|
  {
    if j < |lines| - 1 {
      CountPrefixedPositive(lines[..|lines| - 1], prefix, j);
    }
  }

  lemma RecordNeedsWorktreeLine(block: seq<string>)
    ensures |Record(block)| <= CountPrefixed(block, WorktreePrefix)
  {
    RecordDefaults(block);
    if Record(block) != [] {
      var wt := LastIndex(block, WorktreePrefix);
      CountPrefixedPositive(block, WorktreePrefix, wt.value);
    }
  }

  lemma {:induction false} RecordsOfWorktreeBound(bs: seq<seq<string>>)
    ensures |RecordsOf(bs)| <= CountPrefixed(Unblock(bs), WorktreePrefix)
    decreases |bs|
  {
    if bs != [] {
      var init, last := bs[..|bs| - 1], bs[|bs| - 1];
      RecordsOfWorktreeBound(init);
      RecordNeedsWorktreeLine(last);
      assert RecordsOf(bs) == RecordsOf(init) + Record(last);
      CountPrefixedAppend(Unblock(init), last, WorktreePrefix);
      CountPrefixedAppend(Unblock(init) + last, [""], WorktreePrefix);
      assert CountPrefixed([""], WorktreePrefix) == 0;
    }
  }

  // ---------------------------------------------------------------------------
  // Properties of the parse

  /** Every record has a non-empty path and branch, and none is current yet. */
  lemma ParsedRecordsShape(lines: seq<string>)
    ensures forall i :: 0 <= i < |ParseLines(lines)| ==>
      ParseLines(lines)[i].path != "" && ParseLines(lines)[i].branch != "" && !ParseLines(lines)[i].isCurrent
  {
    RecordsOfShape(Blocks(lines).closed);
  }

  /** There are at most as many records as empty lines. */
  lemma ParseBoundByEmptyLines(lines: seq<string>)
    ensures |ParseLines(lines)| <= multiset(lines)[""]
  {
    RecordsOfShape(Blocks(lines).closed);
    BlocksCount(lines);
  }

  /** There are at most as many records as `worktree ` lines. */
  lemma ParseBoundByWorktreeLines(lines: seq<string>)
    ensures |ParseLines(lines)| <= CountPrefixed(lines, WorktreePrefix)
  {
    var b := Blocks(lines);
    RecordsOfWorktreeBound(b.closed);
    BlocksPartition(lines);
    CountPrefixedAppend(Unblock(b.closed), b.open, WorktreePrefix);
  }

  /** A listing that ends in a closed block is cut apart from what follows it. */
  lemma {:induction false} BlocksAppend(a: seq<string>, b: seq<string>)
    requires Blocks(a).open == []
    ensures Blocks(a + b) == Blocked(Blocks(a).closed + Blocks(b).closed, Blocks(b).open)
    decreases |b|
  {
    if b == [] {
      assert a + b == a;
    } else {
      var b', x := b[..|b| - 1], b[|b| - 1];
      BlocksAppend(a, b');
      assert (a + b)[..|a + b| - 1] == a + b';
      var ca, cb' := Blocks(a).closed, Blocks(b').closed;
      assert ca + cb' + [Blocks(b').open] == ca + (cb' + [Blocks(b').open]);
    }
  }

  /**
   * Blocks are parsed independently and in order: a listing that ends with a
   * closed block is parsed apart from what follows it, so no field of one
   * block carries over into the next.
   */
  lemma ParseAppend(a: seq<string>, b: seq<string>)
    requires a == [] || a[|a| - 1] == ""
    ensures ParseLines(a + b) == ParseLines(a) + ParseLines(b)
  {
    BlocksAppend(a, b);
    FlatMapAppend(Blocks(a).closed, Blocks(b).closed, Record);
  }

  /** Lines after the last empty line never produce a record. */
  lemma UnterminatedTailDropped(lines: seq<string>, tail: seq<string>)
    requires "" !in tail
    ensures ParseLines(lines + tail) == ParseLines(lines)
  {
    BlocksExtendOpen(lines, tail);
  }

  /** One block closed by an empty line gives exactly that block's record. */
  lemma ParseOneBlock(block: seq<string>)
    requires "" !in block
    ensures ParseLines(block + [""]) == Record(block)
  {
    BlocksUnblock(Blocked([block], []));
    assert Unblock([block]) + [] == block + [""] by {
      assert [block][..0] == [];
    }
    assert FlatMap([block], Record) == Record(block) by {
      assert [block][..0] == [];
    }
  }

  /**
   * Text after the last newline of the output never completes a record:
   * output that does not end in a newline loses its last block.
   */
  lemma OutputTailDropped(s: string, t: string)
    requires t != "" && '\n' !in t
    ensures ParseLines(SplitLines(s + "\n" + t)) == ParseLines(SplitLines(s))
  {
    SplitLinesAppend(s, t);
    SplitLinesSingle(t);
    UnterminatedTailDropped(SplitLines(s), [t]);
  }

  /** An entry followed by the empty line that closes it. */
  function Written(w: WorktreeInfo): seq<string>
  {
    Entry(w) + [""]
  }

  /** The listing git writes for worktrees on branches: each entry followed by an empty line. */
  function Serialize(ws: seq<WorktreeInfo>): seq<string>
    decreases |ws|
  {
    if ws == [] then [] else Serialize(ws[..|ws| - 1]) + Written(ws[|ws| - 1])
  }

  /** One entry followed by an empty line is read back as its worktree. */
  lemma ParseEntry(w: WorktreeInfo)
    requires w.path != "" && w.branch != "" && !w.isCurrent
    ensures ParseLines(Written(w)) == [w]
  {
    var e := Entry(w);
    assert "" !in e by {
      assert |e[0]| > 0 && |e[1]| > 0 && |e[2]| > 0;
    }
    ParseOneBlock(e);
    EntryRecord(w);
  }

  /** A written-out listing is empty or ends with an empty line. */
  lemma SerializeClosed(ws: seq<WorktreeInfo>)
    ensures Serialize(ws) == [] || Serialize(ws)[|Serialize(ws)| - 1] == ""
  {
  }

  /** Writing one more worktree after a closed listing adds its record at the end. */
  lemma ParseWrittenAfter(a: seq<string>, w: WorktreeInfo)
    requires a == [] || a[|a| - 1] == ""
    requires w.path != "" && w.branch != "" && !w.isCurrent
    ensures ParseLines(a + Written(w)) == ParseLines(a) + [w]
  {
    ParseAppend(a, Written(w));
    ParseEntry(w);
  }

  /**
   * Parsing a written-out listing gives back the worktrees, in order, when
   * each has a path and a branch and none is marked current.
   */
  lemma {:induction false} ParseSerialized(ws: seq<WorktreeInfo>)
    requires forall i :: 0 <= i < |ws| ==> ws[i].path != "" && ws[i].branch != "" && !ws[i].isCurrent
    ensures ParseLines(Serialize(ws)) == ws
    decreases |ws|
  {
    if ws != [] {
      var init, w := ws[..|ws| - 1], ws[|ws| - 1];
      assert init + [w] == ws;
      assert forall i :: 0 <= i < |init| ==> init[i] == ws[i];
      ParseSerialized(init);
      SerializeClosed(init);
      ParseWrittenAfter(Serialize(init), w);
    }
  }

  /** The fields of a worktree hold no newline, so it can be written on lines. */
  predicate OneLineFields(w: WorktreeInfo)
  {
    '\n' !in w.path && '\n' !in w.commit && '\n' !in w.branch
  }

  /** A written-out listing of worktrees whose fields hold no newline has no newline in any line. */
  lemma {:induction false} SerializeLines(ws: seq<WorktreeInfo>)
    requires forall i :: 0 <= i < |ws| ==> OneLineFields(ws[i])
    ensures forall k :: 0 <= k < |Serialize(ws)| ==> '\n' !in Serialize(ws)[k]
    ensures ws != [] ==> |Serialize(ws)| >= 1
    decreases |ws|
  {
    if ws != [] {
      var init, w := ws[..|ws| - 1], ws[|ws| - 1];
      assert forall i :: 0 <= i < |init| ==> init[i] == ws[i];
      SerializeLines(init);
      var a, b := Serialize(init), Written(w);
      assert '\n' !in WorktreePrefix + w.path && '\n' !in HeadPrefix + w.commit;
      assert '\n' !in BranchPrefix + HeadsRef + w.branch;
      assert forall k :: 0 <= k < |b| ==> '\n' !in b[k];
      assert Serialize(ws) == a + b;
      forall k | 0 <= k < |a + b| ensures '\n' !in (a + b)[k] {
        if k < |a| { assert (a + b)[k] == a[k]; } else { assert (a + b)[k] == b[k - |a|]; }
      }
    }
  }

  /**
   * The round trip on text: the listing joined with newlines, split again,
   * parses back to the same worktrees in order.
   */
  lemma ParseSerializedText(ws: seq<WorktreeInfo>)
    requires ws != []
    requires forall i :: 0 <= i < |ws| ==> ws[i].path != "" && ws[i].branch != "" && !ws[i].isCurrent
    requires forall i :: 0 <= i < |ws| ==> OneLineFields(ws[i])
    ensures ParseLines(SplitLines(JoinLines(Serialize(ws)))) == ws
  {
    SerializeLines(ws);
    SplitJoinLines(Serialize(ws));
    ParseSerialized(ws);
  }

  /** An empty line after a closed listing adds no record. */
  lemma ParseClosedEmptyLine(lines: seq<string>)
    requires lines == [] || lines[|lines| - 1] == ""
    ensures ParseLines(lines + [""]) == ParseLines(lines)
  {
    ParseAppend(lines, [""]);
    ParseOneBlock([]);
    RecordDefaults([]);
    assert [] + [""] == [""];
  }

  /**
   * A closed listing of newline-free lines, joined with newlines and given a
   * final newline, parses as the listing does.
   */
  lemma ParseTextWithFinalNewline(lines: seq<string>, ws: seq<WorktreeInfo>)
    requires |lines| >= 1 && lines[|lines| - 1] == ""
    requires forall k :: 0 <= k < |lines| ==> '\n' !in lines[k]
    requires ParseLines(lines) == ws
    ensures ParseLines(SplitLines(JoinLines(lines) + "\n")) == ws
  {
    SplitJoinLines(lines);
    SplitLinesNewlineEnd(JoinLines(lines));
    ParseClosedEmptyLine(lines);
  }

  /**
   * The round trip on the text git prints: every record, the last one
   * included, is followed by its empty line and a newline, so the text ends
   * in two newlines; it parses back to the same worktrees in order.
   */
  lemma ParseGitOutput(ws: seq<WorktreeInfo>)
    requires ws != []
    requires forall i :: 0 <= i < |ws| ==> ws[i].path != "" && ws[i].branch != "" && !ws[i].isCurrent
    requires forall i :: 0 <= i < |ws| ==> OneLineFields(ws[i])
    ensures ParseLines(SplitLines(JoinLines(Serialize(ws)) + "\n")) == ws
  {
    SerializeLines(ws);
    SerializeClosed(ws);
    ParseSerialized(ws);
    ParseTextWithFinalNewline(Serialize(ws), ws);
  }
}
