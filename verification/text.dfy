/**
 * The string operations the worktree parser relies on, as JavaScript defines
 * them: `startsWith`, `replace` with a string pattern (first occurrence only)
 * and `split('\n')`.
 */
module Text {
  import opened Wrappers

  /** `s.startsWith(prefix)` */
  predicate StartsWith(s: string, prefix: string)
  {
    |prefix| <= |s| && s[..|prefix|] == prefix
  }

  /** `p` occurs in `s` at index `i`. */
  predicate OccursAt(s: string, p: string, i: int)
  {
    0 <= i && i + |p| <= |s| && s[i..i + |p|] == p
  }

  /**
   * `s.replace(p, '')` with a string pattern: the FIRST occurrence of `p` is
   * removed, wherever it stands; without an occurrence `s` is returned as is.
   */
  function RemoveFirst(s: string, p: string): string
    decreases |s|
  {
    if |s| < |p| then s
    else if s[..|p|] == p then s[|p|..]
    else [s[0]] + RemoveFirst(s[1..], p)
  }

  /** Occurrences in the tail of `s` are occurrences in `s`, one index further on. */
  lemma OccursInTail(s: string, p: string, j: int)
    requires |s| >= 1 && 0 <= j
    ensures OccursAt(s[1..], p, j) <==> OccursAt(s, p, j + 1)
  {
    if j + 1 + |p| <= |s| {
      assert s[1..][j..j + |p|] == s[j + 1..j + 1 + |p|];
    }
  }

  /** One differing character rules out an occurrence, and a prefix. */
  lemma Mismatch(s: string, p: string, j: nat, m: nat)
    requires m < |p| && j + m < |s| && s[j + m] != p[m]
    ensures !OccursAt(s, p, j)
    ensures j == 0 ==> !StartsWith(s, p)
  {
  }

  /** Without an occurrence of `p`, RemoveFirst leaves `s` unchanged. */
  lemma {:induction false} RemoveFirstAbsent(s: string, p: string)
    requires forall i :: !OccursAt(s, p, i)
    ensures RemoveFirst(s, p) == s
    decreases |s|
  {
    if |s| >= |p| {
      assert !OccursAt(s, p, 0);
      forall i | 0 <= i ensures !OccursAt(s[1..], p, i) {
        OccursInTail(s, p, i);
      }
      RemoveFirstAbsent(s[1..], p);
      assert s == [s[0]] + s[1..];
    }
  }

  /**
   * With its first occurrence at `i`, RemoveFirst cuts exactly those |p|
   * characters out of `s`.
   */
  lemma {:induction false} RemoveFirstAt(s: string, p: string, i: nat)
    requires OccursAt(s, p, i) && forall j :: 0 <= j < i ==> !OccursAt(s, p, j)
    ensures RemoveFirst(s, p) == s[..i] + s[i + |p|..]
    decreases i
  {
    if i > 0 {
      assert !OccursAt(s, p, 0);
      OccursInTail(s, p, i - 1);
      forall j | 0 <= j < i - 1 ensures !OccursAt(s[1..], p, j) {
        OccursInTail(s, p, j);
      }
      RemoveFirstAt(s[1..], p, i - 1);
      assert s[1..][..i - 1] == s[1..i];
      assert s[1..][i - 1 + |p|..] == s[i + |p|..];
      assert [s[0]] + s[1..i] == s[..i];
    }
  }

  /** Putting `p` back where RemoveFirst took it out restores `s`. */
  lemma RemoveFirstRestores(s: string, p: string, i: nat)
    requires OccursAt(s, p, i) && forall j :: 0 <= j < i ==> !OccursAt(s, p, j)
    ensures |RemoveFirst(s, p)| == |s| - |p|
    ensures s == RemoveFirst(s, p)[..i] + p + RemoveFirst(s, p)[i..]
  {
    RemoveFirstAt(s, p, i);
    var t := RemoveFirst(s, p);
    assert t[..i] == s[..i] && t[i..] == s[i + |p|..];
    assert s == s[..i] + s[i..i + |p|] + s[i + |p|..];
  }

  /** `s.split('\n')`: n newlines give n + 1 pieces, so "" gives [""]. */
  function SplitLines(s: string): (pieces: seq<string>)
    ensures |pieces| >= 1
    ensures forall i :: 0 <= i < |pieces| ==> '\n' !in pieces[i]
  {
    if s == [] then [""]
    else
      var rest := SplitLines(s[1..]);
      if s[0] == '\n' then [""] + rest
      else [[s[0]] + rest[0]] + rest[1..]
  }

  /** `pieces.join('\n')`, the inverse of SplitLines. */
  function JoinLines(pieces: seq<string>): (s: string)
    requires |pieces| >= 1
  {
    if |pieces| == 1 then pieces[0]
    else pieces[0] + "\n" + JoinLines(pieces[1..])
  }

  /** Splitting yields one piece more than there are newlines. */
  lemma {:induction false} SplitLinesCount(s: string)
    ensures |SplitLines(s)| == multiset(s)['\n'] + 1
  {
    if s != [] {
      SplitLinesCount(s[1..]);
      assert s == [s[0]] + s[1..];
      assert multiset(s) == multiset{s[0]} + multiset(s[1..]);
    }
  }

  /** Joining the pieces of a split gives the text back. */
  lemma {:induction false} JoinSplitLines(s: string)
    ensures JoinLines(SplitLines(s)) == s
  {
    if s != [] {
      var rest := SplitLines(s[1..]);
      JoinSplitLines(s[1..]);
      if s[0] == '\n' {
        assert ([""] + rest)[1..] == rest;
      } else {
        var pieces := [[s[0]] + rest[0]] + rest[1..];
        if |rest| == 1 {
          assert pieces == [[s[0]] + rest[0]];
        } else {
          assert pieces[1..] == rest[1..];
          assert JoinLines(rest) == rest[0] + "\n" + JoinLines(rest[1..]);
        }
      }
    }
  }

  /** Splitting a text whose first piece `p` holds no newline. */
  lemma {:induction false} SplitLinesPrefix(p: string, t: string)
    requires '\n' !in p
    ensures SplitLines(p + t) == [p + SplitLines(t)[0]] + SplitLines(t)[1..]
  {
    if p != [] {
      assert (p + t)[0] == p[0] && (p + t)[1..] == p[1..] + t;
      SplitLinesPrefix(p[1..], t);
      assert [p[0]] + (p[1..] + SplitLines(t)[0]) == p + SplitLines(t)[0];
    } else {
      assert p + t == t && p + SplitLines(t)[0] == SplitLines(t)[0];
      assert SplitLines(t) == [SplitLines(t)[0]] + SplitLines(t)[1..];
    }
  }

  /** Splitting the join of newline-free pieces gives the pieces back. */
  lemma {:induction false} SplitJoinLines(pieces: seq<string>)
    requires |pieces| >= 1
    requires forall i :: 0 <= i < |pieces| ==> '\n' !in pieces[i]
    ensures SplitLines(JoinLines(pieces)) == pieces
  {
    if |pieces| == 1 {
      SplitLinesPrefix(pieces[0], "");
      assert pieces[0] + "" == pieces[0];
    } else {
      var rest := JoinLines(pieces[1..]);
      SplitJoinLines(pieces[1..]);
      assert pieces[0] + "\n" + rest == pieces[0] + ("\n" + rest);
      SplitLinesPrefix(pieces[0], "\n" + rest);
      assert ("\n" + rest)[1..] == rest;
      assert SplitLines("\n" + rest) == [""] + pieces[1..];
      assert pieces[0] + "" == pieces[0];
    }
  }

  /** Splitting at a newline: the pieces before it, then the pieces after it. */
  lemma {:induction false} SplitLinesAppend(a: string, b: string)
    ensures SplitLines(a + "\n" + b) == SplitLines(a) + SplitLines(b)
  {
    if a == [] {
      assert a + "\n" + b == "\n" + b && ("\n" + b)[1..] == b;
    } else {
      assert (a + "\n" + b)[0] == a[0] && (a + "\n" + b)[1..] == a[1..] + "\n" + b;
      SplitLinesAppend(a[1..], b);
    }
  }

  /** A text without a newline is a single piece. */
  lemma SplitLinesSingle(t: string)
    requires '\n' !in t
    ensures SplitLines(t) == [t]
  {
    SplitLinesPrefix(t, "");
    assert t + "" == t;
  }

  /** A text ending in a newline splits into the pieces before it and one empty piece. */
  lemma SplitLinesNewlineEnd(s: string)
    ensures SplitLines(s + "\n") == SplitLines(s) + [""]
  {
    SplitLinesAppend(s, "");
    assert s + "\n" + "" == s + "\n";
  }
}
