# Worktree listing parser

A Dafny model of the part of the Git Worktree Manager editor extension that
turns the output of `git worktree list --porcelain` into the list of worktrees
shown in its tree view: `WorktreeProvider.parseWorktreeList` and the
`WorktreeInfo` record it produces.

The output is split at every `\n`. The lines are read in order into a record
in progress: a `worktree ` line sets its path, a `HEAD ` line its commit and a
`branch ` line its branch, with the first `refs/heads/` removed; any other
non-empty line is ignored, and a later line of the same kind overwrites an
earlier one. An empty line closes the record: it is emitted only when its path
is non-empty, with branch `detached` and commit `""` when those are missing or
empty, and the next record starts from nothing. Lines after the last empty line
never form a record. Afterwards, when the workspace root is set and non-empty,
the first record whose path equals it is marked current.

Files and modules:

- `wrappers.dfy` (`Wrappers`): the `Option` type.
- `text.dfy` (`Text`): the string operations the parser uses — prefix test,
  removal of the first occurrence of a substring (the JavaScript
  `replace(str, '')`), and splitting at newlines (`split('\n')`), with its
  inverse.
- `porcelain.dfy` (`Porcelain`): `WorktreeInfo`, the record in progress
  (`Fields`), the effect of one line (`Apply`), and what one block of lines
  yields (`BlockFields`, `Record`).
- `listing.dfy` (`Listing`): a whole listing cut into closed blocks and an open
  tail (`Blocks`), and the records it yields (`ParseLines`).
- `current.dfy` (`CurrentWorktree`): marking the current worktree
  (`MarkCurrent`).
- `worktree_provider.dfy` (`WorktreeProvider`): the parser as
  `parseWorktreeList` writes it, a loop over the lines and a search for the
  root, each proved equal to the functions above.
- `examples.dfy` (`Examples`): worked listings.

`parseWorktreeList` reads the workspace root from the editor; here it is the
parameter `root: Option<string>`, `None` when no folder is open.

A block is emitted only at an empty line. git ends every record with a blank
line, so a listing whose last record lacks one loses that record
(`Listing.UnterminatedTailDropped`, `Listing.OutputTailDropped`). Output that
ends in a single `\n` still yields its last block, because `split` then ends
with an empty piece.

The listing git writes for worktrees on branches (`Listing.Serialize`: for
each worktree a `worktree `, a `HEAD ` and a `branch refs/heads/` line and an
empty line) parses back to the same worktrees (`Listing.ParseSerialized`), and
so does the same listing joined into one text and split again
(`Listing.ParseSerializedText`). The text git actually prints also ends the
last record's empty line with a newline, so it ends in two newlines; that text
parses back to the same worktrees too (`Listing.ParseGitOutput`).

## Model

| member | source | states |
|---|---|---|
| Text.StartsWith | src/worktreeProvider.ts:104-108 | `startsWith` at lines 104, 106 and 108: the line begins with the prefix; `Porcelain.PrefixesDisjoint` states that the three prefixes exclude one another |
| Text.RemoveFirst | src/worktreeProvider.ts:109 | `replace(p, '')` with a string pattern: `Text.RemoveFirstAt`, `Text.RemoveFirstAbsent` and `Text.RemoveFirstRestores` state it |
| Text.RemoveFirstAt | src/worktreeProvider.ts:109 | when the first occurrence of the pattern is at `i`, removing it yields the text before `i` followed by the text after the pattern |
| Text.RemoveFirstAbsent | src/worktreeProvider.ts:109 | a text without the pattern is left unchanged |
| Text.RemoveFirstRestores | src/worktreeProvider.ts:109 | the result is shorter by exactly the pattern, and putting the pattern back at `i` restores the original |
| Text.SplitLines | src/worktreeProvider.ts:99 | splitting yields at least one piece and no piece contains a newline |
| Text.SplitLinesCount | src/worktreeProvider.ts:99 | splitting yields one piece more than there are newlines |
| Text.JoinSplitLines | src/worktreeProvider.ts:99 | joining the pieces with newlines gives the output back |
| Text.SplitJoinLines | src/worktreeProvider.ts:99 | splitting the join of newline-free pieces gives those pieces back |
| Text.SplitLinesAppend | src/worktreeProvider.ts:99 | splitting `a + "\n" + b` gives the pieces of `a` followed by those of `b` |
| Text.SplitLinesNewlineEnd | src/worktreeProvider.ts:99 | a text ending in a newline splits into the pieces before it and one empty piece |
| Text.SplitLinesSingle | src/worktreeProvider.ts:99 | a text without a newline is a single piece |
| Porcelain.WorktreeInfo | src/worktreeProvider.ts:7-12 | the `WorktreeInfo` interface: path, branch, commit and `isCurrent` |
| Porcelain.Fields | src/worktreeProvider.ts:101 | the record in progress (`Partial<WorktreeInfo>`): path, commit and branch each absent (`None`) until a line sets it, and `NoFields` is `{}`, the value it is reset to at line 119; the loop never sets `isCurrent`, so it has no field; `Porcelain.LaterLineOverwrites` and the invariant of `WorktreeProvider.CollectWorktrees` tie it to `Porcelain.BlockFields` |
| Porcelain.BranchName | src/worktreeProvider.ts:109 | the branch name of a `branch ` value, its first `refs/heads/` removed; `Porcelain.BranchLineApply` and `Examples.BranchRemovesInnerRef` state it |
| Porcelain.Apply | src/worktreeProvider.ts:104-109 | one pass of the if-chain on the record in progress; `Porcelain.LaterLineOverwrites` and `Porcelain.PrefixesDisjoint` state it |
| Porcelain.Emits | src/worktreeProvider.ts:111 | `if (currentWorktree.path)`: the path is set and non-empty; `Porcelain.RecordEmitted` states when it holds |
| Porcelain.OrElse | src/worktreeProvider.ts:114-115 | JavaScript `||` on an optional string: absent or empty gives the default; `Porcelain.RecordDefaults` states its effect |
| Porcelain.BlockFields | src/worktreeProvider.ts:103-109 | the reference for the fields a block sets: the last line of each kind; `Porcelain.LaterLineOverwrites` ties it to `Apply` |
| Porcelain.Record | src/worktreeProvider.ts:110-118 | the record a closed block contributes, none or one; `Porcelain.RecordDefaults` and `Porcelain.RecordEmitted` state it |
| Porcelain.Complete | src/worktreeProvider.ts:111-117 | an emitted record has a non-empty path and branch and is not current |
| Porcelain.LastIndex | src/worktreeProvider.ts:103-109 | finds the last line of a block with a given prefix, and no line after it has the prefix; `None` when no line has it |
| Porcelain.PrefixesDisjoint | src/worktreeProvider.ts:104-109 | no line has two of the prefixes `worktree `, `HEAD `, `branch `, so each line sets at most one field |
| Porcelain.LaterLineOverwrites | src/worktreeProvider.ts:103-109 | appending a line to a block sets exactly the field its prefix names, overwriting the earlier value, and any other line changes nothing |
| Porcelain.RecordDefaults | src/worktreeProvider.ts:104-117 | a block yields at most one record; it has a non-empty path and branch and is not current; the branch is the name on the last `branch ` line with its first `refs/heads/` removed, or `detached` when there is no such line or that name is empty; the commit is the value of the last `HEAD ` line, or empty when there is none |
| Porcelain.RecordEmitted | src/worktreeProvider.ts:104-113 | a block yields a record exactly when its last `worktree ` line has a non-empty path, and that path is the record's |
| Porcelain.BlockIgnoresLine | src/worktreeProvider.ts:103-110 | a line with none of the three prefixes can be removed from a block without changing its fields |
| Porcelain.LastIndexIs | src/worktreeProvider.ts:103-109 | the last line with a prefix is the one `LastIndex` finds |
| Porcelain.HeadLineApply | src/worktreeProvider.ts:106-107 | a `HEAD ` line sets the commit to the text after the prefix and nothing else |
| Porcelain.BranchLineApply | src/worktreeProvider.ts:108-109 | a `branch refs/heads/<name>` line sets the branch to `<name>` and nothing else |
| Porcelain.EntryFields | src/worktreeProvider.ts:103-109 | the `worktree `, `HEAD ` and `branch refs/heads/` lines of a worktree set exactly its path, commit and branch |
| Porcelain.EntryRecord | src/worktreeProvider.ts:103-117 | those three lines yield the worktree itself when its path and branch are non-empty and it is not current |
| Porcelain.RecordIgnoresLine | src/worktreeProvider.ts:103-110 | a line with none of the three prefixes can be removed from a block without changing its record |
| Listing.Blocks | src/worktreeProvider.ts:103-121 | the listing cut at its empty lines, where line 119 resets the record; `Listing.BlocksPartition`, `Listing.BlocksUnblock` and `Listing.BlocksCount` state it |
| Listing.ParseLines | src/worktreeProvider.ts:98-121 | the reference parse: the records of the closed blocks in order; `WorktreeProvider.CollectWorktrees` is proved equal to it, and `Listing.ParseSerialized` inverts it |
| Listing.BlocksWellFormed | src/worktreeProvider.ts:110-119 | no block holds an empty line |
| Listing.BlocksCount | src/worktreeProvider.ts:110-119 | there are as many closed blocks as empty lines |
| Listing.BlocksPartition | src/worktreeProvider.ts:103-121 | the closed blocks, each followed by its empty line, and then the open tail give back the lines |
| Listing.BlocksExtendOpen | src/worktreeProvider.ts:103-121 | lines without an empty line only extend the open tail |
| Listing.BlocksUnblock | src/worktreeProvider.ts:103-121 | cutting the written-out blocks gives the same blocks back |
| Listing.BlocksAppend | src/worktreeProvider.ts:119 | a listing ending in a closed block is cut independently of what follows it |
| Listing.RecordsOfShape | src/worktreeProvider.ts:111-118 | closed blocks yield at most one record each, all with non-empty path and branch and none current |
| Listing.RecordsOfWorktreeBound | src/worktreeProvider.ts:104-105 | closed blocks yield no more records than they hold `worktree ` lines |
| Listing.ParsedRecordsShape | src/worktreeProvider.ts:111-117 | every parsed record has a non-empty path and branch and is not yet current |
| Listing.ParseBoundByEmptyLines | src/worktreeProvider.ts:110-112 | there are at most as many records as empty lines |
| Listing.ParseBoundByWorktreeLines | src/worktreeProvider.ts:104-112 | there are at most as many records as `worktree ` lines |
| Listing.ParseAppend | src/worktreeProvider.ts:119 | after an empty line parsing starts afresh: the records of `a + b` are those of `a` followed by those of `b`, so no field carries over and order is kept |
| Listing.UnterminatedTailDropped | src/worktreeProvider.ts:103-121 | lines after the last empty line yield no record |
| Listing.ParseOneBlock | src/worktreeProvider.ts:103-119 | one block followed by an empty line yields exactly that block's record |
| Listing.ParseEntry | src/worktreeProvider.ts:103-119 | one written entry followed by an empty line parses to exactly its worktree |
| Listing.ParseWrittenAfter | src/worktreeProvider.ts:103-121 | writing one more entry after a closed listing appends its worktree to the parse |
| Listing.ParseSerialized | src/worktreeProvider.ts:97-121 | a listing written from worktrees with non-empty paths and branches, none current, parses back to the same worktrees in the same order |
| Listing.ParseSerializedText | src/worktreeProvider.ts:97-121 | the same round trip through text: the listing joined with newlines and split again parses back to the worktrees, when no field holds a newline |
| Listing.ParseClosedEmptyLine | src/worktreeProvider.ts:110-119 | an empty line after a closed listing adds no record |
| Listing.ParseTextWithFinalNewline | src/worktreeProvider.ts:97-121 | a closed listing of newline-free lines, joined with newlines and given a final newline, parses as the listing does |
| Listing.ParseGitOutput | src/worktreeProvider.ts:97-121 | the text git prints for worktrees on branches, ending in two newlines, parses back to those worktrees in order, when their paths and branches are non-empty, none is current and no field holds a newline |
| Listing.OutputTailDropped | src/worktreeProvider.ts:99-121 | text after the last newline of the output never becomes a record |
| CurrentWorktree.HasRoot | src/worktreeProvider.ts:124-125 | `if (currentPath)`: a folder is open and its path is non-empty; `CurrentWorktree.CurrentExactlyWhenMatched` states its effect |
| CurrentWorktree.MarkFirst | src/worktreeProvider.ts:126-129 | marking keeps the number of records |
| CurrentWorktree.MarkCurrent | src/worktreeProvider.ts:124-130 | marking keeps the number of records |
| CurrentWorktree.MarkFirstKeepsFields | src/worktreeProvider.ts:126-129 | only `isCurrent` may change: path, branch, commit and order are kept |
| CurrentWorktree.MarkFirstFlag | src/worktreeProvider.ts:126-129 | a record is current afterwards exactly when it was before or it is the first whose path matches |
| CurrentWorktree.MarkKeepsRecords | src/worktreeProvider.ts:124-130 | paths, branches and commits and the order are kept, and only the first record whose path equals a non-empty root can change |
| CurrentWorktree.MarkedIsFirstMatch | src/worktreeProvider.ts:124-130 | on fresh records, a record is current exactly when the root is set and non-empty and the record is the first whose path equals it |
| CurrentWorktree.AtMostOneCurrent | src/worktreeProvider.ts:124-130 | on fresh records, at most one record is current after marking |
| CurrentWorktree.CurrentExactlyWhenMatched | src/worktreeProvider.ts:124-130 | on fresh records, some record is current exactly when the root is set, non-empty, and equal to some record's path |
| CurrentWorktree.FirstMatchExists | src/worktreeProvider.ts:126 | if some record has the path, a first such record exists |
| CurrentWorktree.MarkFirstAt | src/worktreeProvider.ts:126-129 | when `k` is the first matching record, marking sets its flag and changes nothing else |
| CurrentWorktree.MarkFirstNone | src/worktreeProvider.ts:126-127 | when no record matches, marking changes nothing |
| WorktreeProvider.CollectWorktrees | src/worktreeProvider.ts:98-121 | the line loop returns exactly the records of the closed blocks of the lines |
| WorktreeProvider.MarkCurrentWorktree | src/worktreeProvider.ts:123-130 | the search and update return exactly the marked records |
| WorktreeProvider.ParseWorktreeList | src/worktreeProvider.ts:97-133 | the result is the marked parse of the split output; every record has a non-empty path and branch, and a record is current exactly when it is the first whose path equals a non-empty root |
| Examples.BranchOfFeature | src/worktreeProvider.ts:109 | `refs/heads/feature/x` names branch `feature/x` |
| Examples.BranchRemovesInnerRef | src/worktreeProvider.ts:109 | `origin/refs/heads/x` names branch `origin/x`: the removal is not anchored at the start |
| Examples.EmptyOutput | src/worktreeProvider.ts:97-121 | empty output is one empty line and yields no records |
| Examples.DetachedBlockFields | src/worktreeProvider.ts:104-109 | the fields of a `worktree`/`HEAD`/`detached` block |
| Examples.DetachedBlock | src/worktreeProvider.ts:111-117 | a detached block yields branch `detached` |
| Examples.TwoWorktreesParsed | src/worktreeProvider.ts:97-121 | a listing of two worktrees yields both records in order |
| Examples.TwoWorktrees | src/worktreeProvider.ts:97-133 | with the root equal to the first path, only the first record is current |

## Left out

- `getWorktrees` (src/worktreeProvider.ts:79-95): running `git` in a child process, the missing-workspace case and the error path that logs and returns an empty list are I/O; the model starts from the output text.
- The workspace root lookup (src/worktreeProvider.ts:124) is editor state; it is the parameter `root`.
- `createWorktree`, `removeWorktree` and `switchToWorktree` (src/worktreeProvider.ts:135-175) only run commands and show messages.
- `WorktreeItem`, `refresh`, `getTreeItem`, `getChildren` and the file watcher (src/worktreeProvider.ts:14-77), and all of src/extension.ts, are user interface and event wiring.
- WorktreeProvider.MarkCurrentWorktree: `parseWorktreeList` sets `isCurrent` on the found object in place; the model returns the list with that element replaced, so aliasing of the record is not modelled (nothing else holds it).
- Porcelain.RecordIgnoresLine: the fact that an unknown line is ignored is stated for a single block, not for a whole listing; `Listing.ParseAppend` carries it from block to block.
- The empty-pattern and non-string cases of JavaScript `replace` do not arise, since the pattern is the constant `refs/heads/`.
