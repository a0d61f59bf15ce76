/**
 The part of a git history that GitFreqStat reads: commits with a committer
 time, their parents and their root tree; trees made of directory and leaf
 entries; and which paths each selected commit contributes to the frequency
 table.
 */
module History {
  import opened Frequency

  /**
   An entry of a git tree. Only directories are descended into; every other
   entry mode (regular or executable file, symbolic link, submodule) is a
   `Leaf`. `path` is the entry's path from the repository root.
   */
  datatype TreeEntry =
    | Directory(path: string, entries: seq<TreeEntry>)
    | Leaf(path: string)

  type Tree = seq<TreeEntry>

  /**
   A commit: its committer time, its parent commits in order, and its root
   tree. `time` is the committer's wall-clock reading with the time-zone
   offset dropped (what `When.DateTime` gives), in any fixed unit, so commits
   made in different time zones are compared by local clock, not by instant.
   */
  datatype Commit = Commit(time: int, parents: seq<Commit>, tree: Tree)

  /**
   The version-control backend's tree-to-tree diff: the paths of the changes
   between an old tree and a new one, in the order the backend reports them.
   */
  type Diff = (Tree, Tree) -> seq<string>

  // ---------------------------------------------------------------------------
  // Root-commit tree walk
  // ---------------------------------------------------------------------------

  /** The paths the recursive walk of one entry attributes a change to, in visiting order. */
  function WalkEntry(e: TreeEntry): seq<string>
    decreases e
  {
    match e
    case Directory(_, entries) => Walk(entries)
    case Leaf(p) => [p]
  }

  /** The paths the walk of a sequence of entries visits, entry by entry. */
  function Walk(es: Tree): seq<string>
    decreases es
  {
    if es == [] then [] else WalkEntry(es[0]) + Walk(es[1..])
  }

  lemma {:induction false} WalkAppend(a: Tree, b: Tree)
    ensures Walk(a + b) == Walk(a) + Walk(b)
    decreases a
  {
    if a == [] {
      assert a + b == b;
    } else {
      assert (a + b)[1..] == a[1..] + b;
      WalkAppend(a[1..], b);
    }
  }

  /**
   An entry followed by everything below it, in pre-order: a reference listing
   that the walk is compared against.
   */
  function Subtree(e: TreeEntry): seq<TreeEntry>
    decreases e
  {
    match e
    case Directory(_, entries) => [e] + Entries(entries)
    case Leaf(_) => [e]
  }

  /** Every entry of a tree, directories included, in pre-order. */
  function Entries(es: Tree): seq<TreeEntry>
    decreases es
  {
    if es == [] then [] else Subtree(es[0]) + Entries(es[1..])
  }

  /** The paths of the leaf entries of `ns`, in order; directory entries are skipped. */
  function LeafPaths(ns: seq<TreeEntry>): (r: seq<string>)
    ensures |r| <= |ns|
    ensures forall i :: 0 <= i < |r| ==> Leaf(r[i]) in ns
    decreases ns
  {
    if ns == [] then []
    else (if ns[0].Leaf? then [ns[0].path] else []) + LeafPaths(ns[1..])
  }

  lemma {:induction false} LeafPathsAppend(a: seq<TreeEntry>, b: seq<TreeEntry>)
    ensures LeafPaths(a + b) == LeafPaths(a) + LeafPaths(b)
    decreases a
  {
    if a == [] {
      assert a + b == b;
    } else {
      assert (a + b)[1..] == a[1..] + b;
      LeafPathsAppend(a[1..], b);
    }
  }

  /**
   The walk attributes exactly one change to each leaf entry of the tree, at
   any depth, and none to a directory entry: its result is the list of the
   paths of the tree's leaf entries.
   */
  lemma {:induction false} WalkVisitsEachLeafOnce(es: Tree)
    ensures Walk(es) == LeafPaths(Entries(es))
    decreases es
  {
    if es != [] {
      LeafPathsAppend(Subtree(es[0]), Entries(es[1..]));
      WalkEntryVisitsEachLeafOnce(es[0]);
      WalkVisitsEachLeafOnce(es[1..]);
    }
  }

  /** The same for the walk started at one entry. */
  lemma {:induction false} WalkEntryVisitsEachLeafOnce(e: TreeEntry)
    ensures WalkEntry(e) == LeafPaths(Subtree(e))
    decreases e
  {
    match e
    case Directory(_, entries) =>
      LeafPathsAppend([e], Entries(entries));
      assert LeafPaths([e]) == [] by {
        assert [e][1..] == [];
      }
      WalkVisitsEachLeafOnce(entries);
    case Leaf(p) =>
      assert [e][1..] == [];
  }

  /** Every path the walk counts is the path of a leaf entry somewhere in the tree. */
  lemma WalkCountsOnlyLeaves(es: Tree, i: nat)
    requires i < |Walk(es)|
    ensures Leaf(Walk(es)[i]) in Entries(es)
  {
    WalkVisitsEachLeafOnce(es);
  }

  /**
   No two entries of the tree, at any depth, share a path; this holds of every
   git tree, since `path` is the entry's path from the repository root.
   */
  predicate UniquePaths(es: Tree)
  {
    var all := Entries(es);
    forall i, j :: 0 <= i < j < |all| ==> all[i].path != all[j].path
  }

  /**
   In a tree whose entries have distinct paths, a directory's own path is never
   counted by the walk: directories never become keys of the table.
   */
  lemma DirectoriesNeverCounted(es: Tree, d: TreeEntry)
    requires UniquePaths(es)
    requires d in Entries(es) && d.Directory?
    ensures d.path !in Walk(es)
  {
    WalkVisitsEachLeafOnce(es);
    if d.path in Walk(es) {
      assert false;
    }
  }

  // ---------------------------------------------------------------------------
  // Change attribution and commit selection
  // ---------------------------------------------------------------------------

  /**
   The paths one commit contributes: the diff against its first parent when it
   has parents, otherwise every leaf of its tree.
   */
  function Contribution(c: Commit, diff: Diff): seq<string>
  {
    if |c.parents| > 0 then diff(c.parents[0].tree, c.tree) else Walk(c.tree)
  }

  /** Only the first parent's tree matters: other parents and parent times are ignored. */
  lemma OnlyFirstParentCounts(c: Commit, d: Commit, diff: Diff)
    requires c.tree == d.tree && |c.parents| > 0 && |d.parents| > 0
    requires c.parents[0].tree == d.parents[0].tree
    ensures Contribution(c, diff) == Contribution(d, diff) == diff(c.parents[0].tree, c.tree)
  {
  }

  /**
   The commits kept by the time filter: those with committer time at or after
   `stopAt`, each as often as it occurs, in the history's order.
   */
  function Selected(cs: seq<Commit>, stopAt: int): (r: seq<Commit>)
    ensures |r| <= |cs|
    ensures forall i :: 0 <= i < |r| ==> r[i].time >= stopAt
    ensures forall c :: c in r <==> c in cs && c.time >= stopAt
    decreases cs
  {
    if cs == [] then []
    else (if cs[0].time >= stopAt then [cs[0]] else []) + Selected(cs[1..], stopAt)
  }

  /** The filter keeps every commit at or after `stopAt` as often as it occurs, and no other. */
  lemma {:induction false} SelectedCounts(cs: seq<Commit>, stopAt: int, c: Commit)
    ensures multiset(Selected(cs, stopAt))[c] == if c.time >= stopAt then multiset(cs)[c] else 0
    decreases cs
  {
    if cs != [] {
      assert cs == [cs[0]] + cs[1..];
      SelectedCounts(cs[1..], stopAt, c);
    }
  }

  /**
   The filter keeps the history's order: selecting from two consecutive parts
   of the history is selecting from each part and concatenating.
   */
  lemma {:induction false} SelectedAppend(a: seq<Commit>, b: seq<Commit>, stopAt: int)
    ensures Selected(a + b, stopAt) == Selected(a, stopAt) + Selected(b, stopAt)
    decreases a
  {
    if a == [] {
      assert a + b == b;
    } else {
      assert (a + b)[0] == a[0] && (a + b)[1..] == a[1..] + b;
      SelectedAppend(a[1..], b, stopAt);
    }
  }

  /**
   The commits that an early exit at the first commit older than `stopAt`
   would keep, had the filter not been applied first: the longest prefix of
   commits at or after `stopAt`.
   */
  function NewerPrefix(cs: seq<Commit>, stopAt: int): seq<Commit>
    decreases cs
  {
    if cs == [] || cs[0].time < stopAt then [] else [cs[0]] + NewerPrefix(cs[1..], stopAt)
  }

  predicate NewestFirst(cs: seq<Commit>)
  {
    forall i, j :: 0 <= i < j < |cs| ==> cs[i].time >= cs[j].time
  }

  /**
   On a history enumerated newest first, keeping the prefix of recent commits
   and filtering all commits select the same commits. `NewestFirst` is about
   `time`, the offset-free clock reading: a log listed in commit order need not
   be newest first by that reading when its commits come from different time
   zones.
   */
  lemma {:induction false} PrefixIsFilterWhenNewestFirst(cs: seq<Commit>, stopAt: int)
    requires NewestFirst(cs)
    ensures NewerPrefix(cs, stopAt) == Selected(cs, stopAt)
    decreases cs
  {
    if cs != [] {
      assert NewestFirst(cs[1..]);
      PrefixIsFilterWhenNewestFirst(cs[1..], stopAt);
      if cs[0].time < stopAt {
        assert forall c :: c in cs[1..] ==> c.time < stopAt;
        assert Selected(cs[1..], stopAt) == [];
      }
    }
  }

  /** Everything the given commits contribute, commit after commit. */
  function Touches(cs: seq<Commit>, diff: Diff): seq<string>
    decreases cs
  {
    if cs == [] then [] else Contribution(cs[0], diff) + Touches(cs[1..], diff)
  }

  lemma {:induction false} TouchesSnoc(cs: seq<Commit>, c: Commit, diff: Diff)
    ensures Touches(cs + [c], diff) == Touches(cs, diff) + Contribution(c, diff)
    decreases cs
  {
    if cs == [] {
      assert [c][1..] == [];
    } else {
      assert (cs + [c])[1..] == cs[1..] + [c];
      TouchesSnoc(cs[1..], c, diff);
    }
  }

  /** The number of commits among `cs` whose contribution includes `p`, counted with multiplicity. */
  function Hits(cs: seq<Commit>, p: string, diff: Diff): nat
    decreases cs
  {
    if cs == [] then 0 else Occurrences(Contribution(cs[0], diff), p) + Hits(cs[1..], p, diff)
  }

  /**
   A path occurs in the commits' combined contribution as many times as the
   sum, over the commits, of its occurrences in each commit's own contribution.
   */
  lemma {:induction false} TouchesCountsHits(cs: seq<Commit>, p: string, diff: Diff)
    ensures Occurrences(Touches(cs, diff), p) == Hits(cs, p, diff)
    decreases cs
  {
    if cs != [] {
      OccurrencesAppend(Contribution(cs[0], diff), Touches(cs[1..], diff), p);
      TouchesCountsHits(cs[1..], p, diff);
    }
  }
}
