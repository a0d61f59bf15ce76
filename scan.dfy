/**
 The scan itself: the frequency table that `Program` keeps as a static
 dictionary, updated in place while the selected commits are walked, and the
 whole run from the commit history to the report.
 */
module Scan {
  import opened Frequency
  import opened History
  import opened Reporting

  /**
   The mutable frequency table. `counts` is the dictionary's content and
   `order` the order in which its keys were first added, which is the order
   the dictionary enumerates them in.
   */
  class FrequencyTable {
    var counts: map<string, int>
    var order: seq<string>

    /** The table's current content as a value. */
    function Value(): Frequencies
      reads this
    {
      Frequencies(counts, order)
    }

    /** The table is created empty, which is a well-formed table. */
    constructor ()
      ensures Value() == Empty && WellFormed(Value())
    {
      counts := map[];
      order := [];
    }

    /**
     Attributes one change to `file`: its count becomes its old count (0 when
     absent) plus one; no other entry changes.
     */
    method Update(file: string)
      modifies this
      ensures old(WellFormed(Value())) ==> WellFormed(Value())
      ensures Value() == Increment(old(Value()), file)
      ensures counts.Keys == old(counts).Keys + {file}
      ensures counts[file] == Count(old(counts), file) + 1
      ensures forall q :: q in old(counts) && q != file ==> counts[q] == old(counts)[q]
    {
      var frequency := 0;
      if file in counts {
        frequency := counts[file];
      }
      frequency := frequency + 1;
      if file !in counts {
        order := order + [file];
      }
      counts := counts[file := frequency];
    }

    /**
     The recursive walk of a root commit's tree entry: a directory is
     descended into, every other entry gets one change.
     */
    method CountEntry(e: TreeEntry)
      modifies this
      ensures Value() == Tally(old(Value()), WalkEntry(e))
      decreases e
    {
      match e {
        case Directory(_, entries) =>
          CountEntries(entries);
        case Leaf(p) =>
          Update(p);
          assert [p][1..] == [];
      }
    }

    /** Walks each entry of a tree in turn. */
    method CountEntries(entries: Tree)
      modifies this
      ensures Value() == Tally(old(Value()), Walk(entries))
      decreases entries, 0
    {
      for i := 0 to |entries|
        invariant Value() == Tally(old(Value()), Walk(entries[..i]))
      {
        ghost var done := Walk(entries[..i]);
        CountEntry(entries[i]);
        assert entries[..i + 1] == entries[..i] + [entries[i]];
        assert [entries[i]][1..] == [];
        assert Walk([entries[i]]) == WalkEntry(entries[i]) + Walk([]);
        assert Walk([entries[i]]) == WalkEntry(entries[i]);
        WalkAppend(entries[..i], [entries[i]]);
        assert Walk(entries[..i + 1]) == done + WalkEntry(entries[i]);
        TallyAppend(old(Value()), done, WalkEntry(entries[i]));
        assert Value() == Tally(old(Value()), done + WalkEntry(entries[i]));
      }
      assert entries[..|entries|] == entries;
    }

    /** One change per path of a diff, in the diff's order. */
    method CountChanges(changes: seq<string>)
      modifies this
      ensures Value() == Tally(old(Value()), changes)
    {
      for i := 0 to |changes|
        invariant Value() == Tally(old(Value()), changes[..i])
      {
        Update(changes[i]);
        assert changes[..i + 1] == changes[..i] + [changes[i]];
        assert [changes[i]][1..] == [];
        TallyAppend(old(Value()), changes[..i], [changes[i]]);
      }
      assert changes[..|changes|] == changes;
    }

    /**
     The changes of one commit: every path of its diff against its first
     parent when it has parents, otherwise every leaf of its tree.
     */
    method CountCommit(log: Commit, diff: Diff)
      modifies this
      ensures Value() == Tally(old(Value()), Contribution(log, diff))
    {
      if |log.parents| > 0 {
        var oldTree := log.parents[0].tree;
        var changes := diff(oldTree, log.tree);
        CountChanges(changes);
      } else {
        CountEntries(log.tree);
      }
    }

    /**
     The commit scan: the commits at or after `stopAt` are taken, in the
     history's order; each contributes its diff against its first parent, or,
     for a root commit, every leaf of its tree. The early exit on an older
     commit is kept and is unreachable, because the filter already dropped
     every such commit.
     */
    method Scan(commits: seq<Commit>, stopAt: int, diff: Diff)
      modifies this
      ensures Value() == Tally(old(Value()), Touches(Selected(commits, stopAt), diff))
    {
      var toTake := Selected(commits, stopAt);
      for i := 0 to |toTake|
        invariant Value() == Tally(old(Value()), Touches(toTake[..i], diff))
      {
        var log := toTake[i];
        if log.time < stopAt {
          assert false;
          break;
        }
        CountCommit(log, diff);
        ScanStep(old(Value()), toTake, i, diff);
      }
      assert toTake[..|toTake|] == toTake;
    }
  }

  /** Scanning one more commit tallies its contribution on top of the earlier ones. */
  lemma ScanStep(t: Frequencies, cs: seq<Commit>, i: nat, diff: Diff)
    requires i < |cs|
    ensures Tally(t, Touches(cs[..i + 1], diff)) == Tally(Tally(t, Touches(cs[..i], diff)), Contribution(cs[i], diff))
  {
    assert cs[..i + 1] == cs[..i] + [cs[i]];
    TouchesSnoc(cs[..i], cs[i], diff);
    TallyAppend(t, Touches(cs[..i], diff), Contribution(cs[i], diff));
  }

  /**
   The report of a run: the table built from the empty table by one increment
   per element of `touched`, enumerated and reported against `threshold`.
   */
  function ReportOf(touched: seq<string>, threshold: int): Report
  {
    Build(TableRows(Tally(Empty, touched)), threshold)
  }

  /**
   The program without its console: scan the history into a fresh table,
   then report on it.
   */
  method Run(commits: seq<Commit>, stopAt: int, threshold: int, diff: Diff) returns (r: Report)
    ensures r == ReportOf(Touches(Selected(commits, stopAt), diff), threshold)
  {
    var table := new FrequencyTable();
    table.Scan(commits, stopAt, diff);
    r := Build(TableRows(table.Value()), threshold);
  }

  /**
   The rows of the table built from the empty table by `touched`: one per
   touched path, carrying the number of its occurrences.
   */
  lemma TallyRows(touched: seq<string>)
    ensures var rows := TableRows(Tally(Empty, touched));
      && DistinctPaths(rows)
      && forall x :: x in rows <==> x.path in touched && x.frequency == Occurrences(touched, x.path)
  {
    var t := Tally(Empty, touched);
    TallyWellFormed(Empty, touched);
    TableRowsListTable(t);
    forall p ensures p in t.counts <==> p in touched
      ensures p in touched ==> t.counts[p] == Occurrences(touched, p)
    {
      TallyFromEmpty(touched, p);
    }
  }

  /**
   A root commit whose tree has distinct entry paths never makes a directory's
   path a key of a fresh table: only its leaves are counted.
   */
  lemma RootDirectoriesNotKeys(c: Commit, diff: Diff, d: TreeEntry)
    requires |c.parents| == 0 && UniquePaths(c.tree)
    requires d in Entries(c.tree) && d.Directory?
    ensures d.path !in Tally(Empty, Contribution(c, diff)).counts
  {
    DirectoriesNeverCounted(c.tree, d);
    TallyFromEmpty(Contribution(c, diff), d.path);
  }

  /**
   End to end, the "no data" outcome: it is reported exactly when no path
   occurs in `touched` at least `threshold` times.
   */
  lemma NoDataIffNothingFrequent(touched: seq<string>, threshold: int)
    ensures ReportOf(touched, threshold).NoData?
      <==> (forall p :: p in touched ==> Occurrences(touched, p) < threshold)
  {
    var rows := TableRows(Tally(Empty, touched));
    TallyRows(touched);
    NoDataIffNothingQualifies(rows, threshold);
    if p :| p in touched && Occurrences(touched, p) >= threshold {
      assert Row(p, Occurrences(touched, p)) in rows;
    }
    if i :| 0 <= i < |rows| && rows[i].frequency >= threshold {
      assert rows[i] in rows;
    }
  }

  /**
   End to end, a shown report: a path is shown with frequency f exactly when
   it occurs f times in `touched` and f reaches the threshold, and no path is
   shown twice.
   */
  lemma ShowsFrequentPaths(touched: seq<string>, threshold: int)
    requires exists p :: p in touched && Occurrences(touched, p) >= threshold
    ensures ReportOf(touched, threshold).Shown?
    ensures var shown := ShownRows(ReportOf(touched, threshold).lines);
      && DistinctPaths(shown)
      && forall p, f :: Row(p, f) in shown <==> p in touched && f == Occurrences(touched, p) && f >= threshold
  {
    NoDataIffNothingFrequent(touched, threshold);
    var rows := TableRows(Tally(Empty, touched));
    assert ReportOf(touched, threshold) == Build(rows, threshold);
    assert exists i :: 0 <= i < |rows| && rows[i].frequency >= threshold by {
      NoDataIffNothingQualifies(rows, threshold);
    }
    var shown := ShownRows(Build(rows, threshold).lines);
    TallyRows(touched);
    ReportShowsQualifyingRows(rows, threshold);
    ShownPathsDistinct(rows, threshold);
    forall p, f
      ensures Row(p, f) in shown <==> p in touched && f == Occurrences(touched, p) && f >= threshold
    {
      var x := Row(p, f);
      assert x in shown <==> x in rows && x.frequency >= threshold;
      assert x in rows <==> x.path in touched && x.frequency == Occurrences(touched, x.path);
    }
  }

  /**
   For a run, a path is shown with frequency f exactly when f is the sum over
   the selected commits of the times the path occurs in each commit's
   contribution, f is at least 1 and f reaches the threshold.
   */
  lemma ShownFrequencyIsPerCommitSum(commits: seq<Commit>, stopAt: int, threshold: int, diff: Diff, p: string, f: int)
    ensures var report := ReportOf(Touches(Selected(commits, stopAt), diff), threshold);
      report.Shown? ==>
        (Row(p, f) in ShownRows(report.lines)
         <==> f == Hits(Selected(commits, stopAt), p, diff) && f >= 1 && f >= threshold)
  {
    var touched := Touches(Selected(commits, stopAt), diff);
    TouchesCountsHits(Selected(commits, stopAt), p, diff);
    if ReportOf(touched, threshold).Shown? {
      NoDataIffNothingFrequent(touched, threshold);
      ShowsFrequentPaths(touched, threshold);
    }
  }
}
