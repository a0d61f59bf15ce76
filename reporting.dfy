/**
 The report GitFreqStat prints once the scan is over: the table's entries with
 a frequency at or above the threshold, in descending order of frequency, each
 tagged with one of three buckets computed from the range of the shown
 frequencies.
 */
module Reporting {
  import opened Frequency

  /** One entry of the table as the report pipeline sees it. */
  datatype Row = Row(path: string, frequency: int)

  /** The three display tiers (printed in red, cyan and green). */
  datatype Bucket = High | Medium | Low

  /** A printed report line: its bucket, the frequency and the path. */
  datatype Line = Line(bucket: Bucket, frequency: int, path: string)

  /** Either the "no data" outcome or the lines of the table, top to bottom. */
  datatype Report = NoData | Shown(lines: seq<Line>)

  // ---------------------------------------------------------------------------
  // Enumerating the table
  // ---------------------------------------------------------------------------

  /** The rows of `m` for the paths of `ks`, in that order. */
  function RowsOf(m: map<string, int>, ks: seq<string>): (r: seq<Row>)
    ensures |r| == |ks|
    ensures forall i :: 0 <= i < |ks| ==> r[i] == Row(ks[i], Count(m, ks[i]))
    decreases ks
  {
    if ks == [] then [] else [Row(ks[0], Count(m, ks[0]))] + RowsOf(m, ks[1..])
  }

  /** The table's rows in its enumeration order (first-insertion order). */
  function TableRows(t: Frequencies): seq<Row>
  {
    RowsOf(t.counts, t.order)
  }

  /**
   The enumeration of a well-formed table lists each of its entries exactly
   once, and nothing else.
   */
  lemma TableRowsListTable(t: Frequencies)
    requires WellFormed(t)
    ensures forall r :: r in TableRows(t) <==> r.path in t.counts && t.counts[r.path] == r.frequency
    ensures DistinctPaths(TableRows(t))
  {
    var es := TableRows(t);
    forall r: Row | r.path in t.counts && t.counts[r.path] == r.frequency
      ensures r in es
    {
      var i :| 0 <= i < |t.order| && t.order[i] == r.path;
      assert es[i] == r;
    }
  }

  // ---------------------------------------------------------------------------
  // Filter and stable descending sort
  // ---------------------------------------------------------------------------

  /** The rows with a frequency at or above `threshold`, in their original order. */
  function AtLeast(rows: seq<Row>, threshold: int): (r: seq<Row>)
    ensures forall x :: multiset(r)[x] == if x.frequency >= threshold then multiset(rows)[x] else 0
    decreases rows
  {
    if rows == [] then []
    else
      assert rows == [rows[0]] + rows[1..];
      (if rows[0].frequency >= threshold then [rows[0]] else []) + AtLeast(rows[1..], threshold)
  }

  predicate NonIncreasing(rows: seq<Row>)
  {
    forall i, j :: 0 <= i < j < |rows| ==> rows[i].frequency >= rows[j].frequency
  }

  /** The rows of frequency `f`, in order: what a stable sort must not reorder. */
  function WithFrequency(rows: seq<Row>, f: int): seq<Row>
    decreases rows
  {
    if rows == [] then []
    else (if rows[0].frequency == f then [rows[0]] else []) + WithFrequency(rows[1..], f)
  }

  /** Every row of `rows` has a frequency of at most `b`. */
  predicate AtMost(rows: seq<Row>, b: int)
  {
    forall k :: 0 <= k < |rows| ==> rows[k].frequency <= b
  }

  /** `x` placed before the first row whose frequency does not exceed its own. */
  function Insert(x: Row, s: seq<Row>): (r: seq<Row>)
    ensures multiset(r) == multiset(s) + multiset{x}
    decreases s
  {
    if s == [] then [x]
    else if s[0].frequency <= x.frequency then [x] + s
    else
      assert s == [s[0]] + s[1..];
      [s[0]] + Insert(x, s[1..])
  }

  lemma {:induction false} InsertBounded(x: Row, s: seq<Row>, b: int)
    requires AtMost(s, b) && x.frequency <= b
    ensures AtMost(Insert(x, s), b)
    decreases s
  {
    if s != [] && s[0].frequency > x.frequency {
      InsertBounded(x, s[1..], b);
    }
  }

  /** Inserting into a sorted sequence keeps it sorted. */
  lemma {:induction false} InsertSorted(x: Row, s: seq<Row>)
    requires NonIncreasing(s)
    ensures NonIncreasing(Insert(x, s))
    decreases s
  {
    if s != [] && s[0].frequency > x.frequency {
      InsertSorted(x, s[1..]);
      InsertBounded(x, s[1..], s[0].frequency);
    }
  }

  /**
   The descending sort the report applies: stable, so rows of equal frequency
   keep their enumeration order.
   */
  function SortDescending(rows: seq<Row>): (r: seq<Row>)
    ensures multiset(r) == multiset(rows)
    ensures NonIncreasing(r)
    decreases rows
  {
    if rows == [] then []
    else
      assert rows == [rows[0]] + rows[1..];
      InsertSorted(rows[0], SortDescending(rows[1..]));
      Insert(rows[0], SortDescending(rows[1..]))
  }

  /** The rows of frequency `f` in `[y] + s`: `y` itself when it has that frequency, then those of `s`. */
  lemma WithFrequencyCons(y: Row, s: seq<Row>, f: int)
    ensures WithFrequency([y] + s, f) == (if y.frequency == f then [y] else []) + WithFrequency(s, f)
  {
    assert ([y] + s)[0] == y && ([y] + s)[1..] == s;
  }

  /**
   The filter keeps the input order: the kept rows of each frequency are, in
   order, all the input's rows of that frequency when it reaches the
   threshold, and none otherwise.
   */
  lemma {:induction false} AtLeastKeepsOrder(rows: seq<Row>, threshold: int, f: int)
    ensures WithFrequency(AtLeast(rows, threshold), f) == if f >= threshold then WithFrequency(rows, f) else []
    decreases rows
  {
    if rows != [] {
      AtLeastKeepsOrder(rows[1..], threshold, f);
      var kept := if rows[0].frequency >= threshold then [rows[0]] else [];
      assert AtLeast(rows, threshold) == kept + AtLeast(rows[1..], threshold);
      if rows[0].frequency >= threshold {
        WithFrequencyCons(rows[0], AtLeast(rows[1..], threshold), f);
      } else {
        assert kept + AtLeast(rows[1..], threshold) == AtLeast(rows[1..], threshold);
      }
    }
  }

  /** Inserting `x` keeps the rows of frequency `f`, with `x` first among them when it has that frequency. */
  lemma {:induction false} InsertKeepsTies(x: Row, s: seq<Row>, f: int)
    ensures WithFrequency(Insert(x, s), f)
         == (if x.frequency == f then [x] else []) + WithFrequency(s, f)
    decreases s
  {
    if s == [] {
      WithFrequencyCons(x, [], f);
    } else if s[0].frequency <= x.frequency {
      WithFrequencyCons(x, s, f);
    } else {
      InsertKeepsTies(x, s[1..], f);
      assert Insert(x, s) == [s[0]] + Insert(x, s[1..]);
      assert s == [s[0]] + s[1..];
      TiesPastHead(s[0], x, Insert(x, s[1..]), s[1..], f);
    }
  }

  /**
   Putting a row `y` of a different frequency than `x` in front of two
   sequences keeps them equal up to `x`'s place among the rows of frequency `f`.
   */
  lemma TiesPastHead(y: Row, x: Row, t: seq<Row>, u: seq<Row>, f: int)
    requires y.frequency != x.frequency
    requires WithFrequency(t, f) == (if x.frequency == f then [x] else []) + WithFrequency(u, f)
    ensures WithFrequency([y] + t, f) == (if x.frequency == f then [x] else []) + WithFrequency([y] + u, f)
  {
    WithFrequencyCons(y, t, f);
    WithFrequencyCons(y, u, f);
    if y.frequency == f {
      assert x.frequency != f;
    } else {
      var mine := if x.frequency == f then [x] else [];
      assert [] + (mine + WithFrequency(u, f)) == mine + ([] + WithFrequency(u, f));
    }
  }

  /** The sort is stable: among rows of equal frequency the order is unchanged. */
  lemma {:induction false} SortIsStable(rows: seq<Row>, f: int)
    ensures WithFrequency(SortDescending(rows), f) == WithFrequency(rows, f)
    decreases rows
  {
    if rows != [] {
      SortIsStable(rows[1..], f);
      InsertKeepsTies(rows[0], SortDescending(rows[1..]), f);
    }
  }

  // ---------------------------------------------------------------------------
  // Buckets
  // ---------------------------------------------------------------------------

  /** C#'s integer division by 3, which truncates toward zero. */
  function Third(a: int): (q: int)
    ensures a >= 0 ==> 0 <= a - 3 * q < 3
    ensures a < 0 ==> 0 <= 3 * q - a < 3
  {
    if a >= 0 then a / 3 else -((-a) / 3)
  }

  /** The bucket of frequency `f` in a report whose shown frequencies range over [min, max]. */
  function Classify(f: int, min: int, max: int): Bucket
  {
    if f > min + Third(2 * (max - min)) then High
    else if f > min + Third(max - min) then Medium
    else Low
  }

  /** The rank of a bucket: Low below Medium below High. */
  function Tier(b: Bucket): nat
  {
    match b
    case Low => 0
    case Medium => 1
    case High => 2
  }

  /**
   Over a non-empty range, the buckets split it into three consecutive bands:
   Low up to min + (max-min)/3, Medium up to min + 2(max-min)/3, High above.
   The lowest frequency is always Low; the highest is High whenever the range
   is not a single value; when max == min every frequency is Low.
   */
  lemma BucketBands(f: int, min: int, max: int)
    requires min <= f <= max
    ensures Classify(f, min, max) == High <==> f > min + 2 * (max - min) / 3
    ensures Classify(f, min, max) == Medium <==> min + (max - min) / 3 < f <= min + 2 * (max - min) / 3
    ensures Classify(f, min, max) == Low <==> f <= min + (max - min) / 3
    ensures f == min ==> Classify(f, min, max) == Low
    ensures f == max && max > min ==> Classify(f, min, max) == High
    ensures max == min ==> Classify(f, min, max) == Low
  {
  }

  /** A higher frequency never lands in a lower bucket. */
  lemma BucketMonotone(f: int, g: int, min: int, max: int)
    requires min <= max && f <= g
    ensures Tier(Classify(f, min, max)) <= Tier(Classify(g, min, max))
  {
  }

  // ---------------------------------------------------------------------------
  // The report
  // ---------------------------------------------------------------------------

  /** The sorted rows as report lines, bucketed against [min, max]. */
  function Lines(rows: seq<Row>, min: int, max: int): (r: seq<Line>)
    ensures |r| == |rows|
    ensures forall i :: 0 <= i < |rows| ==>
              r[i] == Line(Classify(rows[i].frequency, min, max), rows[i].frequency, rows[i].path)
    decreases rows
  {
    if rows == [] then []
    else [Line(Classify(rows[0].frequency, min, max), rows[0].frequency, rows[0].path)]
         + Lines(rows[1..], min, max)
  }

  /**
   The report for the table's enumerated `rows` and the threshold: "no data"
   when no row reaches the threshold, otherwise the qualifying rows sorted by
   descending frequency, with max taken from the first row and min from the
   last.
   */
  function Build(rows: seq<Row>, threshold: int): Report
  {
    var sorted := SortDescending(AtLeast(rows, threshold));
    if sorted == [] then NoData
    else
      var max := sorted[0].frequency;
      var min := sorted[|sorted| - 1].frequency;
      Shown(Lines(sorted, min, max))
  }

  /** The rows a report shows, without their buckets. */
  function ShownRows(lines: seq<Line>): (r: seq<Row>)
    ensures |r| == |lines|
    ensures forall i :: 0 <= i < |lines| ==> r[i] == Row(lines[i].path, lines[i].frequency)
    decreases lines
  {
    if lines == [] then [] else [Row(lines[0].path, lines[0].frequency)] + ShownRows(lines[1..])
  }

  lemma LinesShowSortedRows(sorted: seq<Row>, min: int, max: int)
    ensures ShownRows(Lines(sorted, min, max)) == sorted
  {
  }

  /**
   The "no data" outcome is taken exactly when no row reaches the threshold.
   */
  lemma NoDataIffNothingQualifies(rows: seq<Row>, threshold: int)
    ensures Build(rows, threshold).NoData?
        <==> forall i :: 0 <= i < |rows| ==> rows[i].frequency < threshold
  {
    var sorted := SortDescending(AtLeast(rows, threshold));
    if exists i :: 0 <= i < |rows| && rows[i].frequency >= threshold {
      var i :| 0 <= i < |rows| && rows[i].frequency >= threshold;
      assert multiset(rows)[rows[i]] > 0;
      assert multiset(sorted)[rows[i]] > 0;
    }
  }

  /**
   A shown report lists exactly the rows at or above the threshold (each as
   often as it occurs, so a row of frequency equal to the threshold is shown
   and one below it is not), in non-increasing order of frequency, with rows
   of equal frequency in their enumeration order.
   */
  lemma ReportShowsQualifyingRows(rows: seq<Row>, threshold: int)
    requires exists i :: 0 <= i < |rows| && rows[i].frequency >= threshold
    ensures Build(rows, threshold).Shown?
    ensures var shown := ShownRows(Build(rows, threshold).lines);
      && |shown| > 0
      && (forall x :: multiset(shown)[x] == if x.frequency >= threshold then multiset(rows)[x] else 0)
      && (forall x :: x in shown <==> x in rows && x.frequency >= threshold)
      && NonIncreasing(shown)
      && (forall f :: f >= threshold ==> WithFrequency(shown, f) == WithFrequency(rows, f))
  {
    NoDataIffNothingQualifies(rows, threshold);
    var sorted := SortDescending(AtLeast(rows, threshold));
    LinesShowSortedRows(sorted, sorted[|sorted| - 1].frequency, sorted[0].frequency);
    assert ShownRows(Build(rows, threshold).lines) == sorted;
    forall f | f >= threshold ensures WithFrequency(sorted, f) == WithFrequency(rows, f) {
      SortIsStable(AtLeast(rows, threshold), f);
      AtLeastKeepsOrder(rows, threshold, f);
    }
    forall x ensures x in sorted <==> x in rows && x.frequency >= threshold {
      assert x in sorted <==> multiset(sorted)[x] > 0;
      assert x in rows <==> multiset(rows)[x] > 0;
    }
  }

  /** Every line's frequency lies in [min, max]. */
  predicate InRange(lines: seq<Line>, min: int, max: int)
  {
    forall i :: 0 <= i < |lines| ==> min <= lines[i].frequency <= max
  }

  /** Every line carries the bucket of its frequency against [min, max]. */
  predicate BucketedAgainst(lines: seq<Line>, min: int, max: int)
  {
    forall i :: 0 <= i < |lines| ==> lines[i].bucket == Classify(lines[i].frequency, min, max)
  }

  /** Buckets never rise down the report: High lines, then Medium, then Low. */
  predicate TiersDescend(lines: seq<Line>)
  {
    forall i, j :: 0 <= i < j < |lines| ==> Tier(lines[i].bucket) >= Tier(lines[j].bucket)
  }

  predicate AllLow(lines: seq<Line>)
  {
    forall i :: 0 <= i < |lines| ==> lines[i].bucket == Low
  }

  /** No two rows share a path. */
  predicate DistinctPaths(rows: seq<Row>)
  {
    forall i, j :: 0 <= i < j < |rows| ==> rows[i].path != rows[j].path
  }

  lemma {:induction false} DistinctPathsOnce(rows: seq<Row>, x: Row)
    requires DistinctPaths(rows)
    ensures multiset(rows)[x] <= 1
    decreases rows
  {
    if rows != [] {
      assert rows == [rows[0]] + rows[1..];
      assert DistinctPaths(rows[1..]);
      DistinctPathsOnce(rows[1..], x);
      if rows[0] == x {
        assert x !in rows[1..];
      }
    }
  }

  lemma RepeatedTwice(s: seq<Row>, i: nat, j: nat)
    requires i < j < |s| && s[i] == s[j]
    ensures multiset(s)[s[i]] >= 2
  {
    assert s == s[..i] + [s[i]] + s[i + 1..j] + [s[j]] + s[j + 1..];
  }

  /** When the table's rows have distinct paths, so have the report's lines. */
  lemma ShownPathsDistinct(rows: seq<Row>, threshold: int)
    requires DistinctPaths(rows)
    requires exists i :: 0 <= i < |rows| && rows[i].frequency >= threshold
    ensures Build(rows, threshold).Shown?
    ensures DistinctPaths(ShownRows(Build(rows, threshold).lines))
  {
    NoDataIffNothingQualifies(rows, threshold);
    var shown := ShownRows(Build(rows, threshold).lines);
    ReportShowsQualifyingRows(rows, threshold);
    forall i, j | 0 <= i < j < |shown| ensures shown[i].path != shown[j].path {
      if shown[i].path == shown[j].path {
        assert shown[i] in rows && shown[j] in rows;
        var k :| 0 <= k < |rows| && rows[k] == shown[i];
        var l :| 0 <= l < |rows| && rows[l] == shown[j];
        assert k == l;
        RepeatedTwice(shown, i, j);
        DistinctPathsOnce(rows, shown[i]);
        assert false;
      }
    }
  }

  /**
   The shape of a bucketed report, with max the first line's frequency and
   min the last one's: every line lies between them and carries the bucket of
   its frequency against them; buckets never rise down the report; the last
   line is Low; the first is High unless all frequencies are equal, and then
   every line is Low.
   */
  predicate WellBucketed(lines: seq<Line>)
  {
    && |lines| > 0
    && var max := lines[0].frequency;
       var min := lines[|lines| - 1].frequency;
       && InRange(lines, min, max)
       && BucketedAgainst(lines, min, max)
       && TiersDescend(lines)
       && lines[|lines| - 1].bucket == Low
       && (max > min ==> lines[0].bucket == High)
       && (max == min ==> AllLow(lines))
  }

  lemma LinesInRange(sorted: seq<Row>)
    requires NonIncreasing(sorted) && |sorted| > 0
    ensures var min := sorted[|sorted| - 1].frequency;
      var max := sorted[0].frequency;
      InRange(Lines(sorted, min, max), min, max)
  {
  }

  lemma LinesTiersDescend(sorted: seq<Row>, min: int, max: int)
    requires NonIncreasing(sorted) && min <= max
    ensures TiersDescend(Lines(sorted, min, max))
  {
    var lines := Lines(sorted, min, max);
    forall i, j | 0 <= i < j < |lines|
      ensures Tier(lines[i].bucket) >= Tier(lines[j].bucket)
    {
      BucketMonotone(sorted[j].frequency, sorted[i].frequency, min, max);
    }
  }

  lemma LinesAllLow(sorted: seq<Row>, min: int)
    requires forall i :: 0 <= i < |sorted| ==> sorted[i].frequency == min
    ensures AllLow(Lines(sorted, min, min))
  {
    var lines := Lines(sorted, min, min);
    forall i | 0 <= i < |lines| ensures lines[i].bucket == Low {
      BucketBands(sorted[i].frequency, min, min);
    }
  }

  /** The first and last lines of the bucketed rows carry the bucket of max and of min. */
  lemma LinesEnds(sorted: seq<Row>)
    requires NonIncreasing(sorted) && |sorted| > 0
    ensures var max := sorted[0].frequency;
      var min := sorted[|sorted| - 1].frequency;
      var lines := Lines(sorted, min, max);
      && lines[0].frequency == max && lines[|lines| - 1].frequency == min
      && lines[|lines| - 1].bucket == Low
      && (max > min ==> lines[0].bucket == High)
  {
    var max := sorted[0].frequency;
    var min := sorted[|sorted| - 1].frequency;
    BucketBands(min, min, max);
    BucketBands(max, min, max);
  }

  /** Bucketing a non-empty sorted sequence of rows against its first and last frequency. */
  lemma SortedLinesBuckets(sorted: seq<Row>)
    requires NonIncreasing(sorted) && |sorted| > 0
    ensures WellBucketed(Lines(sorted, sorted[|sorted| - 1].frequency, sorted[0].frequency))
  {
    var max := sorted[0].frequency;
    var min := sorted[|sorted| - 1].frequency;
    LinesEnds(sorted);
    LinesInRange(sorted);
    LinesTiersDescend(sorted, min, max);
    if max == min {
      LinesAllLow(sorted, min);
    }
  }

  /** A shown report is well bucketed, with max from its first line and min from its last. */
  lemma ReportBuckets(rows: seq<Row>, threshold: int)
    requires exists i :: 0 <= i < |rows| && rows[i].frequency >= threshold
    ensures Build(rows, threshold).Shown?
    ensures WellBucketed(Build(rows, threshold).lines)
  {
    NoDataIffNothingQualifies(rows, threshold);
    var sorted := SortDescending(AtLeast(rows, threshold));
    SortedLinesBuckets(sorted);
  }

  lemma ExampleSort()
    ensures SortDescending([Row("a", 7), Row("b", 4), Row("c", 10)])
         == [Row("c", 10), Row("a", 7), Row("b", 4)]
  {
    var a, b, c := Row("a", 7), Row("b", 4), Row("c", 10);
    assert [a, b, c][1..] == [b, c];
    assert [b, c][1..] == [c];
    assert [c][1..] == [];
    assert SortDescending([c]) == Insert(c, []) == [c];
    assert [c, b][1..] == [b];
    assert Insert(b, [c]) == [c] + Insert(b, []) == [c, b];
    assert SortDescending([b, c]) == [c, b];
    assert Insert(a, [b]) == [a, b];
    assert Insert(a, [c, b]) == [c] + Insert(a, [b]) == [c, a, b];
  }

  lemma ExampleFilter()
    ensures AtLeast([Row("a", 7), Row("b", 4), Row("c", 10)], 4) == [Row("a", 7), Row("b", 4), Row("c", 10)]
  {
    var a, b, c := Row("a", 7), Row("b", 4), Row("c", 10);
    assert [a, b, c][1..] == [b, c];
    assert [b, c][1..] == [c];
    assert [c][1..] == [];
  }

  lemma ExampleLines()
    ensures Lines([Row("c", 10), Row("a", 7), Row("b", 4)], 4, 10)
         == [Line(High, 10, "c"), Line(Medium, 7, "a"), Line(Low, 4, "b")]
  {
    assert Third(2 * (10 - 4)) == 4 && Third(10 - 4) == 2;
  }

  /**
   A concrete report: the shown frequencies range over [4, 10], so the band
   limits are 4 + 6/3 = 6 and 4 + 12/3 = 8; 10 is above 8 (High), 7 is above
   6 (Medium) and 4 is neither (Low).
   */
  lemma ExampleBuckets()
    ensures Build([Row("a", 7), Row("b", 4), Row("c", 10)], 4)
         == Shown([Line(High, 10, "c"), Line(Medium, 7, "a"), Line(Low, 4, "b")])
  {
    ExampleFilter();
    ExampleSort();
    ExampleLines();
  }
}
