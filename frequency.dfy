/**
 The file frequency table of GitFreqStat as a value: a map from file path to
 the number of times the scan attributed a change to that path, together with
 the order in which the paths were first inserted (the order in which the
 table is later enumerated for the report).
 */
module Frequency {

  /** The count stored for `p`, or 0 when `p` is absent (what `TryGetValue` leaves behind). */
  function Count(m: map<string, int>, p: string): int
  {
    if p in m then m[p] else 0
  }

  /** How many times `p` occurs in `ps`. */
  function Occurrences(ps: seq<string>, p: string): (n: nat)
    ensures n <= |ps|
    ensures n > 0 <==> p in ps
  {
    if ps == [] then 0
    else (if ps[0] == p then 1 else 0) + Occurrences(ps[1..], p)
  }

  lemma {:induction false} OccurrencesAppend(a: seq<string>, b: seq<string>, p: string)
    ensures Occurrences(a + b, p) == Occurrences(a, p) + Occurrences(b, p)
  {
    if a == [] {
      assert a + b == b;
    } else {
      assert (a + b)[1..] == a[1..] + b;
      OccurrencesAppend(a[1..], b, p);
    }
  }

  /**
   The table: `counts` maps each path to its frequency and `order` lists the
   paths in the order they were first inserted.
   */
  datatype Frequencies = Frequencies(counts: map<string, int>, order: seq<string>)

  const Empty := Frequencies(map[], [])

  /** No path is listed twice in `order`. */
  predicate Distinct(s: seq<string>)
  {
    forall i, j :: 0 <= i < j < |s| ==> s[i] != s[j]
  }

  /**
   The invariant of the table: `order` lists every key exactly once and every
   stored frequency is at least 1.
   */
  predicate WellFormed(t: Frequencies)
  {
    && Distinct(t.order)
    && (forall p :: p in t.order ==> p in t.counts)
    && (forall p :: p in t.counts ==> p in t.order)
    && (forall p :: p in t.counts ==> t.counts[p] >= 1)
  }

  /** One change attributed to `p`: its old count (0 when absent) plus one. */
  function Increment(t: Frequencies, p: string): (r: Frequencies)
    ensures r.counts.Keys == t.counts.Keys + {p}
    ensures Count(r.counts, p) == Count(t.counts, p) + 1
    ensures forall q :: q != p ==> Count(r.counts, q) == Count(t.counts, q)
    ensures forall q :: q != p && q in t.counts ==> r.counts[q] == t.counts[q]
    ensures r.order == if p in t.counts then t.order else t.order + [p]
    ensures WellFormed(t) ==> WellFormed(r)
  {
    var frequency := Count(t.counts, p) + 1;
    Frequencies(t.counts[p := frequency], if p in t.counts then t.order else t.order + [p])
  }

  /** The table after one increment per element of `ps`, in that order. */
  function Tally(t: Frequencies, ps: seq<string>): Frequencies
    decreases ps
  {
    if ps == [] then t else Tally(Increment(t, ps[0]), ps[1..])
  }

  /**
   After tallying `ps`, the count of every path is its old count plus the
   number of times it occurs in `ps`, and the keys are the old keys plus the
   paths of `ps`.
   */
  lemma {:induction false} TallyCount(t: Frequencies, ps: seq<string>, p: string)
    ensures Count(Tally(t, ps).counts, p) == Count(t.counts, p) + Occurrences(ps, p)
    ensures p in Tally(t, ps).counts <==> p in t.counts || p in ps
    decreases ps
  {
    if ps != [] {
      TallyCount(Increment(t, ps[0]), ps[1..], p);
      assert p in ps <==> p == ps[0] || p in ps[1..];
    }
  }

  /** Tallying keeps the table well formed: every stored frequency stays at least 1. */
  lemma {:induction false} TallyWellFormed(t: Frequencies, ps: seq<string>)
    requires WellFormed(t)
    ensures WellFormed(Tally(t, ps))
    decreases ps
  {
    if ps != [] {
      TallyWellFormed(Increment(t, ps[0]), ps[1..]);
    }
  }

  /** Tallying `a + b` is tallying `a` and then `b`. */
  lemma {:induction false} TallyAppend(t: Frequencies, a: seq<string>, b: seq<string>)
    ensures Tally(t, a + b) == Tally(Tally(t, a), b)
    decreases a
  {
    if a == [] {
      assert a + b == b;
    } else {
      assert (a + b)[1..] == a[1..] + b;
      TallyAppend(Increment(t, a[0]), a[1..], b);
    }
  }

  /**
   From the empty table, a path is a key exactly when some increment targeted
   it, and its frequency is the number of increments that targeted it.
   */
  lemma TallyFromEmpty(ps: seq<string>, p: string)
    ensures WellFormed(Tally(Empty, ps))
    ensures p in Tally(Empty, ps).counts <==> p in ps
    ensures p in ps ==> Tally(Empty, ps).counts[p] == Occurrences(ps, p)
  {
    TallyCount(Empty, ps, p);
    TallyWellFormed(Empty, ps);
  }
}
