/**
 * Counted values: the `value_counts` / `idxmax` idiom the analyses use.
 * A `Tally` is one row of a count table: a value and how often it occurs.
 */
module Tallies {
  import opened Wrappers

  datatype Tally<T> = Tally(value: T, count: nat)

  /** Raised by `idxmax` on an empty table (pandas raises ValueError). */
  datatype AnalysisError = EmptyInput

  /** A count table sorted by count, and the value the table reports as most frequent. */
  datatype Distribution<T> = Distribution(counts: seq<Tally<T>>, mostFrequent: T)

  /** Number of occurrences of `v` in `xs`. */
  function Count<T(==)>(xs: seq<T>, v: T): nat
  {
    if xs == [] then 0 else (if xs[0] == v then 1 else 0) + Count(xs[1..], v)
  }

  lemma {:induction false} CountPositive<T>(xs: seq<T>, v: T)
    ensures Count(xs, v) > 0 <==> v in xs
  {
    if xs != [] {
      CountPositive(xs[1..], v);
    }
  }

  /** The distinct values of `xs`, each at the position of its first occurrence. */
  function Distinct<T(==)>(xs: seq<T>): (r: seq<T>)
    ensures forall v :: v in r ==> v in xs
    ensures forall v :: v in xs ==> v in r
    ensures forall i, j :: 0 <= i < j < |r| ==> r[i] != r[j]
  {
    if xs == [] then []
    else
      var last := xs[|xs| - 1];
      var init := Distinct(xs[..|xs| - 1]);
      assert xs == xs[..|xs| - 1] + [last];
      if last in init then init else init + [last]
  }

  predicate NonIncreasing<T>(s: seq<Tally<T>>)
  {
    forall i, j :: 0 <= i < j < |s| ==> s[i].count >= s[j].count
  }

  predicate DistinctValues<T(==)>(s: seq<Tally<T>>)
  {
    forall i, j :: 0 <= i < j < |s| ==> s[i].value != s[j].value
  }

  /** Puts `x` in front of the first entry of `t` whose count does not exceed its own. */
  function InsertByCount<T>(x: Tally<T>, t: seq<Tally<T>>): seq<Tally<T>>
  {
    if t == [] || t[0].count <= x.count then [x] + t
    else [t[0]] + InsertByCount(x, t[1..])
  }

  /** Inserting adds exactly `x` to the table. */
  lemma {:induction false} InsertByCountPermutes<T>(x: Tally<T>, t: seq<Tally<T>>)
    ensures multiset(InsertByCount(x, t)) == multiset(t) + multiset{x}
  {
    if t != [] && t[0].count > x.count {
      InsertByCountPermutes(x, t[1..]);
      assert t == [t[0]] + t[1..];
    }
  }

  /** The inserted table starts with `x` or with the old first entry. */
  lemma InsertByCountHead<T>(x: Tally<T>, t: seq<Tally<T>>)
    ensures InsertByCount(x, t) != []
    ensures InsertByCount(x, t)[0] == x || (t != [] && InsertByCount(x, t)[0] == t[0])
  {
  }

  /** Inserting into a table sorted by count keeps it sorted. */
  lemma {:induction false} InsertByCountSorted<T>(x: Tally<T>, t: seq<Tally<T>>)
    requires NonIncreasing(t)
    ensures NonIncreasing(InsertByCount(x, t))
  {
    if t != [] && t[0].count > x.count {
      var rest := InsertByCount(x, t[1..]);
      InsertByCountSorted(x, t[1..]);
      InsertByCountHead(x, t[1..]);
      assert t[0].count >= rest[0].count;
      assert forall k :: 0 <= k < |rest| ==> rest[0].count >= rest[k].count;
      assert InsertByCount(x, t) == [t[0]] + rest;
    }
  }

  /** Inserting into a table sorted by count keeps it sorted and adds exactly `x`. */
  lemma InsertByCountSpec<T>(x: Tally<T>, t: seq<Tally<T>>)
    requires NonIncreasing(t)
    ensures NonIncreasing(InsertByCount(x, t))
    ensures multiset(InsertByCount(x, t)) == multiset(t) + multiset{x}
  {
    InsertByCountSorted(x, t);
    InsertByCountPermutes(x, t);
  }

  /** Inserting a value that the table does not hold yet keeps the values distinct. */
  lemma {:induction false} InsertKeepsValuesDistinct<T>(x: Tally<T>, t: seq<Tally<T>>)
    requires NonIncreasing(t) && DistinctValues(t)
    requires forall k :: 0 <= k < |t| ==> t[k].value != x.value
    ensures DistinctValues(InsertByCount(x, t))
  {
    if t != [] && t[0].count > x.count {
      assert t == [t[0]] + t[1..];
      var rest := InsertByCount(x, t[1..]);
      InsertKeepsValuesDistinct(x, t[1..]);
      InsertByCountPermutes(x, t[1..]);
      forall k | 0 <= k < |rest|
        ensures rest[k].value != t[0].value
      {
        assert rest[k] in multiset(t[1..]) + multiset{x} by {
          assert rest[k] in multiset(rest);
        }
      }
      assert InsertByCount(x, t) == [t[0]] + rest;
    }
  }

  /** Sorts by count, largest first; entries with equal counts keep their relative order. */
  function SortByCountDesc<T>(s: seq<Tally<T>>): seq<Tally<T>>
  {
    if s == [] then [] else InsertByCount(s[0], SortByCountDesc(s[1..]))
  }

  /** The sorted table is ordered by count, largest first, and is a permutation of the input. */
  lemma {:induction false} SortByCountDescSpec<T>(s: seq<Tally<T>>)
    ensures NonIncreasing(SortByCountDesc(s))
    ensures multiset(SortByCountDesc(s)) == multiset(s)
  {
    if s != [] {
      SortByCountDescSpec(s[1..]);
      InsertByCountSpec(s[0], SortByCountDesc(s[1..]));
      assert s == [s[0]] + s[1..];
    }
  }

  lemma {:induction false} SortKeepsValuesDistinct<T>(s: seq<Tally<T>>)
    requires DistinctValues(s)
    ensures DistinctValues(SortByCountDesc(s))
  {
    if s != [] {
      var rest := SortByCountDesc(s[1..]);
      SortKeepsValuesDistinct(s[1..]);
      SortByCountDescSpec(s[1..]);
      forall k | 0 <= k < |rest|
        ensures rest[k].value != s[0].value
      {
        assert rest[k] in multiset(s[1..]) by {
          assert rest[k] in multiset(rest);
        }
      }
      InsertKeepsValuesDistinct(s[0], rest);
    }
  }

  /** The index `idxmax` returns: the first position holding the largest count. */
  function FirstArgMax<T>(s: seq<Tally<T>>): (i: nat)
    requires |s| > 0
    ensures i < |s|
  {
    if |s| == 1 then 0
    else
      var k := FirstArgMax(s[..|s| - 1]);
      if s[|s| - 1].count > s[k].count then |s| - 1 else k
  }

  /** `idxmax`: the position of the largest count, the first one when several share it. */
  lemma {:induction false} FirstArgMaxSpec<T>(s: seq<Tally<T>>)
    requires |s| > 0
    ensures forall j :: 0 <= j < |s| ==> s[j].count <= s[FirstArgMax(s)].count
    ensures forall j :: 0 <= j < FirstArgMax(s) ==> s[j].count < s[FirstArgMax(s)].count
  {
    if |s| > 1 {
      FirstArgMaxSpec(s[..|s| - 1]);
    }
  }

  /** One tally per key, counting its occurrences in `xs`. */
  function TallyEach<T(==)>(keys: seq<T>, xs: seq<T>): (r: seq<Tally<T>>)
  {
    seq(|keys|, i requires 0 <= i < |keys| => Tally(keys[i], Count(xs, keys[i])))
  }

  /**
   * `value_counts().sort_values(ascending=False)`: each value of `xs` once,
   * with its number of occurrences, largest count first.
   */
  function ValueCounts<T(==)>(xs: seq<T>): seq<Tally<T>>
  {
    SortByCountDesc(TallyEach(Distinct(xs), xs))
  }

  /** The count table is sorted by count, largest first, and names each value once. */
  lemma ValueCountsSorted<T>(xs: seq<T>)
    ensures NonIncreasing(ValueCounts(xs))
    ensures DistinctValues(ValueCounts(xs))
  {
    SortByCountDescSpec(TallyEach(Distinct(xs), xs));
    SortKeepsValuesDistinct(TallyEach(Distinct(xs), xs));
  }

  /** The count table holds every value of `xs` with its number of occurrences, and nothing else. */
  lemma ValueCountsEntries<T>(xs: seq<T>)
    ensures forall t :: t in ValueCounts(xs) ==> t.value in xs && t.count == Count(xs, t.value)
    ensures forall v :: v in xs ==> Tally(v, Count(xs, v)) in ValueCounts(xs)
  {
    var keys := Distinct(xs);
    var tallies := TallyEach(keys, xs);
    var r := ValueCounts(xs);
    SortByCountDescSpec(tallies);
    forall t | t in r
      ensures t in tallies
    {
      assert t in multiset(r);
    }
    forall v | v in xs
      ensures Tally(v, Count(xs, v)) in r
    {
      var k :| 0 <= k < |keys| && keys[k] == v;
      assert tallies[k] in multiset(tallies);
    }
  }

  /**
   * A count table with the value `idxmax` picks from it; an empty table
   * has no most frequent value and fails with `EmptyInput`.
   */
  function MostFrequent<T(==)>(xs: seq<T>): (r: Result<Distribution<T>, AnalysisError>)
  {
    var counts := ValueCounts(xs);
    if counts == [] then Failure(EmptyInput)
    else Success(Distribution(counts, counts[FirstArgMax(counts)].value))
  }

  /**
   * The analysis fails exactly on an empty column; otherwise the reported
   * value heads the sorted table and no value occurs more often.
   */
  lemma MostFrequentSpec<T>(xs: seq<T>)
    ensures MostFrequent(xs).Failure? <==> xs == []
    ensures MostFrequent(xs).Success? ==>
      var d := MostFrequent(xs).value;
      && d.counts == ValueCounts(xs)
      && d.mostFrequent == d.counts[0].value
      && d.mostFrequent in xs
      && forall v :: v in xs ==> Count(xs, v) <= Count(xs, d.mostFrequent)
  {
    var counts := ValueCounts(xs);
    ValueCountsSorted(xs);
    ValueCountsEntries(xs);
    if xs != [] {
      assert Tally(xs[0], Count(xs, xs[0])) in counts;
      var i := FirstArgMax(counts);
      FirstArgMaxSpec(counts);
      assert counts[0].count >= counts[i].count;
      assert i == 0;
      var top := counts[0];
      assert top in counts;
      forall v | v in xs
        ensures Count(xs, v) <= Count(xs, top.value)
      {
        var k :| 0 <= k < |counts| && counts[k] == Tally(v, Count(xs, v));
        assert counts[k].count <= top.count;
      }
    }
  }
}
