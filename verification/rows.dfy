/** The rows of one alignment table as the converter sees them, and the
    normalisation it applies before writing: a sort on (ref_chrom, ref_start,
    qry_chrom, qry_start), removal of repeated rows keeping the first, and the
    grouping of consecutive rows by reference chromosome. */
module Rows {
  import opened Seqs

  /** One row of a table; the columns are unbounded integers until written. */
  datatype Row = Row(refChrom: int, refStart: int, refEnd: int,
                     qryChrom: int, qryStart: int, qryEnd: int)

  /* ---------- sorting ---------- */

  /** The sort key (ref_chrom, ref_start, qry_chrom, qry_start), compared
      lexicographically; ref_end and qry_end do not take part. */
  predicate KeyLe(a: Row, b: Row) {
    || a.refChrom < b.refChrom
    || (a.refChrom == b.refChrom && a.refStart < b.refStart)
    || (a.refChrom == b.refChrom && a.refStart == b.refStart && a.qryChrom < b.qryChrom)
    || (a.refChrom == b.refChrom && a.refStart == b.refStart && a.qryChrom == b.qryChrom
        && a.qryStart <= b.qryStart)
  }

  ghost predicate Sorted(s: seq<Row>) {
    forall i, j :: 0 <= i < j < |s| ==> KeyLe(s[i], s[j])
  }

  /** Inserts `x` after every element whose key is at most its own, so that
      rows with equal keys keep their relative order. */
  function InsertSorted(x: Row, s: seq<Row>): (r: seq<Row>)
    requires Sorted(s)
    ensures Sorted(r)
    ensures multiset(r) == multiset(s) + multiset{x}
  {
    if |s| == 0 then [x]
    else if KeyLe(s[|s| - 1], x) then
      assert s == s[..|s| - 1] + [s[|s| - 1]];
      s + [x]
    else
      var init := s[..|s| - 1];
      var last := s[|s| - 1];
      var r' := InsertSorted(x, init);
      assert s == init + [last];
      AppendLast(init, last, x, r');
      r' + [last]
  }

  /** An element that no row of `init` nor `x` exceeds in key can follow
      any arrangement of them. */
  lemma AppendLast(init: seq<Row>, last: Row, x: Row, r: seq<Row>)
    requires Sorted(init + [last]) && !KeyLe(last, x)
    requires Sorted(r) && multiset(r) == multiset(init) + multiset{x}
    ensures Sorted(r + [last])
  {
    assert (init + [last])[|init|] == last;
    forall i | 0 <= i < |r| ensures KeyLe(r[i], last) {
      assert r[i] in multiset(init) + multiset{x};
      if r[i] == x {
        assert KeyLe(x, last);
      } else {
        assert r[i] in init;
        var k :| 0 <= k < |init| && init[k] == r[i];
        assert (init + [last])[k] == r[i];
      }
    }
  }

  /** A stable insertion sort on the key: a sorted permutation of its input. */
  function SortRows(s: seq<Row>): (r: seq<Row>)
    ensures Sorted(r)
    ensures multiset(r) == multiset(s)
  {
    if |s| == 0 then []
    else
      assert s == s[..|s| - 1] + [s[|s| - 1]];
      InsertSorted(s[|s| - 1], SortRows(s[..|s| - 1]))
  }

  /* ---------- removing repeated rows ---------- */

  /** Keeps the first occurrence of every element, in input order. */
  function Nub<T(==)>(s: seq<T>): (r: seq<T>)
    ensures forall i :: 0 <= i < |s| ==> s[i] in r
    ensures forall i :: 0 <= i < |r| ==> r[i] in s
    ensures forall i, j :: 0 <= i < j < |r| ==> r[i] != r[j]
  {
    if |s| == 0 then []
    else
      var d := Nub(s[..|s| - 1]);
      var x := s[|s| - 1];
      assert s == s[..|s| - 1] + [x];
      if x in d then d else d + [x]
  }

  /** The elements kept appear in the order of their first occurrences. */
  lemma {:induction false} NubFirstOrder<T>(s: seq<T>)
    ensures forall i, j :: 0 <= i < j < |Nub(s)| ==> FirstIndex(s, Nub(s)[i]) < FirstIndex(s, Nub(s)[j])
  {
    if |s| > 0 {
      var init := s[..|s| - 1];
      var d := Nub(init);
      var x := s[|s| - 1];
      NubFirstOrder(init);
      assert forall y :: y in init ==> FirstIndex(s, y) == FirstIndex(init, y) by {
        forall y | y in init
          ensures FirstIndex(s, y) == FirstIndex(init, y)
        {
          var k := FirstIndex(init, y);
          assert s[..k] == init[..k];
        }
      }
      if x !in d {
        assert x !in init;
        assert s[..|s| - 1] == init;
        assert FirstIndex(s, x) == |s| - 1;
      }
    }
  }

  /** Dropping repeats from a sorted table leaves it sorted. */
  lemma {:induction false} NubSorted(s: seq<Row>)
    requires Sorted(s)
    ensures Sorted(Nub(s))
  {
    if |s| > 0 {
      var init := s[..|s| - 1];
      assert Sorted(init);
      NubSorted(init);
      var d := Nub(init);
      assert forall i :: 0 <= i < |d| ==> d[i] in init;
      assert forall i :: 0 <= i < |init| ==> KeyLe(init[i], s[|s| - 1]);
    }
  }

  /** `sort_values(by=[ref_chrom, ref_start, qry_chrom, qry_start])` then
      `drop_duplicates()` (pickle_to_bin.py:57-60). */
  function Normalize(s: seq<Row>): seq<Row>
  {
    Nub(SortRows(s))
  }

  /** A normalised table is sorted, repeats no row, and holds exactly the
      rows of the original. */
  lemma NormalizeSpec(s: seq<Row>)
    ensures Sorted(Normalize(s))
    ensures forall i, j :: 0 <= i < j < |Normalize(s)| ==> Normalize(s)[i] != Normalize(s)[j]
    ensures forall x :: x in Normalize(s) <==> x in s
  {
    var t := SortRows(s);
    NubSorted(t);
    assert forall x :: x in t <==> x in multiset(t);
  }

  /* ---------- rows of one reference chromosome ---------- */

  /** The rows filed under chromosome `c`, in order; `value_counts()[c]` is
      its length. */
  function Filter(s: seq<Row>, c: int): (r: seq<Row>)
    ensures |r| <= |s|
    ensures forall i :: 0 <= i < |r| ==> r[i].refChrom == c && r[i] in s
  {
    if |s| == 0 then []
    else (if s[0].refChrom == c then [s[0]] else []) + Filter(s[1..], c)
  }

  /** No row of the chromosome is missed. */
  lemma {:induction false} FilterKeepsAll(s: seq<Row>, c: int)
    ensures forall x :: x in s && x.refChrom == c ==> x in Filter(s, c)
  {
    if |s| > 0 {
      FilterKeepsAll(s[1..], c);
      assert s == [s[0]] + s[1..];
    }
  }

  lemma {:induction false} FilterAppend(a: seq<Row>, b: seq<Row>, c: int)
    ensures Filter(a + b, c) == Filter(a, c) + Filter(b, c)
  {
    if |a| > 0 {
      assert (a + b)[1..] == a[1..] + b;
      FilterAppend(a[1..], b, c);
    } else {
      assert a + b == b;
    }
  }

  /** The distinct reference chromosomes; `len(value_counts())` is its size. */
  function Chroms(s: seq<Row>): (r: set<int>)
    ensures forall c :: c in r <==> |Filter(s, c)| > 0
  {
    if |s| == 0 then {} else {s[0].refChrom} + Chroms(s[1..])
  }

  lemma {:induction false} ChromsAppend(a: seq<Row>, b: seq<Row>)
    ensures Chroms(a + b) == Chroms(a) + Chroms(b)
  {
    forall c ensures c in Chroms(a + b) <==> c in Chroms(a) + Chroms(b) {
      FilterAppend(a, b, c);
    }
  }

  /* ---------- grouping into runs ---------- */

  /** A non-empty block of rows of one reference chromosome. */
  ghost predicate Uniform(run: seq<Row>) {
    |run| > 0 && forall i :: 0 <= i < |run| ==> run[i].refChrom == run[0].refChrom
  }

  /** The chromosome a block is filed under: its first row's. */
  function ChromOf(run: seq<Row>): int {
    if |run| == 0 then 0 else run[0].refChrom
  }

  function Flatten(runs: seq<seq<Row>>): seq<Row> {
    if |runs| == 0 then [] else runs[0] + Flatten(runs[1..])
  }

  /** The length of the leading block of equal reference chromosomes. */
  function RunLen(s: seq<Row>): (n: nat)
    requires |s| > 0
    ensures 0 < n <= |s|
    ensures forall i :: 0 <= i < n ==> s[i].refChrom == s[0].refChrom
    ensures n < |s| ==> s[n].refChrom != s[0].refChrom
  {
    if |s| == 1 || s[1].refChrom != s[0].refChrom then 1 else 1 + RunLen(s[1..])
  }

  /** The maximal blocks of consecutive rows with the same reference
      chromosome: the converter starts a new block exactly where the
      chromosome differs from the previous row's (pickle_to_bin.py:92-97). */
  function Group(s: seq<Row>): (runs: seq<seq<Row>>)
    ensures Flatten(runs) == s
    ensures forall k :: 0 <= k < |runs| ==> Uniform(runs[k])
    ensures forall k :: 0 < k < |runs| ==> ChromOf(runs[k]) != ChromOf(runs[k - 1])
    decreases |s|
  {
    if |s| == 0 then []
    else
      var n := RunLen(s);
      var tail := Group(s[n..]);
      assert s == s[..n] + s[n..];
      var runs := [s[..n]] + tail;
      assert runs[1..] == tail;
      assert |tail| > 0 ==> tail[0][0] == s[n] by {
        if |tail| > 0 {
          assert Flatten(tail) == tail[0] + Flatten(tail[1..]);
        }
      }
      runs
  }

  /** Sorted rows group into blocks of strictly increasing chromosome. */
  lemma {:induction false} GroupSortedIncreasing(s: seq<Row>)
    requires Sorted(s)
    ensures forall k, l :: 0 <= k < l < |Group(s)| ==> ChromOf(Group(s)[k]) < ChromOf(Group(s)[l])
    decreases |s|
  {
    if |s| > 0 {
      var n := RunLen(s);
      var runs := Group(s);
      var tail := Group(s[n..]);
      assert Sorted(s[n..]);
      GroupSortedIncreasing(s[n..]);
      assert runs == [s[..n]] + tail;
      if |tail| > 0 {
        assert Flatten(tail) == tail[0] + Flatten(tail[1..]);
        assert tail[0][0] == s[n];
        assert KeyLe(s[0], s[n]);
      }
    }
  }

  /** In blocks of strictly increasing chromosome, the rows of the k-th
      block's chromosome are that block, and any other chromosome has none. */
  lemma {:induction false} FilterRuns(runs: seq<seq<Row>>, c: int)
    requires forall k :: 0 <= k < |runs| ==> Uniform(runs[k])
    requires forall k, l :: 0 <= k < l < |runs| ==> ChromOf(runs[k]) < ChromOf(runs[l])
    ensures forall k :: 0 <= k < |runs| && ChromOf(runs[k]) == c ==> Filter(Flatten(runs), c) == runs[k]
    ensures (forall k :: 0 <= k < |runs| ==> ChromOf(runs[k]) != c) ==> Filter(Flatten(runs), c) == []
  {
    if |runs| > 0 {
      FilterAppend(runs[0], Flatten(runs[1..]), c);
      FilterUniform(runs[0], c);
      assert forall k :: 1 <= k < |runs| ==> runs[1..][k - 1] == runs[k];
      FilterRuns(runs[1..], c);
    }
  }

  lemma {:induction false} FilterUniform(run: seq<Row>, c: int)
    requires forall i :: 0 <= i < |run| ==> run[i].refChrom == (if |run| == 0 then c else run[0].refChrom)
    ensures |run| > 0 && run[0].refChrom == c ==> Filter(run, c) == run
    ensures |run| > 0 && run[0].refChrom != c ==> Filter(run, c) == []
    ensures |run| == 0 ==> Filter(run, c) == []
  {
    if |run| > 1 {
      assert forall i :: 0 <= i < |run[1..]| ==> run[1..][i].refChrom == run[1..][0].refChrom;
      FilterUniform(run[1..], c);
      assert run == [run[0]] + run[1..];
    } else if |run| == 1 {
      assert run[1..] == [];
    }
  }

  lemma ChromsUniform(run: seq<Row>)
    requires Uniform(run)
    ensures Chroms(run) == {ChromOf(run)}
  {
    forall d ensures d in Chroms(run) <==> d == ChromOf(run) {
      FilterUniform(run, d);
    }
  }

  /** Blocks of strictly increasing chromosome have one chromosome each. */
  lemma {:induction false} ChromsRuns(runs: seq<seq<Row>>)
    requires forall k :: 0 <= k < |runs| ==> Uniform(runs[k])
    requires forall k, l :: 0 <= k < l < |runs| ==> ChromOf(runs[k]) < ChromOf(runs[l])
    ensures |Chroms(Flatten(runs))| == |runs|
  {
    if |runs| > 0 {
      var c := ChromOf(runs[0]);
      var tail := runs[1..];
      assert forall k :: 0 <= k < |tail| ==> tail[k] == runs[k + 1];
      assert forall k :: 0 <= k < |tail| ==> ChromOf(tail[k]) != c;
      ChromsRuns(tail);
      ChromsAppend(runs[0], Flatten(tail));
      ChromsUniform(runs[0]);
      FilterRuns(tail, c);
      assert c !in Chroms(Flatten(tail));
      assert Chroms(Flatten(runs)) == {c} + Chroms(Flatten(tail));
    }
  }

  /** Every row of every block is a row of the table. */
  lemma {:induction false} GroupMembers(s: seq<Row>)
    ensures forall k, i :: 0 <= k < |Group(s)| && 0 <= i < |Group(s)[k]| ==> Group(s)[k][i] in s
    decreases |s|
  {
    if |s| > 0 {
      var n := RunLen(s);
      GroupMembers(s[n..]);
      assert Group(s) == [s[..n]] + Group(s[n..]);
      assert forall x :: x in s[n..] ==> x in s;
    }
  }
}
