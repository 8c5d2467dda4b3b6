/** The anchor search of the native side: for a reference location, the
    alignments of its chromosome closest to it upstream, overlapping and
    downstream, reduced to the majority query chromosome and to a collinear
    chain, from which the anchor pair is picked. */
module Anchors {
  import opened Wrappers
  import opened Entries
  import opened PwalnFile
  import opened Chain

  /** The minimum number of collinear anchors. */
  const MinN := 5
  /** How many anchors on each side take part. */
  const TopN := 20
  /** The size of the upstream set at which it is cut back to `TopN`. */
  const TrimAt := 10 * TopN

  /** A location on a chromosome. */
  datatype Coords = Coords(chrom: u16, loc: u32)

  /** The anchors on either side of a location; the same alignment twice
      when one overlaps it. */
  datatype AnchorPair = AnchorPair(upstream: PwalnEntry, downstream: PwalnEntry)

  /** Why the search gives no answer: the `out_of_range` thrown by
      `pwaln.at` for a chromosome without alignments, or a failed sanity
      check in the collinearity step. */
  datatype AnchorError = NoAlignments(chrom: u16) | CollinearityAborted

  /* ---------- classifying alignments ---------- */

  /** Where an alignment lies relative to a location; the reference end is
      exclusive. */
  datatype Side = Upstream | Overlapping | Downstream

  function SideOf(e: PwalnEntry, loc: u32): Side {
    if e.refEnd <= loc then Upstream
    else if loc < e.refStart then Downstream
    else Overlapping
  }

  /** For an alignment whose reference interval is in order, the side is
      decided by the interval alone: it ends at or before the location,
      starts after it, or contains it. */
  lemma SideOfInterval(e: PwalnEntry, loc: u32)
    requires e.refStart <= e.refEnd
    ensures SideOf(e, loc) == Upstream <==> e.refEnd <= loc
    ensures SideOf(e, loc) == Downstream <==> loc < e.refStart
    ensures SideOf(e, loc) == Overlapping <==> e.refStart <= loc < e.refEnd
  {
  }

  /** The alignments of `s` on the given side of `loc`, in order. */
  function Where(s: seq<PwalnEntry>, loc: u32, side: Side): (r: seq<PwalnEntry>)
    ensures |r| <= |s|
  {
    if |s| == 0 then []
    else
      var init := s[..|s| - 1];
      var x := s[|s| - 1];
      assert s == init + [x];
      Where(init, loc, side) + (if SideOf(x, loc) == side then [x] else [])
  }

  /** The filter keeps exactly the alignments on that side. */
  lemma {:induction false} WhereMembers(s: seq<PwalnEntry>, loc: u32, side: Side)
    ensures forall x :: x in Where(s, loc, side) <==> x in s && SideOf(x, loc) == side
  {
    if |s| > 0 {
      var init := s[..|s| - 1];
      assert s == init + [s[|s| - 1]];
      WhereMembers(init, loc, side);
    }
  }

  lemma WhereSnoc(s: seq<PwalnEntry>, i: nat, loc: u32, side: Side)
    requires i < |s|
    ensures Where(s[..i + 1], loc, side)
            == Where(s[..i], loc, side) + (if SideOf(s[i], loc) == side then [s[i]] else [])
  {
    assert s[..i + 1][..i] == s[..i];
  }

  /* ---------- the upstream set ---------- */

  /** Strictly decreasing reference ends: the order of the upstream
      `std::set`, whose comparison makes alignments with equal ends the
      same key. */
  ghost predicate StrictDesc(s: seq<PwalnEntry>) {
    forall i, j :: 0 <= i < j < |s| ==> s[i].refEnd > s[j].refEnd
  }

  function RefEnds(s: seq<PwalnEntry>): set<u32> {
    set x | x in s :: x.refEnd
  }

  /** `insert` into the upstream set: a new reference end goes to its
      place; an end already present leaves the set as it is. */
  function UpInsert(s: seq<PwalnEntry>, e: PwalnEntry): (r: seq<PwalnEntry>)
    requires StrictDesc(s)
    ensures StrictDesc(r)
    ensures forall x :: x in r ==> x in s || x == e
  {
    if |s| == 0 then [e]
    else if s[0].refEnd == e.refEnd then s
    else if s[0].refEnd < e.refEnd then [e] + s
    else
      var r' := UpInsert(s[1..], e);
      assert forall x :: x in r' ==> x.refEnd < s[0].refEnd;
      [s[0]] + r'
  }

  /** Inserting a reference end already present changes nothing. */
  lemma {:induction false} UpInsertPresent(s: seq<PwalnEntry>, e: PwalnEntry)
    requires StrictDesc(s) && e.refEnd in RefEnds(s)
    ensures UpInsert(s, e) == s
  {
    if |s| > 0 && s[0].refEnd > e.refEnd {
      assert s == [s[0]] + s[1..];
      assert e.refEnd in RefEnds(s[1..]);
      UpInsertPresent(s[1..], e);
    }
  }

  /** Inserting a new reference end adds exactly the new alignment. */
  lemma {:induction false} UpInsertAbsent(s: seq<PwalnEntry>, e: PwalnEntry)
    requires StrictDesc(s) && e.refEnd !in RefEnds(s)
    ensures |UpInsert(s, e)| == |s| + 1
    ensures forall x :: x in UpInsert(s, e) <==> x in s || x == e
  {
    if |s| > 0 && s[0].refEnd > e.refEnd {
      assert s == [s[0]] + s[1..];
      assert e.refEnd !in RefEnds(s[1..]);
      UpInsertAbsent(s[1..], e);
    }
  }

  /** What an insertion does to the set's elements: adds the new alignment
      exactly when its reference end is new. */
  lemma UpInsertMembers(s: seq<PwalnEntry>, e: PwalnEntry)
    requires StrictDesc(s)
    ensures e.refEnd in RefEnds(s) ==> UpInsert(s, e) == s
    ensures e.refEnd !in RefEnds(s) ==>
              |UpInsert(s, e)| == |s| + 1 && forall x :: x in UpInsert(s, e) <==> x in s || x == e
  {
    if e.refEnd in RefEnds(s) {
      UpInsertPresent(s, e);
    } else {
      UpInsertAbsent(s, e);
    }
  }

  /** After an insertion the set holds the new reference end besides the
      old ones. */
  lemma UpInsertEnds(s: seq<PwalnEntry>, e: PwalnEntry)
    requires StrictDesc(s)
    ensures RefEnds(UpInsert(s, e)) == RefEnds(s) + {e.refEnd}
  {
    UpInsertMembers(s, e);
  }

  /** The first `n` elements, or all of them when there are fewer. */
  function Take(s: seq<PwalnEntry>, n: nat): (r: seq<PwalnEntry>)
    ensures |r| == if |s| <= n then |s| else n
    ensures r == s[..|r|]
  {
    if |s| <= n then s else s[..n]
  }

  lemma TakeCons(x: PwalnEntry, s: seq<PwalnEntry>, n: nat)
    requires n > 0
    ensures Take([x] + s, n) == [x] + Take(s, n - 1)
  {
  }

  /** The first `n` elements after an insertion depend only on the first `n`
      before it: why cutting the set back on the way changes nothing. */
  lemma {:induction false} TakeInsert(s: seq<PwalnEntry>, e: PwalnEntry, n: nat)
    requires StrictDesc(s)
    ensures StrictDesc(Take(s, n))
    ensures Take(UpInsert(s, e), n) == Take(UpInsert(Take(s, n), e), n)
    decreases n
  {
    var t := Take(s, n);
    if |s| <= n {
      assert t == s;
    } else if n == 0 {
      assert Take(UpInsert(s, e), n) == [] == Take(UpInsert(t, e), n);
    } else {
      assert t[0] == s[0] && t == [t[0]] + t[1..];
      if s[0].refEnd == e.refEnd {
        assert UpInsert(s, e) == s && UpInsert(t, e) == t;
      } else if s[0].refEnd < e.refEnd {
        assert UpInsert(s, e) == [e] + s && UpInsert(t, e) == [e] + t;
        TakeCons(e, s, n);
        TakeCons(e, t, n);
      } else {
        assert t[1..] == Take(s[1..], n - 1);
        TakeInsert(s[1..], e, n - 1);
        assert UpInsert(s, e) == [s[0]] + UpInsert(s[1..], e);
        assert UpInsert(t, e) == [t[0]] + UpInsert(t[1..], e);
        TakeCons(s[0], UpInsert(s[1..], e), n);
        TakeCons(t[0], UpInsert(t[1..], e), n);
      }
    }
  }

  /** The set after inserting every element of `es` in turn, never cut. */
  function UpAll(es: seq<PwalnEntry>): (r: seq<PwalnEntry>)
    ensures StrictDesc(r)
  {
    if |es| == 0 then [] else UpInsert(UpAll(es[..|es| - 1]), es[|es| - 1])
  }

  lemma UpAllSnoc(es: seq<PwalnEntry>, e: PwalnEntry)
    ensures UpAll(es + [e]) == UpInsert(UpAll(es), e)
  {
    assert (es + [e])[..|es|] == es;
  }

  /** The uncut set holds only alignments seen, one for every reference end
      seen. */
  lemma {:induction false} UpAllMembers(es: seq<PwalnEntry>)
    ensures forall x :: x in UpAll(es) ==> x in es
    ensures RefEnds(UpAll(es)) == RefEnds(es)
  {
    if |es| > 0 {
      var init := es[..|es| - 1];
      var e := es[|es| - 1];
      assert es == init + [e];
      UpAllMembers(init);
      UpInsertEnds(UpAll(init), e);
      assert RefEnds(es) == RefEnds(init) + {e.refEnd};
    }
  }

  /** `x` appears no later than the first alignment with its reference end. */
  ghost predicate KeepsFirst(r: seq<PwalnEntry>, es: seq<PwalnEntry>) {
    forall x, j :: x in r && 0 <= j < |es| && es[j].refEnd == x.refEnd ==> x in es[..j + 1]
  }

  /** An alignment the set still holds after a later insertion was held
      before it, when an earlier alignment shares its reference end. */
  lemma HeldBefore(init: seq<PwalnEntry>, e: PwalnEntry, x: PwalnEntry, j: nat)
    requires j < |init| && init[j].refEnd == x.refEnd
    requires x in UpAll(init + [e])
    ensures x in UpAll(init)
  {
    UpAllSnoc(init, e);
    UpInsertMembers(UpAll(init), e);
    UpAllMembers(init);
    assert init[j].refEnd in RefEnds(init);
  }

  lemma PrefixIn(init: seq<PwalnEntry>, es: seq<PwalnEntry>, x: PwalnEntry, j: nat)
    requires |init| <= |es| && init == es[..|init|] && j < |init|
    requires x in init[..j + 1]
    ensures x in es[..j + 1]
  {
    assert init[..j + 1] == es[..j + 1];
  }

  /** The alignment the uncut set holds for a reference end is the first
      one seen with that end. */
  lemma {:induction false} UpAllFirst(es: seq<PwalnEntry>)
    ensures KeepsFirst(UpAll(es), es)
  {
    if |es| > 0 {
      var init := es[..|es| - 1];
      var e := es[|es| - 1];
      assert es == init + [e];
      UpAllFirst(init);
      UpAllMembers(es);
      forall x, j | x in UpAll(es) && 0 <= j < |es| && es[j].refEnd == x.refEnd
        ensures x in es[..j + 1]
      {
        if j < |init| {
          assert es[j] == init[j];
          HeldBefore(init, e, x, j);
          PrefixIn(init, es, x, j);
        } else {
          assert es[..j + 1] == es;
        }
      }
    }
  }

  /* ---------- the scan ---------- */

  /** The buckets after scanning `run[..i]` without a stop, with the set
      agreeing on its first `TopN` elements with the uncut one. */
  ghost predicate Scanned(run: seq<PwalnEntry>, loc: u32, i: nat,
                          up: seq<PwalnEntry>, ov: seq<PwalnEntry>, down: seq<PwalnEntry>) {
    && i <= |run|
    && StrictDesc(up)
    && Take(up, TopN) == Take(UpAll(Where(run[..i], loc, Upstream)), TopN)
    && ov == Where(run[..i], loc, Overlapping)
    && down == Where(run[..i], loc, Downstream)
  }

  /** One upstream alignment into the set, which is cut back to `TopN`
      once it holds more than `TrimAt`. */
  function UpStep(up: seq<PwalnEntry>, e: PwalnEntry): (r: seq<PwalnEntry>)
    requires StrictDesc(up)
    ensures StrictDesc(r)
  {
    var u := UpInsert(up, e);
    if |u| > TrimAt then u[..TopN] else u
  }

  lemma ScannedUp(run: seq<PwalnEntry>, loc: u32, i: nat,
                  up: seq<PwalnEntry>, ov: seq<PwalnEntry>, down: seq<PwalnEntry>)
    requires Scanned(run, loc, i, up, ov, down) && i < |run| && SideOf(run[i], loc) == Upstream
    ensures Scanned(run, loc, i + 1, UpStep(up, run[i]), ov, down)
  {
    var e := run[i];
    var seen := Where(run[..i], loc, Upstream);
    WhereSnoc(run, i, loc, Upstream);
    WhereSnoc(run, i, loc, Overlapping);
    WhereSnoc(run, i, loc, Downstream);
    UpAllSnoc(seen, e);
    TakeInsert(up, e, TopN);
    TakeInsert(UpAll(seen), e, TopN);
  }

  lemma ScannedOv(run: seq<PwalnEntry>, loc: u32, i: nat,
                  up: seq<PwalnEntry>, ov: seq<PwalnEntry>, down: seq<PwalnEntry>)
    requires Scanned(run, loc, i, up, ov, down) && i < |run| && SideOf(run[i], loc) == Overlapping
    ensures Scanned(run, loc, i + 1, up, ov + [run[i]], down)
  {
    WhereSnoc(run, i, loc, Upstream);
    WhereSnoc(run, i, loc, Overlapping);
    WhereSnoc(run, i, loc, Downstream);
    assert Where(run[..i + 1], loc, Upstream) == Where(run[..i], loc, Upstream);
  }

  lemma ScannedDown(run: seq<PwalnEntry>, loc: u32, i: nat,
                    up: seq<PwalnEntry>, ov: seq<PwalnEntry>, down: seq<PwalnEntry>)
    requires Scanned(run, loc, i, up, ov, down) && i < |run| && SideOf(run[i], loc) == Downstream
    ensures Scanned(run, loc, i + 1, up, ov, down + [run[i]])
  {
    WhereSnoc(run, i, loc, Upstream);
    WhereSnoc(run, i, loc, Overlapping);
    WhereSnoc(run, i, loc, Downstream);
    assert Where(run[..i + 1], loc, Upstream) == Where(run[..i], loc, Upstream);
  }

  lemma ScannedStart(run: seq<PwalnEntry>, loc: u32)
    ensures Scanned(run, loc, 0, [], [], [])
  {
    assert run[..0] == [];
  }

  /** One alignment of the scan, filed by its side. */
  method ScanOne(run: seq<PwalnEntry>, loc: u32, i: nat,
                 up: seq<PwalnEntry>, ov: seq<PwalnEntry>, down: seq<PwalnEntry>)
    returns (up': seq<PwalnEntry>, ov': seq<PwalnEntry>, down': seq<PwalnEntry>)
    requires Scanned(run, loc, i, up, ov, down) && i < |run|
    ensures Scanned(run, loc, i + 1, up', ov', down')
    ensures down' == if SideOf(run[i], loc) == Downstream then down + [run[i]] else down
  {
    var e := run[i];
    up', ov', down' := up, ov, down;
    if e.refEnd <= loc {
      ScannedUp(run, loc, i, up, ov, down);
      up' := UpStep(up, e);
    } else if loc < e.refStart {
      ScannedDown(run, loc, i, up, ov, down);
      down' := down + [e];
    } else {
      ScannedOv(run, loc, i, up, ov, down);
      ov' := ov + [e];
    }
  }

  /** The scan over the alignments of the location's chromosome, in stored
      order: upstream ones go into the set, which is cut back to `TopN`
      whenever it grows past `TrimAt`; overlapping ones are kept in order;
      downstream ones are kept in order until there are `TopN` of them, where
      the scan stops. The set is cut to `TopN` at the end. What comes out is
      what the scanned prefix gives without the intermediate cuts. */
  method Collect(run: seq<PwalnEntry>, loc: u32)
    returns (up: seq<PwalnEntry>, ov: seq<PwalnEntry>, down: seq<PwalnEntry>, ghost stop: nat)
    ensures stop <= |run|
    ensures up == Take(UpAll(Where(run[..stop], loc, Upstream)), TopN)
    ensures ov == Where(run[..stop], loc, Overlapping)
    ensures down == Where(run[..stop], loc, Downstream)
    ensures |down| <= TopN
    ensures stop < |run| ==> |down| == TopN
    ensures |down| == TopN ==> 0 < stop && SideOf(run[stop - 1], loc) == Downstream
  {
    up, ov, down := [], [], [];
    var i := 0;
    ScannedStart(run, loc);
    // The source leaves the loop right after the `TopN`-th downstream
    // alignment; here the loop condition says the same.
    while i < |run| && |down| < TopN
      invariant Scanned(run, loc, i, up, ov, down)
      invariant |down| <= TopN
      invariant |down| == TopN ==> 0 < i && SideOf(run[i - 1], loc) == Downstream
    {
      up, ov, down := ScanOne(run, loc, i, up, ov, down);
      i := i + 1;
    }
    stop := i;
    up := Take(up, TopN);
  }

  /* ---------- the majority query chromosome ---------- */

  function QryChroms(es: seq<PwalnEntry>): (r: seq<u16>)
    ensures |r| == |es| && forall i :: 0 <= i < |es| ==> r[i] == es[i].qryChrom
  {
    seq(|es|, i requires 0 <= i < |es| => es[i].qryChrom)
  }

  /** How many of the alignments point to query chromosome `c`. */
  function Count(es: seq<PwalnEntry>, c: u16): nat {
    multiset(QryChroms(es))[c]
  }

  /** `computeMajorChrom`: a query chromosome no other one outnumbers among
      the alignments, and 0 when there are none. */
  method MajorChrom(es: seq<PwalnEntry>) returns (m: u16)
    ensures |es| == 0 ==> m == 0
    ensures |es| > 0 ==> Count(es, m) > 0
    ensures forall c: u16 :: Count(es, c) <= Count(es, m)
  {
    m := 0;
    var best := 0;
    for i := 0 to |es|
      invariant best == Count(es, m) || (best == 0 && m == 0)
      invariant best == 0 ==> m == 0
      invariant i > 0 ==> best > 0
      invariant forall j :: 0 <= j < i ==> Count(es, es[j].qryChrom) <= best
    {
      var n := Count(es, es[i].qryChrom);
      assert QryChroms(es)[i] == es[i].qryChrom;
      if n > best {
        m, best := es[i].qryChrom, n;
      }
    }
    forall c: u16 | Count(es, c) > 0 ensures Count(es, c) <= best {
      assert c in QryChroms(es);
      var j :| 0 <= j < |es| && QryChroms(es)[j] == c;
    }
  }

  /** `removeEntriesWithNonMajorQryChromosome`: the alignments to query
      chromosome `c`, in order. */
  function KeepChrom(es: seq<PwalnEntry>, c: u16): (r: seq<PwalnEntry>)
  {
    if |es| == 0 then []
    else (if es[0].qryChrom == c then [es[0]] else []) + KeepChrom(es[1..], c)
  }

  /** What remains are exactly the alignments to `c`. */
  lemma {:induction false} KeepChromMembers(es: seq<PwalnEntry>, c: u16)
    ensures forall x :: x in KeepChrom(es, c) <==> x in es && x.qryChrom == c
  {
    if |es| > 0 {
      KeepChromMembers(es[1..], c);
      assert es == [es[0]] + es[1..];
    }
  }

  /** As many alignments remain as point to `c`. */
  lemma {:induction false} KeepChromCount(es: seq<PwalnEntry>, c: u16)
    ensures |KeepChrom(es, c)| == Count(es, c)
  {
    if |es| > 0 {
      KeepChromCount(es[1..], c);
      assert QryChroms(es) == [es[0].qryChrom] + QryChroms(es[1..]);
    }
  }

  /** Filtering keeps the upstream set ordered. */
  lemma {:induction false} KeepChromDesc(es: seq<PwalnEntry>, c: u16)
    requires StrictDesc(es)
    ensures StrictDesc(KeepChrom(es, c))
  {
    if |es| > 0 {
      KeepChromDesc(es[1..], c);
      KeepChromMembers(es[1..], c);
    }
  }

  /* ---------- ordering by reference start ---------- */

  /** The comparison of the sort: reference start, then reference end. */
  predicate RefLe(a: PwalnEntry, b: PwalnEntry) {
    a.refStart < b.refStart || (a.refStart == b.refStart && a.refEnd <= b.refEnd)
  }

  ghost predicate SortedByRef(s: seq<PwalnEntry>) {
    forall i, j :: 0 <= i < j < |s| ==> RefLe(s[i], s[j])
  }

  function InsertByRef(x: PwalnEntry, s: seq<PwalnEntry>): (r: seq<PwalnEntry>)
    requires SortedByRef(s)
    ensures SortedByRef(r)
    ensures multiset(r) == multiset(s) + multiset{x}
  {
    if |s| == 0 then [x]
    else if RefLe(s[|s| - 1], x) then
      assert s == s[..|s| - 1] + [s[|s| - 1]];
      s + [x]
    else
      var init := s[..|s| - 1];
      var last := s[|s| - 1];
      var r' := InsertByRef(x, init);
      assert s == init + [last];
      assert forall i :: 0 <= i < |r'| ==> r'[i] in multiset(init) + multiset{x};
      assert forall i :: 0 <= i < |init| ==> RefLe(init[i], last);
      r' + [last]
  }

  /** The `std::sort` of the closest alignments: a permutation ordered by
      reference start and end. */
  function SortByRef(s: seq<PwalnEntry>): (r: seq<PwalnEntry>)
    ensures SortedByRef(r)
    ensures multiset(r) == multiset(s)
  {
    if |s| == 0 then []
    else
      assert s == s[..|s| - 1] + [s[|s| - 1]];
      InsertByRef(s[|s| - 1], SortByRef(s[..|s| - 1]))
  }

  /** The positions of a chain increase pairwise, not only from one to the
      next. */
  lemma {:induction false} ChainIncreasing(keys: seq<Key>, c: seq<nat>)
    requires IsChain(keys, c)
    ensures forall k, l :: 0 <= k < l < |c| ==> c[k] < c[l]
  {
    if |c| > 1 {
      var init := c[..|c| - 1];
      ChainPrefix(keys, c, |c| - 1);
      ChainIncreasing(keys, init);
      forall k, l | 0 <= k < l < |c| ensures c[k] < c[l] {
        if l < |c| - 1 {
          assert init[k] == c[k] && init[l] == c[l];
        } else if k < l - 1 {
          assert init[k] < init[l - 1];
        }
      }
    }
  }

  /** A chain taken from sorted alignments is sorted. */
  lemma ChainSorted(s: seq<PwalnEntry>, d: Direction, idx: seq<nat>)
    requires SortedByRef(s) && IsChain(KeysOf(d, s), idx)
    ensures SortedByRef(At(s, idx))
  {
    ChainIncreasing(KeysOf(d, s), idx);
  }

  /* ---------- picking the anchors ---------- */

  /** The alignments picked on each side of the location, if any. */
  datatype Picked = Picked(up: Option<PwalnEntry>, ov: Option<PwalnEntry>, down: Option<PwalnEntry>)

  function AbsDiff(a: u32, b: u32): nat {
    if a > b then a - b else b - a
  }

  /** How deep inside the alignment the location lies: its distance to the
      nearer reference end. */
  function Depth(e: PwalnEntry, loc: u32): nat {
    var toStart := AbsDiff(e.refStart, loc);
    var toEnd := AbsDiff(e.refEnd, loc);
    if toStart <= toEnd then toStart else toEnd
  }

  /** Every alignment's reference interval is in order. */
  ghost predicate RefOrdered(s: seq<PwalnEntry>) {
    forall x :: x in s ==> x.refStart <= x.refEnd
  }

  /** In sorted alignments with ordered intervals, everything after a
      downstream alignment is downstream too. */
  lemma DownstreamAfter(s: seq<PwalnEntry>, loc: u32, k: nat)
    requires SortedByRef(s) && RefOrdered(s)
    requires k < |s| && SideOf(s[k], loc) == Downstream
    ensures forall j :: k <= j < |s| ==> SideOf(s[j], loc) == Downstream
  {
  }

  /** `up` is the upstream alignment among `s[..n]` with the largest
      reference end, the first of equals, at position `iu`; `None` if there
      is none. */
  ghost predicate BestUp(s: seq<PwalnEntry>, loc: u32, n: nat, up: Option<PwalnEntry>, iu: nat)
    requires n <= |s|
  {
    && (up.None? <==> forall j :: 0 <= j < n ==> SideOf(s[j], loc) != Upstream)
    && (up.Some? ==> iu < n && s[iu] == up.value && SideOf(s[iu], loc) == Upstream)
    && (up.Some? ==> forall j :: 0 <= j < n && SideOf(s[j], loc) == Upstream ==>
          s[j].refEnd <= up.value.refEnd && (j < iu ==> s[j].refEnd < up.value.refEnd))
  }

  /** `ov` is the overlapping alignment among `s[..n]` with the greatest
      depth, the first of equals, at position `io`; `None` if there is
      none. */
  ghost predicate BestOv(s: seq<PwalnEntry>, loc: u32, n: nat, ov: Option<PwalnEntry>, io: nat)
    requires n <= |s|
  {
    && (ov.None? <==> forall j :: 0 <= j < n ==> SideOf(s[j], loc) != Overlapping)
    && (ov.Some? ==> io < n && s[io] == ov.value && SideOf(s[io], loc) == Overlapping)
    && (ov.Some? ==> forall j :: 0 <= j < n && SideOf(s[j], loc) == Overlapping ==>
          Depth(s[j], loc) <= Depth(ov.value, loc) && (j < io ==> Depth(s[j], loc) < Depth(ov.value, loc)))
  }

  lemma BestUpStep(s: seq<PwalnEntry>, loc: u32, i: nat, up: Option<PwalnEntry>, iu: nat)
    requires i < |s| && BestUp(s, loc, i, up, iu)
    ensures SideOf(s[i], loc) != Upstream ==> BestUp(s, loc, i + 1, up, iu)
    ensures SideOf(s[i], loc) == Upstream && (up.None? || up.value.refEnd < s[i].refEnd) ==>
              BestUp(s, loc, i + 1, Some(s[i]), i)
    ensures SideOf(s[i], loc) == Upstream && !(up.None? || up.value.refEnd < s[i].refEnd) ==>
              BestUp(s, loc, i + 1, up, iu)
  {
  }

  lemma BestOvStep(s: seq<PwalnEntry>, loc: u32, i: nat, ov: Option<PwalnEntry>, io: nat)
    requires i < |s| && BestOv(s, loc, i, ov, io)
    ensures SideOf(s[i], loc) != Overlapping ==> BestOv(s, loc, i + 1, ov, io)
    ensures SideOf(s[i], loc) == Overlapping && (ov.None? || Depth(ov.value, loc) < Depth(s[i], loc)) ==>
              BestOv(s, loc, i + 1, Some(s[i]), i)
    ensures SideOf(s[i], loc) == Overlapping && !(ov.None? || Depth(ov.value, loc) < Depth(s[i], loc)) ==>
              BestOv(s, loc, i + 1, ov, io)
  {
  }

  /** The position of the first downstream alignment of `s`, or `|s|` when
      there is none. */
  function FirstDown(s: seq<PwalnEntry>, loc: u32): (n: nat)
    ensures n <= |s|
    ensures forall j :: 0 <= j < n ==> SideOf(s[j], loc) != Downstream
    ensures n < |s| ==> SideOf(s[n], loc) == Downstream
  {
    if |s| == 0 || SideOf(s[0], loc) == Downstream then 0
    else 1 + FirstDown(s[1..], loc)
  }

  /** `FirstDown` is the only position with no downstream alignment
      before it and a downstream one, or the end, at it. */
  lemma {:induction false} FirstDownUnique(s: seq<PwalnEntry>, loc: u32, n: nat)
    requires n <= |s| && forall j :: 0 <= j < n ==> SideOf(s[j], loc) != Downstream
    requires n < |s| ==> SideOf(s[n], loc) == Downstream
    ensures n == FirstDown(s, loc)
  {
    if n > 0 {
      FirstDownUnique(s[1..], loc, n - 1);
    }
  }

  /** The loop over the chain up to its first downstream alignment, where it
      stops: the upstream alignment with the largest reference end, the first
      of equals; the overlapping alignment with the greatest depth, the first
      of equals; and that first downstream alignment. For sorted alignments
      with ordered intervals, the stop misses nothing. */
  method Pick(s: seq<PwalnEntry>, loc: u32) returns (p: Picked, ghost stop: nat, ghost iu: nat, ghost io: nat)
    ensures stop == FirstDown(s, loc)
    ensures stop <= |s|
    ensures forall j :: 0 <= j < stop ==> SideOf(s[j], loc) != Downstream
    ensures p.down == if stop < |s| then Some(s[stop]) else None
    ensures stop < |s| ==> SideOf(s[stop], loc) == Downstream
    ensures BestUp(s, loc, stop, p.up, iu)
    ensures BestOv(s, loc, stop, p.ov, io)
    ensures SortedByRef(s) && RefOrdered(s) ==> forall j :: stop <= j < |s| ==> SideOf(s[j], loc) == Downstream
    ensures p.down.None? <==> forall j :: 0 <= j < |s| ==> SideOf(s[j], loc) != Downstream
    ensures p.up.Some? ==> p.up.value in s && SideOf(p.up.value, loc) == Upstream
    ensures p.ov.Some? ==> p.ov.value in s && SideOf(p.ov.value, loc) == Overlapping
    ensures p.down.Some? ==> p.down.value in s && SideOf(p.down.value, loc) == Downstream
  {
    p := Picked(None, None, None);
    iu, io := 0, 0;
    stop := |s|;
    var i := 0;
    while i < |s|
      invariant i <= |s| && stop == |s|
      invariant p.down.None?
      invariant forall j :: 0 <= j < i ==> SideOf(s[j], loc) != Downstream
      invariant BestUp(s, loc, i, p.up, iu)
      invariant BestOv(s, loc, i, p.ov, io)
    {
      var a := s[i];
      BestUpStep(s, loc, i, p.up, iu);
      BestOvStep(s, loc, i, p.ov, io);
      if a.refEnd <= loc {
        if p.up.None? || p.up.value.refEnd < a.refEnd {
          p, iu := p.(up := Some(a)), i;
        }
      } else if loc < a.refStart {
        p := p.(down := Some(a));
        stop := i;
        break;
      } else {
        if p.ov.None? || Depth(p.ov.value, loc) < Depth(a, loc) {
          p, io := p.(ov := Some(a)), i;
        }
      }
      i := i + 1;
    }
    FirstDownUnique(s, loc, stop);
    if stop < |s| && SortedByRef(s) && RefOrdered(s) {
      DownstreamAfter(s, loc, stop);
    }
  }

  /* ---------- the whole search ---------- */

  /** The scan's three buckets, or what the majority filter leaves of them. */
  datatype Buckets = Buckets(up: seq<PwalnEntry>, ov: seq<PwalnEntry>, down: seq<PwalnEntry>)

  /** The scan stops at `stop`: right after the `TopN`-th downstream
      alignment, or at the end of a run with fewer. */
  ghost predicate Stops(run: seq<PwalnEntry>, loc: u32, stop: nat) {
    && stop <= |run|
    && |Where(run[..stop], loc, Downstream)| <= TopN
    && (stop < |run| ==> |Where(run[..stop], loc, Downstream)| == TopN)
    && (|Where(run[..stop], loc, Downstream)| == TopN ==> 0 < stop && SideOf(run[stop - 1], loc) == Downstream)
  }

  /** What a scan stopping at `stop` collects: the `TopN` upstream
      alignments with the largest reference ends, the first seen of equal
      ends; the overlapping and the downstream alignments in stored order. */
  ghost function Collected(run: seq<PwalnEntry>, loc: u32, stop: nat): Buckets
    requires stop <= |run|
  {
    Buckets(Take(UpAll(Where(run[..stop], loc, Upstream)), TopN),
            Where(run[..stop], loc, Overlapping),
            Where(run[..stop], loc, Downstream))
  }

  /** The buckets in the order `computeMajorChrom` is given them. */
  function Pool(b: Buckets): seq<PwalnEntry> {
    b.ov + b.up + b.down
  }

  /** `m` is a query chromosome no other one outnumbers in `pool`, and 0
      for an empty pool. */
  ghost predicate Majority(pool: seq<PwalnEntry>, m: u16) {
    && (|pool| == 0 ==> m == 0)
    && (|pool| > 0 ==> Count(pool, m) > 0)
    && forall c: u16 :: Count(pool, c) <= Count(pool, m)
  }

  /** Each bucket reduced to query chromosome `c`. */
  function Keep(b: Buckets, c: u16): Buckets {
    Buckets(KeepChrom(b.up, c), KeepChrom(b.ov, c), KeepChrom(b.down, c))
  }

  /** `closestAnchors` before it is sorted: upstream, overlapping,
      downstream. */
  function Closest(b: Buckets): seq<PwalnEntry> {
    b.up + b.ov + b.down
  }

  /** Taking one more element of a run never shrinks a side's filter, and
      grows it when that element is on the side. */
  lemma {:induction false} WhereGrows(run: seq<PwalnEntry>, loc: u32, side: Side, i: nat, j: nat)
    requires i <= j <= |run|
    ensures |Where(run[..i], loc, side)| <= |Where(run[..j], loc, side)|
    ensures i < j && SideOf(run[j - 1], loc) == side ==>
              |Where(run[..i], loc, side)| < |Where(run[..j], loc, side)|
    decreases j
  {
    if i < j {
      WhereSnoc(run, j - 1, loc, side);
      WhereGrows(run, loc, side, i, j - 1);
    }
  }

  /** The stop of the scan is determined by the run. */
  lemma StopsUnique(run: seq<PwalnEntry>, loc: u32, a: nat, b: nat)
    requires Stops(run, loc, a) && Stops(run, loc, b)
    ensures a == b
  {
    if a < b {
      WhereGrows(run, loc, Downstream, a, b);
    } else if b < a {
      WhereGrows(run, loc, Downstream, b, a);
    }
  }

  /** What the scan keeps comes from the run, each on its own side. */
  lemma CollectedFrom(run: seq<PwalnEntry>, loc: u32, stop: nat)
    requires stop <= |run|
    ensures forall x :: x in Collected(run, loc, stop).up ==> x in run && SideOf(x, loc) == Upstream
    ensures forall x :: x in Collected(run, loc, stop).ov ==> x in run && SideOf(x, loc) == Overlapping
    ensures forall x :: x in Collected(run, loc, stop).down ==> x in run && SideOf(x, loc) == Downstream
  {
    var up := Where(run[..stop], loc, Upstream);
    WhereMembers(run[..stop], loc, Upstream);
    WhereMembers(run[..stop], loc, Overlapping);
    WhereMembers(run[..stop], loc, Downstream);
    UpAllMembers(up);
    forall x | x in Take(UpAll(up), TopN) ensures x in UpAll(up) {
    }
    forall x | x in run[..stop] ensures x in run {
    }
  }

  /** What the majority filter keeps is what pointed to that chromosome. */
  lemma KeptFrom(b: Buckets, major: u16)
    ensures forall x :: x in Keep(b, major).up <==> x in b.up && x.qryChrom == major
    ensures forall x :: x in Keep(b, major).ov <==> x in b.ov && x.qryChrom == major
    ensures forall x :: x in Keep(b, major).down <==> x in b.down && x.qryChrom == major
  {
    KeepChromMembers(b.up, major);
    KeepChromMembers(b.ov, major);
    KeepChromMembers(b.down, major);
  }

  /** A filter keeps at most as many alignments as it is given. */
  lemma KeepChromShorter(es: seq<PwalnEntry>, c: u16)
    ensures |KeepChrom(es, c)| <= |es|
  {
    KeepChromCount(es, c);
    assert |QryChroms(es)| == |multiset(QryChroms(es))|;
  }

  /** The alignments taking part, before collinearity: the scan's buckets,
      each reduced to the majority query chromosome of all three. */
  method Neighbourhood(run: seq<PwalnEntry>, loc: u32) returns (k: Buckets, ghost stop: nat, ghost major: u16)
    ensures Stops(run, loc, stop)
    ensures Majority(Pool(Collected(run, loc, stop)), major)
    ensures k == Keep(Collected(run, loc, stop), major)
    ensures |k.up| <= TopN && |k.down| <= TopN
    ensures forall x :: x in k.up ==> x in run && x.qryChrom == major && SideOf(x, loc) == Upstream
    ensures forall x :: x in k.ov ==> x in run && x.qryChrom == major && SideOf(x, loc) == Overlapping
    ensures forall x :: x in k.down ==> x in run && x.qryChrom == major && SideOf(x, loc) == Downstream
    ensures (forall x :: x in run ==> SideOf(x, loc) != Upstream) ==> |k.up| == 0
    ensures (forall x :: x in run ==> SideOf(x, loc) != Downstream) ==> |k.down| == 0
  {
    var up0, ov0, down0, st := Collect(run, loc);
    stop := st;
    var b := Buckets(up0, ov0, down0);
    assert b == Collected(run, loc, stop);
    CollectedFrom(run, loc, stop);
    var m := MajorChrom(Pool(b));
    major := m;
    k := Keep(b, m);
    KeptFrom(b, major);
    KeepChromShorter(up0, major);
    KeepChromShorter(down0, major);
    if |k.up| > 0 {
      assert k.up[0] in k.up;
    }
    if |k.down| > 0 {
      assert k.down[0] in k.down;
    }
  }

  /** What the final loop and the return after it give for the chain `s`,
      with `n` the position of its first downstream alignment: the deepest
      overlapping alignment before `n`, the first of equals, twice; failing
      that, the upstream alignment before `n` with the largest reference
      end, the first of equals, and the alignment at `n`; nothing when
      neither exists. */
  ghost predicate Answer(s: seq<PwalnEntry>, loc: u32, a: Option<AnchorPair>) {
    var n := FirstDown(s, loc);
    && (a.None? <==>
          && (forall j :: 0 <= j < n ==> SideOf(s[j], loc) != Overlapping)
          && (n == |s| || forall j :: 0 <= j < n ==> SideOf(s[j], loc) != Upstream))
    && (a.Some? && SideOf(a.value.upstream, loc) == Overlapping ==>
          && a.value.downstream == a.value.upstream && a.value.upstream in s[..n]
          && forall j :: 0 <= j < n && SideOf(s[j], loc) == Overlapping ==>
               && Depth(s[j], loc) <= Depth(a.value.upstream, loc)
               && (Depth(s[j], loc) == Depth(a.value.upstream, loc) ==> a.value.upstream in s[..j + 1]))
    && (a.Some? && SideOf(a.value.upstream, loc) != Overlapping ==>
          && SideOf(a.value.upstream, loc) == Upstream && a.value.upstream in s[..n]
          && n < |s| && a.value.downstream == s[n]
          && (forall j :: 0 <= j < n ==> SideOf(s[j], loc) != Overlapping)
          && forall j :: 0 <= j < n && SideOf(s[j], loc) == Upstream ==>
               && s[j].refEnd <= a.value.upstream.refEnd
               && (s[j].refEnd == a.value.upstream.refEnd ==> a.value.upstream in s[..j + 1]))
  }

  /** What the loop over a collinear chain `s` promises about the pair it
      returns: both alignments come from the chain, and either one
      overlapping alignment is given twice or an upstream and a downstream
      one; the downstream one starts first. For a sorted chain with ordered
      intervals also: an overlapping alignment is the deepest one, and the
      upstream one ends last. */
  ghost predicate PairFrom(s: seq<PwalnEntry>, loc: u32, a: AnchorPair) {
    && a.upstream in s && a.downstream in s
    && (|| (a.upstream == a.downstream && SideOf(a.upstream, loc) == Overlapping)
        || (SideOf(a.upstream, loc) == Upstream && SideOf(a.downstream, loc) == Downstream))
    && (SideOf(a.upstream, loc) == Upstream && SortedByRef(s) ==>
          forall j :: 0 <= j < |s| && SideOf(s[j], loc) == Downstream ==> a.downstream.refStart <= s[j].refStart)
    && (SortedByRef(s) && RefOrdered(s) ==>
          forall j :: 0 <= j < |s| ==>
            && (SideOf(s[j], loc) == Overlapping ==>
                  a.upstream == a.downstream && Depth(s[j], loc) <= Depth(a.upstream, loc))
            && (SideOf(s[j], loc) == Upstream && SideOf(a.upstream, loc) == Upstream ==>
                  s[j].refEnd <= a.upstream.refEnd))
  }

  /** An element sits in every prefix that reaches its position. */
  lemma InPrefix(s: seq<PwalnEntry>, i: nat, j: nat)
    requires i <= j < |s|
    ensures s[i] in s[..j + 1]
  {
    assert s[..j + 1][i] == s[i];
  }

  /** The deepest overlapping alignment before the stop, given twice, is
      the answer. */
  lemma AnswerOv(s: seq<PwalnEntry>, loc: u32, ov: Option<PwalnEntry>, io: nat)
    requires BestOv(s, loc, FirstDown(s, loc), ov, io) && ov.Some?
    ensures Answer(s, loc, Some(AnchorPair(ov.value, ov.value)))
  {
    var n := FirstDown(s, loc);
    InPrefix(s, io, io);
    forall j | 0 <= j < n && SideOf(s[j], loc) == Overlapping && Depth(s[j], loc) == Depth(s[io], loc)
      ensures s[io] in s[..j + 1]
    {
      InPrefix(s, io, j);
    }
  }

  /** Without an overlapping alignment before the stop, the best upstream
      one and the one at the stop are the answer. */
  lemma AnswerUp(s: seq<PwalnEntry>, loc: u32, up: Option<PwalnEntry>, iu: nat)
    requires BestUp(s, loc, FirstDown(s, loc), up, iu) && up.Some?
    requires forall j :: 0 <= j < FirstDown(s, loc) ==> SideOf(s[j], loc) != Overlapping
    requires FirstDown(s, loc) < |s|
    ensures Answer(s, loc, Some(AnchorPair(up.value, s[FirstDown(s, loc)])))
  {
    var n := FirstDown(s, loc);
    InPrefix(s, iu, iu);
    forall j | 0 <= j < n && SideOf(s[j], loc) == Upstream && s[j].refEnd == s[iu].refEnd
      ensures s[iu] in s[..j + 1]
    {
      InPrefix(s, iu, j);
    }
  }

  /** With no overlapping alignment before the stop, and no upstream one
      before it or no stop at all, there is no answer. */
  lemma AnswerNone(s: seq<PwalnEntry>, loc: u32)
    requires forall j :: 0 <= j < FirstDown(s, loc) ==> SideOf(s[j], loc) != Overlapping
    requires FirstDown(s, loc) == |s| || forall j :: 0 <= j < FirstDown(s, loc) ==> SideOf(s[j], loc) != Upstream
    ensures Answer(s, loc, None)
  {
  }

  /** An element of a prefix is an element of the whole. */
  lemma PrefixMember(s: seq<PwalnEntry>, x: PwalnEntry, n: nat)
    requires n <= |s| && x in s[..n]
    ensures x in s
  {
    var i :| 0 <= i < n && s[..n][i] == x;
    assert s[i] == x;
  }

  /** An overlapping answer is the deepest overlapping alignment, twice. */
  lemma AnswerPairOv(s: seq<PwalnEntry>, loc: u32, a: AnchorPair)
    requires Answer(s, loc, Some(a)) && SideOf(a.upstream, loc) == Overlapping
    ensures PairFrom(s, loc, a)
  {
    var n := FirstDown(s, loc);
    PrefixMember(s, a.upstream, n);
    if SortedByRef(s) && RefOrdered(s) && n < |s| {
      DownstreamAfter(s, loc, n);
    }
  }

  /** In sorted alignments the first downstream one starts no later than
      any other downstream one. */
  lemma FirstDownStartsFirst(s: seq<PwalnEntry>, loc: u32)
    requires SortedByRef(s) && FirstDown(s, loc) < |s|
    ensures forall j :: 0 <= j < |s| && SideOf(s[j], loc) == Downstream ==>
              s[FirstDown(s, loc)].refStart <= s[j].refStart
  {
    var n := FirstDown(s, loc);
    forall j | 0 <= j < |s| && SideOf(s[j], loc) == Downstream
      ensures s[n].refStart <= s[j].refStart
    {
      if n < j {
        assert RefLe(s[n], s[j]);
      }
    }
  }

  /** In sorted alignments with ordered intervals, a bound on the
      upstream ends before the first downstream alignment, with no
      overlapping one there, holds for the whole sequence. */
  lemma UpstreamEndsBounded(s: seq<PwalnEntry>, loc: u32, u: PwalnEntry)
    requires SortedByRef(s) && RefOrdered(s) && FirstDown(s, loc) < |s|
    requires forall j :: 0 <= j < FirstDown(s, loc) ==> SideOf(s[j], loc) != Overlapping
    requires forall j :: 0 <= j < FirstDown(s, loc) && SideOf(s[j], loc) == Upstream ==> s[j].refEnd <= u.refEnd
    ensures forall j :: 0 <= j < |s| ==>
              && SideOf(s[j], loc) != Overlapping
              && (SideOf(s[j], loc) == Upstream ==> s[j].refEnd <= u.refEnd)
  {
    DownstreamAfter(s, loc, FirstDown(s, loc));
  }

  /** An upstream answer is paired with the first downstream alignment,
      which starts no later than any other downstream one. */
  lemma AnswerPairUp(s: seq<PwalnEntry>, loc: u32, a: AnchorPair)
    requires Answer(s, loc, Some(a)) && SideOf(a.upstream, loc) != Overlapping
    ensures PairFrom(s, loc, a)
  {
    var n := FirstDown(s, loc);
    PrefixMember(s, a.upstream, n);
    if SortedByRef(s) {
      FirstDownStartsFirst(s, loc);
      if RefOrdered(s) {
        UpstreamEndsBounded(s, loc, a.upstream);
      }
    }
  }

  /** The answer is a pair from the chain with the promised sides and
      order. */
  lemma AnswerPair(s: seq<PwalnEntry>, loc: u32, a: AnchorPair)
    requires Answer(s, loc, Some(a))
    ensures PairFrom(s, loc, a)
  {
    if SideOf(a.upstream, loc) == Overlapping {
      AnswerPairOv(s, loc, a);
    } else {
      AnswerPairUp(s, loc, a);
    }
  }

  /** For a sorted chain with ordered intervals the stop misses nothing:
      there is no answer exactly when the chain has no overlapping
      alignment and lacks one side. */
  lemma AnswerSorted(s: seq<PwalnEntry>, loc: u32, a: Option<AnchorPair>)
    requires Answer(s, loc, a) && SortedByRef(s) && RefOrdered(s)
    ensures a.None? <==> (forall j :: 0 <= j < |s| ==> SideOf(s[j], loc) != Overlapping)
                         && ((forall j :: 0 <= j < |s| ==> SideOf(s[j], loc) != Upstream)
                             || (forall j :: 0 <= j < |s| ==> SideOf(s[j], loc) != Downstream))
  {
    var n := FirstDown(s, loc);
    if n < |s| {
      DownstreamAfter(s, loc, n);
    }
  }

  /** The loop over the collinear chain and what is returned from it: the
      overlapping alignment twice if there is one, otherwise the upstream and
      downstream alignments if both exist. For a sorted chain with ordered
      intervals, nothing is returned exactly when the chain has no
      overlapping alignment and lacks one side. */
  method Choose(s: seq<PwalnEntry>, loc: u32) returns (a: Option<AnchorPair>)
    ensures Answer(s, loc, a)
    ensures a.Some? ==> PairFrom(s, loc, a.value)
    ensures SortedByRef(s) && RefOrdered(s) ==>
              (a.None? <==> (forall j :: 0 <= j < |s| ==> SideOf(s[j], loc) != Overlapping)
                            && ((forall j :: 0 <= j < |s| ==> SideOf(s[j], loc) != Upstream)
                                || (forall j :: 0 <= j < |s| ==> SideOf(s[j], loc) != Downstream)))
  {
    var p, stop, iu, io := Pick(s, loc);
    if p.ov.Some? {
      a := Some(AnchorPair(p.ov.value, p.ov.value));
      AnswerOv(s, loc, p.ov, io);
    } else if p.up.None? || p.down.None? {
      a := None;
      AnswerNone(s, loc);
    } else {
      a := Some(AnchorPair(p.up.value, p.down.value));
      AnswerUp(s, loc, p.up, iu);
    }
    if a.Some? {
      AnswerPair(s, loc, a.value);
    }
    if SortedByRef(s) && RefOrdered(s) {
      AnswerSorted(s, loc, a);
    }
  }

  /** Small query coordinates carry over to any alignments drawn from the
      same ones. */
  lemma SmallCoordsSub(a: seq<PwalnEntry>, b: seq<PwalnEntry>)
    requires SmallCoords(b) && forall x :: x in a ==> x in b
    ensures SmallCoords(a)
  {
    forall j | 0 <= j < |a| ensures a[j].qryStart < 0x8000_0000 && a[j].qryEnd < 0x8000_0000 {
      assert a[j] in b;
    }
  }

  /** The preferred chain of sorted alignments is sorted and drawn from
      them. */
  lemma ChosenSorted(s: seq<PwalnEntry>, inc: seq<nat>, dec: seq<nat>)
    requires Strands(s, inc, dec) && SortedByRef(s)
    ensures SortedByRef(Chosen(s, inc, dec))
    ensures forall x :: x in Chosen(s, inc, dec) ==> x in s
  {
    if Pref(inc, dec) == Inc {
      ChainSorted(s, Inc, inc);
    } else {
      ChainSorted(s, Dec, dec);
    }
    var r := Chosen(s, inc, dec);
    forall x | x in r ensures x in s {
      var i :| 0 <= i < |r| && r[i] == x;
    }
  }

  /** The collinearity step: the alignments taking part sorted by reference
      start, then `Ipp::longestSubsequence` of them, which aborts on a
      failed sanity check. The chain is ordered by reference start and
      drawn from `kept`. */
  method CollinearAnchors(kept: seq<PwalnEntry>) returns (c: Result<seq<PwalnEntry>, Abort>, ghost inc: seq<nat>, ghost dec: seq<nat>)
    ensures Strands(SortByRef(kept), inc, dec)
    ensures c.Err? <==> !Sane(SortByRef(kept), inc, dec)
    ensures c.Ok? ==> c.value == Chosen(SortByRef(kept), inc, dec)
    ensures c.Ok? ==> SortedByRef(c.value) && forall x :: x in c.value ==> x in kept
    ensures c.Ok? && SmallCoords(kept) ==> Collinear(Pref(inc, dec), c.value)
  {
    var closest := SortByRef(kept);
    assert forall x :: x in closest ==> x in kept by {
      forall x | x in closest ensures x in kept {
        assert x in multiset(closest);
      }
    }
    if SmallCoords(kept) {
      SmallCoordsSub(closest, kept);
    }
    c, inc, dec := LongestSubsequence(closest);
    ChosenSorted(closest, inc, dec);
  }

  /** What `Ipp::getAnchors` returns for a chain that passed the sanity
      checks: nothing below `MinN` elements, otherwise the `Answer` of the
      chain, which is a `PairFrom` it; for a chain with ordered intervals,
      nothing exactly when it has no overlapping alignment and lacks an
      upstream or a downstream one. */
  ghost predicate Outcome(chain: seq<PwalnEntry>, loc: u32, a: Option<AnchorPair>) {
    && (|chain| < MinN ==> a.None?)
    && (|chain| >= MinN ==> Answer(chain, loc, a))
    && (a.Some? ==> PairFrom(chain, loc, a.value))
    && (|chain| >= MinN && RefOrdered(chain) ==>
          (a.None? <==>
             && (forall j :: 0 <= j < |chain| ==> SideOf(chain[j], loc) != Overlapping)
             && ((forall j :: 0 <= j < |chain| ==> SideOf(chain[j], loc) != Upstream)
                 || (forall j :: 0 <= j < |chain| ==> SideOf(chain[j], loc) != Downstream))))
  }

  /** The steps of `Ipp::getAnchors` after the buckets: the collinear chain
      of the kept alignments, then, when it has at least `MinN` elements,
      the pair the final loop picks from it. */
  method FromKept(kept: seq<PwalnEntry>, loc: u32)
    returns (r: Result<Option<AnchorPair>, AnchorError>, ghost inc: seq<nat>, ghost dec: seq<nat>)
    ensures r.Err? ==> r == Err(CollinearityAborted)
    ensures var t := SortByRef(kept);
              && Strands(t, inc, dec)
              && (r.Err? <==> !Sane(t, inc, dec))
              && (Sane(t, inc, dec) ==>
                    var chain := Chosen(t, inc, dec);
                    && r.Ok? && SortedByRef(chain)
                    && (forall x :: x in chain ==> x in kept)
                    && (SmallCoords(kept) ==> Collinear(Pref(inc, dec), chain))
                    && Outcome(chain, loc, r.value))
  {
    var c, ci, cd := CollinearAnchors(kept);
    inc, dec := ci, cd;
    if c.Err? {
      return Err(CollinearityAborted), inc, dec;
    }
    var chain := c.value;
    if |chain| < MinN {
      return Ok(None), inc, dec;
    }
    var a := Choose(chain, loc);
    r := Ok(a);
  }

  /** `Ipp::getAnchors`: the anchor pair of a reference location from the
      alignments of its chromosome. `stop` is where the scan stops, `major`
      the majority query chromosome of its buckets, and `inc`, `dec` the
      positions of the two strand chains among the sorted alignments taking
      part. No pair when a side has no alignment left or the chain is
      shorter than `MinN`; otherwise the pair the final loop picks. */
  method GetAnchors(pwaln: RunMap, refCoords: Coords)
    returns (r: Result<Option<AnchorPair>, AnchorError>,
             ghost stop: nat, ghost major: u16, ghost inc: seq<nat>, ghost dec: seq<nat>)
    ensures r == Err(NoAlignments(refCoords.chrom)) <==> refCoords.chrom !in pwaln
    ensures refCoords.chrom in pwaln ==>
              && Stops(pwaln[refCoords.chrom], refCoords.loc, stop)
              && Majority(Pool(Collected(pwaln[refCoords.chrom], refCoords.loc, stop)), major)
    ensures refCoords.chrom in pwaln ==>
              var k := Keep(Collected(pwaln[refCoords.chrom], refCoords.loc, stop), major);
              (|k.up| == 0 || |k.down| == 0) ==> r == Ok(None)
    ensures refCoords.chrom in pwaln ==>
              var run := pwaln[refCoords.chrom];
              var k := Keep(Collected(run, refCoords.loc, stop), major);
              var t := SortByRef(Closest(k));
              |k.up| > 0 && |k.down| > 0 ==>
                && Strands(t, inc, dec)
                && (r == Err(CollinearityAborted) <==> !Sane(t, inc, dec))
                && (Sane(t, inc, dec) ==>
                      var chain := Chosen(t, inc, dec);
                      && r.Ok? && SortedByRef(chain)
                      && (forall x :: x in chain ==> x in run && x.qryChrom == major)
                      && (SmallCoords(run) ==> Collinear(Pref(inc, dec), chain))
                      && Outcome(chain, refCoords.loc, r.value))
    ensures r.Ok? && (forall x :: x in pwaln[refCoords.chrom] ==> SideOf(x, refCoords.loc) != Upstream) ==>
              r.value.None?
    ensures r.Ok? && (forall x :: x in pwaln[refCoords.chrom] ==> SideOf(x, refCoords.loc) != Downstream) ==>
              r.value.None?
  {
    stop, major, inc, dec := 0, 0, [], [];
    if refCoords.chrom !in pwaln {
      return Err(NoAlignments(refCoords.chrom)), stop, major, inc, dec;
    }
    var run := pwaln[refCoords.chrom];
    var loc := refCoords.loc;
    var k, st, mj := Neighbourhood(run, loc);
    stop, major := st, mj;
    if |k.up| == 0 || |k.down| == 0 {
      return Ok(None), stop, major, inc, dec;
    }
    var kept := Closest(k);
    assert forall x :: x in kept ==> x in run && x.qryChrom == major;
    if SmallCoords(run) {
      SmallCoordsSub(kept, run);
    }
    r, inc, dec := FromKept(kept, loc);
  }
}
