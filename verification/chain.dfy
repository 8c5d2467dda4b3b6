/** The collinearity filter: the longest chain of alignments whose query
    intervals follow one another, found with the O(n log k) patience method
    over the arrays `m` (best chain end per length) and `prev` (back links). */
module Chain {
  import opened Wrappers
  import opened Entries

  /** What the filter and the two key functions say about one element:
      whether it takes part, and its start and end keys. */
  datatype Key = Key(pass: bool, start: int, end: int)

  /* ---------- chains ---------- */

  /** `c` lists positions of a chain: increasing, every element passing the
      filter, each element's end key at most the next one's start key. */
  ghost predicate IsChain(keys: seq<Key>, c: seq<nat>) {
    && (forall k :: 0 <= k < |c| ==> c[k] < |keys| && keys[c[k]].pass)
    && (forall k :: 0 < k < |c| ==> c[k - 1] < c[k] && keys[c[k - 1]].end <= keys[c[k]].start)
  }

  /** Every passing element ends no earlier than it starts: the condition
      under which the method finds a longest chain. */
  ghost predicate Ordered(keys: seq<Key>) {
    forall j :: 0 <= j < |keys| && keys[j].pass ==> keys[j].start <= keys[j].end
  }

  lemma ChainPrefix(keys: seq<Key>, c: seq<nat>, n: nat)
    requires IsChain(keys, c) && n <= |c|
    ensures IsChain(keys, c[..n])
  {
  }

  lemma ChainSnoc(keys: seq<Key>, c: seq<nat>, i: nat)
    requires IsChain(keys, c)
    requires i < |keys| && keys[i].pass
    requires |c| > 0 ==> c[|c| - 1] < i && keys[c[|c| - 1]].end <= keys[i].start
    ensures IsChain(keys, c + [i])
  {
  }

  /* ---------- the back links ---------- */

  ghost predicate LinksOk(prev: seq<nat>) {
    forall j :: 0 <= j < |prev| ==> prev[j] < |prev|
  }

  /** The `len` positions reached from `v` by following `prev`, oldest first:
      what the backtrace loop collects. */
  ghost function Trace(prev: seq<nat>, v: nat, len: nat): (t: seq<nat>)
    requires v < |prev| && LinksOk(prev)
    ensures |t| == len && (len > 0 ==> t[len - 1] == v)
    decreases len
  {
    if len == 0 then [] else Trace(prev, prev[v], len - 1) + [v]
  }

  /** A chain traced from below `i` reads only links below `i`. */
  lemma {:induction false} TraceFrame(keys: seq<Key>, prev: seq<nat>, prev': seq<nat>, v: nat, len: nat, i: nat)
    requires LinksOk(prev) && LinksOk(prev') && |prev'| == |prev|
    requires v < i <= |prev|
    requires forall j :: 0 <= j < i ==> prev'[j] == prev[j]
    requires IsChain(keys, Trace(prev, v, len))
    ensures Trace(prev', v, len) == Trace(prev, v, len)
    decreases len
  {
    if len > 1 {
      var t := Trace(prev, v, len);
      assert t[..len - 1] == Trace(prev, prev[v], len - 1);
      ChainPrefix(keys, t, len - 1);
      assert prev[v] == t[len - 2] < v;
      TraceFrame(keys, prev, prev', prev[v], len - 1, i);
    }
  }

  /* ---------- the invariant of the scan ---------- */

  /** After the elements before `i`: `prev` has one link per element, `m`
      holds positions before `i`, and following the links from `m[k]`
      gives a chain of length k + 1. */
  ghost predicate Safe(keys: seq<Key>, m: seq<nat>, prev: seq<nat>, i: nat) {
    && |prev| == |keys| && LinksOk(prev)
    && (forall k :: 0 <= k < |m| ==> m[k] < i && m[k] < |keys|)
    && (forall k :: 0 <= k < |m| ==> IsChain(keys, Trace(prev, m[k], k + 1)))
  }

  /** The end keys along `m` never decrease. */
  ghost predicate EndsSorted(keys: seq<Key>, m: seq<nat>)
    requires forall k :: 0 <= k < |m| ==> m[k] < |keys|
  {
    forall k, l :: 0 <= k <= l < |m| ==> keys[m[k]].end <= keys[m[l]].end
  }

  /** Every chain ending before `i` is no longer than `m`, and `m` holds,
      for its length, an end key no larger than the chain's. */
  ghost predicate Best(keys: seq<Key>, m: seq<nat>, i: nat)
    requires forall k :: 0 <= k < |m| ==> m[k] < |keys|
  {
    forall c :: IsChain(keys, c) && 0 < |c| && c[|c| - 1] < i ==>
      |c| <= |m| && keys[m[|c| - 1]].end <= keys[c[|c| - 1]].end
  }

  /** `m` after element `i` is placed at position `p`: appended when `p`
      is its length, otherwise replacing the entry there. */
  function Place(m: seq<nat>, p: nat, i: nat): (m': seq<nat>)
    requires p <= |m|
    ensures |m'| == if p == |m| then |m| + 1 else |m|
    ensures m'[p] == i && forall k :: 0 <= k < |m| && k != p ==> m'[k] == m[k]
  {
    if p == |m| then m + [i] else m[p := i]
  }

  /** `prev[i] = m[p - 1]`; the link is left alone at position 0. */
  function Link(prev: seq<nat>, m: seq<nat>, p: nat, i: nat): (prev': seq<nat>)
    requires p <= |m| && i < |prev|
    ensures |prev'| == |prev|
    ensures forall j :: 0 <= j < |prev| && j != i ==> prev'[j] == prev[j]
    ensures p > 0 ==> prev'[i] == m[p - 1]
    ensures p == 0 ==> prev'[i] == prev[i]
  {
    if p > 0 then prev[i := m[p - 1]] else prev
  }

  /** The chain traced from `i` once it is linked after `m[p - 1]`: the
      chain traced from there, extended by `i`. */
  lemma LinkedChain(keys: seq<Key>, m: seq<nat>, prev: seq<nat>, i: nat, p: nat)
    requires Safe(keys, m, prev, i) && i < |keys| && keys[i].pass
    requires 0 < p <= |m| && keys[m[p - 1]].end <= keys[i].start
    ensures LinksOk(Link(prev, m, p, i))
    ensures IsChain(keys, Trace(Link(prev, m, p, i), i, p + 1))
  {
    var prev' := Link(prev, m, p, i);
    var t := Trace(prev, m[p - 1], p);
    TraceFrame(keys, prev, prev', m[p - 1], p, i);
    ChainSnoc(keys, t, i);
    assert Trace(prev', i, p + 1) == t + [i];
  }

  /** The chains traced from the other entries of `m` do not see the new
      link. */
  lemma UnlinkedChain(keys: seq<Key>, m: seq<nat>, prev: seq<nat>, i: nat, p: nat, k: nat)
    requires Safe(keys, m, prev, i) && i < |keys|
    requires p <= |m| && k < |m| && k != p
    ensures LinksOk(Link(prev, m, p, i))
    ensures IsChain(keys, Trace(Link(prev, m, p, i), m[k], k + 1))
  {
    TraceFrame(keys, prev, Link(prev, m, p, i), m[k], k + 1, i);
  }

  /** Placing a passing element after a chain end it may follow keeps every
      traced chain a chain. */
  lemma SafePlace(keys: seq<Key>, m: seq<nat>, prev: seq<nat>, i: nat, p: nat)
    requires Safe(keys, m, prev, i) && i < |keys| && keys[i].pass
    requires p <= |m|
    requires p > 0 ==> keys[m[p - 1]].end <= keys[i].start
    ensures Safe(keys, Place(m, p, i), Link(prev, m, p, i), i + 1)
  {
    var m', prev' := Place(m, p, i), Link(prev, m, p, i);
    assert LinksOk(prev');
    forall k | 0 <= k < |m'| ensures IsChain(keys, Trace(prev', m'[k], k + 1)) {
      if k != p {
        UnlinkedChain(keys, m, prev, i, p, k);
      } else if p > 0 {
        LinkedChain(keys, m, prev, i, p);
      } else {
        assert Trace(prev', i, 1) == [i];
      }
    }
  }

  /** A chain of two or more ending at `i` extends a chain ending before
      `i`, which the best table bounds. */
  lemma ChainEndingAt(keys: seq<Key>, m: seq<nat>, i: nat, c: seq<nat>)
    requires forall k :: 0 <= k < |m| ==> m[k] < |keys|
    requires Best(keys, m, i) && IsChain(keys, c) && |c| > 1 && c[|c| - 1] == i
    ensures |c| - 1 <= |m| && keys[m[|c| - 2]].end <= keys[i].start
  {
    var c' := c[..|c| - 1];
    ChainPrefix(keys, c, |c| - 1);
    assert c'[|c'| - 1] == c[|c| - 2];
  }

  /** Placing `i` between an end key at most its start and one beyond its
      end keeps the end keys sorted. */
  lemma PlaceSorted(keys: seq<Key>, m: seq<nat>, i: nat, p: nat)
    requires Ordered(keys) && i < |keys| && keys[i].pass
    requires forall k :: 0 <= k < |m| ==> m[k] < i
    requires EndsSorted(keys, m)
    requires p <= |m|
    requires p > 0 ==> keys[m[p - 1]].end <= keys[i].start
    requires p < |m| ==> keys[i].end < keys[m[p]].end
    ensures EndsSorted(keys, Place(m, p, i))
  {
  }

  /** Under `Ordered`, placing `i` at `p` keeps `m` the best table: `p`
      follows an end key at most `i`'s start, and precedes one beyond `i`'s
      end. */
  lemma BestPlace(keys: seq<Key>, m: seq<nat>, i: nat, p: nat)
    requires Ordered(keys) && i < |keys| && keys[i].pass
    requires forall k :: 0 <= k < |m| ==> m[k] < i
    requires EndsSorted(keys, m) && Best(keys, m, i)
    requires p <= |m|
    requires p > 0 ==> keys[m[p - 1]].end <= keys[i].start
    requires p < |m| ==> keys[i].end < keys[m[p]].end
    ensures EndsSorted(keys, Place(m, p, i)) && Best(keys, Place(m, p, i), i + 1)
  {
    PlaceSorted(keys, m, i, p);
    var m' := Place(m, p, i);
    forall c | IsChain(keys, c) && 0 < |c| && c[|c| - 1] < i + 1
      ensures |c| <= |m'| && keys[m'[|c| - 1]].end <= keys[c[|c| - 1]].end
    {
      if c[|c| - 1] != i {
        assert |c| <= |m| && keys[m[|c| - 1]].end <= keys[c[|c| - 1]].end;
      } else if |c| > 1 {
        ChainEndingAt(keys, m, i, c);
        assert |c| - 2 < p;
      } else if p > 0 {
        assert keys[m[0]].end <= keys[m[p - 1]].end;
      }
    }
  }

  /** Under `Ordered`, an element whose end key is no better than the entry
      at its place leaves the table best. */
  lemma BestSkip(keys: seq<Key>, m: seq<nat>, i: nat, u: nat)
    requires Ordered(keys) && i < |keys|
    requires forall k :: 0 <= k < |m| ==> m[k] < i
    requires EndsSorted(keys, m) && Best(keys, m, i)
    requires u < |m| && keys[i].start < keys[m[u]].end <= keys[i].end
    requires u > 0 ==> keys[m[u - 1]].end <= keys[i].start
    ensures Best(keys, m, i + 1)
  {
    forall c | IsChain(keys, c) && 0 < |c| && c[|c| - 1] < i + 1
      ensures |c| <= |m| && keys[m[|c| - 1]].end <= keys[c[|c| - 1]].end
    {
      if c[|c| - 1] != i {
        assert |c| <= |m| && keys[m[|c| - 1]].end <= keys[c[|c| - 1]].end;
      } else if |c| > 1 {
        ChainEndingAt(keys, m, i, c);
        assert |c| - 2 < u;
      } else {
        assert keys[m[0]].end <= keys[m[u]].end;
      }
    }
  }

  /** No chain ends at an element that does not pass the filter. */
  lemma BestFiltered(keys: seq<Key>, m: seq<nat>, i: nat)
    requires i < |keys| && !keys[i].pass
    requires forall k :: 0 <= k < |m| ==> m[k] < |keys|
    requires Best(keys, m, i)
    ensures Best(keys, m, i + 1)
  {
    forall c | IsChain(keys, c) && 0 < |c| && c[|c| - 1] < i + 1
      ensures |c| <= |m| && keys[m[|c| - 1]].end <= keys[c[|c| - 1]].end
    {
      assert c[|c| - 1] != i;
    }
  }

  /* ---------- the algorithm ---------- */

  /** The binary search over `m`: the first entry whose end key exceeds
      `s`, given that the last one does. */
  method Search(keys: seq<Key>, m: seq<nat>, s: int) returns (u: nat)
    requires |m| > 0 && forall k :: 0 <= k < |m| ==> m[k] < |keys|
    requires s < keys[m[|m| - 1]].end
    ensures u < |m| && s < keys[m[u]].end
    ensures u > 0 ==> keys[m[u - 1]].end <= s
    ensures EndsSorted(keys, m) ==> forall k :: 0 <= k < u ==> keys[m[k]].end <= s
  {
    u := 0;
    var v := |m| - 1;
    while u < v
      invariant u <= v < |m|
      invariant s < keys[m[v]].end
      invariant u > 0 ==> keys[m[u - 1]].end <= s
      decreases v - u
    {
      var mid := (u + v) / 2;
      if keys[m[mid]].end <= s {
        u := mid + 1;
      } else {
        v := mid;
      }
    }
  }

  /** The loop invariant of the scan after the elements before `i`. */
  ghost predicate Inv(keys: seq<Key>, m: seq<nat>, prev: seq<nat>, i: nat) {
    && i <= |keys|
    && Safe(keys, m, prev, i)
    && (|m| == 0 <==> forall j :: 0 <= j < i ==> !keys[j].pass)
    && (Ordered(keys) ==> EndsSorted(keys, m) && Best(keys, m, i))
  }

  lemma InvPlace(keys: seq<Key>, m: seq<nat>, prev: seq<nat>, i: nat, p: nat)
    requires Inv(keys, m, prev, i) && i < |keys| && keys[i].pass
    requires p <= |m|
    requires p > 0 ==> keys[m[p - 1]].end <= keys[i].start
    requires p < |m| ==> keys[i].end < keys[m[p]].end
    ensures Inv(keys, Place(m, p, i), Link(prev, m, p, i), i + 1)
  {
    SafePlace(keys, m, prev, i, p);
    if Ordered(keys) {
      BestPlace(keys, m, i, p);
    }
  }

  lemma InvFiltered(keys: seq<Key>, m: seq<nat>, prev: seq<nat>, i: nat)
    requires Inv(keys, m, prev, i) && i < |keys| && !keys[i].pass
    ensures Inv(keys, m, prev, i + 1)
  {
    if Ordered(keys) {
      BestFiltered(keys, m, i);
    }
  }

  lemma InvSkip(keys: seq<Key>, m: seq<nat>, prev: seq<nat>, i: nat, u: nat)
    requires Inv(keys, m, prev, i) && i < |keys| && keys[i].pass
    requires u < |m| && keys[i].start < keys[m[u]].end <= keys[i].end
    requires u > 0 ==> keys[m[u - 1]].end <= keys[i].start
    ensures Inv(keys, m, prev, i + 1)
  {
    if Ordered(keys) {
      BestSkip(keys, m, i, u);
    }
  }

  /** One turn of the scan loop, on element `i`. */
  method Step(keys: seq<Key>, m: seq<nat>, prev: seq<nat>, i: nat) returns (m': seq<nat>, prev': seq<nat>)
    requires i < |keys| && Inv(keys, m, prev, i)
    ensures Inv(keys, m', prev', i + 1)
  {
    if !keys[i].pass {
      InvFiltered(keys, m, prev, i);
      return m, prev;
    }
    if |m| == 0 {
      InvPlace(keys, m, prev, i, 0);
      return Place(m, 0, i), Link(prev, m, 0, i);
    }
    var last := m[|m| - 1];
    if keys[last].end <= keys[i].start {
      InvPlace(keys, m, prev, i, |m|);
      return Place(m, |m|, i), Link(prev, m, |m|, i);
    }
    var u := Search(keys, m, keys[i].start);
    if keys[i].end < keys[m[u]].end {
      InvPlace(keys, m, prev, i, u);
      return Place(m, u, i), Link(prev, m, u, i);
    }
    InvSkip(keys, m, prev, i, u);
    return m, prev;
  }

  /** With `m` best after all elements, no chain is longer than `m`. */
  lemma BestBound(keys: seq<Key>, m: seq<nat>, c: seq<nat>)
    requires forall k :: 0 <= k < |m| ==> m[k] < |keys|
    requires Best(keys, m, |keys|) && IsChain(keys, c)
    ensures |c| <= |m|
  {
    if |c| > 0 {
      assert c[|c| - 1] < |keys|;
    }
  }

  /** After the whole scan, under `Ordered`, no chain is longer than `m`. */
  lemma InvOptimal(keys: seq<Key>, m: seq<nat>, prev: seq<nat>)
    requires Inv(keys, m, prev, |keys|)
    ensures Ordered(keys) ==> forall c :: IsChain(keys, c) ==> |c| <= |m|
  {
    if Ordered(keys) {
      forall c | IsChain(keys, c) ensures |c| <= |m| {
        BestBound(keys, m, c);
      }
    }
  }

  /** The scan loop: every element once, in order. Afterwards the back
      links trace a chain of every length up to `|m|`, `m` is empty exactly
      when no element passes, and under `Ordered` no chain is longer than
      `m`. */
  method Scan(keys: seq<Key>) returns (m: seq<nat>, prev: seq<nat>)
    ensures Safe(keys, m, prev, |keys|)
    ensures |m| == 0 <==> forall j :: 0 <= j < |keys| ==> !keys[j].pass
    ensures Ordered(keys) ==> forall c :: IsChain(keys, c) ==> |c| <= |m|
  {
    m := [];
    prev := seq(|keys|, _ => 0);
    for i := 0 to |keys|
      invariant Inv(keys, m, prev, i)
    {
      m, prev := Step(keys, m, prev, i);
    }
    InvOptimal(keys, m, prev);
  }

  /** The backtrace loop: from the last entry of `m`, `|m|` links back,
      each position written in front of the ones after it. */
  method Backtrace(keys: seq<Key>, m: seq<nat>, prev: seq<nat>) returns (idx: seq<nat>)
    requires |m| > 0 && Safe(keys, m, prev, |keys|)
    ensures |idx| == |m| && IsChain(keys, idx)
  {
    idx := [];
    var v: nat := m[|m| - 1];
    var u: nat := |m|;
    while u > 0
      invariant u <= |m| && v < |keys|
      invariant Trace(prev, v, u) + idx == Trace(prev, m[|m| - 1], |m|)
      decreases u
    {
      var t := Trace(prev, prev[v], u - 1);
      assert t + [v] + idx == t + ([v] + idx);
      idx := [v] + idx;
      v := prev[v];
      u := u - 1;
    }
    assert Trace(prev, v, 0) + idx == idx;
  }

  /** `::longestSubsequence` on the keys of `seq`, returning the positions
      of the chain it builds; empty input, or no passing element, gives the
      empty chain. */
  method LongestChain(keys: seq<Key>) returns (idx: seq<nat>)
    ensures IsChain(keys, idx)
    ensures |idx| == 0 <==> forall j :: 0 <= j < |keys| ==> !keys[j].pass
    ensures Ordered(keys) ==> forall c :: IsChain(keys, c) ==> |c| <= |idx|
  {
    if |keys| == 0 {
      InvOptimal(keys, [], []);
      return [];
    }
    var m, prev := Scan(keys);
    if |m| == 0 {
      return [];
    }
    idx := Backtrace(keys, m, prev);
    assert |idx| == |m| > 0;
  }

  /* ---------- the source as written ---------- */

  /** The state the source reaches when no element passed the filter: the
      backtrace reads `m.back()` of an empty vector, which is undefined. */
  datatype Fault = BackOfEmptyVector

  /** `::longestSubsequence` as written: the empty check covers only empty
      input, so a non-empty input without a passing element faults. */
  method LongestChainAsWritten(keys: seq<Key>) returns (r: Result<seq<nat>, Fault>)
    ensures r.Err? <==> |keys| > 0 && forall j :: 0 <= j < |keys| ==> !keys[j].pass
    ensures r.Ok? ==> IsChain(keys, r.value)
    ensures r.Ok? && Ordered(keys) ==> forall c :: IsChain(keys, c) ==> |c| <= |r.value|
  {
    if |keys| == 0 {
      InvOptimal(keys, [], []);
      return Ok([]);
    }
    var m, prev := Scan(keys);
    if |m| == 0 {
      return Err(BackOfEmptyVector);
    }
    var idx := Backtrace(keys, m, prev);
    return Ok(idx);
  }

  /* ---------- the two instantiations ---------- */

  /** Forward-strand entries by increasing query coordinates, or
      reverse-strand entries by decreasing ones. */
  datatype Direction = Inc | Dec

  /** The conversion of a u32 to `int`: values from 2^31 on wrap to
      negative ones. */
  function Int32(x: u32): (v: int)
    ensures -0x8000_0000 <= v < 0x8000_0000
    ensures x < 0x8000_0000 ==> v == x
    ensures x >= 0x8000_0000 ==> v < 0
  {
    if x < 0x8000_0000 then x else x - 0x1_0000_0000
  }

  /** `-1 * v` on `int`. For -2^31 the product overflows, which C++ leaves
      undefined; it is written here as the two's-complement result, -2^31. */
  function Neg32(v: int): (w: int)
    requires -0x8000_0000 <= v < 0x8000_0000
    ensures -0x8000_0000 <= w < 0x8000_0000
    ensures v != -0x8000_0000 ==> w == -v
  {
    if v == -0x8000_0000 then v else -v
  }

  /** The filter and the two key lambdas `Ipp::longestSubsequence` passes
      for each direction. */
  function KeyOf(d: Direction, e: PwalnEntry): Key {
    match d
    case Inc => Key(!e.IsQryReversed(), Int32(e.qryStart), Int32(e.qryEnd))
    case Dec => Key(e.IsQryReversed(), Neg32(Int32(e.qryStart)), Neg32(Int32(e.qryEnd)))
  }

  function KeysOf(d: Direction, s: seq<PwalnEntry>): (keys: seq<Key>)
    ensures |keys| == |s| && forall i :: 0 <= i < |s| ==> keys[i] == KeyOf(d, s[i])
  {
    seq(|s|, i requires 0 <= i < |s| => KeyOf(d, s[i]))
  }

  /** The entries at the given positions. */
  function At(s: seq<PwalnEntry>, idx: seq<nat>): (r: seq<PwalnEntry>)
    requires forall k :: 0 <= k < |idx| ==> idx[k] < |s|
    ensures |r| == |idx| && forall k :: 0 <= k < |idx| ==> r[k] == s[idx[k]]
  {
    seq(|idx|, k requires 0 <= k < |idx| => s[idx[k]])
  }

  /** Query coordinates below 2^31, where the `int` conversions are exact. */
  ghost predicate SmallCoords(s: seq<PwalnEntry>) {
    forall j :: 0 <= j < |s| ==> s[j].qryStart < 0x8000_0000 && s[j].qryEnd < 0x8000_0000
  }

  /** Entries in query coordinates: forward entries, each query end at most
      the next one's query start; or reverse entries, each query start at
      most the previous one's query end. */
  ghost predicate Collinear(d: Direction, r: seq<PwalnEntry>) {
    match d
    case Inc =>
      && (forall k :: 0 <= k < |r| ==> !r[k].IsQryReversed())
      && (forall k :: 0 < k < |r| ==> r[k - 1].qryEnd <= r[k].qryStart)
    case Dec =>
      && (forall k :: 0 <= k < |r| ==> r[k].IsQryReversed())
      && (forall k :: 0 < k < |r| ==> r[k].qryStart <= r[k - 1].qryEnd)
  }

  /** With small coordinates every passing element's keys are in order. */
  lemma SmallOrdered(d: Direction, s: seq<PwalnEntry>)
    requires SmallCoords(s)
    ensures Ordered(KeysOf(d, s))
  {
  }

  /** With small coordinates a chain of keys is a collinear run of entries,
      and a collinear run is a chain. */
  lemma ChainCollinear(d: Direction, s: seq<PwalnEntry>, idx: seq<nat>)
    requires SmallCoords(s)
    requires forall k :: 0 <= k < |idx| ==> idx[k] < |s|
    requires forall k :: 0 < k < |idx| ==> idx[k - 1] < idx[k]
    ensures IsChain(KeysOf(d, s), idx) <==> Collinear(d, At(s, idx))
  {
  }

  /** `::longestSubsequence` with the lambdas of direction `d`. */
  method SubsequenceBy(s: seq<PwalnEntry>, d: Direction) returns (r: seq<PwalnEntry>, ghost idx: seq<nat>)
    ensures IsChain(KeysOf(d, s), idx) && r == At(s, idx)
    ensures |r| == 0 <==> forall j :: 0 <= j < |s| ==> !KeyOf(d, s[j]).pass
    ensures SmallCoords(s) ==> Collinear(d, r)
    ensures SmallCoords(s) ==> forall c :: IsChain(KeysOf(d, s), c) ==> |c| <= |r|
  {
    var keys := KeysOf(d, s);
    var positions := LongestChain(keys);
    idx := positions;
    r := At(s, positions);
    if SmallCoords(s) {
      SmallOrdered(d, s);
      ChainCollinear(d, s, idx);
    }
  }

  /** The abort of a failing `assert` in the sanity loops; the source
      keeps assertions on in every build. */
  datatype Abort = SanityCheckFailed

  const MaxU32: u32 := 0xFFFF_FFFF

  /** The sanity loop over the forward chain, from `loc` on: each entry
      starts no earlier than `loc`, ends after it starts, and moves `loc` to
      its end. `false` is where an `assert` aborts. */
  function IncChecks(r: seq<PwalnEntry>, loc: u32): bool {
    |r| == 0 || (loc <= r[0].qryStart && r[0].qryStart < r[0].qryEnd && IncChecks(r[1..], r[0].qryEnd))
  }

  /** The sanity loop over the reverse chain, from `loc` on: each entry
      ends no later than `loc`, starts after it ends, and moves `loc` to its
      start. */
  function DecChecks(r: seq<PwalnEntry>, loc: u32): bool {
    |r| == 0 || (loc >= r[0].qryEnd && r[0].qryStart > r[0].qryEnd && DecChecks(r[1..], r[0].qryStart))
  }

  /** The direction whose chain is returned: forward unless the reverse
      chain is strictly longer. */
  function Pref(inc: seq<nat>, dec: seq<nat>): Direction {
    if |inc| >= |dec| then Inc else Dec
  }

  /** The two strand passes of `s`: `inc` a forward chain, empty exactly
      when no entry is forward, `dec` a reverse chain, empty exactly when no
      entry is reversed; with small coordinates each is a longest one. */
  ghost predicate Strands(s: seq<PwalnEntry>, inc: seq<nat>, dec: seq<nat>) {
    && InRange(s, inc) && InRange(s, dec)
    && IsChain(KeysOf(Inc, s), inc) && IsChain(KeysOf(Dec, s), dec)
    && (|inc| == 0 <==> forall j :: 0 <= j < |s| ==> s[j].IsQryReversed())
    && (|dec| == 0 <==> forall j :: 0 <= j < |s| ==> !s[j].IsQryReversed())
    && (SmallCoords(s) ==> forall c :: IsChain(KeysOf(Inc, s), c) ==> |c| <= |inc|)
    && (SmallCoords(s) ==> forall c :: IsChain(KeysOf(Dec, s), c) ==> |c| <= |dec|)
  }

  ghost predicate InRange(s: seq<PwalnEntry>, idx: seq<nat>) {
    forall k :: 0 <= k < |idx| ==> idx[k] < |s|
  }

  /** The entries of the preferred chain. */
  function Chosen(s: seq<PwalnEntry>, inc: seq<nat>, dec: seq<nat>): seq<PwalnEntry>
    requires InRange(s, inc) && InRange(s, dec)
  {
    if Pref(inc, dec) == Inc then At(s, inc) else At(s, dec)
  }

  /** Both sanity loops pass: the forward one from 0, the reverse one from
      the largest u32. */
  predicate Sane(s: seq<PwalnEntry>, inc: seq<nat>, dec: seq<nat>)
    requires InRange(s, inc) && InRange(s, dec)
  {
    IncChecks(At(s, inc), 0) && DecChecks(At(s, dec), MaxU32)
  }

  /** On a collinear forward run the forward checks fail exactly at an
      entry of length zero, which the forward filter admits. */
  lemma {:induction false} IncChecksCollinear(r: seq<PwalnEntry>, loc: u32)
    requires Collinear(Inc, r)
    requires |r| > 0 ==> loc <= r[0].qryStart
    ensures IncChecks(r, loc) <==> forall k :: 0 <= k < |r| ==> r[k].qryStart != r[k].qryEnd
  {
    if |r| > 0 {
      var t := r[1..];
      assert forall k :: 0 <= k < |t| ==> t[k] == r[k + 1];
      assert Collinear(Inc, t);
      IncChecksCollinear(t, r[0].qryEnd);
    }
  }

  /** On a collinear reverse run the reverse checks pass from any `loc` at
      or above the first query end. */
  lemma {:induction false} DecChecksCollinear(r: seq<PwalnEntry>, loc: u32)
    requires Collinear(Dec, r)
    requires |r| > 0 ==> r[0].qryEnd <= loc
    ensures DecChecks(r, loc)
  {
    if |r| > 0 {
      var t := r[1..];
      assert forall k :: 0 <= k < |t| ==> t[k] == r[k + 1];
      assert Collinear(Dec, t);
      DecChecksCollinear(t, r[0].qryStart);
    }
  }

  /** With small coordinates both strand chains are collinear, so the
      sanity checks fail exactly at a zero-length entry of the forward
      chain. */
  lemma SaneSmall(s: seq<PwalnEntry>, inc: seq<nat>, dec: seq<nat>)
    requires Strands(s, inc, dec) && SmallCoords(s)
    ensures Collinear(Inc, At(s, inc)) && Collinear(Dec, At(s, dec))
    ensures !Sane(s, inc, dec) <==> exists k :: 0 <= k < |inc| && s[inc[k]].qryStart == s[inc[k]].qryEnd
  {
    ChainCollinear(Inc, s, inc);
    ChainCollinear(Dec, s, dec);
    IncChecksCollinear(At(s, inc), 0);
    DecChecksCollinear(At(s, dec), MaxU32);
  }

  /** `Ipp::longestSubsequence`: both strand passes, then both sanity
      loops, which abort on a failed check; otherwise the forward chain when
      it is at least as long as the reverse one, else the reverse chain. */
  method LongestSubsequence(s: seq<PwalnEntry>) returns (r: Result<seq<PwalnEntry>, Abort>, ghost inc: seq<nat>, ghost dec: seq<nat>)
    ensures Strands(s, inc, dec)
    ensures r.Err? <==> !Sane(s, inc, dec)
    ensures r.Ok? ==> r.value == Chosen(s, inc, dec)
    ensures SmallCoords(s) ==> (r.Err? <==> exists k :: 0 <= k < |inc| && s[inc[k]].qryStart == s[inc[k]].qryEnd)
    ensures r.Ok? && SmallCoords(s) ==> Collinear(Pref(inc, dec), r.value)
    ensures r.Ok? && SmallCoords(s) ==> forall c :: IsChain(KeysOf(Inc, s), c) ==> |c| <= |r.value|
    ensures r.Ok? && SmallCoords(s) ==> forall c :: IsChain(KeysOf(Dec, s), c) ==> |c| <= |r.value|
    ensures r.Ok? && SmallCoords(s) && Pref(inc, dec) == Dec ==> forall c :: IsChain(KeysOf(Inc, s), c) ==> |c| < |r.value|
  {
    var fwd, incIdx := SubsequenceBy(s, Inc);
    var rev, decIdx := SubsequenceBy(s, Dec);
    inc, dec := incIdx, decIdx;
    assert Strands(s, inc, dec);
    if SmallCoords(s) {
      SaneSmall(s, inc, dec);
    }
    if !(IncChecks(fwd, 0) && DecChecks(rev, MaxU32)) {
      r := Err(SanityCheckFailed);
    } else if |fwd| >= |rev| {
      r := Ok(fwd);
    } else {
      r := Ok(rev);
    }
  }

  /** On a collinear reverse run the reverse-pass checks hold: each entry
      is reversed, and its query end is at most the previous entry's query
      start. */
  lemma DecSanity(r: seq<PwalnEntry>)
    requires Collinear(Dec, r)
    ensures forall k :: 0 <= k < |r| ==> r[k].qryStart > r[k].qryEnd
    ensures forall k :: 0 < k < |r| ==> r[k].qryEnd <= r[k - 1].qryStart
  {
  }

  /** A single forward entry of length zero passes the forward filter, and
      every non-empty forward chain of it fails the forward checks: the
      source aborts on it. */
  lemma ZeroLengthAborts()
    ensures var s := [PwalnEntry(0, 1, 5, 5, 0, 0)];
            && SmallCoords(s) && KeysOf(Inc, s)[0].pass
            && forall c :: IsChain(KeysOf(Inc, s), c) && |c| > 0 ==> !IncChecks(At(s, c), 0)
  {
    var s := [PwalnEntry(0, 1, 5, 5, 0, 0)];
    forall c | IsChain(KeysOf(Inc, s), c) && |c| > 0 ensures !IncChecks(At(s, c), 0) {
      assert c[0] == 0;
      assert At(s, c)[0] == s[0];
    }
  }

  /** A single reverse-strand entry is a non-empty input in which no element
      passes the forward filter: the source reads `m.back()` of an empty
      vector for it. */
  lemma ReverseOnlyFaults()
    ensures var s := [PwalnEntry(0, 1, 5, 2, 0, 0)];
            |KeysOf(Inc, s)| > 0 && forall j :: 0 <= j < |s| ==> !KeysOf(Inc, s)[j].pass
  {
  }
}
