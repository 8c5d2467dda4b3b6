/** The converter and the native reader together: what the script writes,
    the reader loads back, every table as a map from reference chromosome to
    that chromosome's rows in normalised order. */
module Roundtrip {
  import opened Wrappers
  import opened Wire
  import opened Entries
  import opened Rows
  import opened PwalnFile
  import opened Converter

  /** The row a record was written from: the record's columns, in the
      table's column order. */
  function FromEntry(e: PwalnEntry): (r: Row)
    ensures RowFits(r)
  {
    Row(e.refChrom, e.refStart, e.refEnd, e.qryChrom, e.qryStart, e.qryEnd)
  }

  function FromEntries(es: seq<PwalnEntry>): (rows: seq<Row>)
    ensures |rows| == |es|
    ensures forall i :: 0 <= i < |es| ==> rows[i] == FromEntry(es[i])
  {
    if |es| == 0 then [] else [FromEntry(es[0])] + FromEntries(es[1..])
  }

  /** A fitting row survives the trip through its record. */
  lemma {:induction false} FromToEntries(rows: seq<Row>)
    requires AllFit(rows)
    ensures FromEntries(ToEntries(rows)) == rows
  {
    if |rows| > 0 {
      FromToEntries(rows[1..]);
      assert FromEntries(ToEntries(rows))[1..] == FromEntries(ToEntries(rows[1..]));
    }
  }

  /** A record survives the trip through its row. */
  lemma {:induction false} ToFromEntries(es: seq<PwalnEntry>)
    ensures AllFit(FromEntries(es)) && ToEntries(FromEntries(es)) == es
  {
    if |es| > 0 {
      ToFromEntries(es[1..]);
      assert ToEntries(FromEntries(es))[1..] == ToEntries(FromEntries(es[1..]));
    }
  }

  /** A loaded run map holds a table: its keys are exactly the reference
      chromosomes of the table, and under each key are exactly the rows of
      that chromosome, in table order. */
  ghost predicate LoadsAs(m: RunMap, rows: seq<Row>) {
    && (forall c :: c in Chroms(rows) ==> 0 <= c < 0x1_0000 && c in m)
    && (forall c :: c in m ==> c in Chroms(rows))
    && (forall c :: c in m ==> FromEntries(m[c]) == Filter(rows, c))
  }

  /** The runs of a sorted fitting table: non-empty, the records of its
      blocks, each filed under its block's chromosome, in increasing order. */
  lemma SortedRunKeys(rows: seq<Row>)
    requires Sorted(rows) && TableFits(rows)
    ensures |RunsOf(rows)| == |Group(rows)|
    ensures NonEmptyRuns(RunsOf(rows))
    ensures forall k :: 0 <= k < |Group(rows)| ==>
              AllFit(Group(rows)[k]) && RunsOf(rows)[k] == ToEntries(Group(rows)[k])
    ensures forall k :: 0 <= k < |Group(rows)| ==> RunKey(RunsOf(rows)[k]) == ChromOf(Group(rows)[k])
    ensures forall k, l :: 0 <= k < l < |Group(rows)| ==> RunKey(RunsOf(rows)[k]) < RunKey(RunsOf(rows)[l])
  {
    var runs := Group(rows);
    var es := RunsOf(rows);
    SortedBlocks(rows);
    GroupSortedIncreasing(rows);
    forall k | 0 <= k < |es| ensures |es[k]| > 0 && RunKey(es[k]) == ChromOf(runs[k]) {
      assert |runs[k]| > 0;
      assert es[k][0] == ToEntry(runs[k][0]);
    }
  }

  /** Every chromosome of a sorted fitting table becomes a key. */
  lemma TableLoadsKeys(rows: seq<Row>, c: int)
    requires Sorted(rows) && TableFits(rows)
    requires c in Chroms(rows)
    ensures NonEmptyRuns(RunsOf(rows))
    ensures 0 <= c < 0x1_0000 && c in InsertRuns(map[], RunsOf(rows))
  {
    var runs := Group(rows);
    SortedRunKeys(rows);
    GroupSortedIncreasing(rows);
    FilterRuns(runs, c);
    var k :| 0 <= k < |runs| && ChromOf(runs[k]) == c;
    assert RunKey(RunsOf(rows)[k]) == c;
  }

  /** Under each key of a sorted fitting table are exactly the rows of that
      chromosome. */
  lemma TableLoadsValue(rows: seq<Row>, c: u16)
    requires Sorted(rows) && TableFits(rows)
    requires NonEmptyRuns(RunsOf(rows))
    requires c in InsertRuns(map[], RunsOf(rows))
    ensures FromEntries(InsertRuns(map[], RunsOf(rows))[c]) == Filter(rows, c)
    ensures c in Chroms(rows)
  {
    var runs := Group(rows);
    var es := RunsOf(rows);
    SortedRunKeys(rows);
    var k := InsertRunsOrigin(es, c);
    assert InsertRuns(map[], es)[c] == es[k] by {
      assert forall j :: 0 <= j < k ==> RunKey(es[j]) != RunKey(es[k]);
    }
    assert Filter(rows, c) == runs[k] by {
      GroupSortedIncreasing(rows);
      FilterRuns(runs, c);
    }
    FromToEntries(runs[k]);
  }

  /** A sorted fitting table, written then loaded, is held by its run map. */
  lemma TableLoads(rows: seq<Row>)
    requires Sorted(rows) && TableFits(rows)
    ensures NonEmptyRuns(RunsOf(rows))
    ensures LoadsAs(InsertRuns(map[], RunsOf(rows)), rows)
  {
    SortedRunKeys(rows);
    var m := InsertRuns(map[], RunsOf(rows));
    forall c | c in Chroms(rows) ensures 0 <= c < 0x1_0000 && c in m {
      TableLoadsKeys(rows, c);
    }
    forall c | c in m ensures c in Chroms(rows) && FromEntries(m[c]) == Filter(rows, c) {
      TableLoadsValue(rows, c);
    }
  }

  /** Each block of a fitting table has fewer than 2^32 rows: it holds
      rows of one chromosome, and the table has fewer than that of each. */
  lemma BlockFits(rows: seq<Row>, k: nat)
    requires Sorted(rows) && TableFits(rows)
    requires k < |Group(rows)|
    ensures |Group(rows)[k]| < 0x1_0000_0000
  {
    var runs := Group(rows);
    SortedBlocks(rows);
    GroupMembers(rows);
    assert |runs[k]| > 0 && runs[k][0] in rows;
    var i :| 0 <= i < |rows| && rows[i] == runs[k][0];
    assert |Filter(rows, rows[i].refChrom)| < 0x1_0000_0000;
  }

  /** A sorted fitting table with a name free of zero bytes is written as a
      block the reader can recover. */
  lemma TableSp2Ok(t: Table)
    requires Sorted(t.rows) && TableFits(t.rows) && 0 !in t.sp2
    ensures Sp2Ok(Sp2Block(t.sp2, RunsOf(t.rows)))
  {
    var rows := t.rows;
    SortedRowsAsRuns(rows);
    SortedRunKeys(rows);
    forall k | 0 <= k < |Group(rows)| ensures RunOk(RunsOf(rows)[k]) {
      BlockFits(rows, k);
    }
  }

  /** No name of the input holds a zero byte. */
  ghost predicate NamesOk(p: Pickle) {
    && NoZero(p.chroms)
    && (forall i :: 0 <= i < |p.pwalns| ==> 0 !in p.pwalns[i].sp1)
    && (forall i, j :: 0 <= i < |p.pwalns| && 0 <= j < |p.pwalns[i].tables| ==> 0 !in p.pwalns[i].tables[j].sp2)
  }

  /** The image of a fitting, sorted input whose names hold no zero byte is
      one the reader can recover. */
  lemma ImageWellFormed(p: Pickle)
    requires FileFits(p) && AllSorted(p) && NamesOk(p)
    ensures WellFormed(ImageOf(p))
  {
    var img := ImageOf(p);
    forall i | 0 <= i < |img.sp1s| ensures Sp1Ok(img.sp1s[i]) {
      var s := p.pwalns[i];
      assert img.sp1s[i] == Sp1Block(s.sp1, Sp2sOf(s.tables));
      forall j | 0 <= j < |s.tables| ensures Sp2Ok(Sp2sOf(s.tables)[j]) {
        TableSp2Ok(s.tables[j]);
      }
    }
  }

  /** Primary species names are distinct, and so are the secondary names
      within each primary species, as dictionary keys are. */
  ghost predicate Distinct(p: Pickle) {
    && (forall i, k :: 0 <= i < k < |p.pwalns| ==> p.pwalns[i].sp1 != p.pwalns[k].sp1)
    && (forall i, j, l :: 0 <= i < |p.pwalns| && 0 <= j < l < |p.pwalns[i].tables|
          ==> p.pwalns[i].tables[j].sp2 != p.pwalns[i].tables[l].sp2)
  }

  /** `pwalns_[sp1][sp2]` exists and holds `rows`. */
  ghost predicate Holds(pw: PwalnMap, sp1: Name, sp2: Name, rows: seq<Row>) {
    sp1 in pw && sp2 in pw[sp1] && LoadsAs(pw[sp1][sp2], rows)
  }

  /** In the loaded image of a fitting, sorted input with distinct names,
      every table is found under its two names. */
  lemma LoadedTable(p: Pickle, i: nat, j: nat)
    requires FileFits(p) && AllSorted(p) && NamesOk(p) && Distinct(p)
    requires i < |p.pwalns| && j < |p.pwalns[i].tables|
    ensures WellFormed(ImageOf(p))
    ensures Holds(InsertSp1s(map[], ImageOf(p).sp1s), p.pwalns[i].sp1, p.pwalns[i].tables[j].sp2,
                  p.pwalns[i].tables[j].rows)
  {
    ImageWellFormed(p);
    var img := ImageOf(p);
    var s := p.pwalns[i];
    var t := s.tables[j];
    var b := img.sp1s[i];
    assert b == Sp1Block(s.sp1, Sp2sOf(s.tables));
    assert b.sp2s[j] == Sp2Block(t.sp2, RunsOf(t.rows));
    LoadedRuns(img, i, j);
    TableLoads(t.rows);
  }

  /** The input's names and their order survive normalisation. */
  lemma NormalizeKeepsNames(p: Pickle)
    requires NamesOk(p) && Distinct(p)
    ensures NamesOk(NormalizeAll(p)) && Distinct(NormalizeAll(p))
  {
  }

  /** The image lists the input's primary names, in order. */
  lemma ImageSp1Names(p: Pickle)
    requires FileFits(p)
    ensures |ImageOf(p).sp1s| == |p.pwalns|
    ensures forall k :: 0 <= k < |p.pwalns| ==> ImageOf(p).sp1s[k].sp1 == p.pwalns[k].sp1
    ensures (set k | 0 <= k < |ImageOf(p).sp1s| :: ImageOf(p).sp1s[k].sp1)
            == set k | 0 <= k < |p.pwalns| :: p.pwalns[k].sp1
  {
    var img := ImageOf(p);
    assert forall k :: 0 <= k < |p.pwalns| ==> img.sp1s[k] == Sp1Of(p.pwalns[k]);
  }

  /** Under the `i`-th primary name the image lists that species'
      secondary names. */
  lemma ImageSp2Names(p: Pickle, i: nat)
    requires FileFits(p) && i < |p.pwalns|
    ensures i < |ImageOf(p).sp1s|
    ensures (set j | 0 <= j < |ImageOf(p).sp1s[i].sp2s| :: ImageOf(p).sp1s[i].sp2s[j].sp2)
            == set j | 0 <= j < |p.pwalns[i].tables| :: p.pwalns[i].tables[j].sp2
  {
    var s := p.pwalns[i];
    assert ImageOf(p).sp1s[i] == Sp1Block(s.sp1, Sp2sOf(s.tables));
  }

  /** The species keys of the loaded image of a fitting input: the primary
      names, and under each distinct one exactly its secondary names. */
  lemma LoadedNames(p: Pickle, i: nat)
    requires FileFits(p) && AllSorted(p) && NamesOk(p) && Distinct(p)
    requires i < |p.pwalns|
    ensures WellFormed(ImageOf(p))
    ensures InsertSp1s(map[], ImageOf(p).sp1s).Keys == set k | 0 <= k < |p.pwalns| :: p.pwalns[k].sp1
    ensures p.pwalns[i].sp1 in InsertSp1s(map[], ImageOf(p).sp1s)
    ensures InsertSp1s(map[], ImageOf(p).sp1s)[p.pwalns[i].sp1].Keys
            == set j | 0 <= j < |p.pwalns[i].tables| :: p.pwalns[i].tables[j].sp2
  {
    ImageWellFormed(p);
    ImageSp1Names(p);
    ImageSp2Names(p, i);
    LoadedSp1Keys(ImageOf(p));
    LoadedSp2Keys(ImageOf(p), i);
  }

  /** Normalising the tables of a species keeps their secondary names. */
  lemma TablesKeepNames(ts: seq<Table>)
    ensures (set j | 0 <= j < |NormalizeTables(ts)| :: NormalizeTables(ts)[j].sp2)
            == set j | 0 <= j < |ts| :: ts[j].sp2
  {
    var r := NormalizeTables(ts);
    assert forall j :: 0 <= j < |ts| ==> r[j].sp2 == ts[j].sp2;
  }

  /** Normalising the species keeps their primary names. */
  lemma SpeciesKeepNames(ss: seq<Species>)
    ensures (set k | 0 <= k < |NormalizeSpecies(ss)| :: NormalizeSpecies(ss)[k].sp1)
            == set k | 0 <= k < |ss| :: ss[k].sp1
  {
    var r := NormalizeSpecies(ss);
    assert forall k :: 0 <= k < |ss| ==> r[k].sp1 == ss[k].sp1;
  }

  /** Normalisation keeps the primary names and, under each, the
      secondary names. */
  lemma NormalizedNames(p: Pickle, i: nat)
    requires i < |p.pwalns|
    ensures (set k | 0 <= k < |NormalizeAll(p).pwalns| :: NormalizeAll(p).pwalns[k].sp1)
            == set k | 0 <= k < |p.pwalns| :: p.pwalns[k].sp1
    ensures NormalizeAll(p).pwalns[i].sp1 == p.pwalns[i].sp1
    ensures (set j | 0 <= j < |NormalizeAll(p).pwalns[i].tables| :: NormalizeAll(p).pwalns[i].tables[j].sp2)
            == set j | 0 <= j < |p.pwalns[i].tables| :: p.pwalns[i].tables[j].sp2
  {
    SpeciesKeepNames(p.pwalns);
    var sp := p.pwalns[i];
    assert NormalizeAll(p).pwalns[i] == Species(sp.sp1, NormalizeTables(sp.tables));
    TablesKeepNames(sp.tables);
  }

  /** The loaded species keys of a converted input: exactly its primary
      names, and under each exactly its secondary names. */
  lemma ConvertedNames(p: Pickle, bytes: seq<byte>, i: nat)
    requires Convert(p) == Ok(bytes)
    requires NamesOk(p) && Distinct(p)
    requires i < |p.pwalns|
    ensures LoadPwalns(bytes).Ok?
    ensures LoadPwalns(bytes).value.pwalns.Keys == set k | 0 <= k < |p.pwalns| :: p.pwalns[k].sp1
    ensures p.pwalns[i].sp1 in LoadPwalns(bytes).value.pwalns
    ensures LoadPwalns(bytes).value.pwalns[p.pwalns[i].sp1].Keys
            == set j | 0 <= j < |p.pwalns[i].tables| :: p.pwalns[i].tables[j].sp2
  {
    var n := NormalizeAll(p);
    ConvertSpec(p);
    NormalizeAllSorted(p);
    NormalizeKeepsNames(p);
    ImageWellFormed(n);
    LoadSerialized(ImageOf(n));
    LoadedNames(n, i);
    NormalizedNames(p, i);
  }

  /** Converting an input without species loads an empty map. */
  lemma ConvertedNoSpecies(p: Pickle, bytes: seq<byte>)
    requires Convert(p) == Ok(bytes)
    requires NamesOk(p) && Distinct(p) && |p.pwalns| == 0
    ensures LoadPwalns(bytes).Ok? && LoadPwalns(bytes).value.pwalns.Keys == {}
  {
    var n := NormalizeAll(p);
    ConvertSpec(p);
    NormalizeAllSorted(p);
    NormalizeKeepsNames(p);
    ImageWellFormed(n);
    LoadSerialized(ImageOf(n));
    LoadedSp1Keys(ImageOf(n));
  }

  /** What the script writes, the reader loads: the chromosome list as
      given, exactly the input's species pairs, and under each pair that
      table's rows after normalisation, grouped by reference chromosome. */
  lemma ConvertThenLoad(p: Pickle, bytes: seq<byte>)
    requires Convert(p) == Ok(bytes)
    requires NamesOk(p) && Distinct(p)
    ensures LoadPwalns(bytes).Ok?
    ensures LoadPwalns(bytes).value.chroms == p.chroms
    ensures LoadPwalns(bytes).value.pwalns.Keys == set i | 0 <= i < |p.pwalns| :: p.pwalns[i].sp1
    ensures forall i :: 0 <= i < |p.pwalns| ==>
              && p.pwalns[i].sp1 in LoadPwalns(bytes).value.pwalns
              && LoadPwalns(bytes).value.pwalns[p.pwalns[i].sp1].Keys
                 == set j | 0 <= j < |p.pwalns[i].tables| :: p.pwalns[i].tables[j].sp2
    ensures forall i, j :: 0 <= i < |p.pwalns| && 0 <= j < |p.pwalns[i].tables| ==>
              Holds(LoadPwalns(bytes).value.pwalns, p.pwalns[i].sp1, p.pwalns[i].tables[j].sp2,
                    Normalize(p.pwalns[i].tables[j].rows))
  {
    var n := NormalizeAll(p);
    ConvertSpec(p);
    NormalizeAllSorted(p);
    NormalizeKeepsNames(p);
    ImageWellFormed(n);
    LoadSerialized(ImageOf(n));
    if |p.pwalns| == 0 {
      ConvertedNoSpecies(p, bytes);
    }
    forall i | 0 <= i < |p.pwalns|
      ensures && LoadPwalns(bytes).value.pwalns.Keys == (set k | 0 <= k < |p.pwalns| :: p.pwalns[k].sp1)
              && p.pwalns[i].sp1 in LoadPwalns(bytes).value.pwalns
              && LoadPwalns(bytes).value.pwalns[p.pwalns[i].sp1].Keys
                 == set j | 0 <= j < |p.pwalns[i].tables| :: p.pwalns[i].tables[j].sp2
    {
      ConvertedNames(p, bytes, i);
    }
    forall i, j | 0 <= i < |p.pwalns| && 0 <= j < |p.pwalns[i].tables|
      ensures Holds(LoadPwalns(bytes).value.pwalns, p.pwalns[i].sp1, p.pwalns[i].tables[j].sp2,
                    Normalize(p.pwalns[i].tables[j].rows))
    {
      LoadedTable(n, i, j);
    }
  }
}
