/** The Python converter: it normalises every table, then writes the binary
    file field by field, aborting at the first value that does not fit its
    field. The bytes it writes are the grammar of the reader's file. */
module Converter {
  import opened Wrappers
  import opened Wire
  import opened Entries
  import opened Rows
  import opened PwalnFile
  import opened Seqs

  /** `pwalns[sp1][sp2]`: one table of rows. */
  datatype Table = Table(sp2: Name, rows: seq<Row>)

  /** `pwalns[sp1]`: the tables of one primary species, in dictionary order. */
  datatype Species = Species(sp1: Name, tables: seq<Table>)

  /** The pickled input: the chromosome list and the nested dictionary. */
  datatype Pickle = Pickle(chroms: seq<Name>, pwalns: seq<Species>)

  /* ---------- normalisation (pickle_to_bin.py:53-62) ---------- */

  function NormalizeTables(ts: seq<Table>): (r: seq<Table>)
    ensures |r| == |ts|
    ensures forall j :: 0 <= j < |ts| ==> r[j] == Table(ts[j].sp2, Normalize(ts[j].rows))
  {
    if |ts| == 0 then []
    else [Table(ts[0].sp2, Normalize(ts[0].rows))] + NormalizeTables(ts[1..])
  }

  function NormalizeSpecies(ss: seq<Species>): (r: seq<Species>)
    ensures |r| == |ss|
    ensures forall i :: 0 <= i < |ss| ==> r[i] == Species(ss[i].sp1, NormalizeTables(ss[i].tables))
  {
    if |ss| == 0 then []
    else [Species(ss[0].sp1, NormalizeTables(ss[0].tables))] + NormalizeSpecies(ss[1..])
  }

  /** Every table sorted and without repeated rows; names and order kept. */
  function NormalizeAll(p: Pickle): Pickle
  {
    Pickle(p.chroms, NormalizeSpecies(p.pwalns))
  }

  /* ---------- what fits the file ---------- */

  /** Every column of the row fits its field: u32 coordinates, u16 ids. */
  predicate RowFits(r: Row) {
    && 0 <= r.refStart < 0x1_0000_0000 && 0 <= r.refEnd < 0x1_0000_0000
    && 0 <= r.qryStart < 0x1_0000_0000 && 0 <= r.qryEnd < 0x1_0000_0000
    && 0 <= r.refChrom < 0x1_0000 && 0 <= r.qryChrom < 0x1_0000
  }

  ghost predicate AllFit(rows: seq<Row>) {
    forall i :: 0 <= i < |rows| ==> RowFits(rows[i])
  }

  /** Everything the writer checks for one table: each row's columns, each
      chromosome's row count, the number of chromosomes. */
  ghost predicate TableFits(rows: seq<Row>) {
    && AllFit(rows)
    && (forall i :: 0 <= i < |rows| ==> |Filter(rows, rows[i].refChrom)| < 0x1_0000_0000)
    && |Chroms(rows)| < 0x1_0000_0000
  }

  ghost predicate SpeciesFits(s: Species) {
    |s.tables| < 0x100 && forall j :: 0 <= j < |s.tables| ==> TableFits(s.tables[j].rows)
  }

  /** Everything the writer checks: counts and values within their fields. */
  ghost predicate FileFits(p: Pickle) {
    && |p.chroms| < 0x1_0000
    && |p.pwalns| < 0x100
    && forall i :: 0 <= i < |p.pwalns| ==> SpeciesFits(p.pwalns[i])
  }

  /** The record a fitting row becomes. */
  function ToEntry(r: Row): (e: PwalnEntry)
    requires RowFits(r)
  {
    PwalnEntry(r.refStart, r.refEnd, r.qryStart, r.qryEnd, r.refChrom, r.qryChrom)
  }

  function ToEntries(rows: seq<Row>): (es: seq<PwalnEntry>)
    requires AllFit(rows)
    ensures |es| == |rows|
    ensures forall i :: 0 <= i < |rows| ==> es[i] == ToEntry(rows[i])
  {
    if |rows| == 0 then [] else [ToEntry(rows[0])] + ToEntries(rows[1..])
  }

  /* ---------- the writer as written (pickle_to_bin.py:69-104) ---------- */

  /** The six columns of a row, each through `write_int`. */
  function WriteRow(r: Row): (b: Result<seq<byte>, EncodeError>)
    ensures b.Ok? <==> RowFits(r)
    ensures b.Ok? ==> b.value == EncodeEntry(ToEntry(r))
  {
    var a :- WriteInt(r.refStart, 4);
    var b :- WriteInt(r.refEnd, 4);
    var c :- WriteInt(r.qryStart, 4);
    var d :- WriteInt(r.qryEnd, 4);
    var e :- WriteInt(r.refChrom, 2);
    var f :- WriteInt(r.qryChrom, 2);
    EncodeDecodeLE(a);
    EncodeDecodeLE(b);
    EncodeDecodeLE(c);
    EncodeDecodeLE(d);
    EncodeDecodeLE(e);
    EncodeDecodeLE(f);
    Ok(a + b + c + d + e + f)
  }

  /** The rows of one table from `rest` on: before a row whose chromosome
      differs from the previous row's (`last`), the count of that chromosome's
      rows in the whole table `all`. */
  function WriteRows(all: seq<Row>, rest: seq<Row>, last: Option<int>): Result<seq<byte>, EncodeError>
    decreases |rest|
  {
    if |rest| == 0 then Ok([])
    else
      var row := rest[0];
      var header :- if last != Some(row.refChrom) then WriteInt(|Filter(all, row.refChrom)|, 4) else Ok([]);
      var fields :- WriteRow(row);
      var tail :- WriteRows(all, rest[1..], Some(row.refChrom));
      Ok(header + fields + tail)
  }

  /** One secondary species: its name, its number of distinct reference
      chromosomes, then its rows. */
  function WriteTable(t: Table): Result<seq<byte>, EncodeError>
  {
    var count :- WriteInt(|Chroms(t.rows)|, 4);
    var body :- WriteRows(t.rows, t.rows, None);
    Ok(WriteStr(t.sp2) + count + body)
  }

  function WriteTables(ts: seq<Table>): Result<seq<byte>, EncodeError>
  {
    if |ts| == 0 then Ok([])
    else
      var head :- WriteTable(ts[0]);
      var tail :- WriteTables(ts[1..]);
      Ok(head + tail)
  }

  function WriteSpecies(s: Species): Result<seq<byte>, EncodeError>
  {
    var count :- WriteInt(|s.tables|, 1);
    var body :- WriteTables(s.tables);
    Ok(WriteStr(s.sp1) + count + body)
  }

  function WriteSpeciesList(ss: seq<Species>): Result<seq<byte>, EncodeError>
  {
    if |ss| == 0 then Ok([])
    else
      var head :- WriteSpecies(ss[0]);
      var tail :- WriteSpeciesList(ss[1..]);
      Ok(head + tail)
  }

  function WriteFile(p: Pickle): Result<seq<byte>, EncodeError>
  {
    var nc :- WriteInt(|p.chroms|, 2);
    var n1 :- WriteInt(|p.pwalns|, 1);
    var body :- WriteSpeciesList(p.pwalns);
    Ok(nc + SerializeNames(p.chroms) + n1 + body)
  }

  /** The whole script: normalise, then write. */
  function Convert(p: Pickle): Result<seq<byte>, EncodeError>
  {
    WriteFile(NormalizeAll(p))
  }

  /* ---------- when the writer fails ---------- */

  /** Whether the writer emits a count before `rest[i]`: its chromosome
      differs from the previous row's. */
  predicate HeaderDue(rest: seq<Row>, last: Option<int>, i: nat)
    requires i < |rest|
  {
    (if i == 0 then last else Some(rest[i - 1].refChrom)) != Some(rest[i].refChrom)
  }

  /** A successful write had every row fit and every emitted count fit. */
  lemma {:induction false} WriteRowsChecks(all: seq<Row>, rest: seq<Row>, last: Option<int>)
    requires WriteRows(all, rest, last).Ok?
    ensures forall i :: 0 <= i < |rest| ==> RowFits(rest[i])
    ensures forall i :: 0 <= i < |rest| && HeaderDue(rest, last, i) ==> |Filter(all, rest[i].refChrom)| < 0x1_0000_0000
    decreases |rest|
  {
    if |rest| > 0 {
      var tail := rest[1..];
      WriteRowsChecks(all, tail, Some(rest[0].refChrom));
      assert forall i :: 1 <= i < |rest| ==> rest[i] == tail[i - 1];
      assert forall i :: 1 <= i < |rest| && HeaderDue(rest, last, i) ==> HeaderDue(tail, Some(rest[0].refChrom), i - 1);
    }
  }

  /** From the start of a table, the counts emitted cover every chromosome:
      each row shares its chromosome with the row where a count was emitted. */
  lemma {:induction false} HeadersCoverAll(rows: seq<Row>, i: nat)
    requires i < |rows|
    requires forall k :: 0 <= k < |rows| && HeaderDue(rows, None, k) ==> |Filter(rows, rows[k].refChrom)| < 0x1_0000_0000
    ensures |Filter(rows, rows[i].refChrom)| < 0x1_0000_0000
  {
    if i > 0 && rows[i - 1].refChrom == rows[i].refChrom {
      HeadersCoverAll(rows, i - 1);
    } else {
      assert HeaderDue(rows, None, i);
    }
  }

  /* ---------- what the writer emits ---------- */

  function EntryRuns(runs: seq<seq<Row>>): (r: seq<seq<PwalnEntry>>)
    requires forall k :: 0 <= k < |runs| ==> AllFit(runs[k])
    ensures |r| == |runs|
    ensures forall k :: 0 <= k < |runs| ==> r[k] == ToEntries(runs[k])
  {
    if |runs| == 0 then [] else [ToEntries(runs[0])] + EntryRuns(runs[1..])
  }

  /** The runs a table of fitting rows is written as: its blocks of equal
      reference chromosome, as records. */
  function RunsOf(rows: seq<Row>): seq<seq<PwalnEntry>>
    requires TableFits(rows)
  {
    GroupMembers(rows);
    EntryRuns(Group(rows))
  }

  /** The bytes the row loop emits when nothing overflows. */
  function RowBytes(all: seq<Row>, rest: seq<Row>, last: Option<int>): seq<byte>
    requires AllFit(rest)
    decreases |rest|
  {
    if |rest| == 0 then []
    else
      var c := rest[0].refChrom;
      (if last != Some(c) then EncodeLE(|Filter(all, c)|, 4) else [])
        + EncodeEntry(ToEntry(rest[0])) + RowBytes(all, rest[1..], Some(c))
  }

  /** When every row and every emitted count fits, the row loop succeeds
      with exactly those bytes. */
  lemma {:induction false} WriteRowsBytes(all: seq<Row>, rest: seq<Row>, last: Option<int>)
    requires AllFit(rest)
    requires forall i :: 0 <= i < |rest| && HeaderDue(rest, last, i) ==> |Filter(all, rest[i].refChrom)| < 0x1_0000_0000
    ensures WriteRows(all, rest, last) == Ok(RowBytes(all, rest, last))
    decreases |rest|
  {
    if |rest| > 0 {
      var c := rest[0].refChrom;
      var tail := rest[1..];
      assert WriteRows(all, tail, Some(c)) == Ok(RowBytes(all, tail, Some(c))) by {
        assert forall i :: 0 <= i < |tail| ==> tail[i] == rest[i + 1];
        assert forall i :: 0 <= i < |tail| && HeaderDue(tail, Some(c), i) ==> HeaderDue(rest, last, i + 1);
        WriteRowsBytes(all, tail, Some(c));
      }
      assert HeaderDue(rest, last, 0) == (last != Some(c));
      if last != Some(c) {
        EncodeDecodeLE(WriteInt(|Filter(all, c)|, 4).value);
      }
    }
  }

  /** Rows that continue the current chromosome get no count of their own. */
  lemma {:induction false} RowBytesSame(all: seq<Row>, run: seq<Row>, rest: seq<Row>, c: int)
    requires forall i :: 0 <= i < |run| ==> run[i].refChrom == c && RowFits(run[i])
    requires AllFit(rest)
    ensures AllFit(run) && AllFit(run + rest)
    ensures RowBytes(all, run + rest, Some(c)) == EncodeEntries(ToEntries(run)) + RowBytes(all, rest, Some(c))
  {
    var v := RowBytes(all, rest, Some(c));
    if |run| == 0 {
      assert run + rest == rest;
      ConcatEmpty(v);
    } else {
      var first := EncodeEntry(ToEntry(run[0]));
      var more := EncodeEntries(ToEntries(run[1..]));
      ConcatHeadTail(run, rest);
      RowBytesSame(all, run[1..], rest, c);
      assert ToEntries(run)[1..] == ToEntries(run[1..]);
      ConcatEmpty(first);
      Assoc3(first, more, v);
    }
  }

  /** A block of one chromosome whose count is its length, written where
      the chromosome changes, is one run. */
  lemma RowBytesBlock(all: seq<Row>, run: seq<Row>, rest: seq<Row>, last: Option<int>)
    requires Uniform(run) && AllFit(run) && AllFit(rest)
    requires |Filter(all, ChromOf(run))| == |run|
    requires last != Some(ChromOf(run))
    ensures AllFit(run + rest)
    ensures RowBytes(all, run + rest, last) == SerializeRun(ToEntries(run)) + RowBytes(all, rest, Some(ChromOf(run)))
  {
    var c := ChromOf(run);
    var data := run + rest;
    var header := EncodeLE(|run|, 4);
    RowBytesSame(all, run, rest, c);
    assert RowBytes(all, data, last) == header + RowBytes(all, data, Some(c)) by {
      ConcatHeadTail(run, rest);
      var first := EncodeEntry(ToEntry(data[0]));
      var tail := RowBytes(all, data[1..], Some(c));
      ConcatEmpty(first);
      Assoc3(header, first, tail);
    }
    Assoc3(header, EncodeEntries(ToEntries(run)), RowBytes(all, rest, Some(c)));
  }

  /** Rows laid out as blocks of one chromosome each, whose counts are the
      block lengths, are written as the runs of those blocks. */
  lemma {:induction false} RowBytesRuns(all: seq<Row>, runs: seq<seq<Row>>, last: Option<int>)
    requires forall k :: 0 <= k < |runs| ==> Uniform(runs[k]) && AllFit(runs[k])
    requires forall k :: 0 <= k < |runs| ==> |Filter(all, ChromOf(runs[k]))| == |runs[k]|
    requires forall k :: 0 < k < |runs| ==> ChromOf(runs[k]) != ChromOf(runs[k - 1])
    requires |runs| > 0 ==> last != Some(ChromOf(runs[0]))
    ensures AllFit(Flatten(runs))
    ensures RowBytes(all, Flatten(runs), last) == SerializeRuns(EntryRuns(runs))
  {
    if |runs| > 0 {
      var tail := runs[1..];
      assert forall k :: 0 <= k < |tail| ==> tail[k] == runs[k + 1];
      RowBytesRuns(all, tail, Some(ChromOf(runs[0])));
      RowBytesBlock(all, runs[0], Flatten(tail), last);
      assert EntryRuns(runs)[1..] == EntryRuns(tail);
    }
  }
  /** `write_int` and the row loop fail exactly when a column or a count
      does not fit its field. */
  lemma TableRowsOk(rows: seq<Row>)
    ensures WriteRows(rows, rows, None).Ok? <==>
            AllFit(rows) && forall i :: 0 <= i < |rows| ==> |Filter(rows, rows[i].refChrom)| < 0x1_0000_0000
  {
    if WriteRows(rows, rows, None).Ok? {
      WriteRowsChecks(rows, rows, None);
      forall i | 0 <= i < |rows| ensures |Filter(rows, rows[i].refChrom)| < 0x1_0000_0000 {
        HeadersCoverAll(rows, i);
      }
    } else if AllFit(rows) && forall i :: 0 <= i < |rows| ==> |Filter(rows, rows[i].refChrom)| < 0x1_0000_0000 {
      WriteRowsBytes(rows, rows, None);
    }
  }

  /** The blocks of sorted fitting rows: each fits, each holds all the
      rows of its chromosome, and there is one per chromosome. */
  lemma SortedBlocks(rows: seq<Row>)
    requires Sorted(rows) && AllFit(rows)
    ensures forall k :: 0 <= k < |Group(rows)| ==> AllFit(Group(rows)[k])
    ensures forall k :: 0 <= k < |Group(rows)| ==> |Filter(rows, ChromOf(Group(rows)[k]))| == |Group(rows)[k]|
    ensures |Chroms(rows)| == |Group(rows)|
  {
    var runs := Group(rows);
    GroupMembers(rows);
    GroupSortedIncreasing(rows);
    forall k | 0 <= k < |runs|
      ensures |Filter(rows, ChromOf(runs[k]))| == |runs[k]|
    {
      FilterRuns(runs, ChromOf(runs[k]));
    }
    ChromsRuns(runs);
  }

  /** Sorted fitting rows are written as their blocks of equal reference
      chromosome, each block one run. */
  lemma SortedRowsAsRuns(rows: seq<Row>)
    requires Sorted(rows) && TableFits(rows)
    ensures WriteRows(rows, rows, None) == Ok(SerializeRuns(RunsOf(rows)))
    ensures |Chroms(rows)| == |RunsOf(rows)|
  {
    assert AllFit(rows);
    SortedBlocks(rows);
    RowBytesRuns(rows, Group(rows), None);
    WriteRowsBytes(rows, rows, None);
  }

  /** `write_str(sp2)`, the chromosome count, the rows: fails exactly when
      something does not fit, and for sorted rows emits the secondary-species
      block of the file grammar. */
  lemma WriteTableSpec(t: Table)
    ensures WriteTable(t).Ok? <==> TableFits(t.rows)
    ensures TableFits(t.rows) && Sorted(t.rows) ==>
              WriteTable(t) == Ok(SerializeSp2(Sp2Block(t.sp2, RunsOf(t.rows))))
  {
    TableRowsOk(t.rows);
    if TableFits(t.rows) && Sorted(t.rows) {
      SortedRowsAsRuns(t.rows);
      EncodeDecodeLE(WriteInt(|Chroms(t.rows)|, 4).value);
    }
  }

  /* ---------- the whole file ---------- */

  ghost predicate SpeciesSorted(s: Species) {
    forall j :: 0 <= j < |s.tables| ==> Sorted(s.tables[j].rows)
  }

  /** Every table sorted, as normalisation leaves them. */
  ghost predicate AllSorted(p: Pickle) {
    forall i :: 0 <= i < |p.pwalns| ==> SpeciesSorted(p.pwalns[i])
  }

  function Sp2sOf(ts: seq<Table>): (r: seq<Sp2Block>)
    requires forall j :: 0 <= j < |ts| ==> TableFits(ts[j].rows)
    ensures |r| == |ts|
    ensures forall j :: 0 <= j < |ts| ==> r[j] == Sp2Block(ts[j].sp2, RunsOf(ts[j].rows))
  {
    if |ts| == 0 then [] else [Sp2Block(ts[0].sp2, RunsOf(ts[0].rows))] + Sp2sOf(ts[1..])
  }

  function Sp1Of(s: Species): (b: Sp1Block)
    requires SpeciesFits(s)
  {
    Sp1Block(s.sp1, Sp2sOf(s.tables))
  }

  function Sp1sOf(ss: seq<Species>): (r: seq<Sp1Block>)
    requires forall i :: 0 <= i < |ss| ==> SpeciesFits(ss[i])
    ensures |r| == |ss|
    ensures forall i :: 0 <= i < |ss| ==> r[i] == Sp1Of(ss[i])
  {
    if |ss| == 0 then [] else [Sp1Of(ss[0])] + Sp1sOf(ss[1..])
  }

  /** The file a fitting input is written as, in the reader's grammar. */
  function ImageOf(p: Pickle): Image
    requires FileFits(p)
  {
    Image(p.chroms, Sp1sOf(p.pwalns))
  }

  lemma {:induction false} WriteTablesOk(ts: seq<Table>)
    ensures WriteTables(ts).Ok? <==> forall j :: 0 <= j < |ts| ==> TableFits(ts[j].rows)
  {
    if |ts| > 0 {
      var tail := ts[1..];
      assert forall j :: 0 <= j < |tail| ==> tail[j] == ts[j + 1];
      WriteTableSpec(ts[0]);
      WriteTablesOk(tail);
    }
  }

  lemma {:induction false} WriteTablesBytes(ts: seq<Table>)
    requires forall j :: 0 <= j < |ts| ==> TableFits(ts[j].rows) && Sorted(ts[j].rows)
    ensures WriteTables(ts) == Ok(SerializeSp2s(Sp2sOf(ts)))
  {
    if |ts| > 0 {
      var tail := ts[1..];
      assert WriteTables(tail) == Ok(SerializeSp2s(Sp2sOf(tail))) by {
        assert forall j :: 0 <= j < |tail| ==> tail[j] == ts[j + 1];
        WriteTablesBytes(tail);
      }
      WriteTableSpec(ts[0]);
      assert Sp2sOf(ts)[1..] == Sp2sOf(tail);
    }
  }

  lemma WriteSpeciesSpec(s: Species)
    ensures WriteSpecies(s).Ok? <==> SpeciesFits(s)
    ensures SpeciesFits(s) && SpeciesSorted(s) ==> WriteSpecies(s) == Ok(SerializeSp1(Sp1Of(s)))
  {
    WriteTablesOk(s.tables);
    if SpeciesFits(s) {
      EncodeDecodeLE(WriteInt(|s.tables|, 1).value);
      if SpeciesSorted(s) {
        WriteTablesBytes(s.tables);
      }
    }
  }

  lemma {:induction false} WriteSpeciesListOk(ss: seq<Species>)
    ensures WriteSpeciesList(ss).Ok? <==> forall i :: 0 <= i < |ss| ==> SpeciesFits(ss[i])
  {
    if |ss| > 0 {
      var tail := ss[1..];
      assert forall i :: 0 <= i < |tail| ==> tail[i] == ss[i + 1];
      WriteSpeciesSpec(ss[0]);
      WriteSpeciesListOk(tail);
    }
  }

  lemma {:induction false} WriteSpeciesListBytes(ss: seq<Species>)
    requires forall i :: 0 <= i < |ss| ==> SpeciesFits(ss[i]) && SpeciesSorted(ss[i])
    ensures WriteSpeciesList(ss) == Ok(SerializeSp1s(Sp1sOf(ss)))
  {
    if |ss| > 0 {
      var tail := ss[1..];
      assert WriteSpeciesList(tail) == Ok(SerializeSp1s(Sp1sOf(tail))) by {
        assert forall i :: 0 <= i < |tail| ==> tail[i] == ss[i + 1];
        WriteSpeciesListBytes(tail);
      }
      WriteSpeciesSpec(ss[0]);
      assert Sp1sOf(ss)[1..] == Sp1sOf(tail);
    }
  }

  /** The writer fails exactly when a count or a value does not fit its
      field; for sorted tables it emits the bytes of the file grammar. */
  lemma WriteFileSpec(p: Pickle)
    ensures WriteFile(p).Ok? <==> FileFits(p)
    ensures FileFits(p) && AllSorted(p) ==> WriteFile(p) == Ok(Serialize(ImageOf(p)))
  {
    WriteSpeciesListOk(p.pwalns);
    if FileFits(p) {
      EncodeDecodeLE(WriteInt(|p.chroms|, 2).value);
      EncodeDecodeLE(WriteInt(|p.pwalns|, 1).value);
      if AllSorted(p) {
        WriteSpeciesListBytes(p.pwalns);
      }
    }
  }

  /** Normalisation sorts every table. */
  lemma NormalizeAllSorted(p: Pickle)
    ensures AllSorted(NormalizeAll(p))
  {
    forall i, j | 0 <= i < |p.pwalns| && 0 <= j < |p.pwalns[i].tables|
      ensures Sorted(Normalize(p.pwalns[i].tables[j].rows))
    {
      NormalizeSpec(p.pwalns[i].tables[j].rows);
    }
  }

  /** The script fails exactly when the normalised input does not fit the
      file, and otherwise writes the grammar of the normalised input. */
  lemma ConvertSpec(p: Pickle)
    ensures Convert(p).Ok? <==> FileFits(NormalizeAll(p))
    ensures Convert(p).Ok? ==> Convert(p).value == Serialize(ImageOf(NormalizeAll(p)))
  {
    NormalizeAllSorted(p);
    WriteFileSpec(NormalizeAll(p));
  }
}
