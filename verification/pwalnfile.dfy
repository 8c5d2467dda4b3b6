/** The binary pairwise-alignment file: its grammar as a datatype, the bytes
    of a well-formed value, and the native reader `loadPwalns` as a decoder
    over bytes that rebuilds the chromosome list and the nested run maps. */
module PwalnFile {
  import opened Wrappers
  import opened Wire
  import opened Entries
  import opened Seqs

  /** One secondary species: its name and its runs, each run the records of
      one reference chromosome. */
  datatype Sp2Block = Sp2Block(sp2: Name, runs: seq<seq<PwalnEntry>>)

  /** One primary species and its secondary species, in file order. */
  datatype Sp1Block = Sp1Block(sp1: Name, sp2s: seq<Sp2Block>)

  /** The whole file in grammar order. */
  datatype Image = Image(chroms: seq<Name>, sp1s: seq<Sp1Block>)

  /* ---------- well-formedness ---------- */

  ghost predicate NoZero(names: seq<Name>) {
    forall i :: 0 <= i < |names| ==> 0 !in names[i]
  }

  ghost predicate NonEmptyRuns(runs: seq<seq<PwalnEntry>>) {
    forall i :: 0 <= i < |runs| ==> |runs[i]| > 0
  }

  /** A run the reader can recover: at least one record, and a length that
      fits its u32 field. */
  ghost predicate RunOk(run: seq<PwalnEntry>) {
    0 < |run| < 0x1_0000_0000
  }

  /** A secondary-species block the reader can recover: a name without a
      zero byte, a run count that fits u32, recoverable runs. */
  ghost predicate Sp2Ok(b: Sp2Block) {
    0 !in b.sp2 && |b.runs| < 0x1_0000_0000 && forall i :: 0 <= i < |b.runs| ==> RunOk(b.runs[i])
  }

  /** A primary-species block the reader can recover (u8 count). */
  ghost predicate Sp1Ok(b: Sp1Block) {
    0 !in b.sp1 && |b.sp2s| < 0x100 && forall j :: 0 <= j < |b.sp2s| ==> Sp2Ok(b.sp2s[j])
  }

  /** An image the reader can recover: u16 chromosome count, u8 species
      count, names without zero bytes, no empty or oversized run. */
  ghost predicate WellFormed(img: Image) {
    && |img.chroms| < 0x1_0000
    && NoZero(img.chroms)
    && |img.sp1s| < 0x100
    && forall i :: 0 <= i < |img.sp1s| ==> Sp1Ok(img.sp1s[i])
  }

  /* ---------- the bytes of an image ---------- */

  function SerializeNames(names: seq<Name>): seq<byte> {
    if |names| == 0 then [] else WriteStr(names[0]) + SerializeNames(names[1..])
  }

  /** A run: its u32 length, then its records. */
  function SerializeRun(run: seq<PwalnEntry>): seq<byte>
  {
    EncodeLE(|run|, 4) + EncodeEntries(run)
  }

  function SerializeRuns(runs: seq<seq<PwalnEntry>>): seq<byte>
  {
    if |runs| == 0 then [] else SerializeRun(runs[0]) + SerializeRuns(runs[1..])
  }

  function SerializeSp2(b: Sp2Block): seq<byte>
  {
    WriteStr(b.sp2) + EncodeLE(|b.runs|, 4) + SerializeRuns(b.runs)
  }

  function SerializeSp2s(bs: seq<Sp2Block>): seq<byte>
  {
    if |bs| == 0 then [] else SerializeSp2(bs[0]) + SerializeSp2s(bs[1..])
  }

  function SerializeSp1(b: Sp1Block): seq<byte>
  {
    WriteStr(b.sp1) + EncodeLE(|b.sp2s|, 1) + SerializeSp2s(b.sp2s)
  }

  function SerializeSp1s(bs: seq<Sp1Block>): seq<byte>
  {
    if |bs| == 0 then [] else SerializeSp1(bs[0]) + SerializeSp1s(bs[1..])
  }

  /** The file in the order of the grammar. */
  function Serialize(img: Image): seq<byte>
  {
    EncodeLE(|img.chroms|, 2) + SerializeNames(img.chroms)
      + EncodeLE(|img.sp1s|, 1) + SerializeSp1s(img.sp1s)
  }

  /* ---------- the reader (ipp.cpp:81-121) ---------- */

  /** `n` zero-terminated names (ipp.cpp:83-85). */
  function ReadNames(data: seq<byte>, n: nat): (r: Result<(seq<Name>, seq<byte>), DecodeError>)
    ensures r.Ok? ==> |r.value.0| == n && NoZero(r.value.0)
    ensures r.Ok? ==> SerializeNames(r.value.0) + r.value.1 == data
    decreases n
  {
    if n == 0 then Ok(([], data))
    else
      var p :- ReadString(data);
      var q :- ReadNames(p.1, n - 1);
      var names := [p.0] + q.0;
      assert names[1..] == q.0;
      Assoc3(WriteStr(p.0), SerializeNames(q.0), q.1);
      Ok((names, q.1))
  }

  /** One run: a u32 length and that many records. A zero length is the
      reader's `pwalnEntries[0]` on an empty vector (ipp.cpp:101-113) and is
      rejected here. */
  function ReadRun(data: seq<byte>): (r: Result<(seq<PwalnEntry>, seq<byte>), DecodeError>)
    ensures r.Ok? ==> RunOk(r.value.0)
    ensures r.Ok? ==> SerializeRun(r.value.0) + r.value.1 == data
  {
    var len :- ReadInt(data, 4);
    var es :- ReadEntries(len.1, len.0);
    if len.0 == 0 then Err(EmptyRun)
    else
      Assoc3(EncodeLE(len.0, 4), EncodeEntries(es.0), es.1);
      Ok(es)
  }

  /** `n` runs (ipp.cpp:100-114). */
  function ReadRuns(data: seq<byte>, n: nat): (r: Result<(seq<seq<PwalnEntry>>, seq<byte>), DecodeError>)
    ensures r.Ok? ==> |r.value.0| == n && forall i :: 0 <= i < n ==> RunOk(r.value.0[i])
    ensures r.Ok? ==> SerializeRuns(r.value.0) + r.value.1 == data
    decreases n
  {
    if n == 0 then Ok(([], data))
    else
      var p :- ReadRun(data);
      var q :- ReadRuns(p.1, n - 1);
      var runs := [p.0] + q.0;
      assert runs[1..] == q.0;
      Assoc3(SerializeRun(p.0), SerializeRuns(q.0), q.1);
      Ok((runs, q.1))
  }

  /** One secondary species: name, u32 run count, runs (ipp.cpp:96-114). */
  function ReadSp2(data: seq<byte>): (r: Result<(Sp2Block, seq<byte>), DecodeError>)
    ensures r.Ok? ==> Sp2Ok(r.value.0)
    ensures r.Ok? ==> SerializeSp2(r.value.0) + r.value.1 == data
  {
    var name :- ReadString(data);
    var count :- ReadInt(name.1, 4);
    var runs :- ReadRuns(count.1, count.0);
    var b := Sp2Block(name.0, runs.0);
    Assoc4(WriteStr(name.0), EncodeLE(count.0, 4), SerializeRuns(runs.0), runs.1);
    Ok((b, runs.1))
  }

  /** `n` secondary-species entries (ipp.cpp:95-115). */
  function ReadSp2s(data: seq<byte>, n: nat): (r: Result<(seq<Sp2Block>, seq<byte>), DecodeError>)
    ensures r.Ok? ==> |r.value.0| == n && forall j :: 0 <= j < n ==> Sp2Ok(r.value.0[j])
    ensures r.Ok? ==> SerializeSp2s(r.value.0) + r.value.1 == data
    decreases n
  {
    if n == 0 then Ok(([], data))
    else
      var p :- ReadSp2(data);
      var q :- ReadSp2s(p.1, n - 1);
      var bs := [p.0] + q.0;
      assert bs[1..] == q.0;
      Assoc3(SerializeSp2(p.0), SerializeSp2s(q.0), q.1);
      Ok((bs, q.1))
  }

  /** One primary species: name, u8 count, its secondary species (ipp.cpp:91-115). */
  function ReadSp1(data: seq<byte>): (r: Result<(Sp1Block, seq<byte>), DecodeError>)
    ensures r.Ok? ==> Sp1Ok(r.value.0)
    ensures r.Ok? ==> SerializeSp1(r.value.0) + r.value.1 == data
  {
    var name :- ReadString(data);
    var count :- ReadInt(name.1, 1);
    var sp2s :- ReadSp2s(count.1, count.0);
    var b := Sp1Block(name.0, sp2s.0);
    Assoc4(WriteStr(name.0), EncodeLE(count.0, 1), SerializeSp2s(sp2s.0), sp2s.1);
    Ok((b, sp2s.1))
  }

  /** `n` primary-species entries (ipp.cpp:89-116). */
  function ReadSp1s(data: seq<byte>, n: nat): (r: Result<(seq<Sp1Block>, seq<byte>), DecodeError>)
    ensures r.Ok? ==> |r.value.0| == n && forall i :: 0 <= i < n ==> Sp1Ok(r.value.0[i])
    ensures r.Ok? ==> SerializeSp1s(r.value.0) + r.value.1 == data
    decreases n
  {
    if n == 0 then Ok(([], data))
    else
      var p :- ReadSp1(data);
      var q :- ReadSp1s(p.1, n - 1);
      var bs := [p.0] + q.0;
      assert bs[1..] == q.0;
      Assoc3(SerializeSp1(p.0), SerializeSp1s(q.0), q.1);
      Ok((bs, q.1))
  }

  /** The grammar of the whole file, with "Remaining data at EOF" when bytes
      are left over. A successful parse re-serializes to exactly the input. */
  function ParseImage(data: seq<byte>): (r: Result<Image, DecodeError>)
    ensures r.Ok? ==> WellFormed(r.value) && Serialize(r.value) == data
  {
    var nc :- ReadInt(data, 2);
    var chroms :- ReadNames(nc.1, nc.0);
    var n1 :- ReadInt(chroms.1, 1);
    var sp1s :- ReadSp1s(n1.1, n1.0);
    if |sp1s.1| != 0 then Err(RemainingData)
    else
      var img := Image(chroms.0, sp1s.0);
      assert SerializeSp1s(img.sp1s) == n1.1 by {
        assert SerializeSp1s(sp1s.0) + sp1s.1 == n1.1 && sp1s.1 == [];
      }
      assert |img.chroms| == nc.0 && |img.sp1s| == n1.0;
      assert Serialize(img) == data by {
        Assoc4(EncodeLE(nc.0, 2), SerializeNames(img.chroms), EncodeLE(n1.0, 1), SerializeSp1s(img.sp1s));
      }
      Ok(img)
  }

  /* ---------- round trip of the grammar ---------- */

  lemma {:induction false} ReadNamesSerialized(names: seq<Name>, rest: seq<byte>)
    requires NoZero(names)
    ensures ReadNames(SerializeNames(names) + rest, |names|) == Ok((names, rest))
  {
    if |names| > 0 {
      var data := SerializeNames(names) + rest;
      var tail := SerializeNames(names[1..]) + rest;
      assert data == WriteStr(names[0]) + tail by {
        Assoc3(WriteStr(names[0]), SerializeNames(names[1..]), rest);
      }
      assert ReadString(data) == Ok((names[0], tail)) by {
        ReadStringWriteStr(names[0], tail);
      }
      assert ReadNames(tail, |names| - 1) == Ok((names[1..], rest)) by {
        assert forall i :: 0 <= i < |names[1..]| ==> names[1..][i] == names[i + 1];
        ReadNamesSerialized(names[1..], rest);
      }
      assert [names[0]] + names[1..] == names;
    } else {
      assert SerializeNames(names) + rest == rest;
    }
  }

  lemma ReadRunSerialized(run: seq<PwalnEntry>, rest: seq<byte>)
    requires RunOk(run)
    ensures ReadRun(SerializeRun(run) + rest) == Ok((run, rest))
  {
    Assoc3(EncodeLE(|run|, 4), EncodeEntries(run), rest);
    ReadIntWriteInt(|run|, 4, EncodeEntries(run) + rest);
    ReadEntriesEncoded(run, rest);
  }

  lemma {:induction false} ReadRunsSerialized(runs: seq<seq<PwalnEntry>>, rest: seq<byte>)
    requires forall i :: 0 <= i < |runs| ==> RunOk(runs[i])
    ensures ReadRuns(SerializeRuns(runs) + rest, |runs|) == Ok((runs, rest))
  {
    if |runs| > 0 {
      var data := SerializeRuns(runs) + rest;
      var tail := SerializeRuns(runs[1..]) + rest;
      assert data == SerializeRun(runs[0]) + tail by {
        Assoc3(SerializeRun(runs[0]), SerializeRuns(runs[1..]), rest);
      }
      assert ReadRun(data) == Ok((runs[0], tail)) by {
        ReadRunSerialized(runs[0], tail);
      }
      assert ReadRuns(tail, |runs| - 1) == Ok((runs[1..], rest)) by {
        assert forall i :: 0 <= i < |runs[1..]| ==> runs[1..][i] == runs[i + 1];
        ReadRunsSerialized(runs[1..], rest);
      }
      assert [runs[0]] + runs[1..] == runs;
    } else {
      assert SerializeRuns(runs) + rest == rest;
    }
  }

  lemma ReadSp2Serialized(b: Sp2Block, rest: seq<byte>)
    requires Sp2Ok(b)
    ensures ReadSp2(SerializeSp2(b) + rest) == Ok((b, rest))
  {
    var runsBytes := SerializeRuns(b.runs) + rest;
    Assoc4(WriteStr(b.sp2), EncodeLE(|b.runs|, 4), SerializeRuns(b.runs), rest);
    ReadStringWriteStr(b.sp2, EncodeLE(|b.runs|, 4) + runsBytes);
    ReadIntWriteInt(|b.runs|, 4, runsBytes);
    ReadRunsSerialized(b.runs, rest);
  }

  lemma {:induction false} ReadSp2sSerialized(bs: seq<Sp2Block>, rest: seq<byte>)
    requires forall j :: 0 <= j < |bs| ==> Sp2Ok(bs[j])
    ensures ReadSp2s(SerializeSp2s(bs) + rest, |bs|) == Ok((bs, rest))
  {
    if |bs| > 0 {
      var data := SerializeSp2s(bs) + rest;
      var tail := SerializeSp2s(bs[1..]) + rest;
      assert data == SerializeSp2(bs[0]) + tail by {
        Assoc3(SerializeSp2(bs[0]), SerializeSp2s(bs[1..]), rest);
      }
      assert ReadSp2(data) == Ok((bs[0], tail)) by {
        ReadSp2Serialized(bs[0], tail);
      }
      assert ReadSp2s(tail, |bs| - 1) == Ok((bs[1..], rest)) by {
        assert forall j :: 0 <= j < |bs[1..]| ==> bs[1..][j] == bs[j + 1];
        ReadSp2sSerialized(bs[1..], rest);
      }
      assert [bs[0]] + bs[1..] == bs;
    } else {
      assert SerializeSp2s(bs) + rest == rest;
    }
  }

  lemma ReadSp1Serialized(b: Sp1Block, rest: seq<byte>)
    requires Sp1Ok(b)
    ensures ReadSp1(SerializeSp1(b) + rest) == Ok((b, rest))
  {
    var sp2Bytes := SerializeSp2s(b.sp2s) + rest;
    Assoc4(WriteStr(b.sp1), EncodeLE(|b.sp2s|, 1), SerializeSp2s(b.sp2s), rest);
    ReadStringWriteStr(b.sp1, EncodeLE(|b.sp2s|, 1) + sp2Bytes);
    ReadIntWriteInt(|b.sp2s|, 1, sp2Bytes);
    ReadSp2sSerialized(b.sp2s, rest);
  }

  lemma {:induction false} ReadSp1sSerialized(bs: seq<Sp1Block>, rest: seq<byte>)
    requires forall i :: 0 <= i < |bs| ==> Sp1Ok(bs[i])
    ensures ReadSp1s(SerializeSp1s(bs) + rest, |bs|) == Ok((bs, rest))
  {
    if |bs| > 0 {
      var data := SerializeSp1s(bs) + rest;
      var tail := SerializeSp1s(bs[1..]) + rest;
      assert data == SerializeSp1(bs[0]) + tail by {
        Assoc3(SerializeSp1(bs[0]), SerializeSp1s(bs[1..]), rest);
      }
      assert ReadSp1(data) == Ok((bs[0], tail)) by {
        ReadSp1Serialized(bs[0], tail);
      }
      assert ReadSp1s(tail, |bs| - 1) == Ok((bs[1..], rest)) by {
        assert forall i :: 0 <= i < |bs[1..]| ==> bs[1..][i] == bs[i + 1];
        ReadSp1sSerialized(bs[1..], rest);
      }
      assert [bs[0]] + bs[1..] == bs;
    } else {
      assert SerializeSp1s(bs) + rest == rest;
    }
  }

  /** The bytes of an image followed by `extra`: the grammar consumes the
      image and leaves exactly `extra`. */
  lemma ReadImagePrefix(img: Image, extra: seq<byte>)
    requires WellFormed(img)
    ensures var nc := ReadInt(Serialize(img) + extra, 2);
            && nc == Ok((|img.chroms|, SerializeNames(img.chroms) + EncodeLE(|img.sp1s|, 1) + SerializeSp1s(img.sp1s) + extra))
            && ReadNames(nc.value.1, |img.chroms|) == Ok((img.chroms, EncodeLE(|img.sp1s|, 1) + SerializeSp1s(img.sp1s) + extra))
            && ReadInt(EncodeLE(|img.sp1s|, 1) + SerializeSp1s(img.sp1s) + extra, 1) == Ok((|img.sp1s|, SerializeSp1s(img.sp1s) + extra))
            && ReadSp1s(SerializeSp1s(img.sp1s) + extra, |img.sp1s|) == Ok((img.sp1s, extra))
  {
    var sp1Bytes := SerializeSp1s(img.sp1s) + extra;
    var afterCount := EncodeLE(|img.sp1s|, 1) + sp1Bytes;
    var afterNames := SerializeNames(img.chroms) + afterCount;
    assert Serialize(img) + extra == EncodeLE(|img.chroms|, 2) + afterNames by {
      Assoc4(EncodeLE(|img.chroms|, 2) + SerializeNames(img.chroms), EncodeLE(|img.sp1s|, 1), SerializeSp1s(img.sp1s), extra);
      Assoc3(EncodeLE(|img.chroms|, 2), SerializeNames(img.chroms), afterCount);
    }
    assert afterNames == SerializeNames(img.chroms) + EncodeLE(|img.sp1s|, 1) + SerializeSp1s(img.sp1s) + extra by {
      Assoc4(SerializeNames(img.chroms), EncodeLE(|img.sp1s|, 1), SerializeSp1s(img.sp1s), extra);
    }
    assert afterCount == EncodeLE(|img.sp1s|, 1) + SerializeSp1s(img.sp1s) + extra by {
      Assoc3(EncodeLE(|img.sp1s|, 1), SerializeSp1s(img.sp1s), extra);
    }
    ReadIntWriteInt(|img.chroms|, 2, afterNames);
    ReadNamesSerialized(img.chroms, afterCount);
    ReadIntWriteInt(|img.sp1s|, 1, sp1Bytes);
    ReadSp1sSerialized(img.sp1s, extra);
  }

  /** Decoding the bytes of a readable image gives back the image. */
  lemma ParseSerialize(img: Image)
    requires WellFormed(img)
    ensures ParseImage(Serialize(img)) == Ok(img)
  {
    ReadImagePrefix(img, []);
    assert Serialize(img) + [] == Serialize(img);
    assert SerializeSp1s(img.sp1s) + [] == SerializeSp1s(img.sp1s);
  }

  /* ---------- the maps the reader fills (ipp.cpp:92-113) ---------- */

  /** The runs of one species pair, keyed by reference chromosome. */
  type RunMap = map<u16, seq<PwalnEntry>>

  /** `pwalns_`: primary species, then secondary species, then runs. */
  type PwalnMap = map<Name, map<Name, RunMap>>

  datatype Loaded = Loaded(chroms: seq<Name>, pwalns: PwalnMap)

  /** The reference chromosome a run is filed under: its first record's. */
  function RunKey(run: seq<PwalnEntry>): u16
    requires |run| > 0
  {
    run[0].refChrom
  }

  /** `pwaln.insert({pwalnEntries[0].refChrom, ...})` for each run in turn:
      `insert` leaves an existing key alone, so the first run filed under a
      chromosome wins. */
  function InsertRuns(m: RunMap, runs: seq<seq<PwalnEntry>>): (r: RunMap)
    requires NonEmptyRuns(runs)
    ensures forall k :: k in m ==> k in r && r[k] == m[k]
    ensures forall i :: 0 <= i < |runs| ==> RunKey(runs[i]) in r
    ensures forall k :: k in r ==> k in m || exists i :: 0 <= i < |runs| && RunKey(runs[i]) == k
    ensures forall i :: 0 <= i < |runs| && RunKey(runs[i]) !in m
                        && (forall j :: 0 <= j < i ==> RunKey(runs[j]) != RunKey(runs[i]))
                        ==> r[RunKey(runs[i])] == runs[i]
    decreases |runs|
  {
    if |runs| == 0 then m
    else
      var k := RunKey(runs[0]);
      var m' := if k in m then m else m[k := runs[0]];
      var r := InsertRuns(m', runs[1..]);
      assert forall i :: 1 <= i < |runs| ==> runs[1..][i - 1] == runs[i];
      r
  }

  /** Into an empty map, every key comes from some run. */
  lemma InsertRunsOrigin(runs: seq<seq<PwalnEntry>>, k: u16) returns (i: nat)
    requires NonEmptyRuns(runs)
    requires k in InsertRuns(map[], runs)
    ensures i < |runs| && RunKey(runs[i]) == k
  {
    i :| 0 <= i < |runs| && RunKey(runs[i]) == k;
  }

  /** `auto& pwaln(pwalnsSp1[sp2])` then the runs: a repeated secondary name
      adds to the runs already there. */
  function InsertSp2s(m: map<Name, RunMap>, bs: seq<Sp2Block>): (r: map<Name, RunMap>)
    requires forall j :: 0 <= j < |bs| ==> NonEmptyRuns(bs[j].runs)
    ensures forall k :: k in m ==> k in r
    decreases |bs|
  {
    if |bs| == 0 then m
    else
      var b := bs[0];
      var existing := if b.sp2 in m then m[b.sp2] else map[];
      InsertSp2s(m[b.sp2 := InsertRuns(existing, b.runs)], bs[1..])
  }

  /** Each secondary name read becomes a key, and no other key appears. */
  lemma {:induction false} InsertSp2sKeys(m: map<Name, RunMap>, bs: seq<Sp2Block>)
    requires forall j :: 0 <= j < |bs| ==> NonEmptyRuns(bs[j].runs)
    ensures forall j :: 0 <= j < |bs| ==> bs[j].sp2 in InsertSp2s(m, bs)
    ensures forall k :: k in InsertSp2s(m, bs) ==> k in m || exists j :: 0 <= j < |bs| && bs[j].sp2 == k
    decreases |bs|
  {
    if |bs| > 0 {
      var b := bs[0];
      var existing := if b.sp2 in m then m[b.sp2] else map[];
      var m' := m[b.sp2 := InsertRuns(existing, b.runs)];
      assert forall j :: 1 <= j < |bs| ==> bs[1..][j - 1] == bs[j];
      InsertSp2sKeys(m', bs[1..]);
    }
  }

  /** A key no secondary name hits keeps its map. */
  lemma {:induction false} InsertSp2sUnchanged(m: map<Name, RunMap>, bs: seq<Sp2Block>, k: Name)
    requires forall j :: 0 <= j < |bs| ==> NonEmptyRuns(bs[j].runs)
    requires k in m && forall j :: 0 <= j < |bs| ==> bs[j].sp2 != k
    ensures k in InsertSp2s(m, bs) && InsertSp2s(m, bs)[k] == m[k]
    decreases |bs|
  {
    if |bs| > 0 {
      var b := bs[0];
      var existing := if b.sp2 in m then m[b.sp2] else map[];
      var m' := m[b.sp2 := InsertRuns(existing, b.runs)];
      assert forall j :: 1 <= j < |bs| ==> bs[1..][j - 1] == bs[j];
      InsertSp2sUnchanged(m', bs[1..], k);
    }
  }

  /** A secondary name that occurs once maps to its runs inserted into
      whatever was filed under it before. */
  lemma {:induction false} InsertSp2sUnique(m: map<Name, RunMap>, bs: seq<Sp2Block>, j: nat)
    requires forall i :: 0 <= i < |bs| ==> NonEmptyRuns(bs[i].runs)
    requires j < |bs| && forall i :: 0 <= i < |bs| && i != j ==> bs[i].sp2 != bs[j].sp2
    ensures bs[j].sp2 in InsertSp2s(m, bs)
    ensures InsertSp2s(m, bs)[bs[j].sp2] == InsertRuns(if bs[j].sp2 in m then m[bs[j].sp2] else map[], bs[j].runs)
    decreases |bs|
  {
    var b := bs[0];
    var existing := if b.sp2 in m then m[b.sp2] else map[];
    var m' := m[b.sp2 := InsertRuns(existing, b.runs)];
    assert forall i :: 1 <= i < |bs| ==> bs[1..][i - 1] == bs[i];
    if j == 0 {
      InsertSp2sUnchanged(m', bs[1..], b.sp2);
    } else {
      InsertSp2sUnique(m', bs[1..], j - 1);
    }
  }

  /** `auto& pwalnsSp1(pwalns_[sp1])` then its secondary species. */
  function InsertSp1s(m: PwalnMap, bs: seq<Sp1Block>): (r: PwalnMap)
    requires forall i :: 0 <= i < |bs| ==> forall j :: 0 <= j < |bs[i].sp2s| ==> NonEmptyRuns(bs[i].sp2s[j].runs)
    ensures forall k :: k in m ==> k in r
    decreases |bs|
  {
    if |bs| == 0 then m
    else
      var b := bs[0];
      var existing := if b.sp1 in m then m[b.sp1] else map[];
      InsertSp1s(m[b.sp1 := InsertSp2s(existing, b.sp2s)], bs[1..])
  }

  lemma {:induction false} InsertSp1sKeys(m: PwalnMap, bs: seq<Sp1Block>)
    requires forall i :: 0 <= i < |bs| ==> forall j :: 0 <= j < |bs[i].sp2s| ==> NonEmptyRuns(bs[i].sp2s[j].runs)
    ensures forall i :: 0 <= i < |bs| ==> bs[i].sp1 in InsertSp1s(m, bs)
    ensures forall k :: k in InsertSp1s(m, bs) ==> k in m || exists i :: 0 <= i < |bs| && bs[i].sp1 == k
    decreases |bs|
  {
    if |bs| > 0 {
      var b := bs[0];
      var existing := if b.sp1 in m then m[b.sp1] else map[];
      var m' := m[b.sp1 := InsertSp2s(existing, b.sp2s)];
      assert forall i :: 1 <= i < |bs| ==> bs[1..][i - 1] == bs[i];
      InsertSp1sKeys(m', bs[1..]);
    }
  }

  lemma {:induction false} InsertSp1sUnique(m: PwalnMap, bs: seq<Sp1Block>, i: nat)
    requires forall k :: 0 <= k < |bs| ==> forall j :: 0 <= j < |bs[k].sp2s| ==> NonEmptyRuns(bs[k].sp2s[j].runs)
    requires i < |bs| && forall k :: 0 <= k < |bs| && k != i ==> bs[k].sp1 != bs[i].sp1
    ensures bs[i].sp1 in InsertSp1s(m, bs)
    ensures InsertSp1s(m, bs)[bs[i].sp1] == InsertSp2s(if bs[i].sp1 in m then m[bs[i].sp1] else map[], bs[i].sp2s)
    decreases |bs|
  {
    var b := bs[0];
    var existing := if b.sp1 in m then m[b.sp1] else map[];
    var m' := m[b.sp1 := InsertSp2s(existing, b.sp2s)];
    assert forall k :: 1 <= k < |bs| ==> bs[1..][k - 1] == bs[k];
    if i == 0 {
      InsertSp1sUnchanged(m', bs[1..], b.sp1);
    } else {
      InsertSp1sUnique(m', bs[1..], i - 1);
    }
  }

  lemma {:induction false} InsertSp1sUnchanged(m: PwalnMap, bs: seq<Sp1Block>, k: Name)
    requires forall i :: 0 <= i < |bs| ==> forall j :: 0 <= j < |bs[i].sp2s| ==> NonEmptyRuns(bs[i].sp2s[j].runs)
    requires k in m && forall i :: 0 <= i < |bs| ==> bs[i].sp1 != k
    ensures k in InsertSp1s(m, bs) && InsertSp1s(m, bs)[k] == m[k]
    decreases |bs|
  {
    if |bs| > 0 {
      var b := bs[0];
      var existing := if b.sp1 in m then m[b.sp1] else map[];
      var m' := m[b.sp1 := InsertSp2s(existing, b.sp2s)];
      assert forall i :: 1 <= i < |bs| ==> bs[1..][i - 1] == bs[i];
      InsertSp1sUnchanged(m', bs[1..], k);
    }
  }

  /** `Ipp::loadPwalns` over the bytes of the file. */
  function LoadPwalns(data: seq<byte>): (r: Result<Loaded, DecodeError>)
    ensures r.Ok? ==> |r.value.chroms| < 0x1_0000 && NoZero(r.value.chroms)
    ensures r.Ok? <==> ParseImage(data).Ok?
  {
    var img :- ParseImage(data);
    Ok(Loaded(img.chroms, InsertSp1s(map[], img.sp1s)))
  }

  /** Loading the bytes of a readable image gives its chromosomes and, for
      each species pair, the run maps built from its runs. */
  lemma LoadSerialized(img: Image)
    requires WellFormed(img)
    ensures LoadPwalns(Serialize(img)) == Ok(Loaded(img.chroms, InsertSp1s(map[], img.sp1s)))
  {
    ParseSerialize(img);
  }

  /** A readable image has no empty run anywhere. */
  lemma WellFormedNonEmpty(img: Image)
    requires WellFormed(img)
    ensures forall i :: 0 <= i < |img.sp1s| ==> forall j :: 0 <= j < |img.sp1s[i].sp2s| ==> NonEmptyRuns(img.sp1s[i].sp2s[j].runs)
  {
    forall i, j | 0 <= i < |img.sp1s| && 0 <= j < |img.sp1s[i].sp2s|
      ensures NonEmptyRuns(img.sp1s[i].sp2s[j].runs)
    {
      assert Sp1Ok(img.sp1s[i]);
      assert Sp2Ok(img.sp1s[i].sp2s[j]);
    }
  }

  /** The primary keys of a loaded readable image are exactly the primary
      names read. */
  lemma LoadedSp1Keys(img: Image)
    requires WellFormed(img)
    ensures InsertSp1s(map[], img.sp1s).Keys == set i | 0 <= i < |img.sp1s| :: img.sp1s[i].sp1
  {
    WellFormedNonEmpty(img);
    InsertSp1sKeys(map[], img.sp1s);
  }

  /** Under a primary name read once, the secondary keys are exactly the
      secondary names of its block. */
  lemma LoadedSp2Keys(img: Image, i: nat)
    requires WellFormed(img) && i < |img.sp1s|
    requires forall k :: 0 <= k < |img.sp1s| && k != i ==> img.sp1s[k].sp1 != img.sp1s[i].sp1
    ensures img.sp1s[i].sp1 in InsertSp1s(map[], img.sp1s)
    ensures InsertSp1s(map[], img.sp1s)[img.sp1s[i].sp1].Keys
            == set j | 0 <= j < |img.sp1s[i].sp2s| :: img.sp1s[i].sp2s[j].sp2
  {
    WellFormedNonEmpty(img);
    InsertSp1sUnique(map[], img.sp1s, i);
    InsertSp2sKeys(map[], img.sp1s[i].sp2s);
  }


  /** When a species pair's names occur once each, the loaded map files
      that pair's runs, and nothing else, under the two names. */
  lemma LoadedRuns(img: Image, i: nat, j: nat)
    requires WellFormed(img)
    requires i < |img.sp1s| && j < |img.sp1s[i].sp2s|
    requires forall k :: 0 <= k < |img.sp1s| && k != i ==> img.sp1s[k].sp1 != img.sp1s[i].sp1
    requires forall l :: 0 <= l < |img.sp1s[i].sp2s| && l != j ==> img.sp1s[i].sp2s[l].sp2 != img.sp1s[i].sp2s[j].sp2
    ensures NonEmptyRuns(img.sp1s[i].sp2s[j].runs)
    ensures var pw := InsertSp1s(map[], img.sp1s);
            && img.sp1s[i].sp1 in pw && img.sp1s[i].sp2s[j].sp2 in pw[img.sp1s[i].sp1]
            && pw[img.sp1s[i].sp1][img.sp1s[i].sp2s[j].sp2] == InsertRuns(map[], img.sp1s[i].sp2s[j].runs)
  {
    var b := img.sp1s[i];
    WellFormedNonEmpty(img);
    InsertSp1sUnique(map[], img.sp1s, i);
    InsertSp2sUnique(map[], b.sp2s, j);
  }

  /** Bytes left after the grammar is complete are rejected. */
  lemma TrailingBytesRejected(img: Image, extra: seq<byte>)
    requires WellFormed(img)
    requires |extra| > 0
    ensures ParseImage(Serialize(img) + extra) == Err(RemainingData)
  {
    ReadImagePrefix(img, extra);
  }
}
