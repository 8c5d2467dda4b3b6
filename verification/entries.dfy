/** The 20-byte alignment record the native reader bulk-loads: four u32
    coordinates, then the reference and query chromosome ids as u16. */
module Entries {
  import opened Wrappers
  import opened Wire

  type u16 = x: int | 0 <= x < 0x1_0000
  type u32 = x: int | 0 <= x < 0x1_0000_0000

  datatype PwalnEntry = PwalnEntry(
    refStart: u32, refEnd: u32, qryStart: u32, qryEnd: u32,
    refChrom: u16, qryChrom: u16)
  {
    /** The alignment is to the '-' strand of the query: start > end. */
    predicate IsQryReversed() {
      qryStart > qryEnd
    }
  }

  function EncodeEntry(e: PwalnEntry): (bs: seq<byte>)
    ensures |bs| == 20
  {
    EncodeLE(e.refStart, 4) + EncodeLE(e.refEnd, 4) + EncodeLE(e.qryStart, 4) + EncodeLE(e.qryEnd, 4)
      + EncodeLE(e.refChrom, 2) + EncodeLE(e.qryChrom, 2)
  }

  function DecodeEntry(bs: seq<byte>): PwalnEntry
    requires |bs| == 20
  {
    PwalnEntry(DecodeLE(bs[0..4]), DecodeLE(bs[4..8]), DecodeLE(bs[8..12]), DecodeLE(bs[12..16]),
               DecodeLE(bs[16..18]), DecodeLE(bs[18..20]))
  }

  lemma DecodeEncodeEntry(e: PwalnEntry)
    ensures DecodeEntry(EncodeEntry(e)) == e
  {
    var bs := EncodeEntry(e);
    assert bs[0..4] == EncodeLE(e.refStart, 4);
    assert bs[4..8] == EncodeLE(e.refEnd, 4);
    assert bs[8..12] == EncodeLE(e.qryStart, 4);
    assert bs[12..16] == EncodeLE(e.qryEnd, 4);
    assert bs[16..18] == EncodeLE(e.refChrom, 2);
    assert bs[18..20] == EncodeLE(e.qryChrom, 2);
    DecodeEncodeLE(e.refStart, 4);
    DecodeEncodeLE(e.refEnd, 4);
    DecodeEncodeLE(e.qryStart, 4);
    DecodeEncodeLE(e.qryEnd, 4);
    DecodeEncodeLE(e.refChrom, 2);
    DecodeEncodeLE(e.qryChrom, 2);
  }

  /** The bytes of consecutive records, as the converter writes them. */
  function EncodeEntries(es: seq<PwalnEntry>): (bs: seq<byte>)
    ensures |bs| == 20 * |es|
  {
    if |es| == 0 then [] else EncodeEntry(es[0]) + EncodeEntries(es[1..])
  }

  /** The `n` records of a block of `n` 20-byte chunks. */
  function DecodeEntries(bs: seq<byte>, n: nat): (es: seq<PwalnEntry>)
    requires |bs| == 20 * n
    ensures |es| == n
  {
    if n == 0 then [] else [DecodeEntry(bs[..20])] + DecodeEntries(bs[20..], n - 1)
  }

  lemma {:induction false} DecodeEncodeEntries(es: seq<PwalnEntry>)
    ensures DecodeEntries(EncodeEntries(es), |es|) == es
  {
    if |es| > 0 {
      var bs := EncodeEntries(es);
      assert bs[..20] == EncodeEntry(es[0]);
      assert bs[20..] == EncodeEntries(es[1..]);
      DecodeEncodeEntry(es[0]);
      DecodeEncodeEntries(es[1..]);
    }
  }

  lemma EncodeDecodeEntry(bs: seq<byte>)
    requires |bs| == 20
    ensures EncodeEntry(DecodeEntry(bs)) == bs
  {
    var e := DecodeEntry(bs);
    EncodeDecodeLE(bs[0..4]);
    EncodeDecodeLE(bs[4..8]);
    EncodeDecodeLE(bs[8..12]);
    EncodeDecodeLE(bs[12..16]);
    EncodeDecodeLE(bs[16..18]);
    EncodeDecodeLE(bs[18..20]);
    assert EncodeLE(e.refStart, 4) == bs[0..4] && EncodeLE(e.refEnd, 4) == bs[4..8];
    assert EncodeLE(e.qryStart, 4) == bs[8..12] && EncodeLE(e.qryEnd, 4) == bs[12..16];
    assert EncodeLE(e.refChrom, 2) == bs[16..18] && EncodeLE(e.qryChrom, 2) == bs[18..20];
    assert bs[0..8] == bs[0..4] + bs[4..8];
    assert bs[0..12] == bs[0..8] + bs[8..12];
    assert bs[0..16] == bs[0..12] + bs[12..16];
    assert bs[0..18] == bs[0..16] + bs[16..18];
    assert bs == bs[0..18] + bs[18..20];
  }

  lemma {:induction false} EncodeDecodeEntries(bs: seq<byte>, n: nat)
    requires |bs| == 20 * n
    ensures EncodeEntries(DecodeEntries(bs, n)) == bs
  {
    if n > 0 {
      var head, tail := bs[..20], bs[20..];
      var es := DecodeEntries(bs, n);
      assert es[0] == DecodeEntry(head) && es[1..] == DecodeEntries(tail, n - 1);
      EncodeDecodeEntry(head);
      EncodeDecodeEntries(tail, n - 1);
      assert bs == head + tail;
    }
  }

  /** The bulk read of `n` records (ipp.cpp:105-110): fails with "Unexpected
      EOF" unless 20·n bytes remain, and consumes exactly those. */
  function ReadEntries(data: seq<byte>, n: nat): (r: Result<(seq<PwalnEntry>, seq<byte>), DecodeError>)
    ensures r.Ok? <==> 20 * n <= |data|
    ensures r.Ok? ==> |r.value.0| == n && r.value.1 == data[20 * n..]
    ensures r.Ok? ==> EncodeEntries(r.value.0) + r.value.1 == data
    ensures r.Err? ==> r.error == UnexpectedEof
  {
    if 20 * n <= |data| then
      EncodeDecodeEntries(data[..20 * n], n);
      assert data == data[..20 * n] + data[20 * n..];
      Ok((DecodeEntries(data[..20 * n], n), data[20 * n..]))
    else
      Err(UnexpectedEof)
  }

  lemma ReadEntriesEncoded(es: seq<PwalnEntry>, rest: seq<byte>)
    ensures ReadEntries(EncodeEntries(es) + rest, |es|) == Ok((es, rest))
  {
    var data := EncodeEntries(es) + rest;
    assert data[..20 * |es|] == EncodeEntries(es);
    assert data[20 * |es|..] == rest;
    DecodeEncodeEntries(es);
  }
}
