/** The primitive fields of the pairwise-alignment file: fixed-width unsigned
    integers (little-endian) and zero-terminated strings, with the writer's
    range check and the reader's end-of-input check. */
module Wire {
  import opened Wrappers

  type byte = b: int | 0 <= b < 256

  /** A chromosome or species name, as the bytes of its encoded form. */
  type Name = seq<byte>

  /** Why the converter aborts: a value that does not fit its field. */
  datatype EncodeError = RangeOverflow(value: int, width: nat)

  /** Why the reader aborts: "Unexpected EOF", "Remaining data at EOF", or a
      run that announces zero records (the reader would index its first one). */
  datatype DecodeError = UnexpectedEof | RemainingData | EmptyRun

  /** 2^(8·width): the first value a field of `width` bytes cannot hold. */
  function Pow256(width: nat): (p: nat)
    ensures p >= 1
    ensures width >= 1 ==> p >= 256
    ensures width == 1 ==> p == 0x100
    ensures width == 2 ==> p == 0x1_0000
    ensures width == 3 ==> p == 0x100_0000
    ensures width == 4 ==> p == 0x1_0000_0000
  {
    if width == 0 then 1 else 256 * Pow256(width - 1)
  }

  /** The `width` low-order bytes of `v`, least significant first. */
  function EncodeLE(v: nat, width: nat): (bs: seq<byte>)
    ensures |bs| == width
  {
    if width == 0 then [] else [v % 256] + EncodeLE(v / 256, width - 1)
  }

  /** The unsigned value of little-endian bytes. */
  function DecodeLE(bs: seq<byte>): (v: nat)
    ensures v < Pow256(|bs|)
  {
    if |bs| == 0 then 0 else bs[0] + 256 * DecodeLE(bs[1..])
  }

  lemma {:induction false} DecodeEncodeLE(v: nat, width: nat)
    requires v < Pow256(width)
    ensures DecodeLE(EncodeLE(v, width)) == v
  {
    if width > 0 {
      var bs := EncodeLE(v, width);
      assert bs[1..] == EncodeLE(v / 256, width - 1);
      DecodeEncodeLE(v / 256, width - 1);
    }
  }

  lemma {:induction false} EncodeDecodeLE(bs: seq<byte>)
    ensures EncodeLE(DecodeLE(bs), |bs|) == bs
  {
    if |bs| > 0 {
      var v := DecodeLE(bs);
      assert v % 256 == bs[0] && v / 256 == DecodeLE(bs[1..]);
      EncodeDecodeLE(bs[1..]);
    }
  }

  /** Little-endian encoding is injective for a fixed width. */
  lemma EncodeLEInjective(a: nat, b: nat, width: nat)
    requires a < Pow256(width) && b < Pow256(width)
    requires EncodeLE(a, width) == EncodeLE(b, width)
    ensures a == b
  {
    DecodeEncodeLE(a, width);
    DecodeEncodeLE(b, width);
  }

  /** `write_int(i, length)`: fails unless 0 <= i < 2^(8·length), otherwise
      emits exactly `length` bytes from which `i` is recovered. */
  function WriteInt(i: int, width: nat): (r: Result<seq<byte>, EncodeError>)
    ensures r.Ok? <==> 0 <= i < Pow256(width)
    ensures r.Ok? ==> |r.value| == width && DecodeLE(r.value) == i
    ensures r.Err? ==> r.error == RangeOverflow(i, width)
  {
    if 0 <= i < Pow256(width) then
      DecodeEncodeLE(i, width);
      Ok(EncodeLE(i, width))
    else
      Err(RangeOverflow(i, width))
  }

  /** `write_str(s)`: the bytes of the name and one zero terminator. Nothing
      rejects a zero byte inside the name. */
  function WriteStr(s: Name): seq<byte>
  {
    s + [0]
  }

  /** `readInt<T>`: consumes exactly `width` bytes, or fails on short input. */
  function ReadInt(data: seq<byte>, width: nat): (r: Result<(nat, seq<byte>), DecodeError>)
    ensures r.Ok? <==> width <= |data|
    ensures r.Ok? ==> r.value.0 < Pow256(width)
    ensures r.Ok? ==> EncodeLE(r.value.0, width) + r.value.1 == data
    ensures r.Err? ==> r.error == UnexpectedEof
  {
    if width <= |data| then
      EncodeDecodeLE(data[..width]);
      assert data == data[..width] + data[width..];
      Ok((DecodeLE(data[..width]), data[width..]))
    else
      Err(UnexpectedEof)
  }

  /** Index of the first zero byte, if any. */
  function FindZero(data: seq<byte>): (k: Option<nat>)
    ensures k.Some? ==> k.value < |data| && data[k.value] == 0 && 0 !in data[..k.value]
    ensures k.None? <==> 0 !in data
  {
    if |data| == 0 then None
    else if data[0] == 0 then Some(0)
    else
      match FindZero(data[1..])
      case None => None
      case Some(k) =>
        assert data[..k + 1] == [data[0]] + data[1..][..k];
        Some(k + 1)
  }

  /** `readString`: the bytes before the first zero byte, consuming the zero
      too; "Unexpected EOF" when no zero byte remains. */
  function ReadString(data: seq<byte>): (r: Result<(Name, seq<byte>), DecodeError>)
    ensures r.Ok? <==> 0 in data
    ensures r.Ok? ==> 0 !in r.value.0 && WriteStr(r.value.0) + r.value.1 == data
    ensures r.Err? ==> r.error == UnexpectedEof
  {
    match FindZero(data)
    case None => Err(UnexpectedEof)
    case Some(k) =>
      assert data == data[..k] + [0] + data[k + 1..];
      Ok((data[..k], data[k + 1..]))
  }

  lemma ReadIntWriteInt(v: nat, width: nat, rest: seq<byte>)
    requires v < Pow256(width)
    ensures ReadInt(EncodeLE(v, width) + rest, width) == Ok((v, rest))
  {
    var data := EncodeLE(v, width) + rest;
    var r := ReadInt(data, width);
    assert r.Ok?;
    EncodeLEInjective(r.value.0, v, width);
  }

  /** Splitting a byte sequence at a zero terminator is unique when the prefix
      holds no zero byte. */
  lemma {:induction false} StrSplitUnique(a: Name, b: Name, ra: seq<byte>, rb: seq<byte>)
    requires 0 !in a && 0 !in b
    requires WriteStr(a) + ra == WriteStr(b) + rb
    ensures a == b && ra == rb
  {
    var x := WriteStr(a) + ra;
    assert x[0] == (if |a| == 0 then 0 else a[0]);
    assert x[0] == (if |b| == 0 then 0 else b[0]);
    if |a| == 0 {
      assert ra == x[1..];
      assert rb == (WriteStr(b) + rb)[1..];
    } else {
      assert WriteStr(a[1..]) + ra == x[1..];
      assert WriteStr(b[1..]) + rb == (WriteStr(b) + rb)[1..];
      StrSplitUnique(a[1..], b[1..], ra, rb);
      assert a == [a[0]] + a[1..];
      assert b == [b[0]] + b[1..];
    }
  }

  /** A name without a zero byte survives `write_str` then `readString`. */
  lemma ReadStringWriteStr(s: Name, rest: seq<byte>)
    requires 0 !in s
    ensures ReadString(WriteStr(s) + rest) == Ok((s, rest))
  {
    var data := WriteStr(s) + rest;
    assert data[|s|] == 0;
    var r := ReadString(data);
    StrSplitUnique(r.value.0, s, r.value.1, rest);
  }

  /** A name holding a zero byte does not survive: the reader stops at its
      first zero `k`, and the rest of the name, with its terminator, is left
      in the stream. With `n == [65, 0, 66]` it reads `[65]` and leaves
      `[66, 0]` before `rest`. */
  lemma EmbeddedZeroBreaksReadString(n: Name, rest: seq<byte>, k: nat)
    requires k < |n| && n[k] == 0 && 0 !in n[..k]
    ensures ReadString(WriteStr(n) + rest) == Ok((n[..k], n[k + 1..] + [0] + rest))
  {
    var data := WriteStr(n) + rest;
    assert data[..k] == n[..k] && data[k] == 0;
    assert data[k + 1..] == n[k + 1..] + [0] + rest;
  }
}
