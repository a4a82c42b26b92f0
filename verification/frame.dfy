/**
 * The stream codec. Decoding runs the wire decoder (a parameter here: it
 * is not part of this model) on the whole buffered input and either
 * yields one value and drops exactly the bytes it used, or keeps the
 * buffer, or reports invalid data. Encoding appends a reply's wire bytes.
 */
module Frame {
  import opened Wrappers
  import opened Bytes
  import opened Resp
  import opened Errors

  /** The wire decoder's answer for a buffer: a value and the bytes it used, or an error. */
  type WireDecoder = seq<byte> -> Result<(RespType, nat), RespError>

  /** The wire encoder of a reply. */
  type Serializer = RespType -> seq<byte>

  /** What one decode call reports, and the buffer it leaves. */
  datatype DecodeStep = DecodeStep(result: Result<Option<RespType>, IoError>, buffer: seq<byte>)

  /** The decoder never claims more bytes than it was given. */
  predicate ConsumesWithin(parse: WireDecoder, buf: seq<byte>)
  {
    parse(buf).Ok? ==> parse(buf).value.1 <= |buf|
  }

  function Decode(buf: seq<byte>, parse: WireDecoder): (r: DecodeStep)
    requires |buf| > 0 ==> ConsumesWithin(parse, buf)
    ensures |buf| == 0 ==> r == DecodeStep(Ok(None), buf)
    ensures r.result.Ok? && r.result.value.Some? ==>
      && |buf| > 0 && parse(buf).Ok?
      && r.result.value.value == parse(buf).value.0
      && buf == buf[..parse(buf).value.1] + r.buffer
    ensures r.result.Ok? && r.result.value.None? ==> r.buffer == buf
    ensures r.result.Ok? && r.result.value.None? && |buf| > 0 ==> parse(buf) == Err(Incomplete)
    ensures r.result.Err? ==>
      && r.buffer == buf && |buf| > 0
      && parse(buf).Err? && !parse(buf).error.Incomplete?
      && r.result.error == IoError(InvalidData, parse(buf).error.msg)
    ensures |r.buffer| <= |buf|
  {
    if |buf| == 0 then DecodeStep(Ok(None), buf)
    else
      match parse(buf)
      case Ok((value, consumed)) => DecodeStep(Ok(Some(value)), buf[consumed..])
      case Err(Incomplete) => DecodeStep(Ok(None), buf)
      case Err(e) => DecodeStep(Err(IoError(InvalidData, ErrorText(e))), buf)
  }

  /** Decoding yields a value from this buffer. */
  predicate Yields(buf: seq<byte>, parse: WireDecoder)
    requires |buf| > 0 ==> ConsumesWithin(parse, buf)
  {
    var step := Decode(buf, parse);
    step.result.Ok? && step.result.value.Some?
  }

  /**
   * Two decodes in a row that each yield a value lose and reorder nothing:
   * the input is the first value's bytes, then the second's, then what is
   * left in the buffer.
   */
  lemma DecodeTwice(buf: seq<byte>, parse: WireDecoder)
    requires |buf| > 0 ==> ConsumesWithin(parse, buf)
    requires Yields(buf, parse)
    requires |Decode(buf, parse).buffer| > 0 ==> ConsumesWithin(parse, Decode(buf, parse).buffer)
    requires Yields(Decode(buf, parse).buffer, parse)
    ensures var first := Decode(buf, parse).buffer;
            var n1 := parse(buf).value.1;
            var n2 := parse(first).value.1;
            && Decode(first, parse).buffer == buf[n1 + n2..]
            && buf == buf[..n1] + first[..n2] + Decode(first, parse).buffer
  {
    var first := Decode(buf, parse).buffer;
    var n1 := parse(buf).value.1;
    var n2 := parse(first).value.1;
    assert first == buf[n1..];
    assert Decode(first, parse).buffer == first[n2..];
    SplitTwice(buf, n1, n2);
  }

  /** Cutting a prefix and then a prefix of the rest is cutting both at once. */
  lemma SplitTwice(s: seq<byte>, n1: nat, n2: nat)
    requires n1 <= |s| && n2 <= |s| - n1
    ensures s[n1..][n2..] == s[n1 + n2..]
    ensures s == s[..n1] + s[n1..][..n2] + s[n1 + n2..]
  {
    assert s[n1..] == s[n1..][..n2] + s[n1..][n2..];
  }

  /** The decoder never claims more bytes than it was given, on any buffer. */
  ghost predicate WellBehaved(parse: WireDecoder)
  {
    forall b: seq<byte> :: ConsumesWithin(parse, b)
  }

  /** What a run of decode steps yields: the values, the bytes each used, and the buffer left. */
  datatype Frames = Frames(values: seq<RespType>, chunks: seq<seq<byte>>, rest: seq<byte>)

  /** The byte strings of `chunks`, concatenated in order. */
  function Flatten(chunks: seq<seq<byte>>): seq<byte>
    decreases |chunks|
  {
    if |chunks| == 0 then [] else chunks[0] + Flatten(chunks[1..])
  }

  /**
   * Up to `n` decode calls on a buffer, as the framed stream makes them:
   * each call that yields a value is followed by the next on the buffer it
   * leaves, and the run stops at the first call that yields nothing.
   */
  function DecodeMany(buf: seq<byte>, parse: WireDecoder, n: nat): (r: Frames)
    requires WellBehaved(parse)
    ensures |r.values| == |r.chunks| <= n
    ensures |r.rest| <= |buf|
    ensures n > 0 && Yields(buf, parse) ==> |r.values| > 0 && r.values[0] == parse(buf).value.0
    ensures !Yields(buf, parse) ==> r == Frames([], [], buf)
    decreases n
  {
    if n == 0 then Frames([], [], buf)
    else
      var step := Decode(buf, parse);
      if step.result.Ok? && step.result.value.Some? then
        var more := DecodeMany(step.buffer, parse, n - 1);
        Frames([step.result.value.value] + more.values, [buf[..parse(buf).value.1]] + more.chunks, more.rest)
      else Frames([], [], buf)
  }

  /**
   * However many values a run of decodes yields, no input byte is lost or
   * reordered: the input is the consumed chunks in order, then the buffer left.
   */
  lemma {:induction false} DecodeManyConserves(buf: seq<byte>, parse: WireDecoder, n: nat)
    requires WellBehaved(parse)
    ensures buf == Flatten(DecodeMany(buf, parse, n).chunks) + DecodeMany(buf, parse, n).rest
    decreases n
  {
    if n > 0 && Yields(buf, parse) {
      var step := Decode(buf, parse);
      var more := DecodeMany(step.buffer, parse, n - 1);
      DecodeManyConserves(step.buffer, parse, n - 1);
      var chunk := buf[..parse(buf).value.1];
      assert DecodeMany(buf, parse, n).chunks == [chunk] + more.chunks;
      assert Flatten([chunk] + more.chunks) == chunk + Flatten(more.chunks) by {
        assert ([chunk] + more.chunks)[1..] == more.chunks;
      }
    }
  }

  /**
   * A decoder that reads back every encoded value, whatever follows it,
   * decodes the concatenated replies into the same values in the same
   * order and leaves exactly the trailing bytes.
   */
  lemma {:induction false} EncodeDecodeRoundTrip(items: seq<RespType>, rest: seq<byte>, parse: WireDecoder, toBytes: Serializer)
    requires WellBehaved(parse)
    requires forall v: RespType :: |toBytes(v)| > 0
    requires forall v: RespType, tail: seq<byte> :: parse(toBytes(v) + tail) == Ok((v, |toBytes(v)|))
    ensures DecodeMany(WireOf(items, toBytes) + rest, parse, |items|).values == items
    ensures DecodeMany(WireOf(items, toBytes) + rest, parse, |items|).rest == rest
    decreases |items|
  {
    if |items| > 0 {
      var head := toBytes(items[0]);
      var tail := WireOf(items[1..], toBytes) + rest;
      var buf := WireOf(items, toBytes) + rest;
      assert buf == head + tail;
      assert parse(head + tail) == Ok((items[0], |head|));
      assert Decode(buf, parse).buffer == tail;
      EncodeDecodeRoundTrip(items[1..], rest, parse, toBytes);
      assert [items[0]] + items[1..] == items;
    }
  }

  function Encode(item: RespType, dst: seq<byte>, toBytes: Serializer): (r: seq<byte>)
    ensures |r| == |dst| + |toBytes(item)|
    ensures r[..|dst|] == dst
    ensures r[|dst|..] == toBytes(item)
  {
    dst + toBytes(item)
  }

  /** Encodes replies in order after `dst`. */
  function EncodeAll(items: seq<RespType>, dst: seq<byte>, toBytes: Serializer): (r: seq<byte>)
    ensures |dst| <= |r| && r[..|dst|] == dst
    decreases |items|
  {
    if |items| == 0 then dst
    else EncodeAll(items[1..], Encode(items[0], dst, toBytes), toBytes)
  }

  /** The wire bytes of the replies, concatenated in order. */
  function WireOf(items: seq<RespType>, toBytes: Serializer): seq<byte>
    decreases |items|
  {
    if |items| == 0 then [] else toBytes(items[0]) + WireOf(items[1..], toBytes)
  }

  /** Encoding replies one at a time writes their bytes in reply order, behind what was there. */
  lemma {:induction false} EncodeAllInOrder(items: seq<RespType>, dst: seq<byte>, toBytes: Serializer)
    ensures EncodeAll(items, dst, toBytes) == dst + WireOf(items, toBytes)
    decreases |items|
  {
    if |items| > 0 {
      var next := Encode(items[0], dst, toBytes);
      EncodeAllInOrder(items[1..], next, toBytes);
      assert dst + toBytes(items[0]) + WireOf(items[1..], toBytes)
          == dst + (toBytes(items[0]) + WireOf(items[1..], toBytes));
    }
  }
}
