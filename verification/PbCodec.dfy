/** The encoder and the decoder of nanopb together. */
module PbCodec {
  import opened Bytes
  import opened PbWire
  import opened PbMessage
  import opened PbEncoder
  import opened PbDecoder
  import PbStream
  import PbRoundTrip

  /** pb_get_encoded_size, then pb_encode into a buffer of exactly that size. */
  method EncodeExactly(fields: seq<Field>, cells: seq<Cell>) returns (ok: bool, bytes: seq<byte>)
    requires WellFormed(fields) && Fits(fields, cells) && |EncMessage(fields, cells)| < TWO_64
    ensures ok && bytes == EncMessage(fields, cells)
  {
    WellFormedIsSendable(fields);
    FitsIsBounded(fields, cells);
    var sized, size := GetEncodedSize(fields, cells);
    var buf := new byte[size];
    var stream := new OStream(false, buf, 0, size);
    var written := EncodeMessage(stream, fields, cells);
    assert buf[..] == buf[0..stream.pos];
    return sized && written, buf[..];
  }

  /** What is encoded and read back comes back as it was, up to what the wire format does not carry. */
  method Transmit(fields: seq<Field>, cells: seq<Cell>) returns (ok: bool, copy: seq<Cell>)
    requires WellFormed(fields) && Checkable(fields) && Fits(fields, cells) && |EncMessage(fields, cells)| < TWO_32
    ensures ok && copy == PbRoundTrip.CanonMessage(fields, cells)
  {
    var encoded, bytes := EncodeExactly(fields, cells);
    PbRoundTrip.RoundTrip(fields, cells);
    var stream := new PbStream.IStream(bytes, 0, |bytes|);
    assert stream.Rest() == bytes;
    ok, copy := Decode(stream, fields);
    ok := ok && encoded;
  }
}
