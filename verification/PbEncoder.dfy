/**
  The message encoder of nanopb (pb_encode.c). A stream either writes into a buffer or
  only counts; a submessage is counted first and then written through a substream that
  allows exactly the counted size. Every operation is proved to write, or count, the wire
  form of module PbMessage, and to fail exactly if the value does not respect its own
  descriptor or the buffer is too small.
 */
module PbEncoder {
  import opened Bytes
  import opened PbWire
  import opened PbMessage
  import opened PbIterator

  // ----- what the encoder accepts -----

  /** Tags that the wire format can carry, at every level. */
  ghost predicate SendableField(f: Field)
    decreases f, 1
  {
    1 <= f.tag < 0x2000_0000 && (f.ltype.Submessage? ==> Sendable(f.sub))
  }

  ghost predicate Sendable(fields: seq<Field>)
    decreases fields, 0
  {
    forall k :: 0 <= k < |fields| ==> SendableField(fields[k])
  }

  /** The storage of one item: typed, but with sizes and counts that are not yet checked. */
  ghost predicate ShapedValue(f: Field, v: Value)
    decreases v, 1
  {
    match f.ltype
    case Varint => v.Int? && (IntegerSize(f.dataSize) ==> InSigned(f.dataSize, v.i))
    case UVarint => v.Int? && (IntegerSize(f.dataSize) ==> InUnsigned(f.dataSize, v.i))
    case SVarint => v.Int? && (IntegerSize(f.dataSize) ==> InSigned(f.dataSize, v.i))
    case Fixed32 => v.Int? && 0 <= v.i < TWO_32
    case Fixed64 => v.Int? && 0 <= v.i < TWO_64
    case ByteArray => v.Raw?
    case String => v.Raw?
    case FixedLengthBytes => v.Raw? && |v.bytes| == f.dataSize
    case Submessage => v.Msg? && Shaped(f.sub, v.cells)
  }

  ghost predicate ShapedCell(f: Field, c: Cell)
    decreases c, 2
  {
    match f.htype
    case Required => c.One? && ShapedValue(f, c.v)
    case Singular => c.One? && ShapedValue(f, c.v) && !f.ltype.Submessage?
    case Optional => c.Opt? && ShapedValue(f, c.v)
    case Repeated => c.Many? && forall j :: 0 <= j < |c.items| ==> ShapedValue(f, c.items[j])
    case Oneof => c.Arm? && (c.arm.Some? ==> ShapedValue(f, c.arm.value))
  }

  ghost predicate Shaped(fields: seq<Field>, cells: seq<Cell>)
    decreases cells, 0
  {
    |cells| == |fields| && forall k :: 0 <= k < |fields| ==> ShapedCell(fields[k], cells[k])
  }

  /** The sizes the encoder checks, in the parts that are sent. */
  ghost predicate BoundedValue(f: Field, v: Value)
    decreases v, 1
  {
    match f.ltype
    case Varint => IntegerSize(f.dataSize)
    case UVarint => IntegerSize(f.dataSize)
    case SVarint => IntegerSize(f.dataSize)
    case ByteArray => |BytesOf(v)| + BYTES_HEADER <= f.dataSize
    case Submessage => v.Msg? && Bounded(f.sub, v.cells, 0)
    case _ => true
  }

  ghost predicate BoundedItems(f: Field, items: seq<Value>)
    decreases items, 2
  {
    forall j :: 0 <= j < |items| ==> BoundedValue(f, items[j])
  }

  ghost predicate BoundedCell(f: Field, c: Cell)
    decreases c, 3
  {
    match c
    case Many(items) => |items| <= f.arraySize && BoundedItems(f, items)
    case One(v) => Present(f, c) ==> BoundedValue(f, v)
    case Opt(_, v) => Present(f, c) ==> BoundedValue(f, v)
    case Arm(Some(v)) => Present(f, c) ==> BoundedValue(f, v)
    case Arm(None) => true
  }

  /** Fields k, k + 1, ... of a message. */
  ghost predicate Bounded(fields: seq<Field>, cells: seq<Cell>, k: nat)
    decreases cells, 0
  {
    |cells| == |fields| && forall i :: k <= i < |fields| ==> BoundedCell(fields[i], cells[i])
  }

  // ----- the output stream -----

  /**
    pb_ostream_t: a stream without a callback only counts. `log` is what went through the
    stream since it was opened, whether it was stored or only counted.
   */
  class OStream {
    const sizing: bool
    const buf: array<byte>
    const start: nat
    const maxSize: nat
    var pos: nat
    var written: nat
    ghost var log: seq<byte>
    ghost const before: seq<byte>
    ghost const after: seq<byte>

    /**
      A writing stream has stored its log; nothing outside the part of the buffer given to
      the stream has changed since it was opened.
     */
    ghost predicate Valid()
      reads this, buf
    {
      && written == |log| && start + maxSize <= buf.Length
      && (if sizing then pos == start && maxSize == 0
          else written <= maxSize && pos == start + written && buf[start..pos] == log)
      && buf[..start] == before && buf[start + maxSize..] == after
    }

    constructor (sizing: bool, buf: array<byte>, start: nat, maxSize: nat)
      requires start + maxSize <= buf.Length && (sizing ==> maxSize == 0)
      ensures this.sizing == sizing && this.buf == buf && this.start == start && this.maxSize == maxSize
      ensures Valid() && log == [] && before == buf[..start] && after == buf[start + maxSize..]
    {
      this.sizing, this.buf, this.start, this.maxSize, this.pos, this.written := sizing, buf, start, maxSize, start, 0;
      log, before, after := [], buf[..start], buf[start + maxSize..];
    }

    /** There is room for n more bytes. */
    ghost predicate Room(n: nat)
      reads this
    {
      sizing || written + n <= maxSize
    }

    /** pb_write, with the copy loop of buf_write. */
    method Write(bytes: seq<byte>) returns (ok: bool)
      requires Valid()
      modifies this, buf
      ensures Valid() && ok == old(Room(|bytes|))
      ensures ok ==> log == old(log) + bytes
    {
      if !sizing {
        if written + |bytes| > maxSize {
          return false;
        }
        Copy(bytes);
        pos := pos + |bytes|;
      }
      written := written + |bytes|;
      log := log + bytes;
      ok := true;
    }

    method Copy(bytes: seq<byte>)
      requires pos + |bytes| <= buf.Length
      modifies buf
      ensures buf[..] == old(buf[..pos]) + bytes + old(buf[pos + |bytes|..])
    {
      var i: nat := 0;
      while i < |bytes|
        invariant i <= |bytes|
        invariant forall k :: 0 <= k < i ==> buf[pos + k] == bytes[k]
        invariant forall k :: 0 <= k < pos || pos + i <= k < buf.Length ==> buf[k] == old(buf[k])
      {
        buf[pos + i] := bytes[i];
        i := i + 1;
      }
    }

    /** pb_write on a counting stream that was told a size and no bytes. */
    method Count(n: nat, ghost bytes: seq<byte>)
      requires Valid() && sizing && n == |bytes|
      modifies this
      ensures Valid() && log == old(log) + bytes
    {
      written := written + n;
      log := log + bytes;
    }

    /** pb_encode_varint. */
    method EncodeVarint(v: uint64) returns (ok: bool)
      requires Valid()
      modifies this, buf
      ensures Valid() && ok == old(Room(|EncVarint(v)|))
      ensures ok ==> log == old(log) + EncVarint(v)
    {
      var bytes := EncodeVarintBytes(v);
      ok := Write(bytes);
    }

    /** pb_encode_string. */
    method EncodeString(bytes: seq<byte>) returns (ok: bool)
      requires Valid() && |bytes| < TWO_64
      modifies this, buf
      ensures Valid() && ok == old(Room(|EncBlock(bytes)|))
      ensures ok ==> log == old(log) + EncBlock(bytes)
    {
      ok := EncodeVarint(|bytes|);
      if ok {
        ok := Write(bytes);
      }
    }
  }

  // ----- items -----

  lemma Joined(l: seq<byte>, a: seq<byte>, b: seq<byte>)
    ensures (l + a) + b == l + (a + b)
  {
  }

  /** The scan of pb_enc_string for the terminator, within the storage of the field. */
  method StringLength(f: Field, bytes: seq<byte>) returns (size: nat)
    ensures size <= |bytes| && bytes[..size] == StringOf(f, Raw(bytes))
  {
    ghost var whole := if |bytes| > f.dataSize then bytes[..f.dataSize] else bytes;
    size := 0;
    while size < f.dataSize && size < |bytes| && bytes[size] != 0
      invariant size <= |whole| && forall i :: 0 <= i < size ==> whole[i] != 0
    {
      size := size + 1;
    }
    assert |CString(whole)| == size;
  }

  /** pb_enc_varint, pb_enc_uvarint and pb_enc_svarint. */
  method EncodeInteger(stream: OStream, f: Field, v: Value) returns (ok: bool)
    requires stream.Valid() && ShapedValue(f, v) && (f.ltype.Varint? || f.ltype.UVarint? || f.ltype.SVarint?)
    modifies stream, stream.buf
    ensures stream.Valid() && ok == (BoundedValue(f, v) && old(stream.Room(|EncValue(f, v)|)))
    ensures ok ==> stream.log == old(stream.log) + EncValue(f, v)
  {
    if !IntegerSize(f.dataSize) {
      return false;
    }
    var word := if f.ltype.UVarint? then v.i else if f.ltype.Varint? then ToUnsigned(v.i) else Zigzag(v.i);
    IntegerBytes(f, v, word);
    ok := stream.EncodeVarint(word);
  }

  lemma IntegerBytes(f: Field, v: Value, word: uint64)
    requires ShapedValue(f, v) && (f.ltype.Varint? || f.ltype.UVarint? || f.ltype.SVarint?) && IntegerSize(f.dataSize)
    requires word == if f.ltype.UVarint? then v.i else if f.ltype.Varint? then ToUnsigned(v.i) else Zigzag(v.i)
    ensures EncValue(f, v) == EncVarint(word) && BoundedValue(f, v)
  {
    if !f.ltype.UVarint? {
      SignedBound(f.dataSize, v.i);
      WordOfSigned(v.i);
    }
  }

  /** The item encoders for fixed-width and length-delimited data. */
  method EncodeBytes(stream: OStream, f: Field, v: Value) returns (ok: bool)
    requires stream.Valid() && ShapedValue(f, v) && |EncValue(f, v)| < TWO_64
    requires !(f.ltype.Varint? || f.ltype.UVarint? || f.ltype.SVarint? || f.ltype.Submessage?)
    modifies stream, stream.buf
    ensures stream.Valid() && ok == (BoundedValue(f, v) && old(stream.Room(|EncValue(f, v)|)))
    ensures ok ==> stream.log == old(stream.log) + EncValue(f, v)
  {
    match f.ltype {
      case Fixed32 =>
        ok := stream.Write(LittleEndian(v.i, 4));
      case Fixed64 =>
        ok := stream.Write(LittleEndian(v.i, 8));
      case ByteArray =>
        if |v.bytes| + BYTES_HEADER > f.dataSize {
          return false;
        }
        ok := stream.EncodeString(v.bytes);
      case String =>
        var size := StringLength(f, v.bytes);
        ok := stream.EncodeString(v.bytes[..size]);
      case FixedLengthBytes =>
        ok := stream.EncodeString(v.bytes[..f.dataSize]);
    }
  }

  method EncodeValue(stream: OStream, f: Field, v: Value) returns (ok: bool)
    requires stream.Valid() && SendableField(f) && ShapedValue(f, v) && |EncValue(f, v)| < TWO_64
    modifies stream, stream.buf
    ensures stream.Valid() && ok == (BoundedValue(f, v) && old(stream.Room(|EncValue(f, v)|)))
    ensures ok ==> stream.log == old(stream.log) + EncValue(f, v)
    decreases v, 1
  {
    if f.ltype.Submessage? {
      ok := EncodeSubmessage(stream, f.sub, v.cells);
    } else if f.ltype.Varint? || f.ltype.UVarint? || f.ltype.SVarint? {
      ok := EncodeInteger(stream, f, v);
    } else {
      ok := EncodeBytes(stream, f, v);
    }
  }

  /**
    pb_encode_submessage: count, write the count, then write through a substream that
    allows exactly the count. The two passes agree, so "submsg size changed" cannot occur.
   */
  method EncodeSubmessage(stream: OStream, fields: seq<Field>, cells: seq<Cell>) returns (ok: bool)
    requires stream.Valid() && Sendable(fields) && Shaped(fields, cells) && |EncBlock(EncMessage(fields, cells))| < TWO_64
    modifies stream, stream.buf
    ensures stream.Valid()
    ensures ok == (Bounded(fields, cells, 0) && old(stream.Room(|EncBlock(EncMessage(fields, cells))|)))
    ensures ok ==> stream.log == old(stream.log) + EncBlock(EncMessage(fields, cells))
    decreases cells, 2
  {
    ghost var body := EncMessage(fields, cells);
    var counted, size := GetEncodedSize(fields, cells);
    if !counted {
      return false;
    }
    ok := stream.EncodeVarint(size);
    if !ok {
      return false;
    }
    if stream.sizing {
      stream.Count(size, body);
      return true;
    }
    if stream.written + size > stream.maxSize {
      return false;
    }
    var status := WriteThrough(stream, fields, cells, size);
    ok := status;
  }

  /** The writing pass. */
  method WriteThrough(stream: OStream, fields: seq<Field>, cells: seq<Cell>, size: nat) returns (ok: bool)
    requires stream.Valid() && Sendable(fields) && Shaped(fields, cells) && |EncMessage(fields, cells)| == size < TWO_64
    requires !stream.sizing && Bounded(fields, cells, 0) && stream.written + size <= stream.maxSize
    modifies stream, stream.buf
    ensures stream.Valid() && ok && stream.log == old(stream.log) + EncMessage(fields, cells)
    decreases cells, 1, 2
  {
    var sub := new OStream(false, stream.buf, stream.pos, size);
    var status := EncodeMessage(sub, fields, cells);
    assert status && sub.written == size;
    assert stream.buf[stream.start..stream.pos] == stream.buf[..sub.start][stream.start..];
    Adopt(stream, sub);
    ok := status && sub.written == size;
  }

  /** The parent stream takes over what its substream wrote. */
  method Adopt(stream: OStream, sub: OStream)
    requires stream != sub && stream.Valid() && sub.Valid() && !stream.sizing && !sub.sizing && sub.buf == stream.buf
    requires stream.pos == sub.start && stream.written + sub.maxSize <= stream.maxSize
    modifies stream
    ensures stream.Valid() && stream.log == old(stream.log) + sub.log
  {
    stream.written := stream.written + sub.written;
    stream.pos := sub.pos;
    stream.log := stream.log + sub.log;
    assert stream.buf[stream.start..stream.pos] == stream.buf[stream.start..sub.start] + stream.buf[sub.start..sub.pos];
  }

  /** pb_get_encoded_size: a counting pass yields the length of the wire form. */
  method GetEncodedSize(fields: seq<Field>, cells: seq<Cell>) returns (ok: bool, size: nat)
    requires Sendable(fields) && Shaped(fields, cells) && |EncMessage(fields, cells)| < TWO_64
    ensures ok == Bounded(fields, cells, 0)
    ensures ok ==> size == |EncMessage(fields, cells)|
    decreases cells, 1, 1
  {
    var none := new byte[0];
    var stream := new OStream(true, none, 0, 0);
    ok := EncodeMessage(stream, fields, cells);
    size := stream.written;
  }

  // ----- fields and messages -----

  /** Items back to back, or each behind its tag. */
  method EncodeItems(stream: OStream, f: Field, items: seq<Value>, tagged: bool) returns (ok: bool)
    requires stream.Valid() && SendableField(f) && |EncItems(f, items, 0, tagged)| < TWO_64
    requires forall j :: 0 <= j < |items| ==> ShapedValue(f, items[j])
    modifies stream, stream.buf
    ensures stream.Valid() && ok == (BoundedItems(f, items) && old(stream.Room(|EncItems(f, items, 0, tagged)|)))
    ensures ok ==> stream.log == old(stream.log) + EncItems(f, items, 0, tagged)
    decreases items, 2, 2
  {
    ghost var total := stream.log + EncItems(f, items, 0, tagged);
    ok := EncodeItemsTo(stream, f, items, tagged, total);
  }

  /** The loop over the items, towards the bytes that all of them come to. */
  method EncodeItemsTo(stream: OStream, f: Field, items: seq<Value>, tagged: bool, ghost total: seq<byte>) returns (ok: bool)
    requires stream.Valid() && SendableField(f) && |EncItems(f, items, 0, tagged)| < TWO_64
    requires (forall j :: 0 <= j < |items| ==> ShapedValue(f, items[j])) && stream.log + EncItems(f, items, 0, tagged) == total
    modifies stream, stream.buf
    ensures stream.Valid() && ok == (BoundedItems(f, items) && (stream.sizing || |total| <= stream.maxSize))
    ensures ok ==> stream.log == total
    decreases items, 2, 1
  {
    var i: nat := 0;
    ghost var rest := EncItems(f, items, 0, tagged);
    while i < |items|
      invariant i <= |items| && stream.Valid() && ItemsLeft(f, items, i, tagged, rest) && stream.log + rest == total
      invariant |rest| < TWO_64 && forall j :: 0 <= j < i ==> BoundedValue(f, items[j])
    {
      ok, rest := EncodeItemAt(stream, f, items, i, tagged, rest, total);
      if !ok {
        return false;
      }
      i := i + 1;
    }
    NoItemsLeft(f, items, tagged, rest, stream.log);
    ok := true;
  }

  /** Opens the definitions of ItemsLeft and FieldsLeft. */
  ghost predicate Open(x: int) {
    true
  }

  /** The bytes that items i, i + 1, ... come to. */
  ghost predicate ItemsLeft(f: Field, items: seq<Value>, i: nat, tagged: bool, rest: seq<byte>)
    requires i <= |items|
  {
    forall x: int {:trigger Open(x)} :: Open(x) ==> rest == EncItems(f, items, i, tagged)
  }

  lemma NoItemsLeft(f: Field, items: seq<Value>, tagged: bool, rest: seq<byte>, l: seq<byte>)
    requires ItemsLeft(f, items, |items|, tagged, rest)
    ensures l + rest == l
  {
    assert Open(0);
  }

  method EncodeItemAt(stream: OStream, f: Field, items: seq<Value>, i: nat, tagged: bool, ghost rest: seq<byte>, ghost total: seq<byte>)
    returns (ok: bool, ghost rest': seq<byte>)
    requires stream.Valid() && SendableField(f) && i < |items| && ShapedValue(f, items[i])
    requires ItemsLeft(f, items, i, tagged, rest) && |rest| < TWO_64 && stream.log + rest == total
    modifies stream, stream.buf
    ensures stream.Valid() && ItemsLeft(f, items, i + 1, tagged, rest') && |rest'| < TWO_64
    ensures ok ==> BoundedValue(f, items[i]) && stream.log + rest' == total
    ensures !ok ==> !BoundedValue(f, items[i]) || (!stream.sizing && |total| > stream.maxSize)
    decreases items, 2, 0
  {
    rest' := FirstItem(f, items, i, tagged, rest, stream.log);
    ok := EncodeItem(stream, f, items[i], tagged);
  }

  lemma FirstItem(f: Field, items: seq<Value>, i: nat, tagged: bool, rest: seq<byte>, l: seq<byte>) returns (rest': seq<byte>)
    requires i < |items| && ItemsLeft(f, items, i, tagged, rest)
    ensures ItemsLeft(f, items, i + 1, tagged, rest') && l + rest == (l + ItemBytes(f, items[i], tagged)) + rest'
    ensures |rest| == |ItemBytes(f, items[i], tagged)| + |rest'| && |EncValue(f, items[i])| <= |ItemBytes(f, items[i], tagged)|
  {
    assert Open(0);
    rest' := EncItems(f, items, i + 1, tagged);
    ItemFirst(f, items, i, tagged, l);
  }

  lemma ItemFirst(f: Field, items: seq<Value>, i: nat, tagged: bool, l: seq<byte>)
    requires i < |items|
    ensures l + EncItems(f, items, i, tagged) == (l + ItemBytes(f, items[i], tagged)) + EncItems(f, items, i + 1, tagged)
    ensures |EncItems(f, items, i, tagged)| == |ItemBytes(f, items[i], tagged)| + |EncItems(f, items, i + 1, tagged)|
    ensures |EncValue(f, items[i])| <= |ItemBytes(f, items[i], tagged)|
  {
    Joined(l, ItemBytes(f, items[i], tagged), EncItems(f, items, i + 1, tagged));
  }

  /** The bytes of one item. */
  ghost function ItemBytes(f: Field, v: Value, tagged: bool): seq<byte> {
    (if tagged then EncTag(f.tag, WireType(f.ltype)) else []) + EncValue(f, v)
  }

  method EncodeItem(stream: OStream, f: Field, v: Value, tagged: bool) returns (ok: bool)
    requires stream.Valid() && SendableField(f) && |EncValue(f, v)| < TWO_64 && ShapedValue(f, v)
    modifies stream, stream.buf
    ensures stream.Valid() && ok == (BoundedValue(f, v) && old(stream.Room(|ItemBytes(f, v, tagged)|)))
    ensures ok ==> stream.log == old(stream.log) + ItemBytes(f, v, tagged)
    decreases v, 3
  {
    if tagged {
      ok := EncodeTagged(stream, f, v);
    } else {
      assert ItemBytes(f, v, false) == EncValue(f, v);
      ok := EncodeValue(stream, f, v);
    }
  }

  method EncodeTagged(stream: OStream, f: Field, v: Value) returns (ok: bool)
    requires stream.Valid() && SendableField(f) && |EncValue(f, v)| < TWO_64 && ShapedValue(f, v)
    modifies stream, stream.buf
    ensures stream.Valid() && ok == (BoundedValue(f, v) && old(stream.Room(|ItemBytes(f, v, true)|)))
    ensures ok ==> stream.log == old(stream.log) + ItemBytes(f, v, true)
    decreases v, 2
  {
    Joined(stream.log, EncTag(f.tag, WireType(f.ltype)), EncValue(f, v));
    ok := EncodeTag(stream, f);
    if ok {
      ok := EncodeValue(stream, f, v);
    }
  }

  /** pb_encode_tag_for_field. */
  method EncodeTag(stream: OStream, f: Field) returns (ok: bool)
    requires stream.Valid() && SendableField(f)
    modifies stream, stream.buf
    ensures stream.Valid() && ok == old(stream.Room(|EncTag(f.tag, WireType(f.ltype))|))
    ensures ok ==> stream.log == old(stream.log) + EncTag(f.tag, WireType(f.ltype))
  {
    ok := stream.EncodeVarint(8 * f.tag + WireType(f.ltype));
  }

  /** Fixed-width items have a known size, which agrees with a count. */
  lemma {:induction false} FixedItemsSize(f: Field, items: seq<Value>, j: nat)
    requires j <= |items| && (f.ltype.Fixed32? || f.ltype.Fixed64?)
    ensures |EncItems(f, items, j, false)| == (if f.ltype.Fixed32? then 4 else 8) * (|items| - j)
    decreases |items| - j
  {
    if j < |items| {
      FixedItemsSize(f, items, j + 1);
    }
  }

  /** The size of a packed array. */
  method PackedSize(f: Field, items: seq<Value>) returns (ok: bool, size: nat)
    requires Packable(f.ltype) && SendableField(f) && |EncItems(f, items, 0, false)| < TWO_64
    requires forall j :: 0 <= j < |items| ==> ShapedValue(f, items[j])
    ensures ok == BoundedItems(f, items)
    ensures ok ==> size == |EncItems(f, items, 0, false)|
    decreases items, 3, 0
  {
    if f.ltype.Fixed32? {
      FixedItemsSize(f, items, 0);
      return true, 4 * |items|;
    }
    if f.ltype.Fixed64? {
      FixedItemsSize(f, items, 0);
      return true, 8 * |items|;
    }
    var none := new byte[0];
    var sizestream := new OStream(true, none, 0, 0);
    ok := EncodeItems(sizestream, f, items, false);
    size := sizestream.written;
  }

  /** encode_array. */
  method EncodeArray(stream: OStream, f: Field, items: seq<Value>) returns (ok: bool)
    requires stream.Valid() && f.htype.Repeated? && SendableField(f) && |EncField(f, Many(items))| < TWO_64
    requires forall j :: 0 <= j < |items| ==> ShapedValue(f, items[j])
    modifies stream, stream.buf
    ensures stream.Valid()
    ensures ok == (|items| <= f.arraySize && BoundedItems(f, items) && old(stream.Room(|EncField(f, Many(items))|)))
    ensures ok ==> stream.log == old(stream.log) + EncField(f, Many(items))
    decreases items, 4
  {
    if |items| == 0 {
      return true;
    }
    if |items| > f.arraySize {
      return false;
    }
    ArrayBytes(f, items);
    if Packable(f.ltype) {
      ok := EncodePackedField(stream, f, items);
    } else {
      ok := EncodeItems(stream, f, items, true);
    }
  }

  lemma ArrayBytes(f: Field, items: seq<Value>)
    requires f.htype.Repeated? && items != []
    ensures EncField(f, Many(items)) ==
            if Packable(f.ltype) then EncTag(f.tag, 2) + EncBlock(EncItems(f, items, 0, false)) else EncItems(f, items, 0, true)
  {
  }

  /** The tag of a packed array, and the array. */
  method EncodePackedField(stream: OStream, f: Field, items: seq<Value>) returns (ok: bool)
    requires stream.Valid() && Packable(f.ltype) && SendableField(f) && |EncItems(f, items, 0, false)| < TWO_64
    requires forall j :: 0 <= j < |items| ==> ShapedValue(f, items[j])
    modifies stream, stream.buf
    ensures var s := EncTag(f.tag, 2) + EncBlock(EncItems(f, items, 0, false));
            stream.Valid() && ok == (BoundedItems(f, items) && old(stream.Room(|s|))) && (ok ==> stream.log == old(stream.log) + s)
    decreases items, 3, 2
  {
    Joined(stream.log, EncTag(f.tag, 2), EncBlock(EncItems(f, items, 0, false)));
    ok := stream.EncodeVarint(8 * f.tag + 2);
    if !ok {
      return false;
    }
    ok := EncodePacked(stream, f, items);
  }

  method EncodePacked(stream: OStream, f: Field, items: seq<Value>) returns (ok: bool)
    requires stream.Valid() && Packable(f.ltype) && SendableField(f) && |EncItems(f, items, 0, false)| < TWO_64
    requires forall j :: 0 <= j < |items| ==> ShapedValue(f, items[j])
    modifies stream, stream.buf
    ensures var s := EncBlock(EncItems(f, items, 0, false));
            stream.Valid() && ok == (BoundedItems(f, items) && old(stream.Room(|s|))) && (ok ==> stream.log == old(stream.log) + s)
    decreases items, 3, 1
  {
    var sized, size := PackedSize(f, items);
    if !sized {
      return false;
    }
    Joined(stream.log, EncVarint(size), EncItems(f, items, 0, false));
    ok := stream.EncodeVarint(size);
    if !ok {
      return false;
    }
    if stream.sizing {
      stream.Count(size, EncItems(f, items, 0, false));
      return true;
    }
    ok := EncodeItems(stream, f, items, false);
  }

  /** encode_basic_field. */
  method EncodeOneField(stream: OStream, f: Field, c: Cell) returns (ok: bool)
    requires stream.Valid() && ShapedCell(f, c) && SendableField(f) && |EncField(f, c)| < TWO_64
    modifies stream, stream.buf
    ensures stream.Valid() && ok == (BoundedCell(f, c) && old(stream.Room(|EncField(f, c)|)))
    ensures ok ==> stream.log == old(stream.log) + EncField(f, c)
    decreases c, 3
  {
    if f.htype.Repeated? {
      ok := EncodeArray(stream, f, c.items);
      return;
    }
    var has := match f.htype
      case Required => true
      case Singular => !IsZero(f, c.v)
      case Optional => c.has
      case Oneof => c.arm.Some?
      case Repeated => false;
    if !has {
      return true;
    }
    ok := EncodeItem(stream, f, Contents(c), true);
  }

  /** pb_encode: the fields in descriptor order. */
  method EncodeMessage(stream: OStream, fields: seq<Field>, cells: seq<Cell>) returns (ok: bool)
    requires stream.Valid() && Sendable(fields) && Shaped(fields, cells) && |EncMessage(fields, cells)| < TWO_64
    modifies stream, stream.buf
    ensures stream.Valid() && ok == (Bounded(fields, cells, 0) && old(stream.Room(|EncMessage(fields, cells)|)))
    ensures ok ==> stream.log == old(stream.log) + EncMessage(fields, cells)
    decreases cells, 1, 0
  {
    var iter := new FieldIter(fields);
    var more := iter.Begin();
    ghost var k: nat, rest, total := 0, EncMessage(fields, cells), stream.log + EncMessage(fields, cells);
    while more
      invariant iter.fields == fields && iter.Canonical() && k <= |fields| && more == (k < |fields|) && (more ==> iter.pos == k)
      invariant stream.Valid() && FieldsLeft(fields, cells, k, rest) && stream.log + rest == total
      invariant |rest| < TWO_64 && forall i :: 0 <= i < k ==> BoundedCell(fields[i], cells[i])
      decreases |fields| - k
    {
      ok, rest := EncodeFieldAt(stream, fields, cells, iter.pos, rest, total);
      if !ok {
        return false;
      }
      more := iter.Next();
      k := k + 1;
    }
    NoFieldsLeft(fields, cells, rest, stream.log);
    ok := true;
  }

  /** The bytes that fields k, k + 1, ... come to. */
  ghost predicate FieldsLeft(fields: seq<Field>, cells: seq<Cell>, k: nat, rest: seq<byte>)
    requires k <= |fields|
  {
    forall x: int {:trigger Open(x)} :: Open(x) ==> rest == EncFrom(fields, cells, k)
  }

  lemma NoFieldsLeft(fields: seq<Field>, cells: seq<Cell>, rest: seq<byte>, l: seq<byte>)
    requires FieldsLeft(fields, cells, |fields|, rest)
    ensures l + rest == l
  {
    assert Open(0);
  }

  method EncodeFieldAt(stream: OStream, fields: seq<Field>, cells: seq<Cell>, k: nat, ghost rest: seq<byte>, ghost total: seq<byte>)
    returns (ok: bool, ghost rest': seq<byte>)
    requires stream.Valid() && Sendable(fields) && Shaped(fields, cells) && k < |fields|
    requires FieldsLeft(fields, cells, k, rest) && |rest| < TWO_64 && stream.log + rest == total
    modifies stream, stream.buf
    ensures stream.Valid() && FieldsLeft(fields, cells, k + 1, rest') && |rest'| < TWO_64
    ensures ok ==> BoundedCell(fields[k], cells[k]) && stream.log + rest' == total
    ensures !ok ==> !BoundedCell(fields[k], cells[k]) || (!stream.sizing && |total| > stream.maxSize)
    decreases cells, 0
  {
    assert SendableField(fields[k]) && ShapedCell(fields[k], cells[k]);
    rest' := FirstField(fields, cells, k, rest, stream.log);
    ok := EncodeOneField(stream, fields[k], cells[k]);
  }

  lemma FirstField(fields: seq<Field>, cells: seq<Cell>, k: nat, rest: seq<byte>, l: seq<byte>) returns (rest': seq<byte>)
    requires k < |fields| == |cells| && FieldsLeft(fields, cells, k, rest)
    ensures FieldsLeft(fields, cells, k + 1, rest') && l + rest == (l + EncField(fields[k], cells[k])) + rest'
    ensures |rest| == |EncField(fields[k], cells[k])| + |rest'|
  {
    assert Open(0);
    rest' := EncFrom(fields, cells, k + 1);
    Joined(l, EncField(fields[k], cells[k]), rest');
  }

  // ----- values that fit -----

  /** A value that fits its descriptor passes all checks of the encoder. */
  lemma {:induction false} FitsIsBounded(fields: seq<Field>, cells: seq<Cell>)
    requires WellFormed(fields) && Fits(fields, cells)
    ensures Shaped(fields, cells) && Bounded(fields, cells, 0)
    decreases cells, 0
  {
    forall k | 0 <= k < |fields|
      ensures ShapedCell(fields[k], cells[k]) && BoundedCell(fields[k], cells[k])
    {
      assert WellFormedField(fields[k]) && FitsCell(fields[k], cells[k]);
      CellIsBounded(fields[k], cells[k]);
    }
  }

  lemma {:induction false} CellIsBounded(f: Field, c: Cell)
    requires WellFormedField(f) && FitsCell(f, c)
    ensures ShapedCell(f, c) && BoundedCell(f, c)
    decreases c, 2
  {
    match c {
      case One(v) => ValueIsBounded(f, v);
      case Opt(_, v) => ValueIsBounded(f, v);
      case Arm(Some(v)) => ValueIsBounded(f, v);
      case Arm(None) =>
      case Many(items) =>
        forall j | 0 <= j < |items|
          ensures ShapedValue(f, items[j]) && BoundedValue(f, items[j])
        {
          ValueIsBounded(f, items[j]);
        }
    }
  }

  lemma {:induction false} ValueIsBounded(f: Field, v: Value)
    requires WellFormedField(f) && FitsValue(f, v)
    ensures ShapedValue(f, v) && BoundedValue(f, v)
    decreases v, 1
  {
    if f.ltype.Submessage? {
      FitsIsBounded(f.sub, v.cells);
    }
  }

  /** The tags of a well-formed descriptor can be sent. */
  lemma {:induction false} WellFormedIsSendable(fields: seq<Field>)
    requires WellFormed(fields)
    ensures Sendable(fields)
    decreases fields
  {
    forall k | 0 <= k < |fields|
      ensures SendableField(fields[k])
    {
      assert WellFormedField(fields[k]);
      if fields[k].ltype.Submessage? {
        WellFormedIsSendable(fields[k].sub);
      }
    }
  }
}
