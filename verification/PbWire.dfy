/**
  The scalar encodings of nanopb (pb_encode.c, pb_decode.c): base-128 varints, zigzag
  integers, little-endian fixed-width integers and field tags.

  Integers of the C code are modelled as mathematical integers with explicit
  wrap-around; a bitwise or of disjoint bit groups is written as a sum.
 */
module PbWire {
  import opened Bytes

  const TWO_32 := 0x1_0000_0000
  const TWO_63 := 0x8000_0000_0000_0000
  const TWO_64 := 0x1_0000_0000_0000_0000

  // ----- specification -----

  function EncVarint(v: nat): (s: seq<byte>)
    ensures s != []
  {
    if v < 128 then [v] else [v % 128 + 128] + EncVarint(v / 128)
  }

  /** A varint read: its value and what follows, or how many bytes a failed read left over. */
  datatype VarintResult = Value(v: nat, rest: seq<byte>) | Bad(left: nat)

  /** At most k seven-bit groups, least significant first. */
  function ReadVarint(s: seq<byte>, k: nat): (r: VarintResult)
    ensures r.Value? ==> |r.rest| < |s| && r.rest == s[|s| - |r.rest|..]
    ensures r.Bad? ==> r.left <= |s|
    decreases |s|
  {
    if k == 0 then Bad(|s|)
    else if s == [] then Bad(0)
    else if s[0] < 128 then Value(s[0], s[1..])
    else
      match ReadVarint(s[1..], k - 1)
      case Value(v, rest) => Value(s[0] - 128 + 128 * v, rest)
      case Bad(left) => Bad(left)
  }

  /** pb_decode_varint: ten groups, truncated to 64 bits. */
  function DecVarint64(s: seq<byte>): (r: VarintResult)
    ensures r.Value? ==> |r.rest| < |s| && r.v < TWO_64
  {
    match ReadVarint(s, 10)
    case Value(v, rest) => Value(v % TWO_64, rest)
    case Bad(left) => Bad(left)
  }

  /** pb_decode_varint32: five groups, truncated to 32 bits. */
  function DecVarint32(s: seq<byte>): (r: VarintResult)
    ensures r.Value? ==> |r.rest| < |s| && r.v < TWO_32
  {
    match ReadVarint(s, 5)
    case Value(v, rest) => Value(v % TWO_32, rest)
    case Bad(left) => Bad(left)
  }

  function Pow128(k: nat): (r: nat)
    ensures r > 0
  {
    if k == 0 then 1 else 128 * Pow128(k - 1)
  }

  lemma Pow128Values()
    ensures Pow128(5) == 0x8_0000_0000 && Pow128(10) == 0x40_0000_0000_0000_0000
  {
    assert Pow128(2) == 0x4000;
    assert Pow128(4) == 0x1000_0000;
    assert Pow128(6) == 0x400_0000_0000;
    assert Pow128(8) == 0x100_0000_0000_0000;
  }

  lemma {:induction false} ReadEncoded(v: nat, k: nat, rest: seq<byte>)
    requires 0 < k && v < Pow128(k)
    ensures ReadVarint(EncVarint(v) + rest, k) == Value(v, rest)
    decreases k
  {
    var s := EncVarint(v) + rest;
    if v < 128 {
      assert s[1..] == rest;
    } else {
      assert s[0] == v % 128 + 128 && s[1..] == EncVarint(v / 128) + rest;
      ReadEncoded(v / 128, k - 1, rest);
    }
  }

  /** Every 64-bit value survives a varint round trip, */
  lemma VarintRoundTrip64(v: uint64, rest: seq<byte>)
    ensures DecVarint64(EncVarint(v) + rest) == Value(v, rest)
  {
    Pow128Values();
    ReadEncoded(v, 10, rest);
  }

  /** and every 32-bit value the shorter one. */
  lemma VarintRoundTrip32(v: nat, rest: seq<byte>)
    requires v < TWO_32
    ensures DecVarint32(EncVarint(v) + rest) == Value(v, rest)
  {
    Pow128Values();
    ReadEncoded(v, 5, rest);
  }

  // ----- varints by their bytes -----

  /** A varint by its bytes: every byte but the last has its top bit set. */
  ghost predicate VarintShaped(b: seq<byte>) {
    b != [] && b[|b| - 1] < 128 && forall i :: 0 <= i < |b| - 1 ==> b[i] >= 128
  }

  /** The number that its seven-bit groups spell: group i counts 128 to the power of i. */
  ghost function Groups(b: seq<byte>): nat {
    if b == [] then 0 else Groups(b[..|b| - 1]) + b[|b| - 1] % 128 * Pow128(|b| - 1)
  }

  lemma {:induction false} GroupsFromFront(b: seq<byte>)
    requires b != []
    ensures Groups(b) == b[0] % 128 + 128 * Groups(b[1..])
  {
    var front, last := b[..|b| - 1], b[|b| - 1] % 128;
    if |b| == 1 {
      assert Groups(front) == 0 && last * Pow128(0) == last;
    } else {
      GroupsFromFront(front);
      assert front[1..] == b[1..][..|b| - 2];
      var p := Pow128(|b| - 2);
      assert last * (128 * p) == 128 * (last * p);
    }
  }

  /** A number is written in as few groups as it has, with its bytes in the order of their weight. */
  lemma {:induction false} EncodedGroups(v: nat)
    ensures VarintShaped(EncVarint(v)) && Groups(EncVarint(v)) == v
    ensures v < Pow128(|EncVarint(v)|) && (|EncVarint(v)| > 1 ==> v >= Pow128(|EncVarint(v)| - 1))
  {
    var s := EncVarint(v);
    GroupsFromFront(s);
    if v >= 128 {
      EncodedGroups(v / 128);
      assert s[1..] == EncVarint(v / 128);
    } else {
      assert s[1..] == [];
    }
  }

  /** The same number, of the first n bytes and from the front. */
  ghost function FrontGroups(s: seq<byte>, n: nat): nat
    requires n <= |s|
  {
    if n == 0 then 0 else s[0] % 128 + 128 * FrontGroups(s[1..], n - 1)
  }

  lemma {:induction false} FrontIsGroups(s: seq<byte>, n: nat)
    requires n <= |s|
    ensures FrontGroups(s, n) == Groups(s[..n])
  {
    if n > 0 {
      GroupsFromFront(s[..n]);
      FrontIsGroups(s[1..], n - 1);
      assert s[..n][1..] == s[1..][..n - 1];
    }
  }

  lemma {:induction false} ReadFront(s: seq<byte>, n: nat, k: nat)
    requires 0 < n <= |s| && s[n - 1] < 128 && forall i :: 0 <= i < n - 1 ==> s[i] >= 128
    ensures n <= k ==> ReadVarint(s, k) == Value(FrontGroups(s, n), s[n..])
    ensures n > k ==> ReadVarint(s, k).Bad?
    decreases n
  {
    if k > 0 && n > 1 {
      var rest := s[1..];
      assert forall i :: 0 <= i < n - 2 ==> rest[i] == s[i + 1];
      ReadFront(rest, n - 1, k - 1);
      assert rest[n - 1..] == s[n..];
    }
  }

  /** A varint is read exactly if it ends within k bytes, and its value is what its groups spell. */
  lemma ReadGroups(b: seq<byte>, k: nat, rest: seq<byte>)
    requires VarintShaped(b)
    ensures |b| <= k ==> ReadVarint(b + rest, k) == Value(Groups(b), rest)
    ensures |b| > k ==> ReadVarint(b + rest, k).Bad?
  {
    FrontIsGroups(b + rest, |b|);
    ReadFront(b + rest, |b|, k);
    assert (b + rest)[..|b|] == b && (b + rest)[|b|..] == rest;
  }

  /** The two decoders: ten and five bytes at most, and what is above 64 or 32 bits is cut off. */
  lemma DecodeGroups(b: seq<byte>, rest: seq<byte>)
    requires VarintShaped(b)
    ensures if |b| <= 10 then DecVarint64(b + rest) == Value(Groups(b) % 0x1_0000_0000_0000_0000, rest) else DecVarint64(b + rest).Bad?
    ensures if |b| <= 5 then DecVarint32(b + rest) == Value(Groups(b) % 0x1_0000_0000, rest) else DecVarint32(b + rest).Bad?
  {
    ReadGroups(b, 10, rest);
    ReadGroups(b, 5, rest);
  }

  /** Bytes of which none ends a varint are not read. */
  lemma {:induction false} ReadUnended(s: seq<byte>, k: nat)
    requires forall i :: 0 <= i < |s| ==> s[i] >= 128
    ensures ReadVarint(s, k).Bad?
  {
    if s != [] && k > 0 {
      ReadUnended(s[1..], k - 1);
    }
  }

  // ----- zigzag -----

  type int64 = i: int | -0x8000_0000_0000_0000 <= i < 0x8000_0000_0000_0000
  type uint64 = n: nat | n < 0x1_0000_0000_0000_0000

  /** Conversion to uint64_t. */
  function ToUnsigned(i: int64): uint64 {
    if i < 0 then i + TWO_64 else i
  }

  /** Conversion to int64_t. */
  function ToSigned(n: uint64): int64 {
    if n >= TWO_63 then n - TWO_64 else n
  }

  function Complement(n: uint64): uint64 {
    TWO_64 - 1 - n
  }

  function Zigzag(i: int64): uint64 {
    var doubled := ToUnsigned(i) * 2 % TWO_64;
    if i < 0 then Complement(doubled) else doubled
  }

  function Unzigzag(n: uint64): int64 {
    if n % 2 == 1 then ToSigned(Complement(n / 2)) else ToSigned(n / 2)
  }

  /** Zigzag is the alternating enumeration 0, -1, 1, -2, ..., and is inverted exactly. */
  lemma ZigzagRoundTrip(i: int64)
    ensures Zigzag(i) == if i < 0 then -2 * i - 1 else 2 * i
    ensures Unzigzag(Zigzag(i)) == i
  {
  }

  lemma UnzigzagRoundTrip(n: uint64)
    ensures Zigzag(Unzigzag(n)) == n
  {
  }

  // ----- fixed width -----

  function LittleEndian(v: nat, k: nat): (s: seq<byte>)
    ensures |s| == k
    decreases k
  {
    if k == 0 then [] else [v % 256] + LittleEndian(v / 256, k - 1)
  }

  function ReadLittleEndian(s: seq<byte>): nat {
    if s == [] then 0 else s[0] as int + 256 * ReadLittleEndian(s[1..])
  }

  function Pow256(k: nat): nat {
    if k == 0 then 1 else 256 * Pow256(k - 1)
  }

  lemma Pow256Values()
    ensures Pow256(4) == TWO_32 && Pow256(8) == TWO_64
  {
    assert Pow256(2) == 0x1_0000;
    assert Pow256(6) == 0x1_0000_0000_0000;
  }

  lemma {:induction false} FixedRoundTrip(v: nat, k: nat)
    requires v < Pow256(k)
    ensures ReadLittleEndian(LittleEndian(v, k)) == v
    decreases k
  {
    if k > 0 {
      FixedRoundTrip(v / 256, k - 1);
      assert LittleEndian(v, k)[1..] == LittleEndian(v / 256, k - 1);
    }
  }

  /** The number that bytes spell: byte i counts 256 to the power of i. */
  ghost function Bytewise(s: seq<byte>): nat {
    if s == [] then 0 else Bytewise(s[..|s| - 1]) + s[|s| - 1] * Pow256(|s| - 1)
  }

  lemma {:induction false} BytewiseFromFront(s: seq<byte>)
    requires s != []
    ensures Bytewise(s) == s[0] + 256 * Bytewise(s[1..])
  {
    var front, last := s[..|s| - 1], s[|s| - 1];
    if |s| == 1 {
      assert Bytewise(front) == 0 && last * Pow256(0) == last;
    } else {
      BytewiseFromFront(front);
      assert front[1..] == s[1..][..|s| - 2];
      var p := Pow256(|s| - 2);
      assert last * (256 * p) == 256 * (last * p);
    }
  }

  /** A fixed-width integer is read with its least significant byte first. */
  lemma {:induction false} ReadBytewise(s: seq<byte>)
    ensures ReadLittleEndian(s) == Bytewise(s)
  {
    if s != [] {
      BytewiseFromFront(s);
      ReadBytewise(s[1..]);
    }
  }

  lemma {:induction false} ReadLittleEndianBound(s: seq<byte>)
    ensures ReadLittleEndian(s) < Pow256(|s|)
  {
    if s != [] {
      ReadLittleEndianBound(s[1..]);
    }
  }

  // ----- the varint encoder -----

  lemma FitsTenGroups(v: uint64, k: nat)
    requires k == 10
    ensures v < Pow128(k)
  {
    Pow128Values();
  }

  lemma OneGroupLess(value: nat, k: nat)
    requires 0 < value < Pow128(k)
    ensures k > 0 && value / 128 < Pow128(k - 1)
  {
  }

  /** The bytes written so far spell v once the rest is written, or their last continuation bit is cleared. */
  ghost predicate Spells(bytes: seq<byte>, value: nat, v: nat) {
    if value == 0 then bytes != [] && bytes[|bytes| - 1] >= 128 && EncVarint(v) == bytes[|bytes| - 1 := bytes[|bytes| - 1] - 128]
    else EncVarint(v) == bytes + EncVarint(value)
  }

  lemma SpellOne(bytes: seq<byte>, value: nat, v: nat)
    requires value > 0 && Spells(bytes, value, v)
    ensures Spells(bytes + [value % 128 + 128], value / 128, v)
  {
    var longer := bytes + [value % 128 + 128];
    if value < 128 {
      assert longer[|bytes| := value] == bytes + [value];
    } else {
      assert bytes + EncVarint(value) == longer + EncVarint(value / 128);
    }
  }

  /**
    The byte loop of pb_encode_varint: the continuation bit is set on every group and
    cleared on the last. Ten bytes of buffer are enough for any 64-bit value.
   */
  method EncodeVarintBytes(v: uint64) returns (bytes: seq<byte>)
    ensures bytes == EncVarint(v) && |bytes| <= 10
  {
    if v <= 0x7F {
      return [v];
    }
    var buffer := new byte[10];
    var value: nat, i: nat := v, 0;
    ghost var room: nat := 10;
    FitsTenGroups(v, room);
    while value != 0
      invariant i + room == 10 && value < Pow128(room) && Spells(buffer[..i], value, v)
      decreases value
    {
      OneGroupLess(value, room);
      SpellOne(buffer[..i], value, v);
      buffer[i] := value % 128 + 128;
      assert buffer[..i + 1] == buffer[..i] + [value % 128 + 128];
      value, i, room := value / 128, i + 1, room - 1;
    }
    ghost var spelled := buffer[..i];
    buffer[i - 1] := buffer[i - 1] - 128;
    bytes := buffer[..i];
    assert bytes == spelled[i - 1 := spelled[i - 1] - 128];
  }
}
