/**
  The input stream of nanopb (pb_istream_t of pb_decode.c): a position in a buffer and the
  number of bytes left. No operation reads behind the bytes left, and position plus bytes
  left stays at the end of the stream except while a substream is open.
 */
module PbStream {
  import opened Bytes
  import opened PbWire
  import opened PbMessage

  /** Shifting left by n bits. */
  function ShiftLeft(v: nat, n: nat): nat {
    if n == 0 then v else 2 * ShiftLeft(v, n - 1)
  }

  /** Shifting left by i groups. */
  function ShiftGroups(v: nat, i: nat): nat {
    if i == 0 then v else 128 * ShiftGroups(v, i - 1)
  }

  /** The value of a varint whose first i groups add up to acc. */
  function Prepend(acc: nat, i: nat, r: VarintResult): VarintResult {
    match r
    case Value(v, rest) => Value(acc + ShiftGroups(v, i), rest)
    case Bad(left) => Bad(left)
  }

  lemma {:induction false} GroupShift(v: nat, i: nat)
    ensures ShiftLeft(v, 7 * i) == ShiftGroups(v, i)
  {
    if i > 0 {
      GroupShift(v, i - 1);
      var n := 7 * i;
      assert ShiftLeft(v, n - 5) == 4 * ShiftLeft(v, n - 7);
      assert ShiftLeft(v, n - 3) == 4 * ShiftLeft(v, n - 5);
      assert ShiftLeft(v, n - 1) == 4 * ShiftLeft(v, n - 3);
    }
  }

  lemma {:induction false} ShiftSum(b: nat, v: nat, i: nat)
    ensures ShiftGroups(b + 128 * v, i) == ShiftGroups(b, i) + ShiftGroups(v, i + 1)
  {
    if i > 0 {
      ShiftSum(b, v, i - 1);
    }
  }

  /** One more group of a varint: the first byte of s is taken into the sum. */
  lemma TakeGroup(acc: nat, i: nat, s: seq<byte>, k: nat)
    requires s != [] && k > 0
    ensures s[0] >= 128 ==>
      Prepend(acc, i, ReadVarint(s, k)) == Prepend(acc + ShiftGroups(s[0] % 128, i), i + 1, ReadVarint(s[1..], k - 1))
    ensures s[0] < 128 ==>
      Prepend(acc, i, ReadVarint(s, k)) == Value(acc + ShiftGroups(s[0] % 128, i), s[1..])
  {
    if s[0] >= 128 {
      var r := ReadVarint(s[1..], k - 1);
      if r.Value? {
        ShiftSum(s[0] - 128, r.v, i);
      }
    }
  }

  /** Opens the definition of Reads. */
  ghost predicate Open(x: int) {
    true
  }

  /** Reading at most k groups from s, behind i groups that add up to value, gives this result. */
  ghost predicate Reads(value: nat, i: nat, s: seq<byte>, k: nat, result: VarintResult) {
    forall x: int {:trigger Open(x)} :: Open(x) ==> result == Prepend(value, i, ReadVarint(s, k))
  }

  lemma ReadsNothing(value: nat, i: nat, s: seq<byte>, result: VarintResult)
    requires Reads(value, i, s, 0, result)
    ensures result == Bad(|s|)
  {
    assert Open(0);
  }

  /** The bits are used up exactly when the groups are. */
  lemma GroupsLeft(n: nat, k: nat, bits: nat)
    requires 7 * k - 7 < bits <= 7 * k
    ensures 7 * n >= bits <==> n >= k
  {
  }

  class IStream {
    const buf: seq<byte>
    var pos: nat
    var left: nat

    ghost predicate Valid()
      reads this
    {
      pos + left <= |buf|
    }

    ghost function Rest(): (s: seq<byte>)
      requires Valid()
      reads this
      ensures |s| == left
    {
      buf[pos..pos + left]
    }

    ghost function End(): nat
      reads this
    {
      pos + left
    }

    /** The stream ends at `end`, and `rest` is what has not been read. */
    ghost predicate At(end: nat, rest: seq<byte>)
      reads this
    {
      Valid() && End() == end && Rest() == rest
    }

    /** After an error the stream still lies within its old bounds. */
    ghost predicate Within(end: nat)
      reads this
    {
      Valid() && End() <= end
    }

    constructor (buf: seq<byte>, pos: nat, left: nat)
      requires pos + left <= |buf|
      ensures this.buf == buf && this.pos == pos && this.left == left
    {
      this.buf, this.pos, this.left := buf, pos, left;
    }

    /** pb_read, with the copy loop of buf_read. */
    method Read(count: nat) returns (ok: bool, bytes: seq<byte>)
      requires Valid()
      modifies this
      ensures ok == (count <= old(left))
      ensures ok ==> bytes == old(Rest())[..count] && At(old(End()), old(Rest())[count..])
      ensures !ok ==> At(old(End()), old(Rest()))
    {
      if left < count {
        return false, [];
      }
      var dest := new byte[count];
      var i: nat := 0;
      while i < count
        invariant i <= count && pos == old(pos) && left == old(left)
        invariant dest[..i] == buf[pos..pos + i]
      {
        dest[i] := buf[pos + i];
        i := i + 1;
        assert dest[..i] == dest[..i - 1] + [dest[i - 1]];
      }
      pos, left := pos + count, left - count;
      assert dest[..] == dest[..count];
      return true, dest[..];
    }

    /** pb_readbyte. */
    method ReadByte() returns (ok: bool, b: byte)
      requires Valid()
      modifies this
      ensures ok == (old(left) > 0)
      ensures ok ==> b == old(Rest())[0] && At(old(End()), old(Rest())[1..])
      ensures !ok ==> At(old(End()), old(Rest()))
    {
      if left == 0 {
        return false, 0;
      }
      b := buf[pos];
      pos, left := pos + 1, left - 1;
      return true, b;
    }

    /**
      One turn of the varint loops: groups land in disjoint bit positions, so or-ing them
      is adding them. The sum is kept exact here; what the result's type cannot hold is
      dropped by the caller.
     */
    method TakeByte(value: nat, bitpos: nat, ghost i: nat, ghost k: nat, ghost result: VarintResult) returns (ok: bool, value': nat, more: bool)
      requires Valid() && bitpos == 7 * i && k > 0 && Reads(value, i, Rest(), k, result)
      modifies this
      ensures Valid() && End() == old(End()) && ok == (old(left) > 0)
      ensures !ok ==> left == 0 && result == Bad(0)
      ensures ok ==> left == old(left) - 1
      ensures ok && more ==> Reads(value', i + 1, Rest(), k - 1, result)
      ensures ok && !more ==> result == Value(value', Rest())
    {
      assert Open(0);
      value', more := value, false;
      var b: byte;
      ok, b := ReadByte();
      if ok {
        TakeGroup(value, i, old(Rest()), k);
        GroupShift(b % 128, i);
        value' := value + ShiftLeft(b % 128, bitpos);
        more := b >= 128;
      }
    }

    /** The loop of both varint decoders, from bit `bitpos` on, over a result of `bits` bits. */
    method TakeGroups(start: nat, startpos: nat, bits: nat, ghost i: nat, ghost k: nat) returns (ok: bool, value: nat)
      requires Valid() && startpos == 7 * i && i <= k && 7 * k - 7 < bits <= 7 * k
      modifies this
      ensures Valid() && End() == old(End())
      ensures Prepend(start, i, ReadVarint(old(Rest()), k - i)) == if ok then Value(value, Rest()) else Bad(left)
    {
      ok, value := TakeGroupsTo(start, startpos, bits, i, k, Prepend(start, i, ReadVarint(Rest(), k - i)));
    }

    method TakeGroupsTo(start: nat, startpos: nat, bits: nat, ghost i: nat, ghost k: nat, ghost result: VarintResult) returns (ok: bool, value: nat)
      requires Valid() && startpos == 7 * i && i <= k && 7 * k - 7 < bits <= 7 * k && Reads(start, i, Rest(), k - i, result)
      modifies this
      ensures Valid() && End() == old(End())
      ensures result == if ok then Value(value, Rest()) else Bad(left)
    {
      ghost var n: nat := i;
      var bitpos, more := startpos, true;
      value := start;
      while more
        invariant bitpos == 7 * n && n <= k && Valid() && End() == old(End())
        invariant if more then Reads(value, n, Rest(), k - n, result) else result == Value(value, Rest())
        decreases more, left
      {
        ok, value, more := TakeNext(value, bitpos, bits, n, k, result);
        if !ok {
          return false, 0;
        }
        n, bitpos := n + 1, bitpos + 7;
      }
      ok := true;
    }

    /** One turn of that loop: the bits may be used up. */
    method TakeNext(value: nat, bitpos: nat, bits: nat, ghost n: nat, ghost k: nat, ghost result: VarintResult) returns (ok: bool, value': nat, more: bool)
      requires Valid() && bitpos == 7 * n && n <= k && 7 * k - 7 < bits <= 7 * k && Reads(value, n, Rest(), k - n, result)
      modifies this
      ensures Valid() && End() == old(End())
      ensures !ok ==> result == Bad(left)
      ensures ok ==> left < old(left) && n < k
      ensures ok ==> if more then Reads(value', n + 1, Rest(), k - n - 1, result) else result == Value(value', Rest())
    {
      GroupsLeft(n, k, bits);
      if bitpos >= bits {
        ReadsNothing(value, n, Rest(), result);
        return false, 0, false;
      }
      ok, value', more := TakeByte(value, bitpos, n, k - n, result);
    }

    /** pb_decode_varint. */
    method DecodeVarint64() returns (ok: bool, value: nat)
      requires Valid()
      modifies this
      ensures match DecVarint64(old(Rest()))
              case Value(v, rest) => ok && value == v && At(old(End()), rest)
              case Bad(n) => !ok && Valid() && End() == old(End()) && left == n
    {
      ok, value := TakeGroups(0, 0, 64, 0, 10);
      value := value % TWO_64;
    }

    /** pb_decode_varint32: a quick case for one byte, then the same loop over 32 bits. */
    method DecodeVarint32() returns (ok: bool, value: nat)
      requires Valid()
      modifies this
      ensures match DecVarint32(old(Rest()))
              case Value(v, rest) => ok && value == v && At(old(End()), rest)
              case Bad(n) => !ok && Valid() && End() == old(End()) && left == n
    {
      ok, value := TakeQuickly(5);
      value := value % TWO_32;
    }

    method TakeQuickly(ghost k: nat) returns (ok: bool, value: nat)
      requires Valid() && k == 5
      modifies this
      ensures Valid() && End() == old(End())
      ensures ReadVarint(old(Rest()), k) == if ok then Value(value, Rest()) else Bad(left)
    {
      var more;
      ghost var result := ReadVarint(Rest(), k);
      assert result == Prepend(0, 0, result);
      ok, value, more := TakeByte(0, 0, 0, k, result);
      if ok && more {
        ok, value := TakeGroupsTo(value, 7, 32, 1, k, result);
      }
    }

    /** pb_skip_varint. */
    method SkipVarintBytes() returns (ok: bool)
      requires Valid()
      modifies this
      ensures match SkipVarint(old(Rest()))
              case None => !ok && Within(old(End()))
              case Some(rest) => ok && At(old(End()), rest)
    {
      var more := true;
      while more
        invariant Valid() && End() == old(End())
        invariant more ==> SkipVarint(old(Rest())) == SkipVarint(Rest())
        invariant !more ==> SkipVarint(old(Rest())) == Some(Rest())
        decreases more, left
      {
        var read, bytes := Read(1);
        if !read {
          return false;
        }
        more := bytes[0] >= 128;
      }
      return true;
    }

    /** pb_skip_field. */
    method Skip(wireType: nat) returns (ok: bool)
      requires Valid()
      modifies this
      ensures match SkipField(old(Rest()), wireType)
              case None => !ok && Within(old(End()))
              case Some(rest) => ok && At(old(End()), rest)
    {
      var skipped: seq<byte>;
      if wireType == 0 {
        ok := SkipVarintBytes();
      } else if wireType == 1 {
        ok, skipped := Read(8);
      } else if wireType == 2 {
        var read, n := DecodeVarint32();
        if !read {
          return false;
        }
        ok, skipped := Read(n);
      } else if wireType == 5 {
        ok, skipped := Read(4);
      } else {
        ok := false;
      }
    }

    /** pb_decode_tag: none of the three outcomes overlap. */
    method DecodeTag() returns (ok: bool, tag: nat, wireType: nat, eof: bool)
      requires Valid()
      modifies this
      ensures match DecTag(old(Rest()))
              case EndOfMessage => !ok && eof && Valid() && End() == old(End())
              case BadTag => !ok && !eof && Within(old(End()))
              case Tag(t, w, rest) => ok && tag == t && wireType == w && At(old(End()), rest)
    {
      eof, tag, wireType := false, 0, 0;
      var read, n := DecodeVarint32();
      if !read {
        return false, 0, 0, left == 0;
      }
      if n == 0 {
        return false, 0, 0, true;
      }
      return true, n / 8, n % 8, false;
    }

    /** pb_make_string_substream: the announced bytes leave this stream and make up the new one. */
    method OpenSubstream() returns (ok: bool, sub: IStream)
      requires Valid()
      modifies this
      ensures match DecBlock(old(Rest()))
              case None => !ok && Within(old(End()))
              case Some((block, rest)) =>
                && ok && fresh(sub) && sub.buf == buf && sub.Valid() && sub.Rest() == block && sub.pos == pos
                && Valid() && left == |rest| && sub.End() + left == old(End()) && End() <= old(End())
                && buf[sub.End()..sub.End() + left] == rest
    {
      var read, n := DecodeVarint32();
      ok := read && left >= n;
      sub := Carve(if ok then n else 0);
    }

    /** The next n bytes as a stream of their own. */
    method Carve(n: nat) returns (sub: IStream)
      requires Valid() && n <= left
      modifies this
      ensures fresh(sub) && sub.buf == buf && sub.Valid() && sub.pos == pos && sub.Rest() == old(Rest())[..n]
      ensures Valid() && pos == old(pos) && left == old(left) - n && sub.End() + left == old(End())
      ensures buf[sub.End()..sub.End() + left] == old(Rest())[n..]
    {
      sub := new IStream(buf, pos, left);
      sub.left := n;
      left := left - n;
    }

    /** pb_close_string_substream: whatever the substream left unread is skipped. */
    method CloseSubstream(sub: IStream) returns (ok: bool)
      requires this != sub && Valid() && sub.Valid() && sub.buf == buf && sub.End() + left <= |buf|
      modifies this, sub
      ensures ok && At(old(sub.End() + left), buf[old(sub.End())..old(sub.End() + left)])
    {
      ok := true;
      if sub.left != 0 {
        var read, _ := sub.Read(sub.left);
        ok := read;
      }
      pos := sub.pos;
    }
  }
}
