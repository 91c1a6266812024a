/**
  The reassembly of one incoming handshake message (hm_fragment in ssl/d1_both.cc):
  a buffer of the message's length and a bit mask of the bytes received, freed when
  every byte has arrived.
 */
module DtlsReassembly {
  import opened Bytes
  import opened DtlsWire

  // ----- bits of a byte -----

  predicate Bit(b: bv8, i: nat)
    requires i < 8
  {
    b & ((1 as bv8) << i) != 0
  }

  /** bit_range: a byte with bits start, inclusive, to end, exclusive, set. */
  function BitRange(start: nat, end: nat): bv8
    requires start <= 8 && end <= 8
  {
    (!(((1 as bv32) << start) - 1) & (((1 as bv32) << end) - 1)) as bv8
  }

  ghost predicate HasBits(b: bv8, start: nat, end: nat) {
    forall i :: 0 <= i < 8 ==> (Bit(b, i) <==> start <= i < end)
  }

  method RangeByte(start: nat, end: nat) returns (r: bv8)
    requires start <= 8 && end <= 8
    ensures r == BitRange(start, end) && HasBits(r, start, end)
  {
    r := BitRange(start, end);
  }

  lemma OrBits(b: bv8, c: bv8)
    ensures forall i {:trigger Bit(b | c, i)} :: 0 <= i < 8 ==> (Bit(b | c, i) <==> Bit(b, i) || Bit(c, i))
  {
  }

  lemma EqualBits(b: bv8, c: bv8)
    requires forall i :: 0 <= i < 8 ==> Bit(b, i) == Bit(c, i)
    ensures b == c
  {
    assert Bit(b, 0) == Bit(c, 0) && Bit(b, 1) == Bit(c, 1) && Bit(b, 2) == Bit(c, 2) && Bit(b, 3) == Bit(c, 3);
    assert Bit(b, 4) == Bit(c, 4) && Bit(b, 5) == Bit(c, 5) && Bit(b, 6) == Bit(c, 6) && Bit(b, 7) == Bit(c, 7);
  }

  lemma FullByte()
    ensures HasBits(0xff, 0, 8) && HasBits(0, 0, 0)
  {
  }

  // ----- masks -----

  /** Bit i of byte k of the mask stands for byte 8k + i of the message. */
  ghost predicate Shows(mask: seq<bv8>, covered: set<nat>) {
    forall k, i {:trigger Bit(mask[k], i)} :: 0 <= k < |mask| && 0 <= i < 8 ==> (Bit(mask[k], i) <==> 8 * k + i in covered)
  }

  ghost function Interval(start: nat, end: nat): (r: set<nat>)
    ensures forall j :: j in r <==> start <= j < end
    decreases end - start
  {
    if start >= end then {} else {start} + Interval(start + 1, end)
  }

  /** One byte of the mask after marking start .. end: the old bits and those of the interval. */
  ghost predicate Marked(before: bv8, after: bv8, k: nat, start: nat, end: nat) {
    forall i {:trigger Bit(after, i)} :: 0 <= i < 8 ==> (Bit(after, i) <==> Bit(before, i) || start <= 8 * k + i < end)
  }

  lemma MarkByte(before: bv8, r: bv8, k: nat, lo: nat, hi: nat, start: nat, end: nat)
    requires HasBits(r, lo, hi)
    requires lo <= hi <= 8 && start <= 8 * k + lo && 8 * k + hi <= end
    requires (lo == 0 || start == 8 * k + lo) && (hi == 8 || end == 8 * k + hi)
    ensures Marked(before, before | r, k, start, end)
  {
    OrBits(before, r);
  }

  lemma MarkWhole(before: bv8, k: nat, start: nat, end: nat)
    requires start <= 8 * k && 8 * k + 8 <= end
    ensures Marked(before, 0xff, k, start, end)
  {
    FullByte();
  }

  lemma MarkNone(b: bv8, k: nat, start: nat, end: nat)
    requires 8 * k + 8 <= start || end <= 8 * k
    ensures Marked(b, b, k, start, end)
  {
  }

  lemma MarkedShows(before: seq<bv8>, after: seq<bv8>, covered: set<nat>, start: nat, end: nat)
    requires |before| == |after| && Shows(before, covered)
    requires forall k :: 0 <= k < |after| ==> Marked(before[k], after[k], k, start, end)
    ensures Shows(after, covered + Interval(start, end))
  {
    forall k, i {:trigger Bit(after[k], i)} | 0 <= k < |after| && 0 <= i < 8
      ensures Bit(after[k], i) <==> 8 * k + i in covered + Interval(start, end)
    {
      assert Marked(before[k], after[k], k, start, end);
      assert Bit(before[k], i) <==> 8 * k + i in covered;
    }
  }

  /** A byte equals the range 0 .. n exactly when the n message bytes it stands for are covered. */
  lemma ByteFull(mask: seq<bv8>, covered: set<nat>, k: nat, n: nat, r: bv8)
    requires k < |mask| && n <= 8 && Shows(mask, covered) && HasBits(r, 0, n)
    requires covered * Interval(8 * k + n, 8 * k + 8) == {}
    ensures mask[k] == r <==> Interval(8 * k, 8 * k + n) <= covered
  {
    if Interval(8 * k, 8 * k + n) <= covered {
      forall i | 0 <= i < 8
        ensures Bit(mask[k], i) == Bit(r, i)
      {
        assert i < n ==> 8 * k + i in Interval(8 * k, 8 * k + n);
        assert i >= n ==> 8 * k + i in Interval(8 * k + n, 8 * k + 8);
      }
      EqualBits(mask[k], r);
    }
    if mask[k] == r {
      forall j | j in Interval(8 * k, 8 * k + n)
        ensures j in covered
      {
        assert Bit(mask[k], j - 8 * k);
      }
    }
  }

  /** The bit-setting half of dtls1_hm_fragment_mark. */
  method SetBits(mask: array<bv8>, start: nat, end: nat, ghost covered: set<nat>)
    requires start < end <= 8 * mask.Length
    requires Shows(mask[..], covered)
    modifies mask
    ensures Shows(mask[..], covered + Interval(start, end))
  {
    ghost var before := mask[..];
    var first, last := start / 8, end / 8;
    if first == last {
      var r := RangeByte(start % 8, end % 8);
      MarkByte(mask[first], r, first, start % 8, end % 8, start, end);
      mask[first] := mask[first] | r;
    } else {
      var r := RangeByte(start % 8, 8);
      MarkByte(mask[first], r, first, start % 8, 8, start, end);
      mask[first] := mask[first] | r;
      for i := first + 1 to last
        invariant forall k :: first <= k < i ==> Marked(before[k], mask[k], k, start, end)
        invariant forall k :: 0 <= k < first || i <= k < mask.Length ==> mask[k] == before[k]
      {
        MarkWhole(mask[i], i, start, end);
        mask[i] := 0xff;
      }
      if end % 8 != 0 {
        r := RangeByte(0, end % 8);
        MarkByte(mask[last], r, last, 0, end % 8, start, end);
        mask[last] := mask[last] | r;
      }
    }
    forall k | 0 <= k < mask.Length
      ensures Marked(before[k], mask[k], k, start, end)
    {
      if k < first || last < k || (k == last && end % 8 == 0) {
        MarkNone(before[k], k, start, end);
      }
    }
    MarkedShows(before, mask[..], covered, start, end);
  }

  /** The completeness test of dtls1_hm_fragment_mark. */
  method AllReceived(mask: array<bv8>, msgLen: nat, ghost covered: set<nat>) returns (all: bool)
    requires mask.Length == (msgLen + 7) / 8
    requires covered <= Interval(0, msgLen) && Shows(mask[..], covered)
    ensures all <==> Interval(0, msgLen) <= covered
  {
    FullByte();
    for i := 0 to msgLen / 8
      invariant Interval(0, 8 * i) <= covered
    {
      ByteFull(mask[..], covered, i, 8, 0xff);
      if mask[i] != 0xff {
        assert !(Interval(8 * i, 8 * i + 8) <= covered);
        return false;
      }
      assert Interval(0, 8 * (i + 1)) == Interval(0, 8 * i) + Interval(8 * i, 8 * i + 8);
    }
    var n := msgLen % 8;
    assert Interval(0, msgLen) == Interval(0, msgLen - n) + Interval(msgLen - n, msgLen);
    if n != 0 {
      var r := RangeByte(0, n);
      ByteFull(mask[..], covered, msgLen / 8, n, r);
      if mask[msgLen / 8] != r {
        return false;
      }
    }
    return true;
  }

  /** What a slot of the incoming ring stands for: the bytes of a message received so far. */
  datatype Slot =
    | Vacant
    | Held(ty: byte, seqNum: nat, msgLen: nat, bytes: map<nat, byte>)

  ghost predicate Complete(s: Slot) {
    s.Held? && Interval(0, s.msgLen) <= s.bytes.Keys
  }

  /** Receiving `body` at `off` overwrites those bytes. */
  ghost function Overlay(bytes: map<nat, byte>, off: nat, body: seq<byte>): (r: map<nat, byte>)
    ensures r.Keys == bytes.Keys + Interval(off, off + |body|)
    ensures forall j :: j in r ==> r[j] == if off <= j < off + |body| then body[j - off] else bytes[j]
    decreases |body|
  {
    if body == [] then bytes else Overlay(bytes, off + 1, body[1..])[off := body[0]]
  }

  ghost function Assembled(s: Slot): (m: Message)
    requires Complete(s)
    ensures |m.body| == s.msgLen && forall j :: 0 <= j < s.msgLen ==> j in s.bytes && m.body[j] == s.bytes[j]
  {
    assert forall j :: 0 <= j < s.msgLen ==> j in Interval(0, s.msgLen);
    Message(s.ty, seq(s.msgLen, j requires 0 <= j < s.msgLen => s.bytes[j]))
  }

  /** The message as it enters the transcript: unfragmented, under its own header. */
  ghost function Raw(s: Slot): seq<byte>
    requires Complete(s) && s.seqNum < 0x1_0000 && s.msgLen < 0x100_0000
  {
    Header(s.ty, s.msgLen, s.seqNum, 0, s.msgLen) + Assembled(s).body
  }

  /** A buffer holds a 12-byte header and every byte of `received` at its place. */
  ghost predicate Holds(buffer: seq<byte>, header: seq<byte>, msgLen: nat, received: map<nat, byte>) {
    && |buffer| == HM_HEADER_LENGTH + msgLen && buffer[..HM_HEADER_LENGTH] == header
    && received.Keys <= Interval(0, msgLen)
    && (forall j :: j in received ==> received[j] == buffer[HM_HEADER_LENGTH + j])
  }

  lemma HoldsAfterCopy(before: seq<byte>, after: seq<byte>, header: seq<byte>, msgLen: nat, received: map<nat, byte>, off: nat, body: seq<byte>)
    requires Holds(before, header, msgLen, received) && off + |body| <= msgLen && |after| == |before|
    requires forall k :: 0 <= k < |after| ==>
      after[k] == if HM_HEADER_LENGTH + off <= k < HM_HEADER_LENGTH + off + |body| then body[k - HM_HEADER_LENGTH - off] else before[k]
    ensures Holds(after, header, msgLen, Overlay(received, off, body))
  {
    assert after[..HM_HEADER_LENGTH] == before[..HM_HEADER_LENGTH];
  }

  /** The buffer of a message whose header is known and whose body is not. */
  method NewBuffer(ty: byte, seqNum: nat, msgLen: nat) returns (buffer: array<byte>)
    requires seqNum < 0x1_0000 && msgLen < 0x100_0000
    ensures fresh(buffer) && Holds(buffer[..], Header(ty, msgLen, seqNum, 0, msgLen), msgLen, map[])
  {
    buffer := new byte[HM_HEADER_LENGTH + msgLen];
    var header := Header(ty, msgLen, seqNum, 0, msgLen);
    for i := 0 to HM_HEADER_LENGTH
      invariant forall k :: 0 <= k < i ==> buffer[k] == header[k]
    {
      buffer[i] := header[i];
    }
  }

  class HmFragment {
    const ty: byte
    const seqNum: nat
    const msgLen: nat
    const data: array<byte>
    var reassembly: array?<bv8>
    ghost var bytes: map<nat, byte>
    ghost const Repr: set<object>

    ghost function View(): Slot
      reads this
    {
      Held(ty, seqNum, msgLen, bytes)
    }

    ghost predicate BufferHolds(received: map<nat, byte>)
      reads data
    {
      seqNum < 0x1_0000 && msgLen < 0x100_0000 && Holds(data[..], Header(ty, msgLen, seqNum, 0, msgLen), msgLen, received)
    }

    ghost predicate Valid()
      reads this, data, reassembly
    {
      && this in Repr && data in Repr
      && BufferHolds(bytes)
      && (reassembly == null <==> Complete(View()))
      && (reassembly != null ==>
            && reassembly in Repr && (reassembly as object) != data
            && reassembly.Length == (msgLen + 7) / 8
            && Shows(reassembly[..], bytes.Keys))
    }

    /** dtls1_hm_fragment_new: the header is filled in, no byte is received, an empty message is complete. */
    constructor (ty: byte, seqNum: nat, msgLen: nat)
      requires seqNum < 0x1_0000 && msgLen < 0x100_0000
      ensures Valid() && fresh(Repr)
      ensures View() == Held(ty, seqNum, msgLen, map[])
    {
      this.ty, this.seqNum, this.msgLen := ty, seqNum, msgLen;
      var buffer := NewBuffer(ty, seqNum, msgLen);
      data := buffer;
      bytes := map[];
      if msgLen > 0 {
        var mask := new bv8[(msgLen + 7) / 8](_ => 0);
        reassembly := mask;
        Repr := {this, buffer, mask};
        FullByte();
        assert 0 in Interval(0, msgLen);
      } else {
        reassembly := null;
        Repr := {this, buffer};
      }
    }

    method CopyBody(off: nat, body: seq<byte>)
      requires BufferHolds(bytes) && off + |body| <= msgLen
      modifies data
      ensures BufferHolds(Overlay(bytes, off, body))
    {
      ghost var before := data[..];
      forall i | 0 <= i < |body| {
        data[HM_HEADER_LENGTH + off + i] := body[i];
      }
      ghost var after := data[..];
      forall k | 0 <= k < |after|
        ensures after[k] == if HM_HEADER_LENGTH + off <= k < HM_HEADER_LENGTH + off + |body| then body[k - HM_HEADER_LENGTH - off] else before[k]
      {
        if HM_HEADER_LENGTH + off <= k < HM_HEADER_LENGTH + off + |body| {
          assert data[HM_HEADER_LENGTH + off + (k - HM_HEADER_LENGTH - off)] == body[k - HM_HEADER_LENGTH - off];
        }
      }
      HoldsAfterCopy(before, after, Header(ty, msgLen, seqNum, 0, msgLen), msgLen, bytes, off, body);
    }

    /**
      The copy and mark of dtls1_open_handshake. The bytes received are exactly the old
      ones overlaid with the new ones, and the mask is freed if and only if all are in.
     */
    method Receive(off: nat, body: seq<byte>)
      requires Valid() && reassembly != null && off + |body| <= msgLen
      modifies Repr
      ensures Valid() && bytes == Overlay(old(bytes), off, body)
    {
      CopyBody(off, body);
      ghost var bytes' := Overlay(bytes, off, body);
      if |body| == 0 {
        return;
      }
      SetBits(reassembly, off, off + |body|, bytes.Keys);
      bytes := bytes';
      var all := AllReceived(reassembly, msgLen, bytes'.Keys);
      if all {
        reassembly := null;
      }
    }

    /** The complete message, with the header that dtls1_hm_fragment_new wrote. */
    method Contents() returns (msg: Message, raw: seq<byte>)
      requires Valid() && reassembly == null
      ensures msg == Assembled(View()) && raw == Raw(View())
    {
      raw := data[..];
      msg := Message(ty, data[HM_HEADER_LENGTH..]);
      assert raw == data[..HM_HEADER_LENGTH] + msg.body;
    }
  }
}
