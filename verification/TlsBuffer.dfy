/**
  The byte buffer below the TLS record layer (class SSLBuffer of ssl_buffer.cc) and the
  transport it is written to. Offsets and sizes are 16-bit numbers, as in the code.
 */
module TlsBuffer {
  import opened Bytes

  const ALIGN := 8
  const MAX_16 := 0xffff

  /** Conversion to uint16_t. */
  function To16(n: nat): nat {
    n % 0x10000
  }

  /** A capacity that is refused, or whose last byte can be reached in 16 bits behind any alignment slack. */
  predicate SafeCap(n: nat) {
    n > MAX_16 || n + ALIGN - 1 <= MAX_16 + 1
  }

  /** The offset after consuming len bytes. */
  function Advanced(offset: nat, len: nat): nat {
    To16(offset + len)
  }

  lemma AdvancedIs(offset: nat, len: nat)
    requires offset <= MAX_16 && len <= MAX_16
    ensures Advanced(offset, len) == if offset + len <= MAX_16 then offset + len else offset + len - (MAX_16 + 1)
  {
  }

  /** What the buffer offers next, after the transport has taken n of the size bytes at the offset. */
  function Rest(memory: seq<byte>, offset: nat, size: nat, n: nat): seq<byte>
    requires offset + size <= |memory| && n <= size
  {
    memory[Advanced(offset, n)..Advanced(offset, n) + size - n]
  }

  /** Partial writes of all memories and amounts leave exactly the bytes not yet taken, if and only if offset and size stay in 16 bits. */
  lemma FlushExact(offset: nat, size: nat)
    requires offset <= MAX_16 && size <= MAX_16
    ensures (forall memory: seq<byte>, n: nat {:trigger Rest(memory, offset, size, n)} :: offset + size <= |memory| && n < size ==>
               Rest(memory, offset, size, n) == memory[offset..offset + size][n..])
            <==> offset + size <= MAX_16 + 1
  {
    if offset + size > MAX_16 + 1 {
      var n: nat := MAX_16 + 1 - offset;
      var memory := seq(offset + size, i => if i == 0 then 1 else 0);
      assert Rest(memory, offset, size, n)[0] == 1;
      assert memory[offset..offset + size][n..][0] == 0;
    }
  }

  /** A buffer of 0xffff bytes behind seven bytes of slack, of which the transport takes 0xfff9: its first byte is sent again. */
  lemma FlushTears(memory: seq<byte>)
    requires |memory| == 7 + 0xffff && memory[0] != memory[0x10000]
    ensures Rest(memory, 7, 0xffff, 0xfff9) != memory[7..7 + 0xffff][0xfff9..]
  {
    assert Rest(memory, 7, 0xffff, 0xfff9)[0] == memory[0];
    assert memory[7..7 + 0xffff][0xfff9..][0] == memory[0x10000];
  }

  /** A transport that accepts some of the bytes, or none; `answer` decides how it takes each call. */
  class Transport {
    const answer: nat -> int
    var calls: nat
    var wire: seq<byte>

    constructor (answer: nat -> int)
      ensures this.answer == answer && wire == []
    {
      this.answer, calls, wire := answer, 0, [];
    }

    /** The last call was turned down. */
    ghost predicate Refused()
      reads this`calls
    {
      calls > 0 && answer(calls - 1) <= 0
    }

    /** BIO_write: a positive result is the number of bytes taken. */
    method Write(data: seq<byte>) returns (ret: int)
      modifies this
      ensures ret <= |data|
      ensures ret > 0 ==> wire == old(wire) + data[..ret]
      ensures ret <= 0 ==> wire == old(wire)
      ensures data != [] && ret <= 0 ==> Refused()
    {
      ret := answer(calls);
      calls := calls + 1;
      if ret > |data| {
        ret := |data|;
      }
      if ret > 0 {
        wire := wire + data[..ret];
      }
    }

    /** BIO_flush. */
    method Flush() returns (ret: int)
      modifies this`calls
      ensures ret <= 0 ==> Refused()
    {
      ret := answer(calls);
      calls := calls + 1;
    }
  }

  /** OPENSSL_memcpy. */
  method CopyTo(dest: array<byte>, at: nat, bytes: seq<byte>)
    requires at + |bytes| <= dest.Length
    modifies dest
    ensures dest[..] == old(dest[..at]) + bytes + old(dest[at + |bytes|..])
  {
    var i: nat := 0;
    while i < |bytes|
      invariant i <= |bytes|
      invariant forall k :: 0 <= k < i ==> dest[at + k] == bytes[k]
      invariant forall k :: 0 <= k < at || at + i <= k < dest.Length ==> dest[k] == old(dest[k])
    {
      dest[at + i] := bytes[i];
      i := i + 1;
    }
  }

  class SSLBuffer {
    const address: nat -> nat
    var allocations: nat
    var buf: array?<byte>
    var offset: nat
    var size: nat
    var cap: nat

    ghost predicate Valid()
      reads this
    {
      if buf == null then offset == 0 && size == 0 && cap == 0
      else size <= cap <= MAX_16 && offset <= MAX_16 && offset + cap <= buf.Length
    }

    /** No offset inside the buffer is out of the reach of 16 bits. */
    ghost predicate Exact()
      reads this
    {
      offset + cap <= MAX_16 + 1
    }

    ghost function Data(): (d: seq<byte>)
      requires Valid()
      reads this, buf
      ensures |d| == size
    {
      if buf == null then [] else buf[offset..offset + size]
    }

    constructor (address: nat -> nat)
      ensures this.address == address && Valid() && Exact() && buf == null
    {
      this.address, allocations, buf, offset, size, cap := address, 0, null, 0, 0, 0;
    }

    method Clear()
      modifies this
      ensures Valid() && Exact() && buf == null && Data() == []
    {
      buf, offset, size, cap := null, 0, 0, 0;
    }

    /** Grows the buffer, keeping its contents; the body of a record behind the header is aligned. */
    method EnsureCap(headerLen: nat, newCap: nat) returns (ok: bool)
      requires Valid()
      modifies this
      ensures Valid() && Data() == old(Data()) && (buf == old(buf) || fresh(buf))
      ensures old(Exact()) && SafeCap(newCap) ==> Exact()
      ensures ok == (newCap <= MAX_16)
      ensures ok ==> cap >= newCap && (newCap > 0 ==> buf != null)
    {
      if newCap > MAX_16 {
        return false;
      }
      if cap >= newCap {
        return true;
      }
      var newBuf := new byte[newCap + ALIGN - 1];
      var newOffset: nat := (0 - headerLen as int - address(allocations) as int) % ALIGN;
      allocations := allocations + 1;
      if buf != null {
        CopyTo(newBuf, newOffset, buf[offset..offset + size]);
        assert newBuf[newOffset..newOffset + size] == newBuf[..][newOffset..newOffset + size];
      }
      buf := newBuf;
      offset := newOffset;
      cap := newCap;
      ok := true;
    }

    /** A copy into the free part of the buffer, followed by DidWrite. */
    method Append(bytes: seq<byte>)
      requires Valid() && |bytes| <= cap - size
      modifies this, buf
      ensures Valid() && buf == old(buf) && offset == old(offset) && cap == old(cap) && Data() == old(Data()) + bytes
    {
      if buf != null {
        CopyTo(buf, offset + size, bytes);
        size := size + |bytes|;
      }
    }

    /** Room for newCap bytes, and a copy of the first of them, in a buffer that is empty. */
    method Refill(headerLen: nat, newCap: nat, bytes: seq<byte>) returns (ok: bool)
      requires Valid() && size == 0 && |bytes| <= newCap
      modifies this, buf
      ensures Valid() && (buf == old(buf) || fresh(buf))
      ensures old(Exact()) && SafeCap(newCap) ==> Exact()
      ensures ok == (newCap <= MAX_16)
      ensures ok ==> Data() == bytes && cap >= newCap
      ensures !ok ==> Data() == []
    {
      assert Data() == [];
      ok := EnsureCap(headerLen, newCap);
      if ok {
        assert [] + bytes == bytes;
        Append(bytes);
      }
    }

    /** What is consumed leaves the buffer; in a buffer that is not exact the offset may wrap. */
    method Consume(len: nat)
      requires Valid() && len <= size
      modifies this
      ensures Valid() && buf == old(buf) && size == old(size) - len
      ensures old(Exact()) ==> Exact() && Data() == old(Data())[len..]
    {
      assert To16(len) == len;
      AdvancedIs(offset, len);
      offset := Advanced(offset, To16(len));
      size := size - To16(len);
      cap := cap - To16(len);
    }
  }

  /** tls_write_buffer_flush: what the transport takes leaves the buffer. */
  method FlushBuffer(buffer: SSLBuffer, transport: Transport) returns (ret: int)
    requires buffer.Valid()
    modifies buffer, transport
    ensures buffer.Valid() && old(transport.wire) <= transport.wire
    ensures old(buffer.Exact()) ==> buffer.Exact() && transport.wire + buffer.Data() == old(transport.wire) + old(buffer.Data())
    ensures ret > 0 ==> ret == 1 && buffer.buf == null
    ensures ret <= 0 ==> transport.Refused()
    ensures buffer.buf == null || buffer.buf == old(buffer.buf)
  {
    ghost var exact := buffer.Exact();
    while buffer.size > 0
      invariant buffer.Valid() && buffer.buf == old(buffer.buf) && old(transport.wire) <= transport.wire
      invariant exact ==> buffer.Exact() && transport.wire + buffer.Data() == old(transport.wire) + old(buffer.Data())
      decreases buffer.size
    {
      var n := WriteOnce(buffer, transport);
      if n <= 0 {
        return n;
      }
    }
    buffer.Clear();
    ret := 1;
  }

  method WriteOnce(buffer: SSLBuffer, transport: Transport) returns (n: int)
    requires buffer.Valid() && buffer.size > 0
    modifies buffer, transport
    ensures buffer.Valid() && buffer.buf == old(buffer.buf) && (n > 0 ==> buffer.size < old(buffer.size)) && (n <= 0 ==> transport.Refused())
    ensures old(transport.wire) <= transport.wire
    ensures old(buffer.Exact()) ==> buffer.Exact() && transport.wire + buffer.Data() == old(transport.wire) + old(buffer.Data())
  {
    ghost var w, d := transport.wire, buffer.Data();
    n := transport.Write(buffer.buf[buffer.offset..buffer.offset + buffer.size]);
    if n > 0 {
      buffer.Consume(n);
      assert (w + d[..n]) + d[n..] == w + d;
    }
  }
}
