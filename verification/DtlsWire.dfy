/**
  The handshake fragment format of DTLS (section 4.2.2 of RFC 6347), as written by
  dtls1_init_message and seal_next_message and read by dtls1_parse_fragment in
  ssl/d1_both.cc.
 */
module DtlsWire {

  import opened Bytes

  const HM_HEADER_LENGTH := 12

  /** A handshake message as the layer above sees it. */
  datatype Message = Message(ty: byte, body: seq<byte>)

  /** One fragment: bytes off .. off + |body| of the message numbered seqNum, which is msgLen bytes long. */
  datatype Fragment = Fragment(ty: byte, msgLen: nat, seqNum: nat, off: nat, body: seq<byte>)

  predicate Encodable(f: Fragment) {
    f.msgLen < 0x100_0000 && f.seqNum < 0x1_0000 && f.off < 0x100_0000 && |f.body| < 0x100_0000
  }

  /** n in k bytes, most significant first (CBB_add_u8, _u16, _u24). */
  function BigEndian(n: nat, k: nat): (s: seq<byte>)
    ensures |s| == k
    decreases k
  {
    if k == 0 then [] else BigEndian(n / 0x100, k - 1) + [n % 0x100]
  }

  /** CBS_get_u8, _u16, _u24. */
  function ReadBigEndian(s: seq<byte>): nat {
    if s == [] then 0 else ReadBigEndian(s[..|s| - 1]) * 0x100 + s[|s| - 1] as int
  }

  function Pow256(k: nat): nat {
    if k == 0 then 1 else 0x100 * Pow256(k - 1)
  }

  lemma {:induction false} ReadWritten(n: nat, k: nat)
    requires n < Pow256(k)
    ensures ReadBigEndian(BigEndian(n, k)) == n
    decreases k
  {
    if k > 0 {
      ReadWritten(n / 0x100, k - 1);
      var s := BigEndian(n, k);
      assert s[..k - 1] == BigEndian(n / 0x100, k - 1) && s[k - 1] == n % 0x100;
    }
  }

  lemma {:induction false} WriteRead(s: seq<byte>)
    ensures ReadBigEndian(s) < Pow256(|s|) && BigEndian(ReadBigEndian(s), |s|) == s
  {
    if s != [] {
      var front, last := s[..|s| - 1], s[|s| - 1];
      WriteRead(front);
      assert ReadBigEndian(s) / 0x100 == ReadBigEndian(front) && ReadBigEndian(s) % 0x100 == last;
      assert s == front + [last];
    }
  }

  lemma Widths()
    ensures Pow256(2) == 0x1_0000 && Pow256(3) == 0x100_0000
  {
    assert Pow256(1) == 0x100;
  }

  function Header(ty: byte, msgLen: nat, seqNum: nat, off: nat, len: nat): (s: seq<byte>)
    requires msgLen < 0x100_0000 && seqNum < 0x1_0000 && off < 0x100_0000 && len < 0x100_0000
    ensures |s| == HM_HEADER_LENGTH
  {
    [ty] + BigEndian(msgLen, 3) + BigEndian(seqNum, 2) + BigEndian(off, 3) + BigEndian(len, 3)
  }

  function Serialize(f: Fragment): (s: seq<byte>)
    requires Encodable(f)
    ensures |s| == HM_HEADER_LENGTH + |f.body|
  {
    Header(f.ty, f.msgLen, f.seqNum, f.off, |f.body|) + f.body
  }

  /** dtls1_parse_fragment: the first fragment of a record and what follows it. */
  function ParseFragment(s: seq<byte>): (r: Option<(Fragment, seq<byte>)>)
    ensures r.Some? ==> Encodable(r.value.0) && |r.value.1| < |s|
  {
    if |s| < HM_HEADER_LENGTH then None
    else
      var len := ReadBigEndian(s[9..12]);
      if |s| - HM_HEADER_LENGTH < len then None
      else
        Widths(); WriteRead(s[1..4]); WriteRead(s[4..6]); WriteRead(s[6..9]); WriteRead(s[9..12]);
        Some((Fragment(s[0], ReadBigEndian(s[1..4]), ReadBigEndian(s[4..6]), ReadBigEndian(s[6..9]), s[12..12 + len]), s[12 + len..]))
  }

  /** Parsing inverts serializing, whatever follows. */
  lemma ParseSerialized(f: Fragment, rest: seq<byte>)
    requires Encodable(f)
    ensures ParseFragment(Serialize(f) + rest) == Some((f, rest))
  {
    var s := Serialize(f) + rest;
    assert s[1..4] == BigEndian(f.msgLen, 3);
    assert s[4..6] == BigEndian(f.seqNum, 2);
    assert s[6..9] == BigEndian(f.off, 3);
    assert s[9..12] == BigEndian(|f.body|, 3);
    Widths();
    ReadWritten(f.msgLen, 3);
    ReadWritten(f.seqNum, 2);
    ReadWritten(f.off, 3);
    ReadWritten(|f.body|, 3);
    assert s[12..12 + |f.body|] == f.body;
    assert s[12 + |f.body|..] == rest;
  }

  /** Serializing inverts parsing: no two byte strings parse to the same fragment and remainder. */
  lemma SerializeParsed(s: seq<byte>)
    requires ParseFragment(s).Some?
    ensures var (f, rest) := ParseFragment(s).value; s == Serialize(f) + rest
  {
    var (f, rest) := ParseFragment(s).value;
    WriteRead(s[1..4]);
    WriteRead(s[4..6]);
    WriteRead(s[6..9]);
    WriteRead(s[9..12]);
    assert s == [s[0]] + s[1..4] + s[4..6] + s[6..9] + s[9..12] + f.body + rest;
  }

  /** The number in the three bytes from position i, most significant first. */
  function Three(s: seq<byte>, i: nat): nat
    requires i + 3 <= |s|
  {
    s[i] as int * 0x1_0000 + s[i + 1] as int * 0x100 + s[i + 2] as int
  }

  lemma ReadThree(s: seq<byte>, i: nat)
    requires i + 3 <= |s|
    ensures ReadBigEndian(s[i..i + 3]) == Three(s, i) && ReadBigEndian(s[i..i + 2]) == s[i] as int * 0x100 + s[i + 1] as int
  {
    var n := s[i..i + 3];
    assert n[..2] == s[i..i + 2] && n[..2][..1] == [s[i]] && [s[i]][..0] == [];
    assert ReadBigEndian([s[i]]) == s[i];
    assert ReadBigEndian(n[..2]) == s[i] as int * 0x100 + s[i + 1] as int;
  }

  /** Where the fields stand: type, length of the message, number, offset, length of the fragment, and its bytes. */
  lemma ParseLayout(s: seq<byte>)
    ensures ParseFragment(s).Some? <==> |s| >= 12 && |s| >= 12 + Three(s, 9)
    ensures ParseFragment(s).Some? ==>
      ParseFragment(s).value == (Fragment(s[0], Three(s, 1), s[4] as int * 0x100 + s[5] as int, Three(s, 6), s[12..12 + Three(s, 9)]),
                                 s[12 + Three(s, 9)..])
  {
    if |s| >= 12 {
      ReadThree(s, 1);
      ReadThree(s, 4);
      ReadThree(s, 6);
      ReadThree(s, 9);
    }
  }
}
