/** A writer of DEFLATE streams made of stored blocks, as the partner of the decoder: every
    byte string comes back. */
module StoredStream {
  import opened Bits
  import opened BitStream
  import opened Deflate
  import opened ZlibReader

  /** One stored block of at most 65535 bytes. */
  function StoredBlock(bytes: seq<Byte>, last: bool): (block: seq<Byte>)
    requires |bytes| <= 0xFFFF
    ensures |block| == 5 + |bytes|
  {
    var len := |bytes|;
    var nlen := 0xFFFF - len;
    [if last then 1 else 0, len % 256, len / 256, nlen % 256, nlen / 256] + bytes
  }

  /** The bytes in blocks of 65535, the last one marked final. */
  function Store(bytes: seq<Byte>): seq<Byte> {
    if |bytes| <= 0xFFFF then StoredBlock(bytes, true)
    else StoredBlock(bytes[..0xFFFF], false) + Store(bytes[0xFFFF..])
  }

  lemma HeaderBits(data: seq<Byte>, k: nat, b: nat)
    requires ByteAt(data, k) == b && b <= 1
    ensures Peek(data, 8 * k, 1) == b && Peek(data, 8 * k + 1, 2) == 0
  {
    forall i: nat | i < 3
      ensures StreamBit(data, 8 * k + i) == BitOf(b, i)
    {
      BitOfByte(data, k, i);
    }
    assert StreamBit(data, 8 * k + 0) == BitOf(b, 0) == b;
    assert StreamBit(data, 8 * k + 1) == BitOf(b, 1) == 0;
    assert StreamBit(data, 8 * k + 2) == BitOf(b, 2) == 0;
    assert Peek(data, 8 * k + 2, 1) == 0;
  }

  /** data holds a stored block at byte k. */
  predicate StoredAt(data: seq<Byte>, k: nat, bytes: seq<Byte>, last: bool)
    requires |bytes| <= 0xFFFF
  {
    k + 5 + |bytes| <= |data| && data[k..k + 5 + |bytes|] == StoredBlock(bytes, last)
  }

  lemma StoredBytes(data: seq<Byte>, k: nat, bytes: seq<Byte>, last: bool)
    requires |bytes| <= 0xFFFF && StoredAt(data, k, bytes, last)
    ensures ByteAt(data, k) == if last then 1 else 0
    ensures ByteAt(data, k + 1) + 256 * ByteAt(data, k + 2) == |bytes|
    ensures ByteAt(data, k + 3) + 256 * ByteAt(data, k + 4) == 0xFFFF - |bytes|
    ensures BytesAt(data, k + 5, |bytes|) == bytes
  {
    var block := StoredBlock(bytes, last);
    forall i: nat | i < |block|
      ensures ByteAt(data, k + i) == block[i]
    {
      assert data[k..k + |block|][i] == data[k + i];
    }
    assert ByteAt(data, k + 0) == block[0];
    hide BytesAt;
    forall i: nat | i < |bytes|
      ensures BytesAt(data, k + 5, |bytes|)[i] == bytes[i]
    {
      assert ByteAt(data, k + (5 + i)) == block[5 + i];
    }
  }

  lemma AlignHeader(k: nat)
    ensures Align(8 * k + 3) == 8 * (k + 1)
  {
  }

  /** A stored block at byte k of any stream appends its bytes. */
  lemma StoredBlockMeans(data: seq<Byte>, k: nat, bytes: seq<Byte>, last: bool, out: seq<Byte>)
    requires |bytes| <= 0xFFFF && StoredAt(data, k, bytes, last)
    ensures Peek(data, 8 * k, 1) == if last then 1 else 0
    ensures AnyBlock(data, 8 * k, out) == Done(out + bytes, 8 * (k + 5 + |bytes|))
  {
    hide Peek, Align, Stored, Block, DynamicCodes, StoredAt, BytesAt, ByteAt, FixedLengths, FixedDistances;
    AlignHeader(k);
    StoredBytes(data, k, bytes, last);
    HeaderBits(data, k, if last then 1 else 0);
    StoredMeans(data, 8 * k + 3, k + 1, out, |bytes|, 0xFFFF - |bytes|);
  }

  /** Decoding what was stored gives it back, whatever surrounds it. */
  lemma {:induction false} StoreRoundTrip(data: seq<Byte>, k: nat, bytes: seq<Byte>, out: seq<Byte>)
    requires k + |Store(bytes)| <= |data| && data[k..k + |Store(bytes)|] == Store(bytes)
    ensures Inflate(data, 8 * k, out) == Done(out + bytes, 8 * (k + |Store(bytes)|))
    decreases |bytes|
  {
    hide Inflate, AnyBlock, Peek;
    InflateUnfold(data, 8 * k, out);
    if |bytes| <= 0xFFFF {
      StoredBlockMeans(data, k, bytes, true, out);
    } else {
      var head, tail := bytes[..0xFFFF], bytes[0xFFFF..];
      var n := 5 + 0xFFFF;
      assert data[k..k + n] == data[k..k + |Store(bytes)|][..n] == StoredBlock(head, false);
      StoredBlockMeans(data, k, head, false, out);
      assert data[k + n..k + n + |Store(tail)|] == data[k..k + |Store(bytes)|][n..] == Store(tail);
      StoreRoundTrip(data, k + n, tail, out + head);
      assert out + head + tail == out + bytes;
    }
  }

  /** The reader itself returns every stored byte string that fits its output, given the
      four bytes of checksum that end a zlib stream. */
  method DecodeStored(bytes: seq<Byte>, checksum: seq<Byte>, obuf: array<Byte>, exp: bool) returns (z: ZBuf)
    requires |checksum| == 4 && 0 < obuf.Length <= UINT_MAX
    requires |bytes| <= if exp then 0x7FFF_FFFF else obuf.Length
    modifies obuf
    ensures z.zout <= z.buf.Length && z.Out() == bytes
  {
    var data := [0x78, 0x01] + Store(bytes) + checksum;
    HeaderOfStored(bytes, checksum);
    hide Store, Inflate, ZlibHeader, Peek;
    z := new ZBuf(data, obuf, exp);
    var ok, _ := z.ParseZlib(true);
  }

  lemma HeaderOfStored(bytes: seq<Byte>, checksum: seq<Byte>)
    requires |checksum| == 4
    ensures var data := [0x78, 0x01] + Store(bytes) + checksum;
            ZlibHeader(data) && Inflate(data, 16, []) == Done(bytes, 8 * (|data| - 4))
  {
    hide Inflate, Store;
    var data := [0x78, 0x01] + Store(bytes) + checksum;
    assert data[2..2 + |Store(bytes)|] == Store(bytes);
    StoreNotEmpty(bytes);
    StoreRoundTrip(data, 2, bytes, []);
    assert [] + bytes == bytes;
    assert And(1, 32) == 0;
  }

  lemma StoreNotEmpty(bytes: seq<Byte>)
    ensures |Store(bytes)| >= 5
  {
  }
}
