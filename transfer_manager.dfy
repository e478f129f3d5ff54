/**
  The sending side of a file transfer: one header frame, then the payload in
  contiguous slices of at most `MAX_CHUNK_SIZE` bytes, stopping at the first
  send the link refuses.
*/
module TransferManager {
  import opened Text
  import opened Utf8
  import opened TransferModels

  function Min(a: int, b: int): int {
    if a <= b then a else b
  }

  /** The slices `data[offset..min(offset + 490, N)]` for offset, offset + 490, ... below N. */
  function ChunksFrom(data: seq<Byte>, offset: nat): seq<seq<Byte>>
    decreases |data| - offset
  {
    if offset >= |data| then []
    else [data[offset..Min(offset + MAX_CHUNK_SIZE, |data|)]] + ChunksFrom(data, offset + MAX_CHUNK_SIZE)
  }

  function Chunks(data: seq<Byte>): seq<seq<Byte>> {
    ChunksFrom(data, 0)
  }

  function Concat(parts: seq<seq<Byte>>): seq<Byte> {
    if |parts| == 0 then [] else parts[0] + Concat(parts[1..])
  }

  /** Everything `sendData` hands to the link when every send succeeds: the header, then the chunks. */
  function Packets(data: seq<Byte>, t: PacketType, meta: string): seq<seq<Byte>> {
    [Encode(CreateHeader(t, meta))] + Chunks(data)
  }

  /** The chunks, put back together, are the data. */
  lemma {:induction false} ConcatChunksFrom(data: seq<Byte>, offset: nat)
    requires offset <= |data|
    decreases |data| - offset
    ensures Concat(ChunksFrom(data, offset)) == data[offset..]
  {
    if offset < |data| {
      var end := Min(offset + MAX_CHUNK_SIZE, |data|);
      var cs := ChunksFrom(data, offset);
      assert cs[1..] == ChunksFrom(data, offset + MAX_CHUNK_SIZE);
      if end < |data| {
        ConcatChunksFrom(data, end);
      } else {
        assert ChunksFrom(data, offset + MAX_CHUNK_SIZE) == [];
      }
      assert data[offset..] == data[offset..end] + data[end..];
    }
  }

  lemma ConcatChunks(data: seq<Byte>)
    ensures Concat(Chunks(data)) == data
  {
    ConcatChunksFrom(data, 0);
  }

  /** Chunk `k` starts at `offset + 490 k`; there are ceil((N - offset) / 490) of them. */
  lemma {:induction false} ChunksFromShape(data: seq<Byte>, offset: nat)
    requires offset <= |data|
    decreases |data| - offset
    ensures |ChunksFrom(data, offset)| == (|data| - offset + MAX_CHUNK_SIZE - 1) / MAX_CHUNK_SIZE
    ensures forall k :: 0 <= k < |ChunksFrom(data, offset)| ==>
      offset + MAX_CHUNK_SIZE * k < |data| &&
      ChunksFrom(data, offset)[k]
        == data[offset + MAX_CHUNK_SIZE * k..Min(offset + MAX_CHUNK_SIZE * k + MAX_CHUNK_SIZE, |data|)]
  {
    if offset < |data| {
      var next := offset + MAX_CHUNK_SIZE;
      var cs := ChunksFrom(data, offset);
      if next <= |data| {
        ChunksFromShape(data, next);
        var rest := ChunksFrom(data, next);
        assert cs[1..] == rest;
        forall k | 1 <= k < |cs|
          ensures offset + MAX_CHUNK_SIZE * k < |data|
          ensures cs[k] == data[offset + MAX_CHUNK_SIZE * k..Min(offset + MAX_CHUNK_SIZE * k + MAX_CHUNK_SIZE, |data|)]
        {
          assert cs[k] == rest[k - 1];
          assert next + MAX_CHUNK_SIZE * (k - 1) == offset + MAX_CHUNK_SIZE * k;
        }
      } else {
        assert cs == [data[offset..|data|]];
      }
    }
  }

  /**
    For `N > 0` bytes: ceil(N / 490) chunks, every one but the last of exactly
    490 bytes, the last of the remaining 1..490 bytes.
  */
  lemma ChunkSizes(data: seq<Byte>)
    requires |data| > 0
    ensures |Chunks(data)| == (|data| + MAX_CHUNK_SIZE - 1) / MAX_CHUNK_SIZE
    ensures forall k :: 0 <= k < |Chunks(data)| - 1 ==> |Chunks(data)[k]| == MAX_CHUNK_SIZE
    ensures |Chunks(data)| > 0
    ensures |Chunks(data)[|Chunks(data)| - 1]| == |data| - MAX_CHUNK_SIZE * (|Chunks(data)| - 1)
    ensures 0 < |Chunks(data)[|Chunks(data)| - 1]| <= MAX_CHUNK_SIZE
  {
    ChunksFromShape(data, 0);
    var cs := Chunks(data);
    var n := |cs|;
    forall k | 0 <= k < n - 1 ensures |cs[k]| == MAX_CHUNK_SIZE {
      assert MAX_CHUNK_SIZE * (k + 1) < |data| by {
        assert MAX_CHUNK_SIZE * (k + 1) <= MAX_CHUNK_SIZE * (n - 1);
      }
    }
    assert MAX_CHUNK_SIZE * (n - 1) < |data|;
    assert |data| <= MAX_CHUNK_SIZE * n;
  }

  /** 50000 bytes travel as 103 chunks, the last of 20 bytes. */
  lemma FiftyThousandBytes(data: seq<Byte>)
    requires |data| == 50000
    ensures |Chunks(data)| == 103 && |Chunks(data)[102]| == 20
  {
    ChunkSizes(data);
  }

  /**
    `sendData(address, data, type, metaData)`. The link is an oracle: the
    `k`-th send (the header is send 0) succeeds exactly when `accepts(k)`.
    Returns the verdict and the payloads handed to the link, in order.
  */
  method SendData(data: seq<Byte>, t: PacketType, meta: string, accepts: nat -> bool)
    returns (ok: bool, sent: seq<seq<Byte>>)
    ensures 1 <= |sent| <= |Packets(data, t, meta)|
    ensures sent == Packets(data, t, meta)[..|sent|]
    ensures forall k :: 0 <= k < |sent| - 1 ==> accepts(k)
    ensures ok <==> |sent| == |Packets(data, t, meta)| && accepts(|sent| - 1)
    ensures !ok ==> !accepts(|sent| - 1)
    ensures ok <==> forall k :: 0 <= k < |Packets(data, t, meta)| ==> accepts(k)
    ensures |data| == 0 ==> sent == [Encode(CreateHeader(t, meta))] && (ok <==> accepts(0))
  {
    var header := Encode(CreateHeader(t, meta));
    sent := [header];
    if !accepts(0) {
      return false, sent;
    }
    var totalSize := |data|;
    var offset: nat := 0;
    while offset < totalSize
      invariant sent + ChunksFrom(data, offset) == Packets(data, t, meta)
      invariant 1 <= |sent|
      invariant forall k :: 0 <= k < |sent| ==> accepts(k)
      decreases totalSize - offset
    {
      var end := Min(offset + MAX_CHUNK_SIZE, totalSize);
      var chunk := data[offset..end];
      assert ChunksFrom(data, offset) == [chunk] + ChunksFrom(data, offset + MAX_CHUNK_SIZE);
      sent := sent + [chunk];
      if !accepts(|sent| - 1) {
        assert sent == Packets(data, t, meta)[..|sent|];
        return false, sent;
      }
      offset := offset + MAX_CHUNK_SIZE;
    }
    assert sent == Packets(data, t, meta);
    return true, sent;
  }
}
