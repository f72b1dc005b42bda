/** The device side of the protocol, esp32/main/main.c: the reassembly
    buffer ledbuf of CONFIG_MSG_LENGTH bytes, zeroed at startup, and the
    body of the receive loop of udp_task, which copies the payload of each
    accepted datagram to ledbuf at index*1400 and, on a 0xE5 datagram,
    writes the whole buffer out to the LED chain in 32-byte SPI chunks. */
module Decoder {
  import opened Protocol

  /** SPI_LENGTH: bytes per SPI transfer of the flush. */
  const SpiLength: nat := 32

  /** The outcome of one recvfrom call: a failure (n < 0) or the n bytes
      it stored into lpkt. */
  datatype Receipt = RecvFailed | Received(bytes: seq<byte>)

  /** recvfrom into lpkt: a datagram longer than sizeof(lpkt) is cut to
      its first MaxDatagram bytes; shorter ones arrive whole. */
  function Receive(datagram: seq<byte>): (r: Receipt)
    ensures r.Received? && |r.bytes| <= MaxDatagram
    ensures r.bytes <= datagram
    ensures |datagram| <= MaxDatagram ==> r.bytes == datagram
    ensures |datagram| > MaxDatagram ==> r.bytes == datagram[.. MaxDatagram]
  {
    if |datagram| <= MaxDatagram then Received(datagram) else Received(datagram[.. MaxDatagram])
  }

  /** A datagram that passes both guards of the loop: at least three bytes
      and a header of 0xAA or 0xE5. */
  predicate Accepted(r: Receipt)
  {
    r.Received? && |r.bytes| >= 3 && (r.bytes[0] == HeaderMore || r.bytes[0] == HeaderLast)
  }

  /** An accepted 0xE5 datagram: the one that triggers a flush. */
  predicate IsTerminal(r: Receipt)
  {
    Accepted(r) && r.bytes[0] == HeaderLast
  }

  /** Where the payload of an accepted datagram goes: index * LPKT_SIZE. */
  function Offset(r: Receipt): nat
    requires Accepted(r)
  {
    r.bytes[1] as nat * LpktSize
  }

  /** An accepted datagram whose n-2 payload bytes lie inside a buffer of
      size bytes, the guard of the memcpy. */
  predicate Fits(r: Receipt, size: nat)
  {
    Accepted(r) && Offset(r) + (|r.bytes| - 2) <= size
  }

  /** ledbuf after one receive: the payload of a datagram that fits
      replaces the window at its offset. */
  function Deliver(buf: seq<byte>, r: Receipt): (out: seq<byte>)
    ensures |out| == |buf|
  {
    if Fits(r, |buf|) then
      buf[.. Offset(r)] + r.bytes[2 ..] + buf[Offset(r) + |r.bytes| - 2 ..]
    else
      buf
  }

  /** The cases of one receive: failed or short receives, bad headers and
      payloads that do not fit leave ledbuf as it was; a payload that fits
      overwrites exactly the bytes from its offset on and nothing else. */
  lemma DeliverCases(buf: seq<byte>, r: Receipt)
    ensures (r.RecvFailed? || |r.bytes| < 3) ==> Deliver(buf, r) == buf
    ensures (r.Received? && |r.bytes| >= 3 && r.bytes[0] != HeaderMore && r.bytes[0] != HeaderLast) ==>
              Deliver(buf, r) == buf
    ensures Accepted(r) && !Fits(r, |buf|) ==> Deliver(buf, r) == buf
    ensures Fits(r, |buf|) ==>
              forall i :: 0 <= i < |buf| ==>
                Deliver(buf, r)[i] ==
                  if Offset(r) <= i < Offset(r) + |r.bytes| - 2 then r.bytes[2 + i - Offset(r)] else buf[i]
  {
  }

  /** ledbuf after a run of receives, oldest first. */
  function Feed(buf: seq<byte>, rs: seq<Receipt>): (out: seq<byte>)
    ensures |out| == |buf|
  {
    if rs == [] then buf else Deliver(Feed(buf, rs[.. |rs| - 1]), rs[|rs| - 1])
  }

  /** The offsets the flush loop passes to led_writen, one per pass of
      `for (i = 0; i < CONFIG_MSG_LENGTH; i += SPI_LENGTH)`. */
  function ChunkOffsets(length: nat): (offsets: seq<nat>)
    ensures |offsets| == (length + SpiLength - 1) / SpiLength
  {
    seq((length + SpiLength - 1) / SpiLength, j => SpiLength * j)
  }

  /** The flush loop: emits the offset of every 32-byte chunk it writes. */
  method FlushChunks(length: nat) returns (offsets: seq<nat>)
    ensures offsets == ChunkOffsets(length)
  {
    offsets := [];
    var i: nat := 0;
    while i < length
      invariant i == SpiLength * |offsets|
      invariant i <= length + SpiLength - 1
      invariant offsets == ChunkOffsets(length)[.. |offsets|]
    {
      offsets := offsets + [i];
      i := i + SpiLength;
    }
    ChunkCount(length, |offsets|);
  }

  lemma ChunkCount(length: nat, k: nat)
    requires SpiLength * k >= length
    requires k == 0 || SpiLength * (k - 1) < length
    ensures k == (length + SpiLength - 1) / SpiLength
  {
  }

  /** The flush starts at 0 and steps by SPI_LENGTH, and every chunk starts
      inside the buffer. */
  lemma ChunksBelow(length: nat)
    ensures length > 0 ==> ChunkOffsets(length)[0] == 0
    ensures forall k :: 0 <= k < |ChunkOffsets(length)| ==> ChunkOffsets(length)[k] < length
    ensures forall k :: 0 <= k < |ChunkOffsets(length)| - 1 ==>
              ChunkOffsets(length)[k + 1] == ChunkOffsets(length)[k] + SpiLength
  {
  }

  /** The flush covers the whole buffer, stale bytes included: byte i is
      written by the chunk at offset SPI_LENGTH * (i / SPI_LENGTH). */
  lemma ChunksCover(length: nat, i: nat)
    requires i < length
    ensures i / SpiLength < |ChunkOffsets(length)|
    ensures ChunkOffsets(length)[i / SpiLength] <= i < ChunkOffsets(length)[i / SpiLength] + SpiLength
  {
  }

  /** Each led_writen reads SPI_LENGTH bytes; they all stay inside ledbuf
      exactly when its length is a multiple of SPI_LENGTH. */
  lemma ChunksInBounds(length: nat)
    ensures (forall k :: 0 <= k < |ChunkOffsets(length)| ==> ChunkOffsets(length)[k] + SpiLength <= length)
            <==> length % SpiLength == 0
  {
    var offsets := ChunkOffsets(length);
    if length % SpiLength != 0 {
      var last := |offsets| - 1;
      assert offsets[last] + SpiLength > length;
    }
  }

  /** The receiver: ledbuf, fixed in size, updated in place. */
  class Reassembler {
    const ledbuf: array<byte>

    /** app_main's memset: ledbuf starts all zero. */
    constructor (msgLength: nat)
      ensures fresh(ledbuf) && ledbuf.Length == msgLength
      ensures forall i :: 0 <= i < ledbuf.Length ==> ledbuf[i] == 0
    {
      ledbuf := new byte[msgLength](_ => 0);
    }

    /** One pass of the receive loop. Short or failed receives and bad
        headers are dropped; an accepted payload is copied only when it
        fits; a 0xE5 datagram flushes whether or not its payload was
        copied, a 0xAA datagram never does. */
    method Step(r: Receipt) returns (flushed: bool, chunks: seq<nat>)
      modifies ledbuf
      ensures ledbuf[..] == Deliver(old(ledbuf[..]), r)
      ensures flushed <==> IsTerminal(r)
      ensures chunks == if flushed then ChunkOffsets(ledbuf.Length) else []
    {
      DeliverCases(ledbuf[..], r);
      if r.RecvFailed? || |r.bytes| < 3 {
        return false, [];
      }
      var n := |r.bytes|;
      var header := r.bytes[0];
      if header != HeaderMore && header != HeaderLast {
        return false, [];
      }
      var ofs: nat := r.bytes[1] as nat * LpktSize;
      if ofs + (n - 2) <= ledbuf.Length {
        forall i | ofs <= i < ofs + (n - 2) {
          ledbuf[i] := r.bytes[2 + i - ofs];
        }
      }
      if header == HeaderLast {
        chunks := FlushChunks(ledbuf.Length);
        flushed := true;
      } else {
        flushed, chunks := false, [];
      }
    }

    /** The receive loop over a finite run of receipts: the buffer ends as
        Feed says and flushes[k] records whether receipt k flushed. */
    method Run(rs: seq<Receipt>) returns (flushes: seq<bool>)
      modifies ledbuf
      ensures ledbuf[..] == Feed(old(ledbuf[..]), rs)
      ensures |flushes| == |rs|
      ensures forall k :: 0 <= k < |rs| ==> (flushes[k] <==> IsTerminal(rs[k]))
    {
      flushes := [];
      var k := 0;
      while k < |rs|
        invariant k <= |rs| && |flushes| == k
        invariant ledbuf[..] == Feed(old(ledbuf[..]), rs[.. k])
        invariant forall j :: 0 <= j < k ==> (flushes[j] <==> IsTerminal(rs[j]))
      {
        var flushed, _ := Step(rs[k]);
        assert rs[.. k + 1][.. k] == rs[.. k];
        flushes := flushes + [flushed];
        k := k + 1;
      }
      assert rs[.. k] == rs;
    }
  }
}
