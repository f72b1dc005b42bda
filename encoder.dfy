/** The host side of sled/out_udp.c: the module state (matrix size,
    tiling, the RGB message buffer, the reused packet lpkt and the
    socket), the pixel operations set, get and clear, and render, which
    packs the frame and sends it as a run of datagrams. */
module Encoder {
  import opened Protocol
  import opened Pack
  import opened Tiling
  import opened Frames

  /** The UDP socket as seen by render: sendto either hands the datagram
      to the network or fails. Which one happens is outside the model, so
      Send may choose either; the socket records every call and every
      datagram that went out. */
  class Link {
    var attempts: seq<seq<byte>>
    var delivered: seq<seq<byte>>

    constructor ()
      ensures attempts == [] && delivered == []
    {
      attempts := [];
      delivered := [];
    }

    method Send(d: seq<byte>) returns (ok: bool)
      modifies this
      ensures attempts == old(attempts) + [d]
      ensures delivered == if ok then old(delivered) + [d] else old(delivered)
    {
      ok :| true;
      attempts := attempts + [d];
      if ok {
        delivered := delivered + [d];
      }
    }
  }

  /** The number of pixels cpypck packs for a byte count len: one per two
      bytes, rounding up. */
  function Pixels(len: nat): nat
  {
    (len + 1) / 2
  }

  /** cpypck: packs Pixels(len) pixels of s, starting at byte sofs, into
      the first bytes of t, two bytes per pixel in the 5-5-5 layout of
      Packed; render always passes an even len, so exactly len bytes are
      written and every other byte of t is left alone. */
  method Cpypck(t: array<byte>, s: array<byte>, sofs: nat, len: nat)
    requires t != s
    requires 2 * Pixels(len) <= t.Length
    requires sofs + 3 * Pixels(len) <= s.Length
    modifies t
    ensures t[.. 2 * Pixels(len)] == Packed(s[sofs .. sofs + 3 * Pixels(len)])
    ensures t[2 * Pixels(len) ..] == old(t[2 * Pixels(len) ..])
  {
    ghost var pixels := Pixels(len);
    ghost var src := s[sofs .. sofs + 3 * pixels];
    ghost var packed := Packed(src);
    ghost var k: nat := 0;
    var i: nat := 0;
    var si: nat := sofs;
    var ti: nat := 0;
    while i < len
      invariant k <= pixels && i == 2 * k
      invariant ti == i && si == sofs + 3 * k
      invariant forall j :: 0 <= j < i ==> t[j] == packed[j]
      invariant forall j :: 2 * pixels <= j < t.Length ==> t[j] == old(t[j])
    {
      StorePixel(t, ti, s, si, sofs, pixels, k);
      si := si + 3;
      ti := ti + 2;
      i := i + 2;
      k := k + 1;
    }
    PixelsExit(len, k);
    assert t[.. 2 * pixels] == packed;
    assert t[2 * pixels ..] == old(t[2 * pixels ..]);
  }

  /** The two bytes one pass of cpypck stores for pixel k of the run from
      sofs are bytes 2k and 2k+1 of its packed image. */
  lemma PackedPass(s: seq<byte>, sofs: nat, pixels: nat, k: nat)
    requires sofs + 3 * pixels <= |s| && k < pixels
    ensures 2 * k + 1 < |Packed(s[sofs .. sofs + 3 * pixels])|
    ensures Packed(s[sofs .. sofs + 3 * pixels])[2 * k] == PackPixel(s[sofs + 3 * k], s[sofs + 3 * k + 1], s[sofs + 3 * k + 2]).0
    ensures Packed(s[sofs .. sofs + 3 * pixels])[2 * k + 1] == PackPixel(s[sofs + 3 * k], s[sofs + 3 * k + 1], s[sofs + 3 * k + 2]).1
  {
    var src := s[sofs .. sofs + 3 * pixels];
    assert s[sofs + 3 * k] == src[3 * k] && s[sofs + 3 * k + 1] == src[3 * k + 1] && s[sofs + 3 * k + 2] == src[3 * k + 2];
    PackedAt(src, k);
  }

  /** One pass of the cpypck loop: h is computed from pixel k's three
      source bytes at s[si] and stored big-endian at t[ti], t[ti+1], which
      then hold bytes 2k and 2k+1 of the packed run; no other byte of t
      changes. */
  method StorePixel(t: array<byte>, ti: nat, s: array<byte>, si: nat, ghost sofs: nat, ghost pixels: nat, ghost k: nat)
    requires t != s
    requires sofs + 3 * pixels <= s.Length && k < pixels
    requires si == sofs + 3 * k && ti == 2 * k && ti + 2 <= t.Length
    modifies t
    ensures 2 * k + 1 < |Packed(s[sofs .. sofs + 3 * pixels])|
    ensures t[ti] == Packed(s[sofs .. sofs + 3 * pixels])[2 * k]
    ensures t[ti + 1] == Packed(s[sofs .. sofs + 3 * pixels])[2 * k + 1]
    ensures forall j :: 0 <= j < t.Length && j != ti && j != ti + 1 ==> t[j] == old(t[j])
  {
    var h := Word(s[si], s[si + 1], s[si + 2]);
    t[ti] := HighByte(h);
    t[ti + 1] := LowByte(h);
    WordBytes(s[si], s[si + 1], s[si + 2]);
    PackedPass(s[..], sofs, pixels, k);
  }

  /** The cpypck loop, stepping two bytes at a time, stops after exactly
      Pixels(len) pixels. */
  lemma PixelsExit(len: nat, k: nat)
    requires 2 * k >= len && k <= Pixels(len)
    ensures k == Pixels(len)
  {
  }

  /** The len render passes to cpypck for fragment idx is even, and the
      pixels cpypck packs for it are exactly the source bytes the
      fragment consumes. */
  lemma LenCoversFragment(n: nat, idx: nat, len: nat)
    requires PixPktSize * idx < n
    requires len == if n - PixPktSize * idx > PixPktSize then LpktSize else ((n - PixPktSize * idx) / 3) * 2
    ensures 2 * Pixels(len) == len
    ensures 3 * Pixels(len) == Taken(n, idx)
  {
  }

  /** A packet holding fragment idx's header, index byte and packed
      source bytes is Fragment(frame, idx). */
  lemma PacketIsFragment(frame: seq<byte>, idx: nat, header: byte, index: byte, payload: seq<byte>)
    requires idx < FragmentCount(|frame|)
    requires PixPktSize * idx < |frame|
    requires header == if |frame| - PixPktSize * idx > PixPktSize then HeaderMore else HeaderLast
    requires index == (idx % 256) as byte
    requires payload == Packed(frame[PixPktSize * idx .. PixPktSize * idx + Taken(|frame|, idx)])
    ensures [header, index] + payload == Fragment(frame, idx)
  {
  }

  /** The fragments sent so far grow by one fragment per round of render. */
  lemma FragmentsGrow(frame: seq<byte>, k: nat)
    requires k < FragmentCount(|frame|)
    ensures Fragments(frame)[.. k + 1] == Fragments(frame)[.. k] + [Fragment(frame, k)]
  {
    assert Fragments(frame)[k] == Fragment(frame, k);
  }

  /** The output module: X_SIZE, Y_SIZE, tiletype, message, lpkt and the
      socket of sled/out_udp.c, held by one object. */
  class UdpOutput {
    const xSize: nat
    const ySize: nat
    const tile: Tile
    /** NUMPIX*3 RGB bytes, pixel p at bytes 3p, 3p+1, 3p+2. */
    const message: array<byte>
    /** lpkt.header, lpkt.index and lpkt.data: the one packet buffer render
        refills for every datagram. */
    var lpktHeader: byte
    var lpktIndex: byte
    const lpktData: array<byte>
    const link: Link

    /** The geometry is one Configure accepts and message holds NUMPIX
        pixels. */
    ghost predicate Valid()
      reads this
    {
      && Geometry(tile, xSize, ySize)
      && message.Length == xSize * ySize * 3
      && PacketBuffer()
    }

    /** lpkt.data holds LPKT_SIZE bytes and is not the message buffer. */
    ghost predicate PacketBuffer()
      reads this
    {
      lpktData.Length == LpktSize && message != lpktData
    }

    /** The allocation at the end of init: a zeroed message buffer of
        NUMPIX*3 bytes for a configuration Configure accepted. */
    constructor (cfg: Config, socket: Link)
      requires Geometry(cfg.tile, cfg.xSize, cfg.ySize)
      ensures Valid()
      ensures xSize == cfg.xSize && ySize == cfg.ySize && tile == cfg.tile && link == socket
      ensures fresh(message) && fresh(lpktData)
      ensures forall i :: 0 <= i < message.Length ==> message[i] == 0
    {
      xSize, ySize, tile := cfg.xSize, cfg.ySize, cfg.tile;
      message := new byte[cfg.xSize * cfg.ySize * 3](_ => 0);
      lpktData := new byte[LpktSize](_ => 0);
      lpktHeader, lpktIndex := 0, 0;
      link := socket;
    }

    /** get: the colour stored for pixel (x, y). */
    function Get(x: int, y: int): RGB
      reads this, message
      requires Valid()
      requires 0 <= x < xSize && 0 <= y < ySize
    {
      PposInRange(tile, xSize, ySize, x, y);
      var pos := Ppos(tile, xSize, ySize, x, y) * 3;
      RGB(message[pos], message[pos + 1], message[pos + 2])
    }

    /** set: stores a colour for pixel (x, y). A later get of the same
        pixel returns it, every other pixel keeps its colour, and only the
        three bytes at ppos(x, y)*3 change. */
    method Set(x: int, y: int, color: RGB)
      requires Valid()
      requires 0 <= x < xSize && 0 <= y < ySize
      modifies message
      ensures Get(x, y) == color
      ensures forall x', y' :: 0 <= x' < xSize && 0 <= y' < ySize && (x' != x || y' != y) ==>
                Get(x', y') == old(Get(x', y'))
      ensures forall i :: 0 <= i < message.Length && i / 3 != Ppos(tile, xSize, ySize, x, y) ==>
                message[i] == old(message[i])
    {
      PposInRange(tile, xSize, ySize, x, y);
      var pos := Ppos(tile, xSize, ySize, x, y) * 3;
      message[pos + 0] := color.red;
      message[pos + 1] := color.green;
      message[pos + 2] := color.blue;
      PposBijective(tile, xSize, ySize);
    }

    /** clear: every byte of message is zero, so every pixel reads black. */
    method Clear()
      requires Valid()
      modifies message
      ensures forall i :: 0 <= i < message.Length ==> message[i] == 0
      ensures forall x, y :: 0 <= x < xSize && 0 <= y < ySize ==> Get(x, y) == RGB(0, 0, 0)
    {
      forall i | 0 <= i < message.Length {
        message[i] := 0;
      }
      forall x, y | 0 <= x < xSize && 0 <= y < ySize
        ensures Get(x, y) == RGB(0, 0, 0)
      {
        PposInRange(tile, xSize, ySize, x, y);
      }
    }

    /** The body of the render loop up to sendto: fills lpkt with the
        header, the index byte and the packed pixels of the fragment that
        starts at byte ofs, n bytes before the end of message, and yields
        the len + 2 bytes handed to sendto, which are Fragment(message, idx). */
    method FillPacket(idx: nat, ofs: nat, n: int) returns (datagram: seq<byte>)
      requires PacketBuffer()
      requires idx < FragmentCount(message.Length)
      requires ofs == PixPktSize * idx && n == message.Length - ofs
      modifies this`lpktHeader, this`lpktIndex, lpktData
      ensures datagram == Fragment(message[..], idx)
      ensures datagram == [lpktHeader, lpktIndex] + lpktData[.. |datagram| - 2]
    {
      FragmentStart(message.Length, idx);
      lpktHeader := if n > PixPktSize then HeaderMore else HeaderLast;
      lpktIndex := (idx % 256) as byte;
      var len: nat := if n > PixPktSize then LpktSize else (n / 3) * 2;
      LenCoversFragment(message.Length, idx, len);
      Cpypck(lpktData, message, ofs, len);
      datagram := [lpktHeader, lpktIndex] + lpktData[.. len];
      assert message[ofs .. ofs + 3 * Pixels(len)] == message[..][ofs .. ofs + Taken(message.Length, idx)];
      PacketIsFragment(message[..], idx, lpktHeader, lpktIndex, lpktData[.. len]);
    }

    /** render: sends the fragments of the current frame in order. On
        success (0) the socket saw exactly Fragments(message); when the
        send of fragment k fails it returns 5 at once, fragments 0..k-1
        having gone out and no fragment after k having been tried. */
    method Render() returns (status: int)
      requires Valid()
      modifies this`lpktHeader, this`lpktIndex, lpktData, link
      ensures status == 0 || status == 5
      ensures status == 0 ==>
                && link.attempts == old(link.attempts) + Fragments(message[..])
                && link.delivered == old(link.delivered) + Fragments(message[..])
      ensures status == 5 ==>
                exists k :: 0 <= k < |Fragments(message[..])|
                  && link.attempts == old(link.attempts) + Fragments(message[..])[.. k + 1]
                  && link.delivered == old(link.delivered) + Fragments(message[..])[.. k]
    {
      ghost var frame := message[..];
      var n: int := message.Length;
      var idx: nat := 0;
      var ofs: nat := 0;
      FragmentCountIsCeiling(|frame|);
      while n > 0
        invariant ofs == PixPktSize * idx && n == |frame| - ofs
        invariant idx <= FragmentCount(|frame|)
        invariant n > 0 ==> idx < FragmentCount(|frame|)
        invariant link.attempts == old(link.attempts) + Fragments(frame)[.. idx]
        invariant link.delivered == old(link.delivered) + Fragments(frame)[.. idx]
        decreases n
      {
        var datagram := FillPacket(idx, ofs, n);
        var ok := link.Send(datagram);
        FragmentsGrow(frame, idx);
        if !ok {
          assert message[..] == frame;
          assert link.attempts == old(link.attempts) + Fragments(frame)[.. idx + 1];
          assert link.delivered == old(link.delivered) + Fragments(frame)[.. idx];
          return 5;
        }
        n := n - PixPktSize;
        ofs := ofs + PixPktSize;
        idx := idx + 1;
      }
      assert message[..] == frame;
      assert Fragments(frame)[.. idx] == Fragments(frame);
      return 0;
    }
  }
}
