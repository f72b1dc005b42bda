/** What render (sled/out_udp.c:232-277) puts on the wire for one frame:
    the datagrams [header, index, payload], as a function of the frame's
    RGB bytes. The encoder's loop is proved to send exactly these. */
module Frames {
  import opened Protocol
  import opened Pack

  /** Number of datagrams for a frame of n bytes: the loop runs while
      n > 0 and takes PixPktSize bytes per turn. */
  function FragmentCount(n: nat): nat
  {
    (n + PixPktSize - 1) / PixPktSize
  }

  /** The header render writes for fragment k of an n-byte frame: 0xAA
      while more than PixPktSize bytes remain, 0xE5 for the rest. */
  function Header(n: nat, k: nat): byte
    requires PixPktSize * k < n
  {
    if n - PixPktSize * k > PixPktSize then HeaderMore else HeaderLast
  }

  /** Source bytes fragment k consumes: PixPktSize for a continuation
      fragment, the remaining bytes rounded down to whole pixels for the
      terminal one. */
  function Taken(n: nat, k: nat): (t: nat)
    requires PixPktSize * k < n
    ensures PixPktSize * k + t <= n && t % 3 == 0
  {
    var rem := n - PixPktSize * k;
    if rem > PixPktSize then PixPktSize else (rem / 3) * 3
  }

  /** The index byte: k truncated to 8 bits. */
  function IndexByte(k: nat): byte
  {
    (k % 256) as byte
  }

  /** Datagram k of a frame: header, index byte and the packed pixels of
      the bytes it consumes. */
  function Fragment(frame: seq<byte>, k: nat): seq<byte>
    requires k < FragmentCount(|frame|)
  {
    FragmentStart(|frame|, k);
    var start := PixPktSize * k;
    [Header(|frame|, k), IndexByte(k)] + Packed(frame[start .. start + Taken(|frame|, k)])
  }

  /** All datagrams of one render call, in sending order. */
  function Fragments(frame: seq<byte>): (ds: seq<seq<byte>>)
    ensures |ds| == FragmentCount(|frame|)
  {
    seq(FragmentCount(|frame|), k requires 0 <= k < FragmentCount(|frame|) => Fragment(frame, k))
  }

  /** FragmentCount(n) is the ceiling of n / PixPktSize: the fewest
      fragments whose source slices cover all n bytes. */
  lemma FragmentCountIsCeiling(n: nat)
    ensures PixPktSize * FragmentCount(n) >= n
    ensures FragmentCount(n) > 0 ==> PixPktSize * (FragmentCount(n) - 1) < n
    ensures n > 0 <==> FragmentCount(n) > 0
  {
  }

  /** Every fragment starts inside the frame. */
  lemma FragmentStart(n: nat, k: nat)
    requires k < FragmentCount(n)
    ensures PixPktSize * k < n
  {
    FragmentCountIsCeiling(n);
    assert PixPktSize * k <= PixPktSize * (FragmentCount(n) - 1);
  }

  /** Which fragment is the last: fragment k is the terminal one exactly
      when at most PixPktSize bytes remain from its start. */
  lemma LastFragment(n: nat, k: nat)
    requires k < FragmentCount(n)
    ensures PixPktSize * k < n
    ensures Header(n, k) == HeaderLast <==> k == FragmentCount(n) - 1
    ensures k < FragmentCount(n) - 1 ==> Taken(n, k) == PixPktSize
    ensures k == FragmentCount(n) - 1 ==> n - PixPktSize * k <= PixPktSize
  {
    FragmentCountIsCeiling(n);
    FragmentStart(n, k);
    if k < FragmentCount(n) - 1 {
      assert PixPktSize * (k + 1) <= PixPktSize * (FragmentCount(n) - 1);
    }
  }

  /** The header and length rules of render: every fragment but the last is
      a full 0xAA datagram of MaxDatagram bytes; the last is 0xE5 and packs
      the remaining r bytes, 0 < r <= PixPktSize, into (r/3)*2 bytes.
      Fragment k carries index k mod 256. */
  lemma FragmentShape(frame: seq<byte>, k: nat)
    requires k < FragmentCount(|frame|)
    ensures 0 < |frame| - PixPktSize * k
    ensures |Fragment(frame, k)| >= 2 && Fragment(frame, k)[1] == IndexByte(k)
    ensures k < FragmentCount(|frame|) - 1 ==>
              Fragment(frame, k)[0] == HeaderMore && |Fragment(frame, k)| == MaxDatagram
    ensures k == FragmentCount(|frame|) - 1 ==>
              && Fragment(frame, k)[0] == HeaderLast
              && |frame| - PixPktSize * k <= PixPktSize
              && |Fragment(frame, k)| == 2 + ((|frame| - PixPktSize * k) / 3) * 2
  {
    LastFragment(|frame|, k);
    var rem := |frame| - PixPktSize * k;
    assert |Fragment(frame, k)| == 2 + 2 * (Taken(|frame|, k) / 3);
    if k == FragmentCount(|frame|) - 1 {
      assert Taken(|frame|, k) / 3 == rem / 3;
    }
  }

  /** Fragment k's payload is a window of the packed frame: the bytes from
      LpktSize*k on, as many as the payload has. Packing fragment by
      fragment is packing the whole frame. */
  lemma FragmentPayload(frame: seq<byte>, k: nat)
    requires k < FragmentCount(|frame|)
    ensures |Fragment(frame, k)| >= 2
    ensures LpktSize * k + |Fragment(frame, k)| - 2 <= |Packed(frame)|
    ensures Fragment(frame, k)[2..] == Packed(frame)[LpktSize * k .. LpktSize * k + |Fragment(frame, k)| - 2]
  {
    FragmentStart(|frame|, k);
    var taken := Taken(|frame|, k);
    var a := 700 * k;
    var b := a + taken / 3;
    assert frame[PixPktSize * k .. PixPktSize * k + taken] == frame[3 * a .. 3 * b];
    PackedSlice(frame, a, b);
    var payload := Packed(frame[3 * a .. 3 * b]);
    PayloadAt(Fragment(frame, k), payload);
    assert |frame[3 * a .. 3 * b]| == 3 * (b - a);
    assert |payload| == 2 * (b - a);
    assert 2 * a == LpktSize * k && 2 * b == LpktSize * k + |Fragment(frame, k)| - 2;
  }

  /** The payload of a datagram [header, index] + payload. */
  lemma PayloadAt(d: seq<byte>, payload: seq<byte>)
    requires |d| >= 2 && d == [d[0], d[1]] + payload
    ensures d[2..] == payload
  {
  }

  /** For a frame of whole pixels (as render's NUMPIX*3 buffer is), the
      terminal payload holds between one and LpktSize/2 pixels. */
  lemma TerminalPayload(frame: seq<byte>)
    requires |frame| > 0 && |frame| % 3 == 0
    ensures 2 <= |Fragment(frame, FragmentCount(|frame|) - 1)| - 2 <= LpktSize
  {
    FragmentCountIsCeiling(|frame|);
    var k := FragmentCount(|frame|) - 1;
    FragmentShape(frame, k);
    var rem := |frame| - PixPktSize * k;
    var m := |frame| / 3 - 700 * k;
    assert rem == 3 * m by {
      assert |frame| == 3 * (|frame| / 3);
      assert PixPktSize * k == 3 * (700 * k);
    }
    assert rem / 3 == m;
    assert 1 <= m <= 700;
  }
}
