/** Host and device together: the datagrams render sends for a frame,
    received in order by udp_task, leave the packed frame at the start of
    ledbuf, and only the last of them flushes. */
module RoundTrip {
  import opened Protocol
  import opened Pack
  import opened Frames
  import opened Decoder

  /** What recvfrom reports for each datagram of a run. */
  function Receipts(ds: seq<seq<byte>>): (rs: seq<Receipt>)
    ensures |rs| == |ds|
    ensures forall k :: 0 <= k < |ds| ==> rs[k] == Receive(ds[k])
  {
    seq(|ds|, k requires 0 <= k < |ds| => Receive(ds[k]))
  }

  /** Packed bytes in place once the first k fragments of a frame of n
      bytes have arrived. */
  function Landed(n: nat, k: nat): nat
  {
    if LpktSize * k < 2 * (n / 3) then LpktSize * k else 2 * (n / 3)
  }

  /** The setting of the round trip: a frame of whole pixels, at most 256
      fragments (so the 8-bit index does not wrap) and a buffer that holds
      the packed frame. */
  predicate Fitting(frame: seq<byte>, bufLength: nat)
  {
    && |frame| % 3 == 0
    && FragmentCount(|frame|) <= 256
    && 2 * (|frame| / 3) <= bufLength
  }

  /** Where fragment k's payload starts and ends in the packed frame: a
      full fragment adds LpktSize bytes, the last one the rest. */
  lemma LandedStep(n: nat, k: nat)
    requires n % 3 == 0
    requires k < FragmentCount(n)
    ensures Landed(n, k) == LpktSize * k
    ensures 3 * (Landed(n, k) / 2) == PixPktSize * k
    ensures Landed(n, k) % 2 == 0 && Landed(n, k + 1) % 2 == 0
    ensures Landed(n, k) <= Landed(n, k + 1) <= 2 * (n / 3)
    ensures k < FragmentCount(n) - 1 ==> Landed(n, k + 1) == Landed(n, k) + LpktSize
    ensures k == FragmentCount(n) - 1 ==>
              Landed(n, k + 1) - Landed(n, k) == ((n - PixPktSize * k) / 3) * 2
  {
    FragmentStart(n, k);
    var pixels := n / 3;
    var a := 700 * k;
    assert n == 3 * pixels;
    assert LpktSize * k == 2 * a && PixPktSize * k == 3 * a;
    assert LpktSize * (k + 1) == 2 * (a + 700) && PixPktSize * (k + 1) == 3 * (a + 700);
    assert a < pixels;
    assert Landed(n, k) == 2 * a;
    if k < FragmentCount(n) - 1 {
      LastFragment(n, k);
      assert a + 700 < pixels;
      assert Landed(n, k + 1) == 2 * (a + 700);
    } else {
      LastFragment(n, k);
      assert a + 700 >= pixels;
      assert Landed(n, k + 1) == 2 * pixels;
      assert (n - PixPktSize * k) / 3 == pixels - a;
    }
  }

  /** Fragment k is two header bytes and Landed(k+1) - Landed(k) packed
      bytes. */
  lemma FragmentLength(frame: seq<byte>, k: nat)
    requires |frame| % 3 == 0
    requires k < FragmentCount(|frame|)
    ensures |Fragment(frame, k)| == 2 + Landed(|frame|, k + 1) - Landed(|frame|, k)
    ensures 3 * (Landed(|frame|, k) / 2) == PixPktSize * k
    ensures Landed(|frame|, k) % 2 == 0 && Landed(|frame|, k + 1) % 2 == 0
    ensures Landed(|frame|, k) <= Landed(|frame|, k + 1) <= 2 * (|frame| / 3)
  {
    FragmentShape(frame, k);
    LandedStep(|frame|, k);
  }

  /** Fragment k's header and index: it is accepted, lands at
      Landed(k) = LpktSize*k and flushes exactly when it is the last. */
  lemma FragmentHeader(frame: seq<byte>, k: nat)
    requires |frame| % 3 == 0
    requires k < FragmentCount(|frame|) <= 256
    ensures Receive(Fragment(frame, k)) == Received(Fragment(frame, k))
    ensures Accepted(Received(Fragment(frame, k)))
    ensures Offset(Received(Fragment(frame, k))) == Landed(|frame|, k)
    ensures IsTerminal(Received(Fragment(frame, k))) <==> k == FragmentCount(|frame|) - 1
  {
    FragmentShape(frame, k);
    LandedStep(|frame|, k);
    var rem := |frame| - PixPktSize * k;
    if k == FragmentCount(|frame|) - 1 {
      assert rem % 3 == 0 && rem > 0;
      assert (rem / 3) * 2 >= 2;
    }
  }

  /** Fragment k carries bytes Landed(k) .. Landed(k+1) of the packed frame. */
  lemma FragmentBody(frame: seq<byte>, k: nat)
    requires |frame| % 3 == 0
    requires k < FragmentCount(|frame|)
    ensures |Fragment(frame, k)| >= 2
    ensures Landed(|frame|, k) <= Landed(|frame|, k + 1) <= |Packed(frame)|
    ensures Fragment(frame, k)[2 ..] == Packed(frame)[Landed(|frame|, k) .. Landed(|frame|, k + 1)]
  {
    FragmentPayload(frame, k);
    FragmentLength(frame, k);
  }

  /** Cutting a sequence at lo and hi and joining the two pieces again. */
  lemma Rejoin<T>(s: seq<T>, lo: nat, hi: nat)
    requires lo <= hi <= |s|
    ensures s[.. lo] + s[lo .. hi] == s[.. hi]
  {
  }

  /** One accepted datagram that fits extends the delivered prefix of
      packed from lo to hi when it lands at lo and carries packed[lo..hi]. */
  lemma DeliverExtends(before: seq<byte>, r: Receipt, packed: seq<byte>, buf: seq<byte>, lo: nat, hi: nat)
    requires lo <= hi <= |packed| && hi <= |buf|
    requires before == packed[.. lo] + buf[lo ..]
    requires Fits(r, |buf|) && Offset(r) == lo && r.bytes[2 ..] == packed[lo .. hi]
    ensures Deliver(before, r) == packed[.. hi] + buf[hi ..]
  {
    assert Deliver(before, r) == before[.. lo] + r.bytes[2 ..] + before[hi ..];
    assert before[.. lo] == packed[.. lo];
    assert before[hi ..] == buf[hi ..];
    Rejoin(packed, lo, hi);
  }

  /** Feeding the first k receipts is feeding the first k-1 and then
      delivering receipt k-1. */
  lemma FeedLast(buf: seq<byte>, rs: seq<Receipt>, k: nat)
    requires 0 < k <= |rs|
    ensures Feed(buf, rs[.. k]) == Deliver(Feed(buf, rs[.. k - 1]), rs[k - 1])
  {
    assert rs[.. k][.. k - 1] == rs[.. k - 1];
  }

  /** Fragment k-1 extends what the first k-1 fragments left in ledbuf. */
  lemma FeedStep(frame: seq<byte>, buf: seq<byte>, k: nat)
    requires Fitting(frame, |buf|)
    requires 0 < k <= FragmentCount(|frame|)
    requires Feed(buf, Receipts(Fragments(frame))[.. k - 1])
             == Packed(frame)[.. Landed(|frame|, k - 1)] + buf[Landed(|frame|, k - 1) ..]
    ensures Landed(|frame|, k) <= |buf|
    ensures Feed(buf, Receipts(Fragments(frame))[.. k])
            == Packed(frame)[.. Landed(|frame|, k)] + buf[Landed(|frame|, k) ..]
  {
    var rs := Receipts(Fragments(frame));
    FragmentHeader(frame, k - 1);
    FragmentLength(frame, k - 1);
    FragmentBody(frame, k - 1);
    FeedLast(buf, rs, k);
    assert rs[k - 1] == Received(Fragment(frame, k - 1));
    DeliverExtends(Feed(buf, rs[.. k - 1]), rs[k - 1], Packed(frame), buf,
                   Landed(|frame|, k - 1), Landed(|frame|, k));
  }

  /** After the first k fragments, ledbuf holds the first Landed(k) packed
      bytes and the rest of it is untouched. */
  lemma {:induction false} FeedPrefix(frame: seq<byte>, buf: seq<byte>, k: nat)
    requires Fitting(frame, |buf|)
    requires k <= FragmentCount(|frame|)
    ensures Landed(|frame|, k) <= |buf|
    ensures Feed(buf, Receipts(Fragments(frame))[.. k])
            == Packed(frame)[.. Landed(|frame|, k)] + buf[Landed(|frame|, k) ..]
  {
    if k == 0 {
      assert Receipts(Fragments(frame))[.. 0] == [];
    } else {
      FeedPrefix(frame, buf, k - 1);
      FeedStep(frame, buf, k);
    }
  }

  /** The round trip: feeding a frame's fragments, in order, to the
      receive loop puts packed pixel p at ledbuf[2p..2p+1], leaves the
      bytes past the packed frame alone, and flushes once, on the last
      fragment. */
  lemma RoundTrip(frame: seq<byte>, buf: seq<byte>)
    requires Fitting(frame, |buf|)
    ensures Feed(buf, Receipts(Fragments(frame))) == Packed(frame) + buf[2 * (|frame| / 3) ..]
    ensures forall k :: 0 <= k < |Fragments(frame)| ==>
              (IsTerminal(Receipts(Fragments(frame))[k]) <==> k == |Fragments(frame)| - 1)
  {
    var n := FragmentCount(|frame|);
    FeedPrefix(frame, buf, n);
    FeedWhole(buf, Receipts(Fragments(frame)));
    LandedAll(|frame|);
    assert Packed(frame)[.. 2 * (|frame| / 3)] == Packed(frame);
    OnlyLastFlushes(frame);
  }

  lemma FeedWhole(buf: seq<byte>, rs: seq<Receipt>)
    ensures Feed(buf, rs[.. |rs|]) == Feed(buf, rs)
  {
    assert rs[.. |rs|] == rs;
  }

  /** All fragments together land the whole packed frame. */
  lemma LandedAll(n: nat)
    ensures Landed(n, FragmentCount(n)) == 2 * (n / 3)
  {
    FragmentCountIsCeiling(n);
    assert 3 * (LpktSize * FragmentCount(n)) == 2 * (PixPktSize * FragmentCount(n));
  }

  /** Of the datagrams of one frame exactly the last is a terminal one. */
  lemma OnlyLastFlushes(frame: seq<byte>)
    requires |frame| % 3 == 0 && FragmentCount(|frame|) <= 256
    ensures forall k :: 0 <= k < |Fragments(frame)| ==>
              (IsTerminal(Receipts(Fragments(frame))[k]) <==> k == |Fragments(frame)| - 1)
  {
    var n := FragmentCount(|frame|);
    forall k | 0 <= k < n
      ensures IsTerminal(Receipts(Fragments(frame))[k]) <==> k == n - 1
    {
      FragmentHeader(frame, k);
    }
  }

  /** Pixel by pixel: after the round trip ledbuf[2p], ledbuf[2p+1] are
      the 5-5-5 word of pixel p, which decodes to its colour with the low
      three bits of each channel cleared. */
  lemma RoundTripPixel(frame: seq<byte>, buf: seq<byte>, p: nat)
    requires Fitting(frame, |buf|)
    requires p < |frame| / 3
    ensures var out := Feed(buf, Receipts(Fragments(frame)));
            var word := PackPixel(frame[3 * p], frame[3 * p + 1], frame[3 * p + 2]);
            && out[2 * p] == word.0 && out[2 * p + 1] == word.1
            && Unpack(out[2 * p], out[2 * p + 1])
               == RGB(Coarse(frame[3 * p]), Coarse(frame[3 * p + 1]), Coarse(frame[3 * p + 2]))
  {
    RoundTrip(frame, buf);
    PixelOf(Feed(buf, Receipts(Fragments(frame))), frame, p);
  }

  /** The pixel facts of RoundTripPixel for any buffer that starts with
      the packed frame. */
  lemma PixelOf(out: seq<byte>, frame: seq<byte>, p: nat)
    requires p < |frame| / 3
    requires |Packed(frame)| <= |out| && out[.. |Packed(frame)|] == Packed(frame)
    ensures var word := PackPixel(frame[3 * p], frame[3 * p + 1], frame[3 * p + 2]);
            out[2 * p] == word.0 && out[2 * p + 1] == word.1
    ensures Unpack(out[2 * p], out[2 * p + 1])
            == RGB(Coarse(frame[3 * p]), Coarse(frame[3 * p + 1]), Coarse(frame[3 * p + 2]))
  {
    PackedAt(frame, p);
    assert out[2 * p] == out[.. |Packed(frame)|][2 * p];
    assert out[2 * p + 1] == out[.. |Packed(frame)|][2 * p + 1];
    UnpackPackPixel(frame[3 * p], frame[3 * p + 1], frame[3 * p + 2]);
  }

  /** Beyond 256 fragments the 8-bit index wraps: fragment 256 of a frame
      lands on the window of fragment 0. */
  lemma IndexWraps(frame: seq<byte>)
    requires |frame| % 3 == 0
    requires FragmentCount(|frame|) > 256
    ensures Accepted(Receive(Fragment(frame, 256)))
    ensures Offset(Receive(Fragment(frame, 256))) == 0
  {
    FragmentShape(frame, 256);
    FragmentCountIsCeiling(|frame|);
    if 256 == FragmentCount(|frame|) - 1 {
      assert (|frame| - PixPktSize * 256) % 3 == 0;
    }
  }
}
