/**
 * Properties of the ESP-NOW adapter's reference definitions: the error
 * paths of `_send`, its destination, size and frame rules, the buffer and
 * ownership rules of `_recv`, the encode-then-decode round trip, and two
 * places where the code falls short of what it evidently intends.
 */
module EspNowNetifProperties {
  import opened CTypes
  import opened Wrappers
  import opened Gnrc
  import opened EspNowNetdev
  import opened EspNowNetif

  /*
   * Sending.
   */

  /** A chain whose first snip is not a netif header is released and refused, and nothing is sent. */
  lemma SendRejectsNonNetifFirst(pkt: seq<Snip>, sixlowpan: bool, driverResult: int)
    requires SendPre(pkt) && pkt[0].Type() != Netif
    ensures SendSpec(pkt, sixlowpan, driverResult) == SendOutcome(-EBADMSG, None, 1)
  {
  }

  /** The chain `pkt` with the destination address of its netif header replaced by `dst`. */
  function WithDst(pkt: seq<Snip>, dst: seq<uint8>): (r: seq<Snip>)
    requires |pkt| >= 1 && pkt[0].NetifSnip?
    ensures |r| == |pkt| && r[1..] == pkt[1..]
    ensures r[0].NetifSnip? && r[0].hdr.dst == dst && r[0].hdr.flags == pkt[0].hdr.flags
  {
    pkt[0 := NetifSnip(pkt[0].hdr.(dst := dst))]
  }

  /**
   * A broadcast or multicast goes to the all-ones address, and the header's
   * destination field, of whatever length, makes no difference at all.
   */
  lemma SendGroupcastIsBroadcast(pkt: seq<Snip>, dst: seq<uint8>, sixlowpan: bool, driverResult: int)
    requires SendPre(pkt) && pkt[0].NetifSnip? && IsGroupcast(pkt[0].hdr)
    ensures SendPre(WithDst(pkt, dst))
    ensures SendSpec(WithDst(pkt, dst), sixlowpan, driverResult) == SendSpec(pkt, sixlowpan, driverResult)
    ensures SendSpec(pkt, sixlowpan, driverResult).sent.Some? ==>
              SendSpec(pkt, sixlowpan, driverResult).sent.value.mac == BROADCAST_ADDR
  {
  }

  /**
   * Without a broadcast or multicast flag, a six-byte destination is used
   * as it is; any other length is refused with nothing sent and, as
   * written, without releasing the chain.
   */
  lemma SendUnicastDestination(pkt: seq<Snip>, sixlowpan: bool, driverResult: int)
    requires SendPre(pkt) && pkt[0].NetifSnip? && !IsGroupcast(pkt[0].hdr)
    ensures var o := SendSpec(pkt, sixlowpan, driverResult);
      |pkt[0].hdr.dst| == ESP_NOW_ADDR_LEN && o.sent.Some? ==> o.sent.value.mac == pkt[0].hdr.dst
    ensures |pkt[0].hdr.dst| != ESP_NOW_ADDR_LEN ==>
              SendSpec(pkt, sixlowpan, driverResult) == SendOutcome(-EBADMSG, None, 0)
  {
  }

  /**
   * Once the header and destination are acceptable, a frame goes to the
   * driver exactly when the payload snips together fit the data region;
   * otherwise the chain is released and EBADMSG returned.
   */
  lemma SendSizeLimit(pkt: seq<Snip>, sixlowpan: bool, driverResult: int)
    requires SendPre(pkt) && pkt[0].NetifSnip? && ResolveDst(pkt[0].hdr).Some?
    ensures var o := SendSpec(pkt, sixlowpan, driverResult);
      && (o.sent.Some? <==> TotalSize(pkt[1..]) <= ESP_NOW_MAX_SIZE)
      && (o.sent.None? ==> o.result == -EBADMSG && o.releases == 1)
  {
  }

  /**
   * A frame handed to the driver is the tag byte followed by the payload
   * snips' bytes in chain order, so its length is one more than the payload
   * size and at most ESP_NOW_MAX_SIZE_RAW; it goes to a six-byte address,
   * the chain has been released once, and the driver's result is returned.
   */
  lemma SendFrameContents(pkt: seq<Snip>, sixlowpan: bool, driverResult: int)
    requires SendPre(pkt) && SendSpec(pkt, sixlowpan, driverResult).sent.Some?
    ensures var o := SendSpec(pkt, sixlowpan, driverResult);
      var f := o.sent.value;
      && |f.bytes| == ESP_NOW_HEADER_LENGTH + TotalSize(pkt[1..]) <= ESP_NOW_MAX_SIZE_RAW
      && f.bytes[0] == TagOf(pkt[1].Type(), sixlowpan)
      && f.bytes[ESP_NOW_HEADER_LENGTH..] == Concat(pkt[1..])
      && |f.mac| == ESP_NOW_ADDR_LEN
      && o.result == driverResult && o.releases == 1
  {
    ConcatLength(pkt[1..]);
  }

  /**
   * Every refusal returns EBADMSG without a frame; the chain is released
   * exactly once on every path except the wrong-length destination, where
   * it is not released at all.
   */
  lemma SendReleases(pkt: seq<Snip>, sixlowpan: bool, driverResult: int)
    requires SendPre(pkt)
    ensures var o := SendSpec(pkt, sixlowpan, driverResult);
      && (o.sent.None? ==> o.result == -EBADMSG)
      && (o.sent.Some? ==> o.result == driverResult)
      && o.releases <= 1
      && (o.releases == 0 <==> pkt[0].NetifSnip? && ResolveDst(pkt[0].hdr).None?)
  {
  }

  /** Six bytes AA:BB:CC:DD:EE:FF. */
  const EXAMPLE_ADDR: seq<uint8> := [0xAA, 0xBB, 0xCC, 0xDD, 0xEE, 0xFF]

  /**
   * A unicast 6LoWPAN payload of ten bytes to AA:BB:CC:DD:EE:FF becomes an
   * eleven-byte frame starting with tag 1, sent to that address.
   */
  lemma SendExampleSixlowpan(ten: seq<uint8>, driverResult: int)
    requires |ten| == 10
    ensures var pkt := [NetifSnip(NetifHdr(0, [], EXAMPLE_ADDR, 0)), DataSnip(Sixlowpan, ten)];
      && SendPre(pkt)
      && SendSpec(pkt, true, driverResult) == SendOutcome(driverResult, Some(Frame(EXAMPLE_ADDR, [1] + ten)), 1)
      && |SendSpec(pkt, true, driverResult).sent.value.bytes| == 11
  {
    var pkt := [NetifSnip(NetifHdr(0, [], EXAMPLE_ADDR, 0)), DataSnip(Sixlowpan, ten)];
    assert pkt[1..] == [DataSnip(Sixlowpan, ten)];
    assert pkt[1..][1..] == [];
    assert Concat(pkt[1..]) == ten;
    assert TotalSize(pkt[1..]) == 10;
    assert !IsGroupcast(pkt[0].hdr);
    assert ResolveDst(pkt[0].hdr) == Some(EXAMPLE_ADDR);
    assert TagOf(pkt[1].Type(), true) == 1;
  }

  /** Payload snips of 100, 100 and 60 bytes (260 > 249) are refused and nothing is sent. */
  lemma SendExampleOversize(a: seq<uint8>, b: seq<uint8>, c: seq<uint8>, driverResult: int)
    requires |a| == 100 && |b| == 100 && |c| == 60
    ensures var pkt := [NetifSnip(NetifHdr(0, [], EXAMPLE_ADDR, 0)), DataSnip(Undef, a), DataSnip(Undef, b), DataSnip(Undef, c)];
      && SendPre(pkt)
      && SendSpec(pkt, true, driverResult) == SendOutcome(-EBADMSG, None, 1)
  {
    var pkt := [NetifSnip(NetifHdr(0, [], EXAMPLE_ADDR, 0)), DataSnip(Undef, a), DataSnip(Undef, b), DataSnip(Undef, c)];
    assert pkt[1..] == [pkt[1], pkt[2], pkt[3]];
    assert !IsGroupcast(pkt[0].hdr);
    assert TotalSize(pkt[1..]) == 260 by {
      var p := pkt[1..];
      assert p[1..] == [pkt[2], pkt[3]];
      assert p[1..][1..] == [pkt[3]];
      assert p[1..][1..][1..] == [];
      assert TotalSize(p[1..][1..]) == 60;
      assert TotalSize(p[1..]) == 160;
    }
  }

  /*
   * Receiving.
   */

  /** When the driver reports nothing, nothing is returned, taken or released, and `rx_pkt.len` is left alone. */
  lemma RecvNothingAvailable(priorLen: uint8, recvRes: int, frame: seq<uint8>, mac: seq<uint8>,
                             addr: seq<uint8>, pid: int, sixlowpan: bool, payloadOk: bool, hdrOk: bool)
    requires recvRes <= 0
    ensures DriverRecvPre(recvRes, frame, mac)
    ensures RecvSpec(priorLen, recvRes, frame, mac, addr, pid, sixlowpan, payloadOk, hdrOk)
         == RecvOutcome(None, [], [], priorLen)
  {
  }

  /**
   * A failed allocation returns NULL; if the payload snip had been taken
   * it is given back, and `rx_pkt.len` is left at the frame's length.
   */
  lemma RecvAllocFailure(priorLen: uint8, recvRes: int, frame: seq<uint8>, mac: seq<uint8>,
                         addr: seq<uint8>, pid: int, sixlowpan: bool, payloadOk: bool, hdrOk: bool)
    requires DriverRecvPre(recvRes, frame, mac) && recvRes > 0 && !(payloadOk && hdrOk)
    ensures var o := RecvSpec(priorLen, recvRes, frame, mac, addr, pid, sixlowpan, payloadOk, hdrOk);
      && o.pkt.None?
      && o.released == o.added
      && |o.added| == (if payloadOk then 1 else 0)
      && o.lenAfter as nat == |frame|
  {
  }

  /**
   * A received frame becomes a payload snip of len - 1 bytes holding the
   * frame after its tag, typed by the tag, followed by a netif header from
   * the frame's sender to this device on the calling thread's interface;
   * afterwards `rx_pkt.len` is 0.
   */
  lemma RecvSuccess(priorLen: uint8, recvRes: int, frame: seq<uint8>, mac: seq<uint8>,
                    addr: seq<uint8>, pid: int, sixlowpan: bool)
    requires DriverRecvPre(recvRes, frame, mac) && recvRes > 0 && |addr| == ESP_NOW_ADDR_LEN
    ensures var o := RecvSpec(priorLen, recvRes, frame, mac, addr, pid, sixlowpan, true, true);
      && o.pkt.Some? && |o.pkt.value| == 2
      && var payload := o.pkt.value[0];
         var hdr := o.pkt.value[1];
      && payload.DataSnip? && |payload.data| == |frame| - ESP_NOW_HEADER_LENGTH
      && payload.data == frame[ESP_NOW_HEADER_LENGTH..]
      && payload.Type() == NettypeOf(frame[0], sixlowpan)
      && hdr.Type() == Netif
      && |hdr.hdr.src| == |hdr.hdr.dst| == ESP_NOW_ADDR_LEN
      && hdr.hdr.src == mac && hdr.hdr.dst == addr && hdr.hdr.ifPid == pid
      && o.released == [] && o.lenAfter == 0
  {
  }

  /** A frame with a tag the build does not know is still delivered, as an UNDEF payload. */
  lemma RecvUnknownTag(priorLen: uint8, recvRes: int, frame: seq<uint8>, mac: seq<uint8>,
                       addr: seq<uint8>, pid: int, sixlowpan: bool)
    requires DriverRecvPre(recvRes, frame, mac) && recvRes > 0
    requires !(sixlowpan && frame[0] == 1)
    ensures var o := RecvSpec(priorLen, recvRes, frame, mac, addr, pid, sixlowpan, true, true);
      o.pkt.Some? && o.pkt.value[0].Type() == Undef
  {
  }

  /** Every snip `_recv` takes from the packet buffer is either returned in the chain or released. */
  lemma RecvNoLeak(priorLen: uint8, recvRes: int, frame: seq<uint8>, mac: seq<uint8>,
                   addr: seq<uint8>, pid: int, sixlowpan: bool, payloadOk: bool, hdrOk: bool)
    requires DriverRecvPre(recvRes, frame, mac)
    ensures var o := RecvSpec(priorLen, recvRes, frame, mac, addr, pid, sixlowpan, payloadOk, hdrOk);
      multiset(o.added) == multiset(o.released) + multiset(if o.pkt.Some? then o.pkt.value else [])
  {
  }

  /*
   * Encoding then decoding.
   */

  /**
   * The frame `_send` hands to the driver, received from `sender`, decodes
   * to the sent payload bytes in one snip, typed 6LoWPAN exactly when it
   * was sent as 6LoWPAN with the module built in (UNDEF otherwise), and a
   * header naming `sender` as the source.
   */
  lemma SendRecvRoundTrip(pkt: seq<Snip>, sixlowpan: bool, driverResult: int,
                          priorLen: uint8, recvRes: int, sender: seq<uint8>, addr: seq<uint8>, pid: int)
    requires SendPre(pkt) && SendSpec(pkt, sixlowpan, driverResult).sent.Some?
    requires recvRes > 0 && |sender| == ESP_NOW_ADDR_LEN
    ensures var bytes := SendSpec(pkt, sixlowpan, driverResult).sent.value.bytes;
      && DriverRecvPre(recvRes, bytes, sender)
      && RecvSpec(priorLen, recvRes, bytes, sender, addr, pid, sixlowpan, true, true).pkt
         == Some([DataSnip(if sixlowpan && pkt[1].Type() == Sixlowpan then Sixlowpan else Undef, Concat(pkt[1..])),
                  NetifSnip(RecvHdr(sender, addr, pid))])
  {
    SendFrameContents(pkt, sixlowpan, driverResult);
    TagRoundTrip(pkt[1].Type(), sixlowpan);
  }

  /*
   * Findings.
   */

  /** As written: a unicast header with a three-byte destination is refused but never released. */
  lemma BadDstLenLeaksChain(driverResult: int)
    ensures var pkt := [NetifSnip(NetifHdr(0, [], [1, 2, 3], 0)), DataSnip(Undef, [])];
      && SendPre(pkt)
      && SendSpec(pkt, false, driverResult) == SendOutcome(-EBADMSG, None, 0)
  {
  }

  /**
   * `_send` with the chain also released on the wrong-length path: it
   * behaves as written in every other respect and releases the chain
   * exactly once on every path.
   */
  function SendSpecReleasing(pkt: seq<Snip>, sixlowpan: bool, driverResult: int): (o: SendOutcome)
    requires SendPre(pkt)
    ensures o.releases == 1
    ensures o.result == SendSpec(pkt, sixlowpan, driverResult).result
    ensures o.sent == SendSpec(pkt, sixlowpan, driverResult).sent
  {
    if pkt[0].Type() != Netif then SendOutcome(-EBADMSG, None, 1)
    else
      match ResolveDst(pkt[0].hdr)
      case None => SendOutcome(-EBADMSG, None, 1)
      case Some(mac) =>
        if TotalSize(pkt[1..]) > ESP_NOW_MAX_SIZE then SendOutcome(-EBADMSG, None, 1)
        else
          var tag := TagOf(pkt[1].Type(), sixlowpan);
          SendOutcome(driverResult, Some(Frame(mac, [tag] + Concat(pkt[1..]))), 1)
  }

  /**
   * As written: when the payload snip cannot be taken, `_recv` returns
   * with `rx_pkt.len` still holding the two-byte frame's length.
   */
  lemma AllocFailureLeavesLenStale(addr: seq<uint8>)
    ensures var o := RecvSpec(0, 2, [0, 7], EXAMPLE_ADDR, addr, 1, false, false, true);
      o.pkt.None? && o.lenAfter == 2
  {
  }

  /**
   * `_recv` with `rx_pkt.len` reset on every way out: the same snips are
   * returned, taken and released, and the receive packet is always left
   * empty for the next frame.
   */
  function RecvSpecResetting(priorLen: uint8, recvRes: int, frame: seq<uint8>, mac: seq<uint8>,
                             addr: seq<uint8>, pid: int, sixlowpan: bool,
                             payloadAllocOk: bool, hdrAllocOk: bool): (o: RecvOutcome)
    requires DriverRecvPre(recvRes, frame, mac)
    ensures o.lenAfter == 0
    ensures var w := RecvSpec(priorLen, recvRes, frame, mac, addr, pid, sixlowpan, payloadAllocOk, hdrAllocOk);
      o.pkt == w.pkt && o.added == w.added && o.released == w.released
  {
    if recvRes <= 0 then RecvOutcome(None, [], [], 0)
    else
      var payload := DataSnip(NettypeOf(frame[0], sixlowpan), frame[ESP_NOW_HEADER_LENGTH..]);
      if !payloadAllocOk then RecvOutcome(None, [], [], 0)
      else if !hdrAllocOk then RecvOutcome(None, [payload], [payload], 0)
      else
        var hdr := NetifSnip(RecvHdr(mac, addr, pid));
        RecvOutcome(Some([payload, hdr]), [payload, hdr], [], 0)
  }
}
