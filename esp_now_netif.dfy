/**
 * The GNRC network interface adapter for ESP-NOW: `_send` turns a GNRC
 * packet chain into one ESP-NOW frame and hands it to the driver, `_recv`
 * turns the frame the driver left in the device's receive packet back into
 * a GNRC packet chain.
 *
 * Each operation has a pure reference definition (SendSpec, RecvSpec) and
 * an imperative method (Send, Recv) proved equal to it. The driver's send
 * and receive primitives, the pktbuf allocator and the calling thread's pid
 * are parameters. Releases of packet snips are counted in ghost
 * out-parameters, so that "released exactly once" can be stated.
 */
module EspNowNetif {
  import opened CTypes
  import opened Wrappers
  import opened Gnrc
  import opened EspNowNetdev

  /** EBADMSG of the ESP32 toolchain's C library (newlib). */
  const EBADMSG: int := 77

  /*
   * Tag mapping. `sixlowpan` says whether the build includes
   * MODULE_GNRC_SIXLOWPAN.
   */

  /** The frame tag chosen for a payload of type `t`. */
  function TagOf(t: Nettype, sixlowpan: bool): (tag: uint8)
    ensures tag == 0 || tag == 1
    ensures tag == 1 <==> sixlowpan && t == Sixlowpan
  {
    if sixlowpan && t == Sixlowpan then 1 else 0
  }

  /** The payload type a received tag stands for; unknown tags are not an error. */
  function NettypeOf(tag: uint8, sixlowpan: bool): (t: Nettype)
    ensures t == Sixlowpan || t == Undef
    ensures t == Sixlowpan <==> sixlowpan && tag == 1
  {
    if sixlowpan && tag == 1 then Sixlowpan else Undef
  }

  /**
   * Decoding the tag chosen for `t` gives back `t` whenever the frame can
   * name it (6LoWPAN with the module built in), and UNDEF otherwise.
   */
  lemma TagRoundTrip(t: Nettype, sixlowpan: bool)
    ensures NettypeOf(TagOf(t, sixlowpan), sixlowpan) == (if sixlowpan && t == Sixlowpan then Sixlowpan else Undef)
    ensures sixlowpan && (t == Sixlowpan || t == Undef) ==> NettypeOf(TagOf(t, sixlowpan), sixlowpan) == t
    ensures TagOf(NettypeOf(1, sixlowpan), sixlowpan) == (if sixlowpan then 1 else 0)
  {
  }

  /**
   * The destination MAC of an outgoing frame: all ones for a broadcast or
   * multicast, otherwise the header's destination when it is exactly six
   * bytes long, and nothing for any other length.
   */
  function ResolveDst(hdr: NetifHdr): (mac: Option<seq<uint8>>)
    ensures mac.Some? ==> |mac.value| == ESP_NOW_ADDR_LEN
  {
    if IsGroupcast(hdr) then Some(BROADCAST_ADDR)
    else if |hdr.dst| == ESP_NOW_ADDR_LEN then Some(hdr.dst)
    else None
  }

  /*
   * Sending.
   */

  /** Every payload snip is small enough that the `unsigned` running total cannot wrap. */
  predicate SizesFit(snips: seq<Snip>)
    requires AllData(snips)
  {
    forall i | 0 <= i < |snips| :: |snips[i].data| <= UINT_MAX - ESP_NOW_MAX_SIZE
  }

  /**
   * What `_send` needs of its caller: a non-empty chain whose first snip is
   * well formed, whose other snips carry bytes of a sensible size, and which
   * has a payload snip whenever the code reaches the payload's type.
   */
  predicate SendPre(pkt: seq<Snip>)
  {
    && |pkt| >= 1
    && pkt[0].Valid()
    && AllData(pkt[1..])
    && SizesFit(pkt[1..])
    && (pkt[0].NetifSnip? && ResolveDst(pkt[0].hdr).Some? ==> |pkt| >= 2)
  }

  /**
   * The result of `_send`, the frame handed to the driver (None when the
   * driver is not called) and how often the chain was released.
   */
  datatype SendOutcome = SendOutcome(result: int, sent: Option<Frame>, releases: nat)

  /** Reference definition of `_send`; `driverResult` is what the driver's send returns. */
  function SendSpec(pkt: seq<Snip>, sixlowpan: bool, driverResult: int): SendOutcome
    requires SendPre(pkt)
  {
    if pkt[0].Type() != Netif then SendOutcome(-EBADMSG, None, 1)
    else
      match ResolveDst(pkt[0].hdr)
      case None => SendOutcome(-EBADMSG, None, 0)
      case Some(mac) =>
        if TotalSize(pkt[1..]) > ESP_NOW_MAX_SIZE then SendOutcome(-EBADMSG, None, 1)
        else
          var tag := TagOf(pkt[1].Type(), sixlowpan);
          SendOutcome(driverResult, Some(Frame(mac, [tag] + Concat(pkt[1..]))), 1)
  }

  /** memcpy/memset into an array: `src` lands at `at`, the rest is untouched. */
  method CopyInto(dst: array<uint8>, at: nat, src: seq<uint8>)
    requires at + |src| <= dst.Length
    modifies dst
    ensures dst[..at] == old(dst[..at])
    ensures dst[at..at + |src|] == src
    ensures dst[at + |src|..] == old(dst[at + |src|..])
  {
    var k := 0;
    while k < |src|
      invariant 0 <= k <= |src|
      invariant dst[..at] == old(dst[..at])
      invariant dst[at..at + k] == src[..k]
      invariant dst[at + |src|..] == old(dst[at + |src|..])
    {
      dst[at + k] := src[k];
      k := k + 1;
    }
  }

  /**
   * The memcpy of one payload snip into the data region of a packet buffer
   * at `pos`: the data region up to `pos` is extended by `data`, and the
   * header byte stays as it was.
   */
  method AppendData(buf: array<uint8>, pos: nat, data: seq<uint8>)
    requires ESP_NOW_HEADER_LENGTH <= pos && pos + |data| <= buf.Length
    modifies buf
    ensures buf[0] == old(buf[0])
    ensures buf[ESP_NOW_HEADER_LENGTH..pos + |data|] == old(buf[ESP_NOW_HEADER_LENGTH..pos]) + data
  {
    ghost var before := buf[..];
    CopyInto(buf, pos, data);
    assert buf[ESP_NOW_HEADER_LENGTH..pos] == before[ESP_NOW_HEADER_LENGTH..pos] by {
      assert buf[..pos] == before[..pos];
    }
    assert buf[ESP_NOW_HEADER_LENGTH..pos + |data|]
        == buf[ESP_NOW_HEADER_LENGTH..pos] + buf[pos..pos + |data|];
  }

  /**
   * The copy loop of `_send`: walk the payload snips in order, adding each
   * size to the running total and stopping as soon as the total exceeds
   * ESP_NOW_MAX_SIZE; otherwise memcpy the snip behind the previous ones.
   * On success the data region starts with the concatenated payload.
   */
  method CopyPayload(buf: array<uint8>, payload: seq<Snip>) returns (fits: bool, payloadLen: nat)
    requires buf.Length == ESP_NOW_MAX_SIZE_RAW
    requires AllData(payload) && SizesFit(payload)
    modifies buf
    ensures buf[0] == old(buf[0])
    ensures fits <==> TotalSize(payload) <= ESP_NOW_MAX_SIZE
    ensures fits ==> payloadLen == TotalSize(payload)
    ensures fits ==> buf[ESP_NOW_HEADER_LENGTH..ESP_NOW_HEADER_LENGTH + payloadLen] == Concat(payload)
  {
    payloadLen := 0;
    var pos: nat := ESP_NOW_HEADER_LENGTH;
    var i := 0;
    while i < |payload|
      invariant 0 <= i <= |payload|
      invariant AllData(payload[..i])
      invariant payloadLen == TotalSize(payload[..i]) <= ESP_NOW_MAX_SIZE
      invariant pos == ESP_NOW_HEADER_LENGTH + payloadLen
      invariant buf[0] == old(buf[0])
      invariant buf[ESP_NOW_HEADER_LENGTH..pos] == Concat(payload[..i])
    {
      var size := |payload[i].data|;
      // cannot wrap: payloadLen <= ESP_NOW_MAX_SIZE and size <= UINT_MAX - ESP_NOW_MAX_SIZE
      payloadLen := payloadLen + size;
      assert payload[..i + 1] == payload[..i] + [payload[i]];
      ConcatAppend(payload[..i], [payload[i]]);
      if payloadLen > ESP_NOW_MAX_SIZE {
        assert payload == payload[..i + 1] + payload[i + 1..];
        ConcatAppend(payload[..i + 1], payload[i + 1..]);
        return false, payloadLen;
      }
      AppendData(buf, pos, payload[i].data);
      pos := pos + size;
      i := i + 1;
    }
    assert payload[..i] == payload;
    fits := true;
  }

  /**
   * `_send`: build the frame in a fresh `esp_now_pkt_t`, release the chain
   * and pass the driver's result through.
   */
  method Send(pkt: seq<Snip>, sixlowpan: bool, driverResult: int)
    returns (res: int, sent: Option<Frame>, ghost releases: nat)
    requires SendPre(pkt)
    ensures res == SendSpec(pkt, sixlowpan, driverResult).result
    ensures sent == SendSpec(pkt, sixlowpan, driverResult).sent
    ensures releases == SendSpec(pkt, sixlowpan, driverResult).releases
  {
    releases := 0;
    if pkt[0].Type() != Netif {
      releases := releases + 1;
      return -EBADMSG, None, releases;
    }
    var hdr := pkt[0].hdr;
    var txPkt := new Pkt();
    if IsGroupcast(hdr) {
      // ESP-NOW has no multicast: such frames are broadcast
      CopyInto(txPkt.mac, 0, BROADCAST_ADDR);
    } else if |hdr.dst| == ESP_NOW_ADDR_LEN {
      CopyInto(txPkt.mac, 0, hdr.dst);
    } else {
      // returns without releasing the chain, as the code does
      return -EBADMSG, None, releases;
    }
    assert txPkt.mac[..] == ResolveDst(hdr).value;
    var tag := TagOf(pkt[1].Type(), sixlowpan);
    txPkt.buf[0] := tag;

    var fits, payloadLen := CopyPayload(txPkt.buf, pkt[1..]);
    // the chain is released on both ways out of the copy loop
    releases := releases + 1;
    if !fits {
      return -EBADMSG, None, releases;
    }

    txPkt.len := ToUint8(ESP_NOW_HEADER_LENGTH + ToUint8(payloadLen) as int);
    assert txPkt.buf[..txPkt.len] == [tag] + Concat(pkt[1..]);
    res := driverResult;
    sent := Some(txPkt.AsFrame());
  }

  /*
   * Receiving.
   */

  /**
   * What the driver's recv primitive provides: when it reports a frame
   * (a positive result) the frame holds at least its header and fits the
   * 250-byte buffer, and the sender's MAC is six bytes long. The frame's
   * length is what `_recv` subtracts the header from without a check.
   */
  predicate DriverRecvPre(recvRes: int, frame: seq<uint8>, mac: seq<uint8>)
  {
    recvRes > 0 ==> ESP_NOW_HEADER_LENGTH <= |frame| <= ESP_NOW_MAX_SIZE_RAW && |mac| == ESP_NOW_ADDR_LEN
  }

  /**
   * The result of `_recv` (None for NULL), the snips it took from the
   * packet buffer and those it gave back, and `rx_pkt.len` afterwards.
   */
  datatype RecvOutcome = RecvOutcome(pkt: Option<seq<Snip>>, added: seq<Snip>, released: seq<Snip>, lenAfter: uint8)

  /** The netif header `_recv` builds for a frame from `src` to `dst`. */
  function RecvHdr(src: seq<uint8>, dst: seq<uint8>, pid: int): NetifHdr
  {
    NetifHdr(0, src, dst, pid)
  }

  /**
   * Reference definition of `_recv`. `priorLen` is `rx_pkt.len` before the
   * call; `frame` and `mac` are the bytes and sender the driver left in
   * `rx_pkt`; `addr` is the device's own address; the two flags say whether
   * the two gnrc_pktbuf_add calls succeed.
   */
  function RecvSpec(priorLen: uint8, recvRes: int, frame: seq<uint8>, mac: seq<uint8>,
                    addr: seq<uint8>, pid: int, sixlowpan: bool,
                    payloadAllocOk: bool, hdrAllocOk: bool): RecvOutcome
    requires DriverRecvPre(recvRes, frame, mac)
  {
    if recvRes <= 0 then RecvOutcome(None, [], [], priorLen)
    else
      var stale := |frame| as uint8;
      var payload := DataSnip(NettypeOf(frame[0], sixlowpan), frame[ESP_NOW_HEADER_LENGTH..]);
      if !payloadAllocOk then RecvOutcome(None, [], [], stale)
      else if !hdrAllocOk then RecvOutcome(None, [payload], [payload], stale)
      else
        var hdr := NetifSnip(RecvHdr(mac, addr, pid));
        RecvOutcome(Some([payload, hdr]), [payload, hdr], [], 0)
  }

  /**
   * `_recv`: the driver fills the device's receive packet, and the
   * payload and a netif header are copied out of it into two fresh snips,
   * payload first. Only the successful path clears `rx_pkt.len`.
   */
  method Recv(dev: Device, sixlowpan: bool, pid: int,
              recvRes: int, rxFrame: seq<uint8>, rxMac: seq<uint8>,
              payloadAllocOk: bool, hdrAllocOk: bool)
    returns (pkt: Option<seq<Snip>>, ghost added: seq<Snip>, ghost released: seq<Snip>)
    requires dev.Valid()
    requires DriverRecvPre(recvRes, rxFrame, rxMac)
    modifies dev.rxPkt, dev.rxPkt.buf, dev.rxPkt.mac
    ensures dev.Valid()
    ensures RecvOutcome(pkt, added, released, dev.rxPkt.len)
         == RecvSpec(old(dev.rxPkt.len), recvRes, rxFrame, rxMac, dev.addr[..], pid, sixlowpan,
                     payloadAllocOk, hdrAllocOk)
    ensures recvRes > 0 ==> dev.rxPkt.buf[..|rxFrame|] == rxFrame && dev.rxPkt.mac[..] == rxMac
    ensures recvRes <= 0 ==> unchanged(dev.rxPkt.buf) && unchanged(dev.rxPkt.mac)
  {
    added, released := [], [];
    if recvRes <= 0 {
      return None, added, released;
    }
    // the driver's recv stores the frame and its sender in `rx_pkt`
    CopyInto(dev.rxPkt.buf, 0, rxFrame);
    CopyInto(dev.rxPkt.mac, 0, rxMac);
    dev.rxPkt.len := |rxFrame| as uint8;
    assert dev.rxPkt.buf[..dev.rxPkt.len] == rxFrame;
    assert dev.rxPkt.buf[0] == rxFrame[0];
    assert dev.rxPkt.mac[..] == rxMac;
    assert dev.rxPkt.buf[ESP_NOW_HEADER_LENGTH..dev.rxPkt.len] == rxFrame[ESP_NOW_HEADER_LENGTH..];

    var nettype := NettypeOf(dev.rxPkt.buf[0], sixlowpan);
    // `unsigned` subtraction; the driver guarantees len >= ESP_NOW_HEADER_LENGTH
    var pktLen := dev.rxPkt.len as nat - ESP_NOW_HEADER_LENGTH;
    if !payloadAllocOk {
      return None, added, released;
    }
    var payload := DataSnip(nettype, dev.rxPkt.buf[ESP_NOW_HEADER_LENGTH..ESP_NOW_HEADER_LENGTH + pktLen]);
    added := added + [payload];
    if !hdrAllocOk {
      released := released + [payload];
      return None, added, released;
    }
    var netifHdr := NetifSnip(RecvHdr(dev.rxPkt.mac[..], dev.addr[..], pid));
    added := added + [netifHdr];
    pkt := Some([payload, netifHdr]);
    dev.rxPkt.len := 0;
  }
}
