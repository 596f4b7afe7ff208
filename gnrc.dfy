/**
 * The parts of RIOT's GNRC packet representation that the ESP-NOW adapter
 * reads and builds: packet types, the generic network interface header and
 * packet snips. A packet is a chain of snips, written here as a sequence in
 * chain order.
 */
module Gnrc {
  import opened CTypes

  /** gnrc_nettype_t, reduced to the values the adapter tells apart. */
  datatype Nettype =
    | Netif            // GNRC_NETTYPE_NETIF
    | Sixlowpan        // GNRC_NETTYPE_SIXLOWPAN
    | Undef            // GNRC_NETTYPE_UNDEF
    | Other(id: nat)   // every other protocol type (IPv6, UDP, ...)

  /** GNRC_NETIF_HDR_FLAGS_BROADCAST */
  const FLAGS_BROADCAST: bv8 := 0x80
  /** GNRC_NETIF_HDR_FLAGS_MULTICAST */
  const FLAGS_MULTICAST: bv8 := 0x40

  /**
   * gnrc_netif_hdr_t with the link-layer addresses that follow it; the
   * declared lengths src_l2addr_len and dst_l2addr_len are |src| and |dst|.
   */
  datatype NetifHdr = NetifHdr(flags: bv8, src: seq<uint8>, dst: seq<uint8>, ifPid: int)

  /** True when the header asks for a broadcast or a multicast. */
  predicate IsGroupcast(hdr: NetifHdr)
  {
    hdr.flags & (FLAGS_BROADCAST | FLAGS_MULTICAST) != 0
  }

  /**
   * gnrc_pktsnip_t: a snip of type GNRC_NETTYPE_NETIF holds a netif header;
   * every other snip holds bytes of its own type.
   */
  datatype Snip =
    | NetifSnip(hdr: NetifHdr)
    | DataSnip(nettype: Nettype, data: seq<uint8>)
  {
    /** The snip's `type` field. */
    function Type(): Nettype
    {
      match this
      case NetifSnip(_) => Netif
      case DataSnip(t, _) => t
    }

    /** A data snip never claims to be a netif header. */
    predicate Valid()
    {
      DataSnip? ==> nettype != Netif
    }
  }

  /** True when every snip of the chain carries bytes. */
  predicate AllData(snips: seq<Snip>)
  {
    forall i | 0 <= i < |snips| :: snips[i].DataSnip?
  }

  /** The sum of the snips' `size` fields. */
  function TotalSize(snips: seq<Snip>): nat
    requires AllData(snips)
  {
    if snips == [] then 0 else |snips[0].data| + TotalSize(snips[1..])
  }

  /** The snips' bytes laid end to end, in chain order. */
  function Concat(snips: seq<Snip>): seq<uint8>
    requires AllData(snips)
  {
    if snips == [] then [] else snips[0].data + Concat(snips[1..])
  }

  /** Concatenating two chains concatenates their bytes. */
  lemma {:induction false} ConcatAppend(a: seq<Snip>, b: seq<Snip>)
    requires AllData(a) && AllData(b)
    ensures AllData(a + b)
    ensures Concat(a + b) == Concat(a) + Concat(b)
    ensures TotalSize(a + b) == TotalSize(a) + TotalSize(b)
  {
    if a == [] {
      assert a + b == b;
    } else {
      assert (a + b)[1..] == a[1..] + b;
      ConcatAppend(a[1..], b);
    }
  }

  /** The bytes of a chain are as many as the sum of its snips' sizes. */
  lemma {:induction false} ConcatLength(snips: seq<Snip>)
    requires AllData(snips)
    ensures |Concat(snips)| == TotalSize(snips)
  {
    if snips != [] {
      ConcatLength(snips[1..]);
    }
  }
}
