/**
 * The ESP-NOW frame layout and the device fields that the GNRC adapter
 * uses: size constants, the packed packet buffer `esp_now_pkt_buf_t`
 * (one header byte of flags followed by the data region), the packet with
 * its metadata `esp_now_pkt_t`, and the address and receive packet of the
 * device descriptor `esp_now_netdev_t`.
 */
module EspNowNetdev {
  import opened CTypes

  /** Largest raw frame ESP-NOW carries, header included. */
  const ESP_NOW_MAX_SIZE_RAW: nat := 250

  /** Length of an Ethernet (and so of an ESP-NOW) hardware address. */
  const ETHERNET_ADDR_LEN: nat := 6
  const ESP_NOW_ADDR_LEN: nat := ETHERNET_ADDR_LEN

  /** sizeof(esp_now_pkt_hdr_t): the packed header is the single byte `flags`. */
  const ESP_NOW_HEADER_LENGTH: nat := 1

  /** Capacity of the data region of a frame. */
  const ESP_NOW_MAX_SIZE: nat := ESP_NOW_MAX_SIZE_RAW - ESP_NOW_HEADER_LENGTH

  /** The all-ones hardware address. */
  const BROADCAST_ADDR: seq<uint8> := [0xff, 0xff, 0xff, 0xff, 0xff, 0xff]

  /**
   * The size of the packed `esp_now_pkt_buf_t`: its header followed by
   * ESP_NOW_MAX_SIZE data bytes. The whole buffer is one raw frame, and
   * its length fits the `uint8_t len` of `esp_now_pkt_t`.
   */
  function PktBufSize(): (n: nat)
    ensures n == ESP_NOW_MAX_SIZE_RAW == 250
    ensures ESP_NOW_MAX_SIZE == 249 && ESP_NOW_HEADER_LENGTH == 1
    ensures n < 0x100
  {
    ESP_NOW_HEADER_LENGTH + ESP_NOW_MAX_SIZE
  }

  /**
   * What the driver sees of an `esp_now_pkt_t`: the hardware address `mac`
   * and the first `len` bytes of `buf`.
   */
  datatype Frame = Frame(mac: seq<uint8>, bytes: seq<uint8>)

  /**
   * esp_now_pkt_t. `buf` is the packed esp_now_pkt_buf_t: buf[0] is
   * hdr.flags and buf[ESP_NOW_HEADER_LENGTH..] is the data region. `len`
   * counts the bytes of `buf` in use, header included. `mac` is the
   * destination when sending and the source when receiving.
   */
  class Pkt {
    const buf: array<uint8>
    var len: uint8
    const mac: array<uint8>

    ghost predicate Valid()
      reads this
    {
      && buf.Length == PktBufSize()
      && mac.Length == ESP_NOW_ADDR_LEN
      && len as nat <= ESP_NOW_MAX_SIZE_RAW
    }

    constructor ()
      ensures Valid() && fresh(buf) && fresh(mac) && len == 0
    {
      buf := new uint8[PktBufSize()];
      mac := new uint8[ESP_NOW_ADDR_LEN];
      len := 0;
    }

    /** hdr.flags, the frame's tag byte. */
    function Flags(): uint8
      reads this, buf
      requires Valid()
    {
      buf[0]
    }

    /** The frame as the driver reads it. */
    function AsFrame(): (f: Frame)
      reads this, buf, mac
      requires Valid()
      ensures |f.mac| == ESP_NOW_ADDR_LEN && |f.bytes| == len as nat <= ESP_NOW_MAX_SIZE_RAW
    {
      Frame(mac[..], buf[..len])
    }
  }

  /** The fields of esp_now_netdev_t that the adapter uses. */
  class Device {
    /** The device's own MAC address, fixed at set-up. */
    const addr: array<uint8>
    /** The receive packet the driver fills and the adapter drains. */
    const rxPkt: Pkt

    ghost predicate Valid()
      reads this, rxPkt
    {
      && addr.Length == ESP_NOW_ADDR_LEN
      && rxPkt.Valid()
      && addr != rxPkt.mac
    }

    constructor (ownAddr: seq<uint8>)
      requires |ownAddr| == ESP_NOW_ADDR_LEN
      ensures Valid() && addr[..] == ownAddr && rxPkt.len == 0
      ensures fresh(addr) && fresh(rxPkt) && fresh(rxPkt.buf) && fresh(rxPkt.mac)
    {
      addr := new uint8[ESP_NOW_ADDR_LEN](i requires 0 <= i < ESP_NOW_ADDR_LEN => ownAddr[i]);
      rxPkt := new Pkt();
    }
  }
}
