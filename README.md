# ESP-NOW GNRC adapter

A Dafny model of the glue between RIOT's GNRC network stack and the ESP-NOW
peer-to-peer WiFi transport on the ESP32. There are two operations:

- `_send` turns an outgoing GNRC packet chain into one ESP-NOW frame. The
  chain is a netif header snip followed by payload snips. The frame is a
  one-byte tag followed by the payload bytes, with a six-byte destination
  MAC beside it. The frame goes to the driver.
- `_recv` turns the frame that the driver left in the device's single
  receive packet `rx_pkt` back into a GNRC chain: a payload snip followed by
  a netif header snip.

The frame layout comes from `esp_now_netdev.h`. A raw frame holds at most
250 bytes. One of them is the tag, which leaves a 249-byte data region.
Addresses are 6 bytes long.

Files and modules:

- `ctypes.dfy`: module `CTypes`, with `uint8` and the `(uint8_t)` cast. Module
  `Wrappers`, with `Option`; `None` stands for a NULL return.
- `gnrc.dfy`: module `Gnrc`. It holds the GNRC types the adapter reads and
  builds: nettypes, the netif header with its addresses, packet snips and
  chains as sequences, and the concatenation of a chain's bytes. GNRC's own
  sources are not part of this model. The flag values 0x80 (broadcast) and
  0x40 (multicast) are RIOT's.
- `esp_now_netdev.dfy`: module `EspNowNetdev`. It holds the size constants,
  the class `Pkt` for `esp_now_pkt_t`, and the class `Device` for the fields
  `addr` and `rx_pkt` of `esp_now_netdev_t`. In `Pkt`, `buf` is the packed
  250-byte buffer: `buf[0]` is the header's `flags` and the rest is the data
  region. `len` counts the bytes in use, header included.
- `esp_now_netif.dfy`: module `EspNowNetif`. For `_send` it has the reference
  function `SendSpec` and the method `Send`. `Send` builds the frame in a
  fresh `Pkt`, and its copy loop is `CopyPayload`. For `_recv` it has
  `RecvSpec` and the method `Recv`, which works on a `Device`. Each method is
  proved equal to its reference function.
- `esp_now_netif_properties.dfy`: module `EspNowNetifProperties`, holding
  the lemmas about `SendSpec` and `RecvSpec` and the two findings below.

Things outside the code become parameters:

- The build option `MODULE_GNRC_SIXLOWPAN` is the `bool` parameter
  `sixlowpan`.
- The driver's `send` becomes `driverResult`, which `Send` returns
  unchanged.
- The driver's `recv` becomes three parameters. `recvRes` is its result
  code. `rxFrame` is the frame it stores in `rx_pkt.buf`, and its length
  becomes `rx_pkt.len`. `rxMac` is the sender's address, stored in
  `rx_pkt.mac`.
- Each `gnrc_pktbuf_add` becomes a success flag.
- `thread_getpid()` becomes `pid`.

Releases of packet snips are counted in ghost out-parameters. On send,
`releases` counts how often the chain is released. On receive, `added` lists
the snips taken from the packet buffer and `released` lists those given
back. Snips are values, so no returned snip can alias `rx_pkt`.

The model follows the code in two places where the adapter's documented
design asks for more. First, the wrong-length destination path does not
release the chain. Second, `rx_pkt.len` is cleared only on the successful
receive path. Both are listed under Findings.

## Model

| member | source | states |
|---|---|---|
| `EspNowNetdev.PktBufSize` | cpu/esp32/esp-now/esp_now_netdev.h:29-69 | the packed buffer is the 1-byte header plus the 249-byte data region, exactly the 250-byte raw maximum, and its size fits the `uint8_t len` |
| `EspNowNetdev.Pkt.AsFrame` | cpu/esp32/esp-now/esp_now_netdev.h:71-80 | what the driver reads of a packet is a 6-byte `mac` and the first `len` bytes of `buf`, at most 250 |
| `CTypes.ToUint8` | cpu/esp32/esp-now/esp_now_netif.c:101 | the `(uint8_t)` cast keeps a value below 256 and is congruent to its input modulo 256 |
| `EspNowNetif.TagOf` | cpu/esp32/esp-now/esp_now_netif.c:65-73 | the tag is 0 or 1, and it is 1 exactly when the payload is 6LoWPAN and the module is built in |
| `EspNowNetif.NettypeOf` | cpu/esp32/esp-now/esp_now_netif.c:129-138 | a received tag gives 6LoWPAN exactly when it is 1 and the module is built in; every other tag gives UNDEF |
| `EspNowNetif.TagRoundTrip` | cpu/esp32/esp-now/esp_now_netif.c:65-138 | decoding the tag chosen for a type gives 6LoWPAN back when the module is built in and UNDEF otherwise; with the module built in, 6LoWPAN and UNDEF round-trip exactly |
| `EspNowNetif.ResolveDst` | cpu/esp32/esp-now/esp_now_netif.c:54-63 | a resolved destination is always 6 bytes long |
| `EspNowNetif.CopyPayload` | cpu/esp32/esp-now/esp_now_netif.c:80-96 | the copy loop succeeds exactly when the snip sizes sum to at most 249; then the data region starts with the snips' bytes in chain order and the header byte is untouched |
| `EspNowNetif.AppendData` | cpu/esp32/esp-now/esp_now_netif.c:93-94 | one memcpy extends the data region written so far by the snip's bytes and leaves the header byte alone |
| `EspNowNetif.Send` | cpu/esp32/esp-now/esp_now_netif.c:34-112 | the result, the frame handed to the driver (if any) and the release count are each exactly those of the reference `SendSpec` |
| `EspNowNetif.Recv` | cpu/esp32/esp-now/esp_now_netif.c:114-179 | the returned chain, the snips taken and released, and `rx_pkt.len` afterwards are those of `RecvSpec`; `rx_pkt` holds the driver's frame and sender; only `rx_pkt` changes |
| `EspNowNetifProperties.SendRejectsNonNetifFirst` | cpu/esp32/esp-now/esp_now_netif.c:46-50 | a chain not headed by a netif snip gives -EBADMSG, is released once, and nothing is sent |
| `EspNowNetifProperties.SendGroupcastIsBroadcast` | cpu/esp32/esp-now/esp_now_netif.c:54-56 | with the broadcast or multicast flag set, the frame goes to ff:ff:ff:ff:ff:ff, and replacing the header's destination by any bytes of any length changes nothing |
| `EspNowNetifProperties.SendUnicastDestination` | cpu/esp32/esp-now/esp_now_netif.c:57-63 | without those flags, a 6-byte destination is used as is; any other length gives -EBADMSG with no send and no release |
| `EspNowNetifProperties.SendSizeLimit` | cpu/esp32/esp-now/esp_now_netif.c:80-91 | with a good header, a frame is sent exactly when the payload totals at most 249 bytes; otherwise -EBADMSG, with the chain released once |
| `EspNowNetifProperties.SendFrameContents` | cpu/esp32/esp-now/esp_now_netif.c:93-111 | a sent frame is the tag followed by the payload snips' bytes in order, so its length is 1 + payload size and at most 250; the chain is released once and the driver's result is returned unchanged |
| `EspNowNetifProperties.SendReleases` | cpu/esp32/esp-now/esp_now_netif.c:46-111 | no frame means -EBADMSG, a frame means the driver's result; the chain is released at most once, and not at all exactly on the wrong-length destination path |
| `EspNowNetifProperties.SendExampleSixlowpan` | cpu/esp32/esp-now/esp_now_netif.c:54-111 | a unicast 10-byte 6LoWPAN payload to AA:BB:CC:DD:EE:FF becomes the 11-byte frame `[1] + payload` to that address |
| `EspNowNetifProperties.SendExampleOversize` | cpu/esp32/esp-now/esp_now_netif.c:83-91 | payload snips of 100, 100 and 60 bytes are refused with -EBADMSG and nothing is sent |
| `EspNowNetifProperties.RecvNothingAvailable` | cpu/esp32/esp-now/esp_now_netif.c:123-127 | a driver result of at most 0 gives NULL, takes and releases nothing, and leaves `rx_pkt.len` as it was |
| `EspNowNetifProperties.RecvAllocFailure` | cpu/esp32/esp-now/esp_now_netif.c:142-159 | a failed allocation gives NULL; the payload snip, if it was taken, is released; `rx_pkt.len` keeps the frame length |
| `EspNowNetifProperties.RecvSuccess` | cpu/esp32/esp-now/esp_now_netif.c:141-178 | the chain is a payload snip of `len - 1` bytes equal to the data after the tag, typed by the tag, then a netif header with 6-byte src = frame sender, dst = own address, `if_pid` = caller; nothing released; `rx_pkt.len` becomes 0 |
| `EspNowNetifProperties.RecvUnknownTag` | cpu/esp32/esp-now/esp_now_netif.c:129-138 | a frame whose tag is not a known one is still delivered, as an UNDEF payload |
| `EspNowNetifProperties.RecvNoLeak` | cpu/esp32/esp-now/esp_now_netif.c:142-178 | on every path, the snips taken are exactly the snips released plus the snips returned |
| `EspNowNetifProperties.SendRecvRoundTrip` | cpu/esp32/esp-now/esp_now_netif.c:65-178 | receiving the frame `_send` produced gives the sent payload bytes, typed 6LoWPAN exactly when sent as 6LoWPAN with the module built in, and a header naming the sender as source |
| `EspNowNetifProperties.BadDstLenLeaksChain` | cpu/esp32/esp-now/esp_now_netif.c:57-63 | as written, a unicast header with a 3-byte destination gives -EBADMSG with the chain released zero times |
| `EspNowNetifProperties.SendSpecReleasing` | cpu/esp32/esp-now/esp_now_netif.c:46-99 | with a release added on the wrong-length path, the chain is released exactly once on every path, and result and frame are unchanged |
| `EspNowNetifProperties.AllocFailureLeavesLenStale` | cpu/esp32/esp-now/esp_now_netif.c:119-147 | as written, a failed payload allocation after a 2-byte frame leaves `rx_pkt.len` at 2 |
| `EspNowNetifProperties.RecvSpecResetting` | cpu/esp32/esp-now/esp_now_netif.c:119-176 | with `rx_pkt.len` cleared on every exit, it is 0 after every call, and the chain and snips taken and released are unchanged |
| `Gnrc.ConcatAppend` | cpu/esp32/esp-now/esp_now_netif.c:83-96 | the bytes and total size of two chains laid end to end are the two chains' bytes and sizes combined |
| `Gnrc.ConcatLength` | cpu/esp32/esp-now/esp_now_netif.c:83-96 | the number of bytes copied from a chain equals the running total `payload_len` of its snip sizes |

## Left out

- `_esp_now_ops`, `gnrc_netif_esp_now_create`, `_esp_now_stack` and `auto_init_esp_now` are left out. They are thread creation and device registration, not logic.
- The `.get` and `.set` ops are left out. They delegate to `gnrc_netif_get_from_netdev` and `gnrc_netif_set_from_netdev`, which are not part of this model.
- The ESP-NOW driver is not modelled: its radio, peer table and encryption. Its `send` and `recv` are parameters.
- `Recv`: when the driver reports nothing (`recvRes <= 0`), the model assumes the driver left `rx_pkt` untouched. The driver code that decides this is not part of this model.
- `Send`: the driver gets the whole `esp_now_pkt_t` through an iolist. The model records only what the driver uses: the MAC and the first `len` bytes of `buf`. The stack bytes past `len` are never initialised, so nothing is said about them.
- The fields `netdev`, `netif`, `proto`, `peers_all`, `peers_enc` and `dev_lock` of `esp_now_netdev_t` are left out. This code never touches them. There is no concurrency in the model.
- `DEBUG`, `LOG_*` and `od_hex_dump` output is left out: it is logging only.
- GNRC pktbuf internals are left out. Allocation is a success flag. The byte size of the allocated netif header snip (`sizeof(gnrc_netif_hdr_t)` plus two addresses) is not modelled.
- `RecvSuccess`: of the fields `gnrc_netif_hdr_init` sets, the model keeps only the flags (0), the two addresses and `if_pid`. RSSI and LQI are not modelled.
- `Send`: requires a payload snip behind the netif header whenever the code reaches line 65. The code reads `payload->type` there without a NULL check, and that crash is not modelled.
- `Send`: requires every snip after the first to be a data snip, and the first snip typed NETIF to hold a netif header. This is how GNRC builds chains. The byte image of a netif header snip copied as payload is not modelled.
- `Send`: requires each payload snip to be at most `UINT_MAX - 249` bytes. With a larger snip the 32-bit running total `payload_len` could wrap and pass the size check. No such snip fits in the ESP32's address space.
- `Recv`: requires a reported frame to have `len >= 1`. The code computes `len - 1` in unsigned arithmetic without a check, so a zero length would wrap.
- `esp_now_netif.h` is not modelled. It holds only a prototype.

## Findings

| source | as written | input that shows it | evidently intended | confidence | as-written member | corrected member |
|---|---|---|---|---|---|---|
| cpu/esp32/esp-now/esp_now_netif.c:57-63 | a unicast header whose destination is not 6 bytes long returns -EBADMSG without calling `gnrc_pktbuf_release(pkt)`, unlike the two other refusals at lines 48 and 89 | a netif header with no flags and a 3-byte destination, followed by an empty UNDEF payload snip | release the chain before returning -EBADMSG, so it is released exactly once on every path | high that the chain leaks, since the caller hands ownership to `_send`; not executed | `EspNowNetifProperties.BadDstLenLeaksChain` | `EspNowNetifProperties.SendSpecReleasing` |
| cpu/esp32/esp-now/esp_now_netif.c:119-159 | the comment at lines 119-121 makes resetting `rx_pkt.len` this function's duty, but the two allocation-failure returns (lines 146 and 158) leave it at the frame length | a 2-byte frame with tag 0 received while the payload allocation fails | set `rx_pkt.len = 0` on every way out, so a stale length cannot hold on to the old frame | medium, since the effect of a stale length depends on the driver, which is not part of this model; not executed | `EspNowNetifProperties.AllocFailureLeavesLenStale` | `EspNowNetifProperties.RecvSpecResetting` |

`Send` and `Recv` keep the code's behaviour as written, with no release on
the wrong-length path and no reset after a failed allocation. The corrected
reference functions sit beside the as-written ones, and the lemmas state
how the two differ.
