# i.MX6 ENET descriptor rings and IPv4 receive validation

This project models two pieces of the embox packet path in Dafny and proves
properties of them.

- **The i.MX6 ENET driver** (`imx6_net.c`):
  - two fixed rings of DMA buffer descriptors, each descriptor statically bound to one 2048-byte buffer slot;
  - the three ring cursors `_cur_rx`, `_dirty_tx` and `_cur_tx`;
  - ring initialisation (`_init_buffers`) and controller reset (`_reset`);
  - frame submission (`imx6_net_xmit`), including its bounded doorbell wait;
  - the status dispatch, receive harvest and transmit reclaim of `imx6_irq_handler`;
  - the packing of the MAC address into the `MAC_LOW`/`MAC_HI` registers (`emac_set_macaddr`).
- **The IPv4 receive entry point** `ip_rcv` (`ip_input.c`): the three validation steps (header structure, header checksum, length), the counters each drop increments, and the local/forward/protocol decision.

Files:

| file | contents |
|---|---|
| `wrappers.dfy` | `Option` |
| `bytes.dfy` | `byte`, network-order 16- and 32-bit values and their splitting |
| `inet_checksum.dfy` | the Internet checksum of RFC 1071 and its properties |
| `ip_input.dfy` | `Classify` (the pure verdict of `ip_rcv`), the `IpRcv` method over a socket buffer and counters, and lemmas |
| `imx6_net.dfy` | descriptors, the `Enet` class (rings as `array<Desc>`, buffers as `array2<byte>`, three `int` cursors), the doorbell wait, MAC packing, and the device's own moves |

How the driver is modelled:

- Register accesses, cache flushes and invalidations and log lines are recorded, in program order, in the ghost sequence `trace`. That lets ordering facts be stated, such as "flush before doorbell".
- Frames handed to the stack (`netif_rx`) are appended to the ghost sequence `delivered`.
- The hardware is an actor with two moves:
  - `DeviceReceive` fills an RX slot the device owns and clears its empty flag;
  - `DeviceCompleteTx` clears the ready flag of a TX slot it owns.
- Register values the driver reads are parameters: `tdar` lists what successive `ENET_TDAR` reads return, `state` is what `ENET_EIR` reads, and `ecr` is what `ENET_ECR` reads.

In these places the code does not do what its comments, names or a reader might expect; the model follows the code:

- `imx6_net_xmit` has no ring-full error. It overwrites the slot at `_cur_tx` whether or not the device still owns it.
- The RX branch harvests at most one descriptor per interrupt. It is not a loop.
- The TX reclaim loop does not stop at `_cur_tx`; it ends only at a descriptor the device owns. The handler runs this loop as written (`ReclaimTxAsWritten`). The corrected loop of the third finding below (`ReclaimTx`) is modelled beside it, and `ScanAgrees` and `FullRingDiverges` say where the two agree and where they differ.
- "No single frame transmitted!" is logged but not counted.
- A forwarded datagram is not unmodified: once the structural check has passed, `ip_rcv` leaves the checksum field zeroed.
- The checksum covers exactly `IP_HEADER_SIZE` (20) bytes, whatever `ihl` says.
- The transport-header offset is set to 20 bytes past the network header, whatever `ihl` says.
- `_reset` does not reset the ring cursors. When the controller does not leave reset, the code logs and carries on; the device is not disabled.

## Model

| member | source | states |
|---|---|---|
| Imx6Net.Enet.constructor | src/drivers/net/imx6_net/imx6_net.c:110-118 | the static rings and buffers start zeroed and all three cursors start at 0 |
| Imx6Net.Enet.InitBuffers | src/drivers/net/imx6_net/imx6_net.c:182-213 | afterwards every RX descriptor `i` points at buffer `i` and has E set, W is set exactly on the last RX and the last TX descriptor, every other TX descriptor has zero flags, the ring invariant holds, and the trace gains the two ring flushes and the three ring-register stores |
| Imx6Net.DescriptorFlags | src/drivers/net/imx6_net/imx6_net.c:148-158 | the flags the driver writes: initial RX has E and W only on the last slot, initial TX has no R, submitted TX has R, L and TC, W exactly on the last slot and no other bit |
| Imx6Net.Enet.Reset | src/drivers/net/imx6_net/imx6_net.c:237-271 | the rings end as after `_init_buffers`, the cursors are untouched, and the trace is save, reset, wait, restore, ring init, then the interrupt, TCR, RCR and ECR programming and the RDAR store, in that order |
| Imx6Net.FillRow | src/drivers/net/imx6_net/imx6_net.c:144-145 | the row holds the frame bytes followed by zeros up to 2048, and every other row is unchanged |
| Imx6Net.Enet.Xmit | src/drivers/net/imx6_net/imx6_net.c:123-180 | without data: returns -1, ring, buffers and `curTx` unchanged, trace gains the TCR store and the log line; with data: returns 0, only descriptor `curTx` changes (to the submitted descriptor for the frame's length), its buffer holds the frame then zeros, `curTx` steps by one modulo the ring size, and the trace is exactly `XmitEvents` |
| Imx6Net.XmitFlushesPrecedeDoorbell | src/drivers/net/imx6_net/imx6_net.c:146-162 | in a transmit's events, the buffer flush and the descriptor flush come before the doorbell store, and the doorbell is stored exactly once |
| Imx6Net.Enet.RingDoorbell | src/drivers/net/imx6_net/imx6_net.c:162-171 | the trace gains the doorbell store, one TDAR load per poll, and the timeout log line exactly when the corrected timeout test holds |
| Imx6Net.PollDoorbell | src/drivers/net/imx6_net/imx6_net.c:164-168 | at most 255 polls, polling stops at the first zero read, and `timeout` ends non-negative exactly when the last poll read zero |
| Imx6Net.FirstAck | src/drivers/net/imx6_net/imx6_net.c:165-167 | the index of the first zero TDAR read: every earlier read is non-zero and the read at that index is zero |
| Imx6Net.FinalTimeout | src/drivers/net/imx6_net/imx6_net.c:164-168 | `timeout` after the wait is between -1 and 254, and when it is not negative the read `254 - timeout` found TDAR zero |
| Imx6Net.TimeoutLoggedAsWritten | src/drivers/net/imx6_net/imx6_net.c:170 | the code's test `timeout == 0` can hold only when the 255th read found TDAR zero |
| Imx6Net.PollCount | src/drivers/net/imx6_net/imx6_net.c:164-168 | the number of TDAR reads never exceeds 255 |
| Imx6Net.PollEvents | src/drivers/net/imx6_net/imx6_net.c:166 | the poll events are exactly one TDAR load per read, in order, carrying the value read |
| Imx6Net.TimeoutLogAsWrittenMisfires | src/drivers/net/imx6_net/imx6_net.c:164-171 | the code's `timeout == 0` test holds exactly when the acknowledgement came on the 255th poll, and never when all 255 polls saw the doorbell still set |
| Imx6Net.TimeoutLoggedIffNoAck | src/drivers/net/imx6_net/imx6_net.c:164-171 | the corrected test `timeout < 0` holds exactly when none of the 255 polls read zero |
| Imx6Net.NextSlot | src/drivers/net/imx6_net/imx6_net.c:177 | the next cursor value stays within the ring |
| Imx6Net.NextSlotIsMod | src/drivers/net/imx6_net/imx6_net.c:177 | the cursor step is the code's `(cur + 1) % N` |
| Imx6Net.Enet.HarvestRx | src/drivers/net/imx6_net/imx6_net.c:393-416 | if descriptor `curRx` is empty nothing is delivered and the ring and cursor are unchanged; otherwise exactly the slot's first `len` buffer bytes are delivered, that descriptor (and no other) gets E plus W exactly on the last slot, and `curRx` steps by one; the trace gains the two invalidations, then the log line or the descriptor flush |
| Imx6Net.RowPrefix | src/drivers/net/imx6_net/imx6_net.c:406-407 | the bytes `memcpy` copies out of a buffer slot: exactly the first `len` bytes of that row |
| Imx6Net.ReceiveThenInterrupt | src/drivers/net/imx6_net/imx6_net.c:393-416 | a frame the device writes into slot `curRx` is delivered once and unchanged by the next RX interrupt, which hands the slot back empty, so looking at it again before a refill delivers nothing |
| Imx6Net.Enet.ReclaimTxAsWritten | src/drivers/net/imx6_net/imx6_net.c:418-433 | given that some TX descriptor has R (the only way the loop ends), `dirtyTx` moves forward over released descriptors only, stops at the first one the device owns, writes no descriptor, and the trace gains one invalidation per descriptor examined, plus the log line when the first one was owned |
| Imx6Net.CompletedRingHasNoOwner | src/drivers/net/imx6_net/imx6_net.c:426-432 | after one frame is submitted and sent, the TX ring is well formed yet no descriptor has R, and the stopping condition of the loop as written holds after no number of steps |
| Imx6Net.Enet.ReclaimTx | src/drivers/net/imx6_net/imx6_net.c:418-433 | the corrected loop (third finding) always terminates, never passes `curTx`, moves only over released descriptors, stops at `curTx` or at the first owned descriptor, writes no descriptor, and traces as the loop as written does |
| Imx6Net.ScanAgrees | src/drivers/net/imx6_net/imx6_net.c:426-432 | the corrected loop stops exactly where the loop as written does whenever the device owns a descriptor at `dirtyTx` or after it, before `curTx` |
| Imx6Net.FullRingDiverges | src/drivers/net/imx6_net/imx6_net.c:426-432 | on a full 2-slot ring (`dirtyTx == curTx == 0`, slot 0 released, slot 1 owned) the loop as written moves to slot 1 while the corrected loop stays at slot 0: stopping at `curTx` reads a full ring as empty |
| Imx6Net.AdvanceReaches | src/drivers/net/imx6_net/imx6_net.c:429 | walking the forward distance from one cursor to another reaches it, and no shorter walk does |
| Imx6Net.AdvanceStep | src/drivers/net/imx6_net/imx6_net.c:429 | `k + 1` cursor steps are `k` steps followed by one more |
| Imx6Net.Dist | src/drivers/net/imx6_net/imx6_net.c:429 | the forward distance between two cursors is less than the ring size |
| Imx6Net.DistStep | src/drivers/net/imx6_net/imx6_net.c:429 | one cursor step towards a target shortens the distance to it by one |
| Imx6Net.Enet.IrqHandler | src/drivers/net/imx6_net/imx6_net.c:370-440 | always starts by loading EIR, storing back the value read and storing RDAR; for status exactly `0x10000000` nothing else happens; with the bus-error bit the rings are reinitialised as by `_reset` and there is no RX or TX processing; otherwise the RX branch runs exactly when RXB or RXF is set and the TX reclaim loop as written exactly when TXB or TXF is set (moving `dirtyTx` over released descriptors to the first owned one), the TX ring is not written, and the trace ends with the TCR store and the register dump |
| Imx6Net.TransmitCompleteReclaim | src/drivers/net/imx6_net/imx6_net.c:418-433 | start-up, one transmit and its completion by the device leave a well-formed TX ring with no owned descriptor, on which the corrected reclaim ends with `dirtyTx == curTx == 1` |
| Imx6Net.ReleaseKeepsSlot | src/drivers/net/imx6_net/imx6_net.c:399 | the device handing a descriptor back clears R/E and keeps every other bit, so the ring stays well formed |
| Imx6Net.SubmittedSlotOk | src/drivers/net/imx6_net/imx6_net.c:148-158 | a submitted TX descriptor points at its own slot, fits the buffer, and has W exactly on the last slot |
| Imx6Net.Enet.SetMacAddr | src/drivers/net/imx6_net/imx6_net.c:96-108 | stores the intended `MAC_LOW` value, then the intended `MAC_HI` value |
| Imx6Net.MacLo | src/drivers/net/imx6_net/imx6_net.c:101-104 | the intended `mac_lo` fits 32 bits |
| Imx6Net.MacHi | src/drivers/net/imx6_net/imx6_net.c:99-100 | the intended `mac_hi` fits 32 bits and its low 16 bits are zero |
| Imx6Net.MacLoAsWritten | src/drivers/net/imx6_net/imx6_net.c:101-104 | the `mac_lo` the code computes equals the intended one exactly when the bytes at memory offsets 6, 12 and 18 repeat address bytes 1, 2 and 3 |
| Imx6Net.MacHiAsWritten | src/drivers/net/imx6_net/imx6_net.c:99-100 | the `mac_hi` the code computes equals the intended one exactly when the bytes at memory offsets 24 and 30 repeat address bytes 4 and 5 |
| Imx6Net.MacRoundTrip | src/drivers/net/imx6_net/imx6_net.c:99-104 | the six address bytes are recovered from the two register values, byte 0 in the top byte of `MAC_LOW` |
| Imx6Net.MacPackInjective | src/drivers/net/imx6_net/imx6_net.c:99-104 | distinct addresses give distinct register pairs |
| Imx6Net.MacPackAsWrittenCollides | src/drivers/net/imx6_net/imx6_net.c:99-104 | as written, the registers depend only on memory offsets 0, 6, ..., 30, so two different addresses can load the same registers although the intended packing separates them |
| InetChecksum.OnesAdd | src/net/ipv4/ip_input.c:41 | one's-complement addition stays within 16 bits, agrees with plain addition modulo 0xFFFF, and is zero only for two zeros |
| InetChecksum.OnesSum | src/net/ipv4/ip_input.c:41 | the one's-complement word sum stays within 16 bits |
| InetChecksum.ChecksumCompletesSum | src/net/ipv4/ip_input.c:41 | appending the checksum of a string to it as one more word makes the one's-complement sum all ones |
| InetChecksum.WordTotalAppend | src/net/ipv4/ip_input.c:41 | appending a word adds its value to the plain word sum |
| InetChecksum.OnesSumMatchesTotal | src/net/ipv4/ip_input.c:41 | the one's-complement word sum agrees with the plain word sum modulo 0xFFFF, and is zero exactly when the plain sum is zero |
| InetChecksum.WordTotalUpdate | src/net/ipv4/ip_input.c:41 | changing one byte changes the plain word sum by the byte's difference, times 256 for the high byte of a word |
| InetChecksum.SingleBitChangesSum | src/net/ipv4/ip_input.c:41 | changing one byte by a single bit's value always changes the one's-complement sum |
| InetChecksum.WordTotalZeroed | src/net/ipv4/ip_input.c:39-41 | zeroing the word at an even offset takes exactly that word out of the plain sum |
| InetChecksum.ChecksumVerifies | src/net/ipv4/ip_input.c:39-45 | when a word holds the checksum of the string with that word cleared, the one's-complement sum of the whole string is all ones |
| IpInput.Classify | src/net/ipv4/ip_input.c:34-69 | each verdict holds exactly when its condition does, in both directions: `BadHeader` iff the structure check fails; `BadChecksum` iff the structure passes and the checksum fails; `BadLength` iff both pass and the length fails; else `Forwarded`/`NoRoute` for a non-local destination with or without a route, and `ToIcmp`/`ToUdp`/`Ignored` for a local one by protocol |
| IpInput.CallsOf | src/net/ipv4/ip_input.c:57-69 | at most one collaborator is called: `dev_queue_xmit` iff forwarded, `icmp_rcv` iff local ICMP, `udp_rcv` iff local UDP |
| IpInput.IpRcv | src/net/ipv4/ip_input.c:21-70 | returns -1 exactly for the three drop verdicts and 0 otherwise, calls exactly the collaborators of its verdict, sets the transport offset to 20 past the network header, increments exactly the counter of a drop verdict (`rx_err`, `rx_crc_errors`, `rx_length_errors`) and no other, and leaves the packet's bytes unchanged after a header failure and otherwise with only the checksum field zeroed |
| IpInput.SkBuff.Header | src/net/ipv4/ip_input.c:25 | the header view is the 20 bytes at the network-header offset |
| IpInput.FirstFailureWins | src/net/ipv4/ip_input.c:34-52 | named property (a corollary of `Classify`'s contract): the checks apply in the order header, checksum, length, and the first failing one decides the verdict |
| IpInput.DropAccounting | src/net/ipv4/ip_input.c:34-52 | named property (a corollary of `CallsOf` and of `IpRcv`'s counter clauses): a drop calls no collaborator, and a call increments exactly one counter when it drops and none otherwise |
| IpInput.BoundaryAccepted | src/net/ipv4/ip_input.c:34-52 | named property (a corollary of `Classify`'s contract): `ihl = 5`, version 4 and a correct checksum pass all three checks both when `tot_len` equals the captured length and when it equals `ihl * 4` |
| IpInput.FilledChecksumAccepted | src/net/ipv4/ip_input.c:39-45 | storing the checksum of the cleared header in the check field makes any header pass the checksum step |
| IpInput.AcceptedChecksumSumsToOnes | src/net/ipv4/ip_input.c:39-45 | a header that passes the checksum step has a one's-complement sum of all ones, the receiver-side test of RFC 1071 |
| IpInput.CorruptedHeaderRejected | src/net/ipv4/ip_input.c:39-45 | a single-bit error in any of the 20 header bytes outside the checksum field turns a header that passed the checksum step into one that fails it |

## Left out

- `ptclbsum` is not part of this model. `InetChecksum` defines it as the RFC 1071 Internet checksum over the 20 header bytes, words read most significant byte first. That is an assumption. Byte order does not change whether the stored and computed values are equal.
- The comment in `ip_rcv` cites "RFC1122: 3.1.2.2". The checksum requirement is in section 3.2.1.2 of RFC 1122.
- `ip_dev_find` and `ip_route` are not shown. They are the `Routing` parameter: the set of local addresses, and the set of destinations that `ip_route` accepts (returns 0 for). `dev_queue_xmit`, `icmp_rcv` and `udp_rcv` are recorded as `Call` values; what they do is not modelled.
- Header options (`ihl > 5`) are not read, because `ip_rcv` itself ignores them.
- `iphdr_t` uses a bit-field layout. The model reads `ihl` from the low nibble and `version` from the high nibble of the first byte, as the little-endian layout places them.
- imx6_net.h is not part of this model. Ring sizes are constructor parameters. Flag, interrupt-bit and register values follow the i.MX6 ENET layout.
- Logging (`log_debug` and `log_error`) appears only as trace events, for the lines whose position matters. The per-frame debug lines are omitted.
- Interrupt masking (`ipl_save`/`ipl_restore`) and any interleaving of transmit with the interrupt handler are not modelled. Each call is atomic.
- Cache coherency is not modelled. `dcache_flush` and `dcache_inval` are trace events only.
- `skb_alloc`, `skb_free`, `netif_rx` and `skb_data_cast_in` are foreign calls. A received frame is the byte sequence appended to `delivered`, and a transmitted skb is an `Option` of its bytes (`None` for no data).
- The reset poll on `ENET_ECR` (given up after about 100000 reads, with an error log) is a single `AwaitReset` event.
- The register save, restore and dump helpers (`_mem_dump`, `_mem_restore`, `_reg_dump`) are single events. Their register lists are not modelled.
- `imx6_net_open`, `imx6_net_init`, `imx6_net_set_macaddr` and the disabled `#if 0` code are not modelled.
- The debug `assert` at imx6_net.c:427 is not modelled. With the ring invariant `TxRingOk`, a descriptor points at its own buffer or at none; a TX descriptor never submitted points at none, and the assertion fails on it.
- Enet.Xmit: its trace logs "TX timeout" under the corrected test (`timeout < 0`, `TimeoutLogged`), not the code's `timeout == 0` (`TimeoutLoggedAsWritten`). The two differ exactly as the second finding says: the code logs after 254 non-zero TDAR reads and a zero, and does not log after 255 non-zero reads.
- Enet.RingDoorbell: uses the same corrected log test as `Enet.Xmit`; every other event is as the code issues it.
- Enet.SetMacAddr: stores the intended packing (`MacLo`, `MacHi`), not what the code computes (`MacLoAsWritten`, `MacHiAsWritten`); the first finding gives the difference. The code shifts bytes promoted to signed `int`: `*_macaddr[0] << 24` and `*_macaddr[4] << 24` overflow `int` for a byte of 0x80 or more, which C leaves undefined. The unbounded `Be32` and `Be16` do not capture that.
- Enet.Xmit: requires the frame to fit the 2048-byte slot. The code copies `skb->len` bytes without checking, so a longer frame overruns `_tx_buf[_cur_tx]`.
- Enet.ReclaimTxAsWritten: requires a TX descriptor with R to exist. Without one the loop as written does not terminate, which Dafny cannot express for a method that must terminate. The corrected `ReclaimTx` has no such precondition.
- Enet.IrqHandler: when the TX branch runs, requires (through the ghost `owned`) a TX descriptor the device owns, for the same reason; the case where none exists is the third finding.
- Enet.IrqHandler: requires the ring invariant, which holds only from the first `_init_buffers` on. `imx6_net_init` attaches the handler before it calls `_reset`; the model assumes no interrupt arrives in between, when the rings are still zero.
- IpInput.IpRcv: reads the protocol field once. The code reads `iph->proto` again after `icmp_rcv` returns; since the collaborators are not modelled, a change they make to the buffer is not seen.
- Counters and cursors are unbounded integers. `int` wrap-around of the cursors and counters is not modelled, since the cursors stay below the ring size.

## Findings

| source | as written | input that shows it | evidently intended | confidence | as-written member | corrected member |
|---|---|---|---|---|---|---|
| src/drivers/net/imx6_net/imx6_net.c:99-104 | `*_macaddr[k]` parses as `*(_macaddr[k])`, the first byte of the k-th six-byte array, i.e. memory offset `6k` | address 00:11:22:33:44:55 followed by zeroed memory loads `mac_lo = 0`, `mac_hi = 0` instead of `0x00112233`, `0x44550000` | `(*_macaddr)[k]`, byte `k` of the address | high, not executed | Imx6Net.MacPackAsWrittenCollides | Imx6Net.MacPackInjective |
| src/drivers/net/imx6_net/imx6_net.c:164-171 | `while(timeout--)` also decrements on the test that ends the loop, so running out leaves `timeout == -1`, and `if (timeout == 0)` fires only when TDAR read zero on the 255th poll | 255 TDAR reads all non-zero: no "TX timeout" line; 254 non-zero reads then a zero: the line is logged | log when no poll saw the doorbell cleared (`timeout < 0`) | high, not executed | Imx6Net.TimeoutLogAsWrittenMisfires | Imx6Net.TimeoutLoggedIffNoAck |
| src/drivers/net/imx6_net/imx6_net.c:426-432 | the reclaim loop ends only at a descriptor with R set, and does not stop at `_cur_tx` | 4-slot ring after `_init_buffers`; one `imx6_net_xmit`; the device sends it and clears R; then a TX interrupt: no descriptor has R, so the loop moves on to descriptor 1, which was never submitted, and in a build with assertions the assertion at :427 fails there (its `data_pointer` is still 0); with assertions compiled out, the loop never ends | stop at the next slot to be submitted as well (`_dirty_tx != _cur_tx`); this reads a full ring (all slots submitted, `_dirty_tx == _cur_tx`) as empty, which the code's loop handles, so the correction agrees with the code only when an owned descriptor lies before `_cur_tx` (`ScanAgrees`, `FullRingDiverges`) | medium, not executed | Imx6Net.CompletedRingHasNoOwner | Imx6Net.Enet.ReclaimTx |
