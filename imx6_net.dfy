/**
  i.MX6 ENET driver (imx6_net.c): the transmit and receive descriptor rings,
  the statically bound 2048-byte frame buffers, the three ring cursors, the
  interrupt handler's receive and transmit-completion branches, ring
  (re)initialisation, and the packing of the MAC address into registers.

  Registers, cache maintenance and log messages are recorded, in program
  order, in the ghost `trace`; frames handed to the stack are appended to
  the ghost `delivered`. The device is an actor whose moves are the methods
  `DeviceReceive` and `DeviceCompleteTx`.

  The register and flag values below are those of the i.MX6 ENET block
  (imx6_net.h is not part of this model). Ring sizes are fixed per instance.
*/
module Imx6Net {
  import opened Bytes
  import opened Wrappers

  /** Size of every frame buffer slot (`_tx_buf[i]`, `_rx_buf[i]`). */
  const BUF_SIZE: nat := 2048
  /** Initial value of the doorbell wait counter in `imx6_net_xmit`. */
  const DOORBELL_POLLS: nat := 255

  type Flags = bv16
  type Word = bv32

  // Buffer descriptor flags (`flags1`).
  const FLAG_R: Flags := 0x8000   // TX: ready, owned by the device
  const FLAG_E: Flags := 0x8000   // RX: empty, owned by the device
  const FLAG_W: Flags := 0x2000   // wrap: last descriptor of its ring
  const FLAG_L: Flags := 0x0800   // last buffer of the frame
  const FLAG_TC: Flags := 0x0400  // append the CRC on transmit

  // Interrupt event register (ENET_EIR) bits.
  const EIR_EBERR: Word := 0x0040_0000
  const EIR_RXB: Word := 0x0100_0000
  const EIR_RXF: Word := 0x0200_0000
  const EIR_TXB: Word := 0x0400_0000
  const EIR_TXF: Word := 0x0800_0000
  /** The status value the handler acknowledges and otherwise ignores. */
  const EIR_GRA: Word := 0x1000_0000

  // Values the driver stores into registers.
  const ECR_RESET: Word := 0x1
  const ECR_ETHEREN: Word := 0x2
  const RDAR_ACTIVE: Word := 0x0100_0000
  const TDAR_ACTIVE: Word := 0xFFFF_FFFF
  const TCR_FDEN: Word := 0x4
  const RCR_INIT: Word := 0x0800_0124
  const ALL_ONES: Word := 0xFFFF_FFFF

  predicate Has(flags: Flags, bit: Flags) { flags & bit != 0 }
  predicate HasBit(w: Word, bits: Word) { w & bits != 0 }

  // ----- Descriptors -----

  /** A descriptor's `data_pointer`: zero, or the start of one buffer slot. */
  datatype Ptr = Null | TxBuf(slot: nat) | RxBuf(slot: nat)

  /** `struct imx6_buf_desc`: length, flags and buffer pointer. */
  datatype Desc = Desc(len: nat, flags: Flags, ptr: Ptr)

  /** A descriptor cleared by `memset`. */
  const ZeroDesc := Desc(0, 0, Null)

  /** The cursor step: the next slot, wrapping to 0 after the last. */
  function NextSlot(slot: int, n: int): (r: int)
    requires 0 <= slot < n
    ensures 0 <= r < n
  {
    if slot + 1 < n then slot + 1 else 0
  }

  /** The step is the driver's `(slot + 1) % n`. */
  lemma NextSlotIsMod(slot: int, n: int)
    requires 0 <= slot < n
    ensures NextSlot(slot, n) == (slot + 1) % n
  {
    if slot + 1 == n {
      assert (slot + 1) % n == (1 * n + 0) % n;
    }
  }

  /** The cursor after `k` steps from `s`, for walks shorter than a lap. */
  function Advance(s: int, k: nat, n: int): (r: int)
    requires 0 <= s < n && k < n
    ensures 0 <= r < n
  {
    if s + k < n then s + k else s + k - n
  }

  /** `Advance` is `k` repeated cursor steps. */
  lemma AdvanceStep(s: int, k: nat, n: int)
    requires 0 <= s < n && k + 1 < n
    ensures Advance(s, 0, n) == s
    ensures Advance(s, k + 1, n) == NextSlot(Advance(s, k, n), n)
  {
  }

  /** Number of steps from cursor `s` forward to slot `t`. */
  function Dist(s: int, t: int, n: int): (d: nat)
    requires 0 <= s < n && 0 <= t < n
    ensures d < n
  {
    if s <= t then t - s else t + n - s
  }

  /** One step towards `t` shortens the distance by one. */
  lemma DistStep(s: int, t: int, n: int)
    requires 0 <= s < n && 0 <= t < n && s != t
    ensures Dist(NextSlot(s, n), t, n) == Dist(s, t, n) - 1
  {
  }

  /** Walking `Dist(s, t, n)` steps from `s` reaches `t`, and no shorter walk does. */
  lemma AdvanceReaches(s: int, t: int, n: int)
    requires 0 <= s < n && 0 <= t < n
    ensures Advance(s, Dist(s, t, n), n) == t
    ensures forall k :: 0 <= k < Dist(s, t, n) ==> Advance(s, k, n) != t
  {
  }

  /** Where the TX reclaim loop as written stops when it starts at `s` on
      `ring`: it passes `steps` descriptors the device has released and stops
      at the first one the device still owns. */
  predicate ScanAsWritten(ring: seq<Desc>, s: int, steps: nat, n: int)
    requires |ring| == n && 0 <= s < n
  {
    && steps < n
    && Has(ring[Advance(s, steps, n)].flags, FLAG_R)
    && forall k :: 0 <= k < steps ==> !Has(ring[Advance(s, k, n)].flags, FLAG_R)
  }

  /** Where the corrected loop stops: as the loop as written, but never past
      the next slot to be submitted, `cur`. */
  predicate ScanCorrected(ring: seq<Desc>, s: int, cur: int, steps: nat, n: int)
    requires |ring| == n && 0 <= s < n && 0 <= cur < n
  {
    && steps <= Dist(s, cur, n)
    && (Advance(s, steps, n) == cur || Has(ring[Advance(s, steps, n)].flags, FLAG_R))
    && forall k :: 0 <= k < steps ==> !Has(ring[Advance(s, k, n)].flags, FLAG_R)
  }

  /** Both loops stop at the same slot whenever the device owns a descriptor
      at the reclaim cursor or after it, before `cur`. */
  lemma {:induction false} ScanAgrees(ring: seq<Desc>, s: int, cur: int, n: int, a: nat, c: nat, k: nat)
    requires |ring| == n && 0 <= s < n && 0 <= cur < n
    requires ScanAsWritten(ring, s, a, n) && ScanCorrected(ring, s, cur, c, n)
    requires k < Dist(s, cur, n) && Has(ring[Advance(s, k, n)].flags, FLAG_R)
    ensures a == c
  {
    AdvanceReaches(s, cur, n);
  }

  /** On a full ring (the reclaim cursor equal to `cur`, which `imx6_net_xmit`
      allows) the two loops differ: with slot 0 released and slot 1 still
      owned, the loop as written moves on to slot 1 and the corrected loop
      does not move. */
  lemma {:induction false} FullRingDiverges(len: nat)
    requires len <= BUF_SIZE
    ensures var ring := [Released(SubmittedDesc(0, 2, len)), SubmittedDesc(1, 2, len)];
      && TxRingOk(ring, 2)
      && ScanAsWritten(ring, 0, 1, 2) && ScanCorrected(ring, 0, 0, 0, 2)
      && !ScanCorrected(ring, 0, 0, 1, 2)
  {
    DescriptorFlags(0, 2);
    DescriptorFlags(1, 2);
    SubmittedSlotOk(0, 2, len);
    SubmittedSlotOk(1, 2, len);
    ReleaseKeepsSlot(SubmittedDesc(0, 2, len), 0, 2);
  }

  /** Flags of an RX descriptor owned by the device: empty, plus wrap on the
      last slot. `_init_buffers` and the RX branch both leave a slot so. */
  function RxReadyFlags(slot: int, n: int): Flags {
    if slot == n - 1 then FLAG_E | FLAG_W else FLAG_E
  }

  /** Flags `imx6_net_xmit` gives a submitted TX descriptor. */
  function TxSubmitFlags(slot: int, n: int): Flags {
    var f := FLAG_L | FLAG_TC;
    var f := if slot == n - 1 then f | FLAG_W else f;
    f | FLAG_R
  }

  /** TX descriptor `slot` right after `_init_buffers`. */
  function InitTxDesc(slot: int, n: int): Desc {
    Desc(0, if slot == n - 1 then FLAG_W else 0, Null)
  }

  /** RX descriptor `slot` right after `_init_buffers`. */
  function InitRxDesc(slot: nat, n: int): Desc {
    Desc(0, RxReadyFlags(slot, n), RxBuf(slot))
  }

  /** TX descriptor `slot` after submitting a frame of `len` bytes. */
  function SubmittedDesc(slot: nat, n: int, len: nat): Desc {
    Desc(len, TxSubmitFlags(slot, n), TxBuf(slot))
  }

  /** What every descriptor keeps between operations: its own buffer slot
      (or, for TX, none yet), a length that fits the slot, and the wrap flag
      exactly on the last slot. */
  predicate TxSlotOk(d: Desc, slot: nat, n: int) {
    && (d.ptr == Null || d.ptr == TxBuf(slot))
    && d.len <= BUF_SIZE
    && (Has(d.flags, FLAG_W) <==> slot == n - 1)
  }

  predicate RxSlotOk(d: Desc, slot: nat, n: int) {
    && d.ptr == RxBuf(slot)
    && d.len <= BUF_SIZE
    && (Has(d.flags, FLAG_W) <==> slot == n - 1)
  }

  predicate TxRingOk(s: seq<Desc>, n: int) {
    forall i :: 0 <= i < |s| ==> TxSlotOk(s[i], i, n)
  }

  predicate RxRingOk(s: seq<Desc>, n: int) {
    forall i :: 0 <= i < |s| ==> RxSlotOk(s[i], i, n)
  }

  lemma TxRingUpdate(s: seq<Desc>, i: nat, d: Desc, n: int)
    requires TxRingOk(s, n) && i < |s| && TxSlotOk(d, i, n)
    ensures TxRingOk(s[i := d], n)
  {
  }

  lemma RxRingUpdate(s: seq<Desc>, i: nat, d: Desc, n: int)
    requires RxRingOk(s, n) && i < |s| && RxSlotOk(d, i, n)
    ensures RxRingOk(s[i := d], n)
  {
  }

  /** The descriptors `_init_buffers` writes and the recycling and
      submission steps write: their flags and wrap bits are as the ring
      protocol needs. */
  lemma DescriptorFlags(slot: nat, n: nat)
    requires slot < n
    ensures Has(InitRxDesc(slot, n).flags, FLAG_E) && InitRxDesc(slot, n).ptr == RxBuf(slot)
    ensures Has(InitRxDesc(slot, n).flags, FLAG_W) <==> slot == n - 1
    ensures Has(InitTxDesc(slot, n).flags, FLAG_W) <==> slot == n - 1
    ensures slot != n - 1 ==> InitTxDesc(slot, n).flags == 0
    ensures !Has(InitTxDesc(slot, n).flags, FLAG_R)
    ensures var f := TxSubmitFlags(slot, n);
            Has(f, FLAG_R) && Has(f, FLAG_L) && Has(f, FLAG_TC) && (Has(f, FLAG_W) <==> slot == n - 1)
            && f & !(FLAG_R | FLAG_L | FLAG_TC | FLAG_W) == 0
    ensures RxSlotOk(InitRxDesc(slot, n), slot, n) && TxSlotOk(InitTxDesc(slot, n), slot, n)
  {
  }

  /** The device handing a descriptor back to the driver: R (which is also
      E) cleared, every other bit kept. */
  function Released(d: Desc): Desc {
    d.(flags := d.flags & !FLAG_R)
  }

  /** Releasing a descriptor keeps its wrap bit, so keeps it well formed. */
  lemma ReleaseKeepsSlot(d: Desc, slot: nat, n: int)
    ensures !Has(Released(d).flags, FLAG_R)
    ensures TxSlotOk(d, slot, n) ==> TxSlotOk(Released(d), slot, n)
    ensures RxSlotOk(d, slot, n) ==> RxSlotOk(Released(d), slot, n)
  {
  }

  lemma SubmittedSlotOk(slot: nat, n: nat, len: nat)
    requires slot < n && len <= BUF_SIZE
    ensures TxSlotOk(SubmittedDesc(slot, n, len), slot, n)
  {
  }

  /** The first `n` bytes of row `r` of a frame buffer array (`memcpy` out of a slot). */
  function RowPrefix(b: array2<byte>, r: int, n: int): (s: seq<byte>)
    reads b
    requires 0 <= r < b.Length0 && 0 <= n <= b.Length1
    ensures |s| == n && forall j :: 0 <= j < n ==> s[j] == b[r, j]
    decreases n
  {
    if n == 0 then [] else RowPrefix(b, r, n - 1) + [b[r, n - 1]]
  }

  /** `memset` of a whole row to zero followed by `memcpy` of `data` to its start. */
  method FillRow(b: array2<byte>, r: int, data: seq<byte>)
    requires 0 <= r < b.Length0 && |data| <= b.Length1
    modifies b
    ensures forall j :: 0 <= j < b.Length1 ==> b[r, j] == if j < |data| then data[j] else 0
    ensures forall i, j :: 0 <= i < b.Length0 && i != r && 0 <= j < b.Length1 ==> b[i, j] == old(b[i, j])
  {
    forall j | 0 <= j < b.Length1 {
      b[r, j] := 0;
    }
    forall j | 0 <= j < |data| {
      b[r, j] := data[j];
    }
  }

  /** The device's DMA of `data` into the start of row `r`. */
  method WriteRow(b: array2<byte>, r: int, data: seq<byte>)
    requires 0 <= r < b.Length0 && |data| <= b.Length1
    modifies b
    ensures RowPrefix(b, r, |data|) == data
    ensures forall i, j :: 0 <= i < b.Length0 && 0 <= j < b.Length1 && (i != r || |data| <= j) ==> b[i, j] == old(b[i, j])
  {
    forall j | 0 <= j < |data| {
      b[r, j] := data[j];
    }
    assert RowPrefix(b, r, |data|) == data;
  }

  // ----- Observable events -----

  datatype Reg = EIR | EIMR | RDAR | TDAR | ECR | TCR | RCR | RDSR | TDSR | MRBR | MAC_LOW | MAC_HI

  /** A memory region handed to `dcache_flush` or `dcache_inval`. */
  datatype Region = Buf(ptr: Ptr, len: nat) | TxDesc(slot: nat) | RxDesc(slot: nat) | TxRing | RxRing

  datatype LogMsg = NoSkbData | TxTimeout | RxDescEmpty | NoFrameTransmitted | BusError

  datatype Event =
    | Load(reg: Reg, value: Word)
    | Store(reg: Reg, value: Word)
    | StoreConfig(reg: Reg)   // a ring address or a board constant
    | Flush(region: Region)
    | Inval(region: Region)
    | Log(msg: LogMsg)
    | SaveRegs                // `_mem_dump`
    | RestoreRegs             // `_mem_restore`
    | DumpRegs                // `_reg_dump`
    | AwaitReset              // the reset poll on ENET_ECR

  function InitBuffersEvents(): seq<Event> {
    [Flush(TxRing), Flush(RxRing), StoreConfig(RDSR), StoreConfig(TDSR), StoreConfig(MRBR)]
  }

  function ResetEvents(ecr: Word): seq<Event> {
    [SaveRegs, Store(ECR, ECR_RESET), AwaitReset, RestoreRegs]
    + InitBuffersEvents()
    + [Store(EIMR, ALL_ONES), Store(EIR, ALL_ONES), Store(TCR, TCR_FDEN), Store(RCR, RCR_INIT),
       Load(ECR, ecr), Store(ECR, ecr | ECR_ETHEREN), DumpRegs, Store(RDAR, RDAR_ACTIVE)]
  }

  /** The first `n` reads of ENET_TDAR. */
  function PollEvents(tdar: seq<Word>, n: nat): (e: seq<Event>)
    requires n <= |tdar|
    ensures |e| == n && forall k :: 0 <= k < n ==> e[k] == Load(TDAR, tdar[k])
  {
    if n == 0 then [] else PollEvents(tdar, n - 1) + [Load(TDAR, tdar[n - 1])]
  }

  function DoorbellEvents(tdar: seq<Word>): seq<Event>
    requires |tdar| >= DOORBELL_POLLS
  {
    [Store(TDAR, TDAR_ACTIVE)]
    + PollEvents(tdar, PollCount(tdar))
    + (if TimeoutLogged(tdar) then [Log(TxTimeout)] else [])
  }

  function XmitEvents(slot: nat, len: nat, tdar: seq<Word>): seq<Event>
    requires |tdar| >= DOORBELL_POLLS
  {
    [Store(TCR, TCR_FDEN), Flush(Buf(TxBuf(slot), len)), Flush(TxDesc(slot))] + DoorbellEvents(tdar)
  }

  function RxEvents(slot: nat, empty: bool): seq<Event> {
    [Inval(RxDesc(slot)), Inval(Buf(RxBuf(slot), BUF_SIZE))]
    + (if empty then [Log(RxDescEmpty)] else [Flush(RxDesc(slot))])
  }

  /** The invalidations of the descriptors the reclaim loop moves on to. */
  function ScanEvents(s: int, k: nat, n: int): seq<Event>
    requires 0 <= s < n && k < n
  {
    if k == 0 then [] else ScanEvents(s, k - 1, n) + [Inval(TxDesc(Advance(s, k, n)))]
  }

  function ReclaimEvents(s: int, k: nat, n: int, ownedAtStart: bool): seq<Event>
    requires 0 <= s < n && k < n
  {
    [Inval(TxDesc(s))] + (if ownedAtStart then [Log(NoFrameTransmitted)] else []) + ScanEvents(s, k, n)
  }

  function AckEvents(state: Word): seq<Event> {
    [Load(EIR, state), Store(EIR, state), Store(RDAR, RDAR_ACTIVE)]
  }

  /** Cache discipline of a transmit: the buffer and the descriptor are
      flushed before the doorbell, and the doorbell is rung exactly once. */
  lemma {:induction false} XmitFlushesPrecedeDoorbell(slot: nat, len: nat, tdar: seq<Word>)
    requires |tdar| >= DOORBELL_POLLS
    ensures var e := XmitEvents(slot, len, tdar);
      && e[1] == Flush(Buf(TxBuf(slot), len)) && e[2] == Flush(TxDesc(slot))
      && (forall k :: 0 <= k < |e| && e[k].Store? && e[k].reg == TDAR ==> k == 3)
      && e[3] == Store(TDAR, TDAR_ACTIVE)
  {
    var e := XmitEvents(slot, len, tdar);
    var p := PollEvents(tdar, PollCount(tdar));
    assert e == [e[0], e[1], e[2], e[3]] + p + e[4 + |p|..];
    forall k | 0 <= k < |e| && e[k].Store? && e[k].reg == TDAR
      ensures k == 3
    {
    }
  }

  // ----- Doorbell wait -----

  /** Index of the first zero among the first `n` TDAR reads, or `n` if none. */
  function FirstAck(tdar: seq<Word>, n: nat): (k: nat)
    requires n <= |tdar|
    ensures k <= n
    ensures forall j :: 0 <= j < k ==> tdar[j] != 0
    ensures k < n ==> tdar[k] == 0
  {
    if n == 0 then 0
    else
      var k := FirstAck(tdar, n - 1);
      if k < n - 1 then k else if tdar[n - 1] == 0 then n - 1 else n
  }

  /** Number of TDAR reads of `while(timeout--)` starting at 255. */
  function PollCount(tdar: seq<Word>): (polls: nat)
    requires |tdar| >= DOORBELL_POLLS
    ensures polls <= DOORBELL_POLLS
  {
    var k := FirstAck(tdar, DOORBELL_POLLS);
    if k < DOORBELL_POLLS then k + 1 else DOORBELL_POLLS
  }

  /** Value of `timeout` after the loop: the post-decrement also runs on the
      test that ends the loop, so running out leaves -1. */
  function FinalTimeout(tdar: seq<Word>): (timeout: int)
    requires |tdar| >= DOORBELL_POLLS
    ensures -1 <= timeout < DOORBELL_POLLS
    ensures timeout >= 0 ==> tdar[DOORBELL_POLLS - 1 - timeout] == 0
  {
    var k := FirstAck(tdar, DOORBELL_POLLS);
    if k < DOORBELL_POLLS then DOORBELL_POLLS - 1 - k else -1
  }

  /** The doorbell wait of `imx6_net_xmit`: polls ENET_TDAR until it reads
      zero, at most 255 times; `tdar` holds the values successive reads return. */
  method PollDoorbell(tdar: seq<Word>) returns (timeout: int, polls: nat)
    requires |tdar| >= DOORBELL_POLLS
    ensures polls <= DOORBELL_POLLS
    ensures polls == PollCount(tdar) && timeout == FinalTimeout(tdar)
    ensures forall j :: 0 <= j < polls - 1 ==> tdar[j] != 0
    ensures timeout >= 0 <==> polls > 0 && tdar[polls - 1] == 0
  {
    timeout := DOORBELL_POLLS;
    polls := 0;
    while true
      invariant 0 <= timeout <= DOORBELL_POLLS && polls == DOORBELL_POLLS - timeout
      invariant forall j :: 0 <= j < polls ==> tdar[j] != 0
      decreases timeout
    {
      var test := timeout;
      timeout := timeout - 1;
      if test == 0 {
        break;
      }
      polls := polls + 1;
      if tdar[polls - 1] == 0 {
        break;
      }
    }
  }

  /** The condition the code tests after the wait, `timeout == 0`. */
  predicate TimeoutLoggedAsWritten(tdar: seq<Word>): (logged: bool)
    requires |tdar| >= DOORBELL_POLLS
    ensures logged ==> tdar[DOORBELL_POLLS - 1] == 0
  {
    FinalTimeout(tdar) == 0
  }

  /** As written, "TX timeout" is logged exactly when the device did clear
      the doorbell, on the 255th and last poll; a real timeout is never logged. */
  lemma {:induction false} TimeoutLogAsWrittenMisfires(tdar: seq<Word>)
    requires |tdar| >= DOORBELL_POLLS
    ensures TimeoutLoggedAsWritten(tdar) <==> FirstAck(tdar, DOORBELL_POLLS) == DOORBELL_POLLS - 1
    ensures (forall j :: 0 <= j < DOORBELL_POLLS ==> tdar[j] != 0) ==> !TimeoutLoggedAsWritten(tdar)
  {
  }

  /** The intended condition: the wait ran out (`timeout` below zero). */
  predicate TimeoutLogged(tdar: seq<Word>)
    requires |tdar| >= DOORBELL_POLLS
  {
    FinalTimeout(tdar) < 0
  }

  /** The corrected test logs exactly when none of the 255 polls saw the
      doorbell cleared. */
  lemma {:induction false} TimeoutLoggedIffNoAck(tdar: seq<Word>)
    requires |tdar| >= DOORBELL_POLLS
    ensures TimeoutLogged(tdar) <==> forall j :: 0 <= j < DOORBELL_POLLS ==> tdar[j] != 0
  {
  }

  // ----- MAC address packing -----

  /** ENET MAC_LOW as intended: bytes 0..3 of the address, byte 0 highest. */
  function MacLo(mac: seq<byte>): (lo: nat)
    requires |mac| == 6
    ensures lo < 0x1_0000_0000
  {
    Be32(mac[0], mac[1], mac[2], mac[3])
  }

  /** ENET MAC_HI as intended: bytes 4 and 5 in the upper half. */
  function MacHi(mac: seq<byte>): (hi: nat)
    requires |mac| == 6
    ensures hi < 0x1_0000_0000 && hi % 0x1_0000 == 0
  {
    Be16(mac[4], mac[5]) * 0x1_0000
  }

  /** Reads an address back out of the two register values. */
  function MacFromRegs(lo: nat, hi: nat): (mac: seq<byte>)
    requires lo < 0x1_0000_0000 && hi < 0x1_0000_0000
    ensures |mac| == 6
  {
    [lo / 0x100_0000, lo / 0x1_0000 % 0x100, lo / 0x100 % 0x100, lo % 0x100,
     hi / 0x100_0000, hi / 0x1_0000 % 0x100]
  }

  lemma {:induction false} MacRoundTrip(mac: seq<byte>)
    requires |mac| == 6
    ensures MacFromRegs(MacLo(mac), MacHi(mac)) == mac
  {
    Be32Split(mac[0], mac[1], mac[2], mac[3]);
    assert MacHi(mac) == Be32(mac[4], mac[5], 0, 0);
    Be32Split(mac[4], mac[5], 0, 0);
  }

  /** Distinct addresses give distinct register pairs. */
  lemma {:induction false} MacPackInjective(a: seq<byte>, b: seq<byte>)
    requires |a| == 6 && |b| == 6
    ensures MacLo(a) == MacLo(b) && MacHi(a) == MacHi(b) ==> a == b
  {
    MacRoundTrip(a);
    MacRoundTrip(b);
  }

  /** MAC_LOW as written: `*_macaddr[k]` is `*(_macaddr[k])`, the first byte
      of the k-th six-byte array from the argument, i.e. `mem[6 * k]`. */
  function MacLoAsWritten(mem: seq<byte>): (lo: nat)
    requires |mem| >= 31
    ensures lo == MacLo(mem[..6]) <==> mem[6] == mem[1] && mem[12] == mem[2] && mem[18] == mem[3]
  {
    Be32Split(mem[0], mem[6], mem[12], mem[18]);
    Be32Split(mem[0], mem[1], mem[2], mem[3]);
    Be32(mem[0], mem[6], mem[12], mem[18])
  }

  /** MAC_HI as written: bytes at offsets 24 and 30 instead of 4 and 5. */
  function MacHiAsWritten(mem: seq<byte>): (hi: nat)
    requires |mem| >= 31
    ensures hi == MacHi(mem[..6]) <==> mem[24] == mem[4] && mem[30] == mem[5]
  {
    Be16Split(mem[24], mem[30]);
    Be16Split(mem[4], mem[5]);
    Be16(mem[24], mem[30]) * 0x1_0000
  }

  /** As written, two different addresses whose memory agrees at offsets
      0, 6, ..., 30 load the same registers, although the intended packing
      tells them apart. */
  lemma {:induction false} MacPackAsWrittenCollides(a: seq<byte>, b: seq<byte>)
    requires |a| >= 31 && |b| >= 31 && a[..6] != b[..6]
    requires forall k :: 0 <= k < 6 ==> a[6 * k] == b[6 * k]
    ensures MacLoAsWritten(a) == MacLoAsWritten(b) && MacHiAsWritten(a) == MacHiAsWritten(b)
    ensures MacLo(a[..6]) != MacLo(b[..6]) || MacHi(a[..6]) != MacHi(b[..6])
  {
    assert a[0] == b[0] && a[6] == b[6] && a[12] == b[12] && a[18] == b[18] && a[24] == b[24] && a[30] == b[30] by {
      assert 6 * 0 == 0 && 6 * 1 == 6 && 6 * 2 == 12 && 6 * 3 == 18 && 6 * 4 == 24 && 6 * 5 == 30;
    }
    MacPackInjective(a[..6], b[..6]);
  }

  // ----- The driver state -----

  class Enet {
    const txFrames: nat
    const rxFrames: nat
    var txRing: array<Desc>     // `_tx_desc_ring`
    var rxRing: array<Desc>     // `_rx_desc_ring`
    var txBuf: array2<byte>     // `_tx_buf`
    var rxBuf: array2<byte>     // `_rx_buf`
    var curRx: int              // `_cur_rx`
    var dirtyTx: int            // `_dirty_tx`
    var curTx: int              // `_cur_tx`
    ghost var trace: seq<Event>
    ghost var delivered: seq<seq<byte>>

    /** Shapes and cursor ranges, true from power-on. */
    ghost predicate Allocated()
      reads this`txRing, this`rxRing, this`txBuf, this`rxBuf, this`curRx, this`curTx, this`dirtyTx
    {
      && 0 < txFrames && 0 < rxFrames
      && txRing.Length == txFrames && rxRing.Length == rxFrames
      && txBuf.Length0 == txFrames && txBuf.Length1 == BUF_SIZE
      && rxBuf.Length0 == rxFrames && rxBuf.Length1 == BUF_SIZE
      && txRing != rxRing && txBuf != rxBuf
      && 0 <= curRx < rxFrames && 0 <= curTx < txFrames && 0 <= dirtyTx < txFrames
    }

    /** The ring invariant, from the first `_init_buffers` on. */
    ghost predicate Valid()
      reads this`txRing, this`rxRing, this`txBuf, this`rxBuf, this`curRx, this`curTx, this`dirtyTx, txRing, rxRing
    {
      && Allocated()
      && TxRingOk(txRing[..], txFrames)
      && RxRingOk(rxRing[..], rxFrames)
    }

    /** The frame in RX slot `i`: the first `len` bytes of its buffer. */
    ghost function RxFrame(i: int): (f: seq<byte>)
      reads this`txRing, this`rxRing, this`txBuf, this`rxBuf, this`curRx, this`curTx, this`dirtyTx, txRing, rxRing, rxBuf
      requires Valid() && 0 <= i < rxFrames
      ensures |f| == rxRing[i].len
    {
      RowPrefix(rxBuf, i, rxRing[i].len)
    }

    /** The static storage at power-on: everything zero. */
    constructor (nTx: nat, nRx: nat)
      requires 0 < nTx && 0 < nRx
      ensures Allocated() && txFrames == nTx && rxFrames == nRx
      ensures fresh(txRing) && fresh(rxRing) && fresh(txBuf) && fresh(rxBuf)
      ensures forall i :: 0 <= i < nTx ==> txRing[i] == ZeroDesc
      ensures forall i :: 0 <= i < nRx ==> rxRing[i] == ZeroDesc
      ensures forall i, j :: 0 <= i < nTx && 0 <= j < BUF_SIZE ==> txBuf[i, j] == 0
      ensures forall i, j :: 0 <= i < nRx && 0 <= j < BUF_SIZE ==> rxBuf[i, j] == 0
      ensures curRx == 0 && dirtyTx == 0 && curTx == 0
      ensures trace == [] && delivered == []
    {
      txFrames, rxFrames := nTx, nRx;
      txRing := new Desc[nTx](_ => ZeroDesc);
      rxRing := new Desc[nRx](_ => ZeroDesc);
      txBuf := new byte[nTx, BUF_SIZE]((_, _) => 0);
      rxBuf := new byte[nRx, BUF_SIZE]((_, _) => 0);
      curRx, dirtyTx, curTx := 0, 0, 0;
      trace, delivered := [], [];
    }

    /** `_init_buffers`: clears both rings, marks the last slot of each with
      wrap, binds every RX descriptor to its buffer and gives it to the
      device, then flushes both rings and programs the ring registers.
      Cursors and buffers are left alone. */
    method InitBuffers()
      requires Allocated()
      modifies this`trace, txRing, rxRing
      ensures Valid()
      ensures forall i :: 0 <= i < txFrames ==> txRing[i] == InitTxDesc(i, txFrames)
      ensures forall i :: 0 <= i < rxFrames ==> rxRing[i] == InitRxDesc(i, rxFrames)
      ensures trace == old(trace) + InitBuffersEvents()
    {
      forall i | 0 <= i < txFrames {
        txRing[i] := ZeroDesc;
      }
      forall i | 0 <= i < rxFrames {
        rxRing[i] := ZeroDesc;
      }
      rxRing[rxFrames - 1] := rxRing[rxFrames - 1].(flags := FLAG_W);
      txRing[txFrames - 1] := txRing[txFrames - 1].(flags := FLAG_W);
      for i := 0 to rxFrames
        invariant forall k :: 0 <= k < i ==> rxRing[k] == InitRxDesc(k, rxFrames)
        invariant forall k :: i <= k < rxFrames ==> rxRing[k] == Desc(0, if k == rxFrames - 1 then FLAG_W else 0, Null)
        invariant forall k :: 0 <= k < txFrames ==> txRing[k] == InitTxDesc(k, txFrames)
        invariant trace == old(trace)
      {
        rxRing[i] := rxRing[i].(ptr := RxBuf(i), flags := rxRing[i].flags | FLAG_E);
      }
      trace := trace + InitBuffersEvents();
      forall i | 0 <= i < txFrames ensures TxSlotOk(txRing[i], i, txFrames) {
        DescriptorFlags(i, txFrames);
      }
      forall i | 0 <= i < rxFrames ensures RxSlotOk(rxRing[i], i, rxFrames) {
        DescriptorFlags(i, rxFrames);
      }
    }

    /** `_reset`: resets the controller, reinitialises both rings and
      re-enables the controller. The cursors are not reset. */
    method Reset(ecr: Word)
      requires Allocated()
      modifies this`trace, txRing, rxRing
      ensures Valid()
      ensures forall i :: 0 <= i < txFrames ==> txRing[i] == InitTxDesc(i, txFrames)
      ensures forall i :: 0 <= i < rxFrames ==> rxRing[i] == InitRxDesc(i, rxFrames)
      ensures trace == old(trace) + ResetEvents(ecr)
    {
      trace := trace + [SaveRegs, Store(ECR, ECR_RESET), AwaitReset, RestoreRegs];
      InitBuffers();
      trace := trace + [Store(EIMR, ALL_ONES), Store(EIR, ALL_ONES), Store(TCR, TCR_FDEN), Store(RCR, RCR_INIT),
                        Load(ECR, ecr), Store(ECR, ecr | ECR_ETHEREN), DumpRegs, Store(RDAR, RDAR_ACTIVE)];
    }

    /** The doorbell of `imx6_net_xmit`: the TDAR store, the wait for the
      device to clear it, and the timeout log line. */
    method RingDoorbell(tdar: seq<Word>)
      requires |tdar| >= DOORBELL_POLLS
      modifies this`trace
      ensures trace == old(trace) + DoorbellEvents(tdar)
    {
      trace := trace + [Store(TDAR, TDAR_ACTIVE)];
      var timeout, polls := PollDoorbell(tdar);
      trace := trace + PollEvents(tdar, polls);
      if timeout < 0 {
        trace := trace + [Log(TxTimeout)];
      }
    }

    /** `imx6_net_xmit`. Without data it fails with -1 and changes nothing
      but the TCR store and a log line. Otherwise it fills the buffer of slot
      `curTx` with the frame and zeros, gives the descriptor to the device,
      rings the doorbell, waits for it and advances `curTx`; it does not look
      at whether that slot is still owned by the device. `tdar` holds the
      values the doorbell reads return. */
    method Xmit(skb: Option<seq<byte>>, tdar: seq<Word>) returns (ret: int)
      requires Valid()
      requires skb.Some? ==> |skb.value| <= BUF_SIZE
      requires |tdar| >= DOORBELL_POLLS
      modifies this`curTx, this`trace, txRing, txBuf
      ensures Valid()
      ensures ret == (if skb.Some? then 0 else -1)
      ensures skb.None? ==>
        && txRing[..] == old(txRing[..]) && curTx == old(curTx)
        && (forall i, j :: 0 <= i < txFrames && 0 <= j < BUF_SIZE ==> txBuf[i, j] == old(txBuf[i, j]))
        && trace == old(trace) + [Store(TCR, TCR_FDEN), Log(NoSkbData)]
      ensures skb.Some? ==>
        && txRing[..] == old(txRing[..])[old(curTx) := SubmittedDesc(old(curTx), txFrames, |skb.value|)]
        && curTx == NextSlot(old(curTx), txFrames)
        && (forall j :: 0 <= j < BUF_SIZE ==> txBuf[old(curTx), j] == if j < |skb.value| then skb.value[j] else 0)
        && (forall i, j :: 0 <= i < txFrames && i != old(curTx) && 0 <= j < BUF_SIZE ==> txBuf[i, j] == old(txBuf[i, j]))
        && trace == old(trace) + XmitEvents(old(curTx), |skb.value|, tdar)
    {
      var cur := curTx;
      trace := trace + [Store(TCR, TCR_FDEN)];
      if skb.None? {
        trace := trace + [Log(NoSkbData)];
        return -1;
      }
      var data := skb.value;
      FillRow(txBuf, cur, data);
      trace := trace + [Flush(Buf(TxBuf(cur), |data|))];
      SubmittedSlotOk(cur, txFrames, |data|);
      TxRingUpdate(txRing[..], cur, SubmittedDesc(cur, txFrames, |data|), txFrames);
      txRing[cur] := SubmittedDesc(cur, txFrames, |data|);
      trace := trace + [Flush(TxDesc(cur))];
      RingDoorbell(tdar);
      curTx := NextSlot(curTx, txFrames);
      return 0;
    }

    /** The RX effect of one interrupt: if the device has filled the slot at
      `curRx`, exactly that frame is delivered, the slot is handed back to
      the device and the cursor moves on; otherwise nothing changes. */
    twostate predicate RxHarvested()
      requires old(Valid()) && Valid()
      reads this, txRing, rxRing, rxBuf
    {
      if old(Has(rxRing[curRx].flags, FLAG_E)) then
        rxRing[..] == old(rxRing[..]) && curRx == old(curRx) && delivered == old(delivered)
      else
        && delivered == old(delivered) + [old(RxFrame(curRx))]
        && rxRing[..] == old(rxRing[..])[old(curRx) := old(rxRing[curRx]).(flags := RxReadyFlags(old(curRx), rxFrames))]
        && curRx == NextSlot(old(curRx), rxFrames)
    }

    /** The RX branch of `imx6_irq_handler`: at most one frame per call. */
    method HarvestRx()
      requires Valid()
      modifies this`curRx, this`trace, this`delivered, rxRing
      ensures Valid()
      ensures RxHarvested()
      ensures trace == old(trace) + RxEvents(old(curRx), old(Has(rxRing[curRx].flags, FLAG_E)))
    {
      var cur := curRx;
      var desc := rxRing[cur];
      trace := trace + [Inval(RxDesc(cur)), Inval(Buf(desc.ptr, BUF_SIZE))];
      if Has(desc.flags, FLAG_E) {
        trace := trace + [Log(RxDescEmpty)];
      } else {
        delivered := delivered + [RowPrefix(rxBuf, desc.ptr.slot, desc.len)];
        rxRing[cur] := desc.(flags := FLAG_E);
        if cur == rxFrames - 1 {
          rxRing[cur] := rxRing[cur].(flags := rxRing[cur].flags | FLAG_W);
        }
        trace := trace + [Flush(RxDesc(cur))];
        curRx := NextSlot(curRx, rxFrames);
      }
    }

    /** The effect of the TX loop as written: `dirtyTx` moved `steps` slots
      forward over descriptors the device has released, and stopped at the
      first one it still owns. */
    twostate predicate TxReclaimedAsWritten(steps: nat)
      requires old(Valid()) && Valid()
      reads this, txRing, rxRing
    {
      && ScanAsWritten(txRing[..], old(dirtyTx), steps, txFrames)
      && dirtyTx == Advance(old(dirtyTx), steps, txFrames)
    }

    /** The TX branch of `imx6_irq_handler` as written. The loop only ends at
      a descriptor the device owns, so it terminates only when one exists;
      `t` names such a descriptor. */
    method ReclaimTxAsWritten(ghost t: int) returns (ghost steps: nat)
      requires Valid()
      requires 0 <= t < txFrames && Has(txRing[t].flags, FLAG_R)
      modifies this`dirtyTx, this`trace
      ensures Valid()
      ensures TxReclaimedAsWritten(steps)
      ensures trace == old(trace) + ReclaimEvents(old(dirtyTx), steps, txFrames, Has(txRing[old(dirtyTx)].flags, FLAG_R))
    {
      ghost var dist := Dist(dirtyTx, t, txFrames);
      AdvanceReaches(dirtyTx, t, txFrames);
      var dirty := dirtyTx;
      var desc := txRing[dirty];
      trace := trace + [Inval(TxDesc(dirty))];
      if Has(desc.flags, FLAG_R) {
        trace := trace + [Log(NoFrameTransmitted)];
      }
      ghost var scanned: seq<Event> := [];
      steps := 0;
      while !Has(desc.flags, FLAG_R)
        modifies {}
        invariant 0 <= dirty < txFrames && steps <= dist
        invariant dirty == Advance(dirtyTx, steps, txFrames)
        invariant desc == txRing[dirty]
        invariant forall k :: 0 <= k < steps ==> !Has(txRing[Advance(dirtyTx, k, txFrames)].flags, FLAG_R)
        invariant scanned == ScanEvents(dirtyTx, steps, txFrames)
        decreases dist - steps
      {
        assert dirty != t;
        dirty := NextSlot(dirty, txFrames);
        desc := txRing[dirty];
        scanned := scanned + [Inval(TxDesc(dirty))];
        steps := steps + 1;
      }
      trace := trace + scanned;
      dirtyTx := dirty;
    }

    /** The effect of the corrected TX loop: `dirtyTx` moved `steps` slots
      forward over released descriptors, never past `curTx`, and stopped
      either at `curTx` or at the first descriptor the device still owns. */
    twostate predicate TxReclaimed(steps: nat)
      requires old(Valid()) && Valid()
      reads this, txRing, rxRing
    {
      && ScanCorrected(txRing[..], old(dirtyTx), curTx, steps, txFrames)
      && dirtyTx == Advance(old(dirtyTx), steps, txFrames)
    }

    /** The TX branch of `imx6_irq_handler`, with the loop also ending at the
      next slot to be submitted, `curTx`. It always terminates. No
      descriptor is written. */
    method ReclaimTx() returns (ghost steps: nat)
      requires Valid()
      modifies this`dirtyTx, this`trace
      ensures Valid()
      ensures TxReclaimed(steps)
      ensures trace == old(trace) + ReclaimEvents(old(dirtyTx), steps, txFrames, Has(txRing[old(dirtyTx)].flags, FLAG_R))
    {
      var dirty := dirtyTx;
      var desc := txRing[dirty];
      trace := trace + [Inval(TxDesc(dirty))];
      if Has(desc.flags, FLAG_R) {
        trace := trace + [Log(NoFrameTransmitted)];
      }
      ghost var scanned: seq<Event> := [];
      steps := 0;
      while dirty != curTx && !Has(desc.flags, FLAG_R)
        modifies {}
        invariant 0 <= dirty < txFrames
        invariant steps + Dist(dirty, curTx, txFrames) == Dist(dirtyTx, curTx, txFrames)
        invariant dirty == Advance(dirtyTx, steps, txFrames)
        invariant desc == txRing[dirty]
        invariant forall k :: 0 <= k < steps ==> !Has(txRing[Advance(dirtyTx, k, txFrames)].flags, FLAG_R)
        invariant scanned == ScanEvents(dirtyTx, steps, txFrames)
        decreases Dist(dirty, curTx, txFrames)
      {
        DistStep(dirty, curTx, txFrames);
        dirty := NextSlot(dirty, txFrames);
        desc := txRing[dirty];
        scanned := scanned + [Inval(TxDesc(dirty))];
        steps := steps + 1;
      }
      trace := trace + scanned;
      dirtyTx := dirty;
    }

    /** `imx6_irq_handler`, given the value `state` that ENET_EIR reads and
      the value `ecr` that ENET_ECR reads during a reset. The TX branch is the
      loop as written, which ends only at a descriptor the device owns;
      `owned` names one whenever that branch runs. */
    method IrqHandler(state: Word, ecr: Word, ghost owned: int) returns (ghost txSteps: nat)
      requires Valid()
      requires NormalStatus(state) && HasBit(state, EIR_TXB | EIR_TXF) ==>
                 0 <= owned < txFrames && Has(txRing[owned].flags, FLAG_R)
      modifies this`curRx, this`dirtyTx, this`trace, this`delivered, txRing, rxRing
      ensures Valid()
      ensures state == EIR_GRA ==>
        && txRing[..] == old(txRing[..]) && rxRing[..] == old(rxRing[..])
        && curRx == old(curRx) && dirtyTx == old(dirtyTx) && delivered == old(delivered)
        && trace == old(trace) + AckEvents(state)
      ensures state != EIR_GRA && HasBit(state, EIR_EBERR) ==>
        && (forall i :: 0 <= i < txFrames ==> txRing[i] == InitTxDesc(i, txFrames))
        && (forall i :: 0 <= i < rxFrames ==> rxRing[i] == InitRxDesc(i, rxFrames))
        && curRx == old(curRx) && dirtyTx == old(dirtyTx) && delivered == old(delivered)
        && trace == old(trace) + AckEvents(state) + [Log(BusError), Store(ECR, ECR_RESET)] + ResetEvents(ecr)
      ensures NormalStatus(state) ==>
        && txRing[..] == old(txRing[..])
        && (if HasBit(state, EIR_RXB | EIR_RXF) then RxHarvested()
            else rxRing[..] == old(rxRing[..]) && curRx == old(curRx) && delivered == old(delivered))
        && (if HasBit(state, EIR_TXB | EIR_TXF) then TxReclaimedAsWritten(txSteps) else dirtyTx == old(dirtyTx))
        && trace == old(trace) + AckEvents(state)
             + (if HasBit(state, EIR_RXB | EIR_RXF) then RxEvents(old(curRx), old(Has(rxRing[curRx].flags, FLAG_E))) else [])
             + (if HasBit(state, EIR_TXB | EIR_TXF)
                then ReclaimEvents(old(dirtyTx), txSteps, txFrames, old(Has(txRing[dirtyTx].flags, FLAG_R)))
                else [])
             + [Store(TCR, TCR_FDEN), DumpRegs]
    {
      txSteps := 0;
      trace := trace + AckEvents(state);
      if state == EIR_GRA {
        return;
      }
      if HasBit(state, EIR_EBERR) {
        trace := trace + [Log(BusError), Store(ECR, ECR_RESET)];
        Reset(ecr);
        return;
      }
      if HasBit(state, EIR_RXB | EIR_RXF) {
        HarvestRx();
      }
      if HasBit(state, EIR_TXB | EIR_TXF) {
        txSteps := ReclaimTxAsWritten(owned);
      }
      trace := trace + [Store(TCR, TCR_FDEN), DumpRegs];
    }

    /** The device fills RX slot `i`, which it owns, with a frame: the bytes
      go to the slot's buffer, the length to the descriptor, and the empty
      flag is cleared. */
    method DeviceReceive(i: int, frame: seq<byte>)
      requires Valid() && 0 <= i < rxFrames && Has(rxRing[i].flags, FLAG_E) && |frame| <= BUF_SIZE
      modifies rxRing, rxBuf
      ensures Valid()
      ensures rxRing[..] == old(rxRing[..])[i := Released(old(rxRing[i]).(len := |frame|))]
      ensures RxFrame(i) == frame
      ensures forall r, j :: 0 <= r < rxFrames && 0 <= j < BUF_SIZE && (r != i || |frame| <= j) ==>
                rxBuf[r, j] == old(rxBuf[r, j])
    {
      WriteRow(rxBuf, i, frame);
      var d := Released(rxRing[i].(len := |frame|));
      ReleaseKeepsSlot(rxRing[i].(len := |frame|), i, rxFrames);
      RxRingUpdate(rxRing[..], i, d, rxFrames);
      rxRing[i] := d;
    }

    /** The device finishes the transmission in TX slot `i` and releases it. */
    method DeviceCompleteTx(i: int)
      requires Valid() && 0 <= i < txFrames && Has(txRing[i].flags, FLAG_R)
      modifies txRing
      ensures Valid()
      ensures txRing[..] == old(txRing[..])[i := Released(old(txRing[i]))]
    {
      ReleaseKeepsSlot(txRing[i], i, txFrames);
      TxRingUpdate(txRing[..], i, Released(txRing[i]), txFrames);
      txRing[i] := Released(txRing[i]);
    }

    /** `emac_set_macaddr`, with the intended packing. */
    method SetMacAddr(mac: seq<byte>)
      requires |mac| == 6
      modifies this`trace
      ensures trace == old(trace) + [Store(MAC_LOW, MacLo(mac) as Word), Store(MAC_HI, MacHi(mac) as Word)]
    {
      trace := trace + [Store(MAC_LOW, MacLo(mac) as Word), Store(MAC_HI, MacHi(mac) as Word)];
    }
  }

  /** A status that reaches the RX and TX branches. */
  predicate NormalStatus(state: Word) {
    state != EIR_GRA && !HasBit(state, EIR_EBERR)
  }

  /** The TX ring right after `_init_buffers`. */
  function InitTxRing(n: nat): (ring: seq<Desc>)
    ensures |ring| == n && forall i :: 0 <= i < n ==> ring[i] == InitTxDesc(i, n)
  {
    seq(n, i => InitTxDesc(i, n))
  }

  /** After one frame is submitted in slot 0 and the device has sent it, no
      TX descriptor is owned by the device: the state is well formed, yet the
      loop as written stops after no number of steps. */
  lemma {:induction false} CompletedRingHasNoOwner(n: nat, len: nat)
    requires 0 < n && len <= BUF_SIZE
    ensures var ring := InitTxRing(n)[0 := Released(SubmittedDesc(0, n, len))];
      && TxRingOk(ring, n)
      && (forall i :: 0 <= i < n ==> !Has(ring[i].flags, FLAG_R))
      && forall steps :: !ScanAsWritten(ring, 0, steps, n)
  {
    var ring := InitTxRing(n)[0 := Released(SubmittedDesc(0, n, len))];
    DescriptorFlags(0, n);
    SubmittedSlotOk(0, n, len);
    ReleaseKeepsSlot(SubmittedDesc(0, n, len), 0, n);
    forall i | 0 < i < n
      ensures TxSlotOk(ring[i], i, n) && !Has(ring[i].flags, FLAG_R)
    {
      DescriptorFlags(i, n);
    }
  }

  /** Driver start-up, one transmit and its completion by the device leave
      no TX descriptor owned, so a TX interrupt would not end; the corrected
      reclaim stops at `curTx`. */
  method TransmitCompleteReclaim(frame: seq<byte>, tdar: seq<Word>) returns (e: Enet)
    requires |frame| <= BUF_SIZE && |tdar| >= DOORBELL_POLLS
    ensures e.Valid()
    ensures e.txRing[..] == InitTxRing(4)[0 := Released(SubmittedDesc(0, 4, |frame|))]
    ensures e.curTx == 1 && e.dirtyTx == 1
  {
    e := new Enet(4, 4);
    e.InitBuffers();
    assert e.txRing[..] == InitTxRing(4);
    var ret := e.Xmit(Some(frame), tdar);
    e.DeviceCompleteTx(0);
    CompletedRingHasNoOwner(4, |frame|);
    var steps := e.ReclaimTx();
  }

  /** A frame the device writes into the slot at `curRx` is delivered, once
      and unchanged, by the next RX interrupt. */
  method ReceiveThenInterrupt(e: Enet, frame: seq<byte>)
    requires e.Valid() && Has(e.rxRing[e.curRx].flags, FLAG_E) && |frame| <= BUF_SIZE
    modifies e, e.txRing, e.rxRing, e.rxBuf
    ensures e.Valid()
    ensures e.delivered == old(e.delivered) + [frame]
    ensures e.curRx == NextSlot(old(e.curRx), e.rxFrames)
    ensures Has(e.rxRing[old(e.curRx)].flags, FLAG_E)
  {
    e.DeviceReceive(e.curRx, frame);
    ReleaseKeepsSlot(old(e.rxRing[e.curRx]).(len := |frame|), e.curRx, e.rxFrames);
    var steps := e.IrqHandler(EIR_RXF, 0, 0);
    DescriptorFlags(old(e.curRx), e.rxFrames);
  }
}
