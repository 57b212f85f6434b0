/**
  The interrupt-driven JTAG UART driver as a system of steps.

  A writer thread, a reader thread, the interrupt routine, the one-second timer and the
  host at the other end of the cable share the driver's two rings without a lock.
  Threads step at the granularity of single reads of an index, single bytes of a copy and
  single index publishes; the interrupt routine steps one byte at a time, threads are
  suspended while it is active, and the host may act between any two steps.
*/
module UartSystem {

  const BUF_LEN: nat := 2048   // length of each software ring
  const FIFO_DEPTH: nat := 64  // depth of each hardware FIFO
  const INT_MAX: nat := 0x7FFF_FFFF
  const EIO: int := 5
  const EWOULDBLOCK: int := 11

  type Byte = b: int | 0 <= b < 256

  /** Where a call of `write` stands. */
  datatype WriterPc = WIdle | WTest | WReadOut | WCopy | WKick | WDecide | WSpin | WCheck

  /** The locals of `write`. `base`, `outAbs`, `kickDue`, `gaveUp` and `gone` are history
      variables: how much had been accepted before the call, how much had been sent when `out`
      was read, whether data was published since the last kick, whether the call ended because
      the host had been inactive for any time at all, and whether the host counted as gone,
      having been inactive for the whole timeout, when the call last left its wait. */
  datatype Writer = Writer(pc: WriterPc, data: seq<Byte>, nonblock: bool, done: nat,
                           inn: nat, out: nat, n: nat, k: nat, ret: int,
                           base: nat, outAbs: nat, kickDue: bool, gaveUp: bool, gone: bool)

  /** Where a call of `read` stands. */
  datatype ReaderPc = RIdle | RTest | RReadIn | RReadOut | RCopy | RDecide | RSpin | RCheck | RFinish

  /** The locals of `read`; `buf` is the part of the caller's buffer filled so far. `base`,
      `inAbs`, `enableDue` and `gone` are history variables; the last says whether the host
      counted as gone when the call last left its wait. */
  datatype Reader = Reader(pc: ReaderPc, cap: nat, nonblock: bool, buf: seq<Byte>, done: nat,
                           inn: nat, out: nat, n: nat, k: nat, ret: int,
                           base: nat, inAbs: nat, enableDue: bool, gone: bool)

  /** Where the interrupt routine stands. */
  datatype IsrPc = IIdle | IControl | IRx | IRxEnd | ITx | ITxEnd

  /** The locals of the interrupt routine. */
  datatype Isr = Isr(pc: IsrPc, wi: bool, space: nat, ravail: nat)

  /** The transmit ring, the transmit FIFO, and the bytes accepted by writes and got by the host. */
  datatype Tx = Tx(buf: seq<Byte>, inn: nat, out: nat, hw: seq<Byte>, accepted: seq<Byte>, hostGot: seq<Byte>)
  {
    /** Everything the driver has handed to the transmit FIFO. */
    function Sent(): seq<Byte> { hostGot + hw }

    predicate Empty() { inn == out }
  }

  /** The receive ring, the receive FIFO, and the bytes sent by the host and returned by reads. */
  datatype Rx = Rx(buf: seq<Byte>, inn: nat, out: nat, hw: seq<Byte>, hostSent: seq<Byte>, delivered: seq<Byte>)
  {
    /** How many of the host's bytes the driver has taken out of the receive FIFO. */
    function Taken(): nat { if |hw| <= |hostSent| then |hostSent| - |hw| else 0 }

    predicate Full() { (inn + 1) % BUF_LEN == out }
  }

  datatype Sys = Sys(tx: Tx, rx: Rx, re: bool, we: bool, hostInactive: nat, timeout: nat, ac: bool,
                     w: Writer, r: Reader, isr: Isr)
  {
    /** Threads do not run while the interrupt routine does. */
    predicate ThreadsRun() { isr.pc == IIdle }
  }

  datatype Action =
    | StartWrite(data: seq<Byte>, nonblock: bool)
    | WriterStep
    | StartRead(cap: nat, rnonblock: bool)
    | ReaderStep
    | IsrEnter
    | IsrControl(ri: bool, wi: bool)
    | IsrStep
    | HostSend(b: Byte)
    | HostDrain
    | HostPoll
    | TimerTick

  /** The unbounded queue view of a ring: its bytes from `out` up to, not including, `inn`. */
  function Ring(buf: seq<Byte>, out: nat, inn: nat): seq<Byte>
    requires |buf| == BUF_LEN
  {
    seq((inn + BUF_LEN - out) % BUF_LEN, i => buf[(out + i) % BUF_LEN])
  }

  const NO_WRITER := Writer(WIdle, [], false, 0, 0, 0, 0, 0, 0, 0, 0, false, false, false)
  const NO_READER := Reader(RIdle, 0, false, [], 0, 0, 0, 0, 0, 0, 0, 0, false, false)

  /** After `init`: rings empty, receive interrupts enabled. */
  function Init(timeout: nat, rxBuf: seq<Byte>, txBuf: seq<Byte>): Sys {
    Sys(Tx(txBuf, 0, 0, [], [], []), Rx(rxBuf, 0, 0, [], [], []), true, false, 0, timeout, false,
        NO_WRITER, NO_READER, Isr(IIdle, false, 0, 0))
  }

  // ---------------------------------------------------------------- write

  function CallResult(done: nat, nonblock: bool): int {
    if done != 0 then done else if nonblock then -EWOULDBLOCK else -EIO
  }

  /** The contiguous room the writer computes from its snapshot of the two indices. */
  function WriteRoom(inn: nat, out: nat): int {
    if inn < out then out - 1 - inn else if out > 0 then BUF_LEN - inn else BUF_LEN - 1 - inn
  }

  function Min(a: int, b: int): int { if a < b then a else b }

  function WriterStart(s: Sys, data: seq<Byte>, nonblock: bool): Sys {
    if s.w.pc != WIdle || !s.ThreadsRun() then s else
      s.(w := NO_WRITER.(pc := WTest, data := data, nonblock := nonblock, base := |s.tx.accepted|))
  }

  function WriterReturn(w: Writer): Writer {
    w.(pc := WIdle, ret := CallResult(w.done, w.nonblock))
  }

  /** The ring after one turn of the copy, or after the publish of `tx_in` when it is over. */
  function WriterCopy(w: Writer, tx: Tx): Tx
    requires w.inn + w.n <= |tx.buf| && w.done + w.n <= |w.data|
  {
    if w.k < w.n then tx.(buf := tx.buf[w.inn + w.k := w.data[w.done + w.k]])
    else tx.(inn := (w.inn + w.n) % BUF_LEN, accepted := tx.accepted + w.data[w.done..w.done + w.n])
  }

  /** The writer's locals after its next step. */
  function WriterLocals(w: Writer, tx: Tx, hostInactive: nat, timeout: nat): Writer {
    match w.pc
    case WIdle => w
    case WTest => if w.done < |w.data| then w.(inn := tx.inn, pc := WReadOut) else w.(pc := WKick)
    case WReadOut =>
      var n := WriteRoom(w.inn, tx.out);
      var w1 := w.(out := tx.out, outAbs := |tx.Sent()|);
      if n <= 0 || w.done >= |w.data| then w1.(pc := WKick)
      else w1.(n := Min(n, |w.data| - w.done), k := 0, pc := WCopy)
    case WCopy =>
      if w.k < w.n then w.(k := w.k + 1) else w.(done := w.done + w.n, kickDue := true, pc := WTest)
    case WKick => w.(kickDue := false, pc := WDecide)
    case WDecide => if w.done < |w.data| && !w.nonblock then w.(pc := WSpin) else WriterReturn(w)
    case WSpin =>
      if w.out == tx.out && hostInactive < timeout then w else w.(pc := WCheck, gone := hostInactive >= timeout)
    case WCheck => if hostInactive != 0 then WriterReturn(w).(gaveUp := true) else w.(pc := WTest)
  }

  /** The copy of `write` stays inside the ring and the caller's data. */
  predicate WriterSafe(w: Writer, tx: Tx) {
    w.pc == WCopy ==> w.inn + w.n <= |tx.buf| && w.done + w.n <= |w.data|
  }

  function WriterNext(s: Sys): Sys
    requires WriterSafe(s.w, s.tx)
  {
    if !s.ThreadsRun() then s else
      s.(tx := if s.w.pc == WCopy then WriterCopy(s.w, s.tx) else s.tx,
         we := s.we || s.w.pc == WKick,
         w := WriterLocals(s.w, s.tx, s.hostInactive, s.timeout))
  }

  // ---------------------------------------------------------------- read

  /** The contiguous data the reader computes from its snapshot of the two indices. */
  function ReadAvail(inn: nat, out: nat): int {
    if inn >= out then inn - out else BUF_LEN - out
  }

  function ReaderStart(s: Sys, cap: nat, nonblock: bool): Sys {
    if s.r.pc != RIdle || !s.ThreadsRun() then s else
      s.(r := NO_READER.(pc := RTest, cap := cap, nonblock := nonblock, base := |s.rx.delivered|))
  }

  /** The ring after one turn of the copy, or after the publish of `rx_out` when it is over. */
  function ReaderCopy(r: Reader, rx: Rx): Rx
    requires r.done <= |r.buf|
  {
    if r.k < r.n then rx
    else rx.(out := (r.out + r.n) % BUF_LEN, delivered := rx.delivered + r.buf[r.done..])
  }

  /** The reader's locals after its next step. */
  function ReaderLocals(r: Reader, rx: Rx, hostInactive: nat, timeout: nat): Reader
    requires ReaderSafe(r, rx)
  {
    match r.pc
    case RIdle => r
    case RTest => r.(pc := if r.done < r.cap then RReadIn else RFinish)
    case RReadIn => r.(inn := rx.inn, inAbs := rx.Taken(), pc := RReadOut)
    case RReadOut =>
      var n := ReadAvail(r.inn, rx.out);
      if n <= 0 || r.done >= r.cap then r.(out := rx.out, pc := RDecide)
      else r.(out := rx.out, n := Min(n, r.cap - r.done), k := 0, pc := RCopy)
    case RCopy =>
      if r.k < r.n then r.(buf := r.buf + [rx.buf[r.out + r.k]], k := r.k + 1)
      else r.(done := r.done + r.n, enableDue := true, pc := if r.done + r.n < r.cap then RReadIn else RDecide)
    case RDecide => r.(pc := if r.done != 0 || r.nonblock then RFinish else RSpin)
    case RSpin =>
      if r.inn == rx.inn && hostInactive < timeout then r else r.(pc := RCheck, gone := hostInactive >= timeout)
    case RCheck => r.(pc := if r.inn == rx.inn then RFinish else RTest)
    case RFinish => r.(pc := RIdle, ret := CallResult(r.done, r.nonblock), enableDue := false)
  }

  /** The copy of `read` stays inside the ring. */
  predicate ReaderSafe(r: Reader, rx: Rx) {
    r.done <= |r.buf| && (r.pc == RCopy ==> r.out + r.n <= |rx.buf|)
  }

  function ReaderNext(s: Sys): Sys
    requires ReaderSafe(s.r, s.rx)
  {
    if !s.ThreadsRun() then s else
      s.(rx := if s.r.pc == RCopy then ReaderCopy(s.r, s.rx) else s.rx,
         re := s.re || (s.r.pc == RFinish && s.r.done != 0),
         r := ReaderLocals(s.r, s.rx, s.hostInactive, s.timeout))
  }

  // ---------------------------------------------------------------- interrupt routine

  /** Reading the control register: the device raises RI only when RE is set and data is
      waiting, and WI only when WE is set and the transmit FIFO has room. */
  function IsrReadControl(s: Sys, ri: bool, wi: bool): Sys {
    if s.isr.pc != IControl then s
    else if ri && !(s.re && s.rx.hw != []) then s
    else if wi && !(s.we && |s.tx.hw| < FIFO_DEPTH) then s
    else if !ri && !wi then s.(isr := s.isr.(pc := IIdle))
    else s.(isr := Isr(if ri then IRx else ITx, wi, if |s.tx.hw| < FIFO_DEPTH then FIFO_DEPTH - |s.tx.hw| else 0, 1))
  }

  /** The receive ring after one received byte. */
  function IsrReceive(rx: Rx): Rx
    requires rx.inn < |rx.buf| && rx.hw != []
  {
    rx.(buf := rx.buf[rx.inn := rx.hw[0]], inn := (rx.inn + 1) % BUF_LEN, hw := rx.hw[1..])
  }

  /** The transmit ring after one transmitted byte. */
  function IsrTransmit(tx: Tx): Tx
    requires tx.out < |tx.buf|
  {
    tx.(hw := tx.hw + [tx.buf[tx.out]], out := (tx.out + 1) % BUF_LEN)
  }

  predicate IsrSafe(s: Sys) { s.rx.inn < |s.rx.buf| && s.tx.out < |s.tx.buf| }

  /** The routine takes a byte only when the ring has room and RVALID is set. */
  predicate IsrMayReceive(isr: Isr, rx: Rx) { isr.pc == IRx && !rx.Full() && rx.hw != [] }

  /** The routine sends a byte only into space it has seen, and only while the ring has data. */
  predicate IsrMayTransmit(isr: Isr, tx: Tx) { isr.pc == ITx && isr.space > 0 && !tx.Empty() }

  /** The interrupt routine's locals after its next step. */
  function IsrLocals(i: Isr, rx: Rx, tx: Tx): Isr {
    match i.pc
    case IIdle => i
    case IControl => i
    case IRx =>
      if IsrMayReceive(i, rx) then i.(ravail := |rx.hw| - 1)
      else i.(ravail := if rx.Full() then i.ravail else 0, pc := IRxEnd)
    case IRxEnd => i.(pc := if i.wi then ITx else IControl)
    case ITx => if IsrMayTransmit(i, tx) then i.(space := i.space - 1) else i.(pc := ITxEnd)
    case ITxEnd => i.(pc := IControl)
  }

  function IsrNext(s: Sys): Sys
    requires IsrSafe(s)
  {
    s.(rx := if IsrMayReceive(s.isr, s.rx) then IsrReceive(s.rx) else s.rx,
       tx := if IsrMayTransmit(s.isr, s.tx) then IsrTransmit(s.tx) else s.tx,
       re := s.re && !(s.isr.pc == IRxEnd && s.isr.ravail != 0),
       we := s.we && !(s.isr.pc == ITxEnd && s.isr.space > 0),
       isr := IsrLocals(s.isr, s.rx, s.tx))
  }

  // ---------------------------------------------------------------- host and timer

  function HostNext(s: Sys, a: Action): Sys {
    match a
    case HostSend(b) =>
      if |s.rx.hw| < FIFO_DEPTH then s.(rx := s.rx.(hw := s.rx.hw + [b], hostSent := s.rx.hostSent + [b])) else s
    case HostDrain =>
      if s.tx.hw != [] then s.(tx := s.tx.(hostGot := s.tx.hostGot + [s.tx.hw[0]], hw := s.tx.hw[1..])) else s
    case HostPoll => s.(ac := true)
    case TimerTick =>
      if !s.ThreadsRun() then s
      else if s.ac then s.(ac := false, hostInactive := 0)
      else if s.hostInactive < INT_MAX - 2 then s.(hostInactive := s.hostInactive + 1)
      else s
    case _ => s
  }

  /** What keeps every step inside the arrays it touches. */
  predicate Safe(s: Sys) { WriterSafe(s.w, s.tx) && ReaderSafe(s.r, s.rx) && IsrSafe(s) }

  /** One step of the system; an action that is not enabled leaves the state alone. */
  function Step(s: Sys, a: Action): Sys
    requires Safe(s)
  {
    match a
    case StartWrite(data, nonblock) => WriterStart(s, data, nonblock)
    case WriterStep => WriterNext(s)
    case StartRead(cap, nonblock) => ReaderStart(s, cap, nonblock)
    case ReaderStep => ReaderNext(s)
    case IsrEnter => if s.isr.pc == IIdle then s.(isr := s.isr.(pc := IControl)) else s
    case IsrControl(ri, wi) => IsrReadControl(s, ri, wi)
    case IsrStep => IsrNext(s)
    case _ => HostNext(s, a)
  }

  // ---------------------------------------------------------------- invariant

  /** The slot of a ring that the i-th byte of a stream uses. */
  function Slot(buf: seq<Byte>, i: nat): Byte
    requires |buf| == BUF_LEN
  {
    buf[i % BUF_LEN]
  }

  /** The ring holds exactly the accepted bytes not yet sent. Counting bytes from the start
      of time turns every index into a counter modulo the length. */
  ghost predicate TxInv(tx: Tx) {
    && |tx.buf| == BUF_LEN
    && |tx.hw| <= FIFO_DEPTH
    && tx.Sent() <= tx.accepted
    && |tx.accepted| - |tx.Sent()| <= BUF_LEN - 1
    && tx.out == |tx.Sent()| % BUF_LEN
    && tx.inn == |tx.accepted| % BUF_LEN
    && (forall i: nat :: |tx.Sent()| <= i < |tx.accepted| ==> Slot(tx.buf, i) == tx.accepted[i])
  }

  /** The ring holds exactly the bytes taken from the FIFO and not yet read. */
  ghost predicate RxInv(rx: Rx) {
    && |rx.buf| == BUF_LEN
    && |rx.hw| <= |rx.hostSent|
    && rx.hw == rx.hostSent[rx.Taken()..]
    && rx.delivered <= rx.hostSent
    && 0 <= rx.Taken() - |rx.delivered| <= BUF_LEN - 1
    && rx.out == |rx.delivered| % BUF_LEN
    && rx.inn == rx.Taken() % BUF_LEN
    && (forall i: nat :: |rx.delivered| <= i < rx.Taken() ==> Slot(rx.buf, i) == rx.hostSent[i])
  }

  /** The room seen through a stale `out` is really free, and holds the copied bytes. */
  ghost predicate CopyInv(w: Writer, tx: Tx) {
    && 0 < w.n && w.inn + w.n <= BUF_LEN == |tx.buf| && w.k <= w.n && w.done + w.n <= |w.data|
    && |tx.accepted| + w.n - |tx.Sent()| <= BUF_LEN - 1
    && tx.buf[w.inn..w.inn + w.k] == w.data[w.done..w.done + w.k]
  }

  ghost predicate WriterInv(w: Writer, tx: Tx) {
    && w.done <= |w.data|
    && w.base + w.done == |tx.accepted|
    && tx.accepted[w.base..] == w.data[..w.done]
    && ((w.pc == WReadOut || w.pc == WCopy) ==> w.inn == tx.inn && w.done < |w.data|)
    && (w.pc == WCopy ==> CopyInv(w, tx))
    && (w.pc != WTest && w.pc != WReadOut && w.pc != WCopy && w.done < |w.data| ==>
          // the ring was full when `out` was read
          && w.out == w.outAbs % BUF_LEN
          && w.outAbs <= |tx.Sent()|
          && |tx.accepted| == w.outAbs + BUF_LEN - 1)
    && (w.pc == WIdle && w != NO_WRITER ==>
          w.ret == CallResult(w.done, w.nonblock) && (w.done < |w.data| ==> w.nonblock || w.gaveUp))
    && (w.gaveUp ==> w.pc == WIdle)
    && ((w.pc == WCheck || w.gaveUp) ==>
          // the wait is left for a host that has gone, or for room
          w.gone || w.outAbs < |tx.Sent()|)
    && ((w.pc == WSpin || w.pc == WCheck || w.gaveUp || w.gone) ==> w.data != [])
    && ((w.pc == WSpin || w.pc == WCheck) ==> w.done < |w.data|)
  }

  /** The data seen through a stale `in` is really there, and the copied bytes are its first. */
  ghost predicate TakeInv(r: Reader, rx: Rx) {
    && 0 < r.n && r.out == rx.out && r.out + r.n <= BUF_LEN && r.k <= r.n && r.done + r.n <= r.cap
    && |rx.delivered| + r.n <= rx.Taken()
    && |r.buf| == r.done + r.k
    && |rx.delivered| + r.k <= |rx.hostSent|
    && r.buf[r.done..] == rx.hostSent[|rx.delivered|..|rx.delivered| + r.k]
  }

  ghost predicate ReaderInv(r: Reader, rx: Rx) {
    && r.done <= r.cap
    && r.base + r.done == |rx.delivered|
    && r.done <= |r.buf|
    && r.buf[..r.done] == rx.delivered[r.base..]
    && (if r.pc == RCopy then TakeInv(r, rx) else |r.buf| == r.done)
    && ((r.pc == RReadIn || r.pc == RReadOut) ==> r.done < r.cap)
    && ((r.pc == RReadOut || r.pc == RSpin || r.pc == RCheck) || (r.pc == RDecide && r.done == 0) ==>
          |rx.delivered| <= r.inAbs <= rx.Taken() && r.inn == r.inAbs % BUF_LEN)
    && ((r.pc == RDecide || r.pc == RFinish || r.pc == RIdle) && r.done < r.cap ==>
          // the ring was empty when `in` was last read
          r.inAbs == |rx.delivered|)
    && ((r.pc == RDecide && r.done == 0) || (r.pc == RSpin || r.pc == RCheck) ==>
          // the ring was empty when `in` was read
          r.inAbs == |rx.delivered| && r.done == 0 && r.cap > 0)
    && (r.pc == RCheck ==> r.gone || r.inAbs < rx.Taken())
    && ((r.pc == RFinish || (r.pc == RIdle && r != NO_READER)) && r.done == 0 ==> r.cap == 0 || r.nonblock || r.gone)
    && (r.gone ==> r.cap > 0)
    && (r.pc == RIdle && r != NO_READER ==> r.ret == CallResult(r.done, r.nonblock))
  }

  /** WE never stays clear over unsent data, except between a publish and its kick. */
  ghost predicate TxWake(tx: Tx, we: bool, w: Writer, isr: Isr) {
    && (!tx.Empty() ==> we || w.kickDue)
    && (w.kickDue ==> w.pc == WTest || w.pc == WReadOut || w.pc == WCopy || w.pc == WKick)
    && (isr.pc != IIdle && isr.pc != IControl ==> isr.space <= FIFO_DEPTH - |tx.hw|)
    && (isr.pc == ITxEnd && isr.space > 0 ==> tx.Empty())
  }

  /** RE is clear only while the ring is full, or a read has made room and will set it. */
  ghost predicate RxWake(rx: Rx, re: bool, r: Reader, isr: Isr) {
    && (!re ==> rx.Full() || r.enableDue)
    && (r.enableDue ==> r.done != 0)
    && (r.enableDue ==> r.pc == RReadIn || r.pc == RReadOut || r.pc == RCopy || r.pc == RDecide || r.pc == RFinish)
    && (isr.pc == IRxEnd && isr.ravail > 0 ==> rx.Full())
  }

  ghost predicate Inv(s: Sys) {
    TxInv(s.tx) && RxInv(s.rx) && WriterInv(s.w, s.tx) && ReaderInv(s.r, s.rx)
    && TxWake(s.tx, s.we, s.w, s.isr) && RxWake(s.rx, s.re, s.r, s.isr)
  }

  // ---------------------------------------------------------------- modular arithmetic

  /** Counters less than a ring apart have different indices. */
  lemma ModDistinct(a: nat, b: nat)
    requires a < b < a + BUF_LEN
    ensures a % BUF_LEN != b % BUF_LEN
  {
  }

  /** Inside a contiguous piece, indices move with the counter. */
  lemma ModOffset(a: nat, k: nat)
    requires a % BUF_LEN + k < BUF_LEN
    ensures (a + k) % BUF_LEN == a % BUF_LEN + k
  {
  }

  /** The k-th slot of a piece that starts at counter `a` is not the slot of counter `i`. */
  lemma OtherSlot(i: nat, a: nat, k: nat)
    requires a % BUF_LEN + k < BUF_LEN
    requires i < a + k < i + BUF_LEN || a + k < i < a + k + BUF_LEN
    ensures i % BUF_LEN != a % BUF_LEN + k
  {
    ModOffset(a, k);
    if i < a + k { ModDistinct(i, a + k); } else { ModDistinct(a + k, i); }
  }

  lemma ModAdd(a: nat, n: nat)
    ensures (a % BUF_LEN + n) % BUF_LEN == (a + n) % BUF_LEN
  {
  }

  /** The contiguous room computed from a snapshot never exceeds the free space. */
  lemma WriteRoomIsFree(accepted: nat, out: nat)
    requires 0 <= accepted - out <= BUF_LEN - 1
    ensures var n := WriteRoom(accepted % BUF_LEN, out % BUF_LEN);
            && 0 <= n <= BUF_LEN - 1 - (accepted - out)
            && accepted % BUF_LEN + n <= BUF_LEN
            && (n == 0 <==> accepted - out == BUF_LEN - 1)
  {
    var d := accepted - out;
    assert accepted % BUF_LEN ==
        (if out % BUF_LEN + d < BUF_LEN then out % BUF_LEN + d else out % BUF_LEN + d - BUF_LEN);
  }

  /** The contiguous data computed from a snapshot is there. */
  lemma ReadAvailIsThere(inn: nat, out: nat)
    requires 0 <= inn - out <= BUF_LEN - 1
    ensures var n := ReadAvail(inn % BUF_LEN, out % BUF_LEN);
            && 0 <= n <= inn - out
            && out % BUF_LEN + n <= BUF_LEN
            && (n == 0 <==> inn == out)
  {
    var d := inn - out;
    assert inn % BUF_LEN == (if out % BUF_LEN + d < BUF_LEN then out % BUF_LEN + d else out % BUF_LEN + d - BUF_LEN);
  }

  // ---------------------------------------------------------------- every step keeps the invariant

  lemma SnocSlice(s: seq<Byte>, i: nat, j: nat)
    requires i <= j < |s|
    ensures s[i..j + 1] == s[i..j] + [s[j]]
  {
  }

  lemma UpdateSlice(s: seq<Byte>, i: nat, j: nat, b: Byte)
    requires i <= j < |s|
    ensures s[j := b][i..j + 1] == s[i..j] + [b]
  {
  }

  lemma AppendSlice(s: seq<Byte>, i: nat, b: Byte)
    requires i <= |s|
    ensures (s + [b])[i..] == s[i..] + [b] && (s + [b])[..i] == s[..i]
  {
  }

  lemma WriterCopiesByte(w: Writer, tx: Tx)
    requires TxInv(tx) && WriterInv(w, tx) && w.pc == WCopy && w.k < w.n
    ensures TxInv(WriterCopy(w, tx)) && WriterInv(w.(k := w.k + 1), WriterCopy(w, tx))
  {
    var buf := WriterCopy(w, tx).buf;
    forall i: nat | |tx.Sent()| <= i < |tx.accepted| ensures Slot(buf, i) == Slot(tx.buf, i) {
      OtherSlot(i, |tx.accepted|, w.k);
    }
    UpdateSlice(tx.buf, w.inn, w.inn + w.k, w.data[w.done + w.k]);
    SnocSlice(w.data, w.done, w.done + w.k);
  }

  /** The slots just filled by the copy extend the claim of the ring to the new bytes. */
  lemma PublishedSlots(w: Writer, tx: Tx, chunk: seq<Byte>)
    requires TxInv(tx) && CopyInv(w, tx) && w.inn == tx.inn && w.k == w.n
    requires chunk == w.data[w.done..w.done + w.n]
    ensures forall i: nat :: |tx.Sent()| <= i < |tx.accepted + chunk| ==> Slot(tx.buf, i) == (tx.accepted + chunk)[i]
  {
    var a := |tx.accepted|;
    forall i: nat | |tx.Sent()| <= i < |tx.accepted + chunk| ensures Slot(tx.buf, i) == (tx.accepted + chunk)[i] {
      if i >= a {
        ModOffset(a, i - a);
        assert tx.buf[w.inn..w.inn + w.n][i - a] == chunk[i - a];
      } else {
        assert Slot(tx.buf, i) == tx.accepted[i];
      }
    }
  }

  lemma WriterPublishes(w: Writer, tx: Tx)
    requires TxInv(tx) && WriterInv(w, tx) && w.pc == WCopy && w.k == w.n
    ensures var tx' := WriterCopy(w, tx);
            TxInv(tx') && !tx'.Empty() && WriterInv(w.(done := w.done + w.n, kickDue := true, pc := WTest), tx')
  {
    var chunk := w.data[w.done..w.done + w.n];
    var accepted := tx.accepted + chunk;
    PublishedSlots(w, tx, chunk);
    ModAdd(|tx.accepted|, w.n);
    ModDistinct(|tx.Sent()|, |accepted|);
    assert accepted[w.base..] == tx.accepted[w.base..] + chunk;
    assert w.data[..w.done + w.n] == w.data[..w.done] + chunk;
  }

  lemma WriterReadsOut(w: Writer, tx: Tx)
    requires TxInv(tx) && WriterInv(w, tx) && w.pc == WReadOut
    ensures var n := WriteRoom(w.inn, tx.out);
            && 0 <= n <= BUF_LEN - 1 - (|tx.accepted| - |tx.Sent()|)
            && w.inn + n <= BUF_LEN
            && (n == 0 <==> |tx.accepted| - |tx.Sent()| == BUF_LEN - 1)
  {
    WriteRoomIsFree(|tx.accepted|, |tx.Sent()|);
  }

  lemma WriterLocalsKeep(w: Writer, tx: Tx, hostInactive: nat, timeout: nat)
    requires TxInv(tx) && WriterInv(w, tx) && w.pc != WCopy
    ensures WriterInv(WriterLocals(w, tx, hostInactive, timeout), tx)
  {
    if w.pc == WReadOut {
      WriterReadsOut(w, tx);
      assert tx.buf[w.inn..w.inn] == [] == w.data[w.done..w.done];
    }
  }

  lemma WriterKeepsRing(w: Writer, tx: Tx, hostInactive: nat, timeout: nat)
    requires TxInv(tx) && WriterInv(w, tx)
    ensures var tx' := if w.pc == WCopy then WriterCopy(w, tx) else tx;
            TxInv(tx') && WriterInv(WriterLocals(w, tx, hostInactive, timeout), tx')
  {
    if w.pc != WCopy {
      WriterLocalsKeep(w, tx, hostInactive, timeout);
    } else if w.k < w.n {
      WriterCopiesByte(w, tx);
    } else {
      WriterPublishes(w, tx);
    }
  }

  lemma WriterKeepsWake(s: Sys)
    requires WriterSafe(s.w, s.tx) && TxWake(s.tx, s.we, s.w, s.isr)
    ensures var t := WriterNext(s); TxWake(t.tx, t.we, t.w, t.isr)
  {
  }

  lemma WriterKeeps(s: Sys)
    requires Inv(s)
    ensures Inv(WriterNext(s))
  {
    WriterKeepsRing(s.w, s.tx, s.hostInactive, s.timeout);
    WriterKeepsWake(s);
  }

  lemma SlotTaken(rx: Rx, j: nat)
    requires RxInv(rx) && |rx.delivered| + j < rx.Taken() && rx.out + j < BUF_LEN
    ensures rx.buf[rx.out + j] == rx.hostSent[|rx.delivered| + j]
  {
    ModOffset(|rx.delivered|, j);
    assert Slot(rx.buf, |rx.delivered| + j) == rx.hostSent[|rx.delivered| + j];
  }

  lemma TakesOneMore(r: Reader, rx: Rx)
    requires RxInv(rx) && TakeInv(r, rx) && r.k < r.n
    ensures |rx.delivered| + r.k < |rx.hostSent|
    ensures var r' := r.(buf := r.buf + [rx.hostSent[|rx.delivered| + r.k]], k := r.k + 1);
            TakeInv(r', rx) && r'.buf[..r.done] == r.buf[..r.done]
  {
    var d := |rx.delivered|;
    AppendSlice(r.buf, r.done, rx.hostSent[d + r.k]);
    SnocSlice(rx.hostSent, d, d + r.k);
  }

  lemma ReaderCopiesByte(r: Reader, rx: Rx, hostInactive: nat, timeout: nat)
    requires RxInv(rx) && ReaderInv(r, rx) && r.pc == RCopy && r.k < r.n
    ensures ReaderCopy(r, rx) == rx && ReaderInv(ReaderLocals(r, rx, hostInactive, timeout), rx)
  {
    SlotTaken(rx, r.k);
    TakesOneMore(r, rx);
    assert ReaderLocals(r, rx, hostInactive, timeout)
        == r.(buf := r.buf + [rx.hostSent[|rx.delivered| + r.k]], k := r.k + 1);
  }

  /** The ring after a publish of `rx_out`: the slots just read are free. */
  lemma ReadSlotsFreed(r: Reader, rx: Rx)
    requires RxInv(rx) && TakeInv(r, rx) && r.k == r.n && r.done <= |r.buf|
    ensures var rx' := ReaderCopy(r, rx);
            RxInv(rx') && !rx'.Full() && rx'.delivered == rx.hostSent[..|rx.delivered| + r.n]
  {
    var d := |rx.delivered|;
    assert rx.delivered + r.buf[r.done..] == rx.hostSent[..d + r.n];
    ModAdd(d, r.n);
    FullWhenFilled(d + r.n, rx.Taken());
  }

  lemma ReaderPublishes(r: Reader, rx: Rx, hostInactive: nat, timeout: nat)
    requires RxInv(rx) && ReaderInv(r, rx) && r.pc == RCopy && r.k == r.n
    ensures RxInv(ReaderCopy(r, rx)) && ReaderInv(ReaderLocals(r, rx, hostInactive, timeout), ReaderCopy(r, rx))
  {
    ReadSlotsFreed(r, rx);
    var delivered := rx.delivered + r.buf[r.done..];
    assert r.buf == r.buf[..r.done] + r.buf[r.done..];
    assert delivered[r.base..] == rx.delivered[r.base..] + r.buf[r.done..];
  }

  /** A ring is full exactly when it holds one byte less than its length. */
  lemma FullWhenFilled(out: nat, inn: nat)
    requires 0 <= inn - out <= BUF_LEN - 1
    ensures (inn % BUF_LEN + 1) % BUF_LEN == out % BUF_LEN <==> inn - out == BUF_LEN - 1
  {
    if inn - out < BUF_LEN - 1 {
      ModDistinct(out, inn + 1);
    }
  }

  lemma ReaderReadsOut(r: Reader, rx: Rx)
    requires RxInv(rx) && ReaderInv(r, rx) && r.pc == RReadOut
    ensures var n := ReadAvail(r.inn, rx.out);
            && 0 <= n <= r.inAbs - |rx.delivered|
            && rx.out + n <= BUF_LEN
            && (n == 0 <==> r.inAbs == |rx.delivered|)
  {
    ReadAvailIsThere(r.inAbs, |rx.delivered|);
  }

  lemma ReaderLocalsKeep(r: Reader, rx: Rx, hostInactive: nat, timeout: nat)
    requires RxInv(rx) && ReaderInv(r, rx) && r.pc != RCopy
    ensures ReaderInv(ReaderLocals(r, rx, hostInactive, timeout), rx)
  {
    if r.pc == RReadOut { ReaderReadsOut(r, rx); }
    if (r.pc == RSpin || r.pc == RCheck) && r.inAbs < rx.Taken() { ModDistinct(r.inAbs, rx.Taken()); }
  }

  lemma ReaderKeepsRing(r: Reader, rx: Rx, hostInactive: nat, timeout: nat)
    requires RxInv(rx) && ReaderInv(r, rx)
    ensures var rx' := if r.pc == RCopy then ReaderCopy(r, rx) else rx;
            RxInv(rx') && ReaderInv(ReaderLocals(r, rx, hostInactive, timeout), rx')
  {
    if r.pc != RCopy {
      ReaderLocalsKeep(r, rx, hostInactive, timeout);
    } else if r.k < r.n {
      ReaderCopiesByte(r, rx, hostInactive, timeout);
    } else {
      ReaderPublishes(r, rx, hostInactive, timeout);
    }
  }

  lemma ReaderKeepsWake(s: Sys)
    requires ReaderSafe(s.r, s.rx) && RxWake(s.rx, s.re, s.r, s.isr)
    requires s.r.pc == RCopy ==> s.r.n > 0
    ensures var t := ReaderNext(s); RxWake(t.rx, t.re, t.r, t.isr)
  {
  }

  lemma ReaderKeeps(s: Sys)
    requires Inv(s)
    ensures Inv(ReaderNext(s))
  {
    ReaderKeepsRing(s.r, s.rx, s.hostInactive, s.timeout);
    ReaderKeepsWake(s);
  }

  lemma IsrReceives(r: Reader, rx: Rx)
    requires RxInv(rx) && ReaderInv(r, rx) && !rx.Full() && rx.hw != []
    ensures RxInv(IsrReceive(rx)) && ReaderInv(r, IsrReceive(rx))
  {
    var taken, rx' := rx.Taken(), IsrReceive(rx);
    assert rx'.Taken() == taken + 1;
    FullWhenFilled(|rx.delivered|, taken);
    ModAdd(taken, 1);
    forall i: nat | |rx.delivered| <= i < taken + 1 ensures Slot(rx'.buf, i) == rx.hostSent[i] {
      if i < taken {
        ModDistinct(i, taken);
        assert Slot(rx.buf, i) == rx.hostSent[i];
      }
    }
  }

  /** The byte that is transmitted is the first unsent one. */
  lemma SendsNext(tx: Tx)
    requires TxInv(tx) && !tx.Empty()
    ensures |tx.Sent()| < |tx.accepted| && IsrTransmit(tx).Sent() == tx.Sent() + [tx.accepted[|tx.Sent()|]]
    ensures (tx.out + 1) % BUF_LEN == (|tx.Sent()| + 1) % BUF_LEN
  {
    var n := |tx.Sent()|;
    assert n < |tx.accepted|;
    assert Slot(tx.buf, n) == tx.accepted[n];
    ModAdd(n, 1);
    assert IsrTransmit(tx).Sent() == tx.Sent() + [tx.accepted[n]];
  }

  lemma IsrTransmits(w: Writer, tx: Tx)
    requires TxInv(tx) && WriterInv(w, tx) && !tx.Empty() && |tx.hw| < FIFO_DEPTH
    ensures TxInv(IsrTransmit(tx)) && WriterInv(w, IsrTransmit(tx))
  {
    SendsNext(tx);
  }

  lemma IsrKeepsTx(s: Sys)
    requires TxInv(s.tx) && WriterInv(s.w, s.tx) && TxWake(s.tx, s.we, s.w, s.isr) && IsrSafe(s)
    ensures var t := IsrNext(s); TxInv(t.tx) && WriterInv(t.w, t.tx) && TxWake(t.tx, t.we, t.w, t.isr)
  {
    if IsrMayTransmit(s.isr, s.tx) { IsrTransmits(s.w, s.tx); }
  }

  lemma IsrKeepsRx(s: Sys)
    requires RxInv(s.rx) && ReaderInv(s.r, s.rx) && RxWake(s.rx, s.re, s.r, s.isr) && IsrSafe(s)
    ensures var t := IsrNext(s); RxInv(t.rx) && ReaderInv(t.r, t.rx) && RxWake(t.rx, t.re, t.r, t.isr)
  {
    if IsrMayReceive(s.isr, s.rx) { IsrReceives(s.r, s.rx); }
  }

  lemma IsrKeeps(s: Sys)
    requires Inv(s)
    ensures Inv(IsrNext(s))
  {
    IsrKeepsTx(s);
    IsrKeepsRx(s);
  }

  lemma HostSends(r: Reader, rx: Rx, b: Byte)
    requires RxInv(rx) && ReaderInv(r, rx)
    ensures var rx' := rx.(hw := rx.hw + [b], hostSent := rx.hostSent + [b]);
            rx'.Taken() == rx.Taken() && RxInv(rx') && ReaderInv(r, rx')
  {
    var rx' := rx.(hw := rx.hw + [b], hostSent := rx.hostSent + [b]);
    assert rx'.hw == rx'.hostSent[rx.Taken()..];
    if r.pc == RCopy {
      var d := |rx.delivered|;
      SliceStays(rx.hostSent, b, d, d + r.k);
    }
  }

  lemma SliceStays(s: seq<Byte>, b: Byte, i: nat, j: nat)
    requires i <= j <= |s|
    ensures (s + [b])[i..j] == s[i..j]
  {
  }

  lemma HostDrains(w: Writer, tx: Tx)
    requires TxInv(tx) && WriterInv(w, tx) && tx.hw != []
    ensures var tx' := tx.(hostGot := tx.hostGot + [tx.hw[0]], hw := tx.hw[1..]);
            tx'.Sent() == tx.Sent() && TxInv(tx') && WriterInv(w, tx')
  {
    var tx' := tx.(hostGot := tx.hostGot + [tx.hw[0]], hw := tx.hw[1..]);
    assert tx'.Sent() == tx.Sent();
  }

  lemma HostSendKeeps(s: Sys, b: Byte)
    requires Inv(s)
    ensures Inv(HostNext(s, HostSend(b)))
  {
    HostSends(s.r, s.rx, b);
    var t := HostNext(s, HostSend(b));
    assert t.rx.Full() == s.rx.Full() && t.tx == s.tx && t.w == s.w && t.isr == s.isr;
  }

  lemma HostDrainKeeps(s: Sys)
    requires Inv(s)
    ensures Inv(HostNext(s, HostDrain))
  {
    if s.tx.hw != [] {
      HostDrains(s.w, s.tx);
      var t := HostNext(s, HostDrain);
      assert t.rx == s.rx && t.r == s.r && t.w == s.w && t.isr == s.isr && t.tx.Empty() == s.tx.Empty();
    }
  }

  lemma HostKeeps(s: Sys, a: Action)
    requires Inv(s)
    ensures Inv(HostNext(s, a))
  {
    match a
    case HostSend(b) => HostSendKeeps(s, b);
    case HostDrain => HostDrainKeeps(s);
    case _ =>
  }

  lemma StartsKeep(s: Sys, a: Action)
    requires Inv(s) && (a.StartWrite? || a.StartRead?)
    ensures Inv(Step(s, a))
  {
  }

  lemma ControlKeeps(s: Sys, ri: bool, wi: bool)
    requires Inv(s)
    ensures Inv(IsrReadControl(s, ri, wi))
  {
  }

  lemma EnterKeeps(s: Sys)
    requires Inv(s)
    ensures Inv(Step(s, IsrEnter))
  {
  }

  /** Every step, of any agent, in any state that satisfies it, keeps the invariant. */
  lemma StepKeeps(s: Sys, a: Action)
    requires Inv(s)
    ensures Inv(Step(s, a))
  {
    match a
    case WriterStep => WriterKeeps(s);
    case ReaderStep => ReaderKeeps(s);
    case IsrStep => IsrKeeps(s);
    case StartWrite(_, _) => StartsKeep(s, a);
    case StartRead(_, _) => StartsKeep(s, a);
    case IsrEnter => EnterKeeps(s);
    case IsrControl(ri, wi) => ControlKeeps(s, ri, wi);
    case _ => HostKeeps(s, a);
  }

  /** A freshly initialised driver, whatever its rings hold and whatever its timeout. */
  ghost predicate Fresh(s: Sys) {
    |s.rx.buf| == |s.tx.buf| == BUF_LEN && s == Init(s.timeout, s.rx.buf, s.tx.buf)
  }

  /** The state after a whole run of the system. */
  function Run(s: Sys, acts: seq<Action>): Sys
    decreases |acts|
  {
    if acts == [] then s
    else
      Apply(Run(s, acts[..|acts| - 1]), acts[|acts| - 1])
  }

  /** Every run keeps the invariant; in particular every step of it is safe. */
  lemma {:induction false} RunKeeps(s: Sys, acts: seq<Action>)
    requires Inv(s)
    ensures Inv(Run(s, acts)) && Safe(Run(s, acts))
    decreases |acts|
  {
    if acts != [] {
      RunKeeps(s, acts[..|acts| - 1]);
      StepKeeps(Run(s, acts[..|acts| - 1]), acts[|acts| - 1]);
    }
  }

  /** A step where it is safe; runs only meet safe ones. */
  function Apply(s: Sys, a: Action): Sys { if Safe(s) then Step(s, a) else s }

  ghost predicate Then(t: Sys, a: Action, u: Sys) { u == Apply(t, a) }

  /** A path from state to state. */
  ghost predicate Path(states: seq<Sys>, acts: seq<Action>) {
    && |states| == |acts| + 1
    && forall i {:trigger acts[i]} :: 0 <= i < |acts| ==> Then(states[i], acts[i], states[i + 1])
  }

  /** A run written out state by state, from a fresh driver. */
  ghost predicate IsRun(states: seq<Sys>, acts: seq<Action>) { Path(states, acts) && Fresh(states[0]) }

  lemma {:induction false} PathIsRun(states: seq<Sys>, acts: seq<Action>)
    requires Path(states, acts)
    ensures states[|acts|] == Run(states[0], acts)
    decreases |acts|
  {
    if acts != [] {
      var n := |acts| - 1;
      PathIsRun(states[..|acts|], acts[..n]);
      assert Then(states[n], acts[n], states[n + 1]);
    }
  }

  lemma RunSnoc(s: Sys, acts: seq<Action>, a: Action)
    ensures Run(s, acts + [a]) == Apply(Run(s, acts), a)
  {
    assert (acts + [a])[..|acts|] == acts;
  }

  lemma RunOfStates(states: seq<Sys>, acts: seq<Action>)
    requires IsRun(states, acts)
    ensures states[|acts|] == Run(states[0], acts) && Inv(states[|acts|])
  {
    PathIsRun(states, acts);
    RunKeeps(states[0], acts);
  }

  // ---------------------------------------------------------------- main results, over every run

  lemma RingIsStream(buf: seq<Byte>, stream: seq<Byte>, from: nat, to: nat)
    requires |buf| == BUF_LEN && from <= to <= |stream| && to - from <= BUF_LEN - 1
    requires forall i: nat :: from <= i < to ==> Slot(buf, i) == stream[i]
    ensures Ring(buf, from % BUF_LEN, to % BUF_LEN) == stream[from..to]
  {
    var ring := Ring(buf, from % BUF_LEN, to % BUF_LEN);
    assert (to % BUF_LEN + BUF_LEN - from % BUF_LEN) % BUF_LEN == to - from;
    forall i | 0 <= i < to - from ensures ring[i] == stream[from..to][i] {
      ModAdd(from, i);
      assert Slot(buf, from + i) == stream[from + i];
    }
  }

  lemma TxConserved(tx: Tx)
    requires TxInv(tx)
    ensures tx.Sent() + Ring(tx.buf, tx.out, tx.inn) == tx.accepted
    ensures |Ring(tx.buf, tx.out, tx.inn)| <= BUF_LEN - 1
  {
    RingIsStream(tx.buf, tx.accepted, |tx.Sent()|, |tx.accepted|);
  }

  lemma RxConserved(rx: Rx)
    requires RxInv(rx)
    ensures rx.delivered + Ring(rx.buf, rx.out, rx.inn) + rx.hw == rx.hostSent
    ensures |Ring(rx.buf, rx.out, rx.inn)| <= BUF_LEN - 1
  {
    RingIsStream(rx.buf, rx.hostSent, |rx.delivered|, rx.Taken());
    assert rx.hostSent == rx.hostSent[..rx.Taken()] + rx.hostSent[rx.Taken()..];
  }

  /** Bytes got by the host, then the FIFO, then the ring, are all the bytes accepted by
      writes: in order, none lost, none duplicated. */
  lemma TransmitRefinesQueue(s: Sys, acts: seq<Action>)
    requires Fresh(s)
    ensures var tx := Run(s, acts).tx;
            && |tx.buf| == BUF_LEN
            && tx.hostGot + tx.hw + Ring(tx.buf, tx.out, tx.inn) == tx.accepted
            && |Ring(tx.buf, tx.out, tx.inn)| <= BUF_LEN - 1
            && |tx.hw| <= FIFO_DEPTH
  {
    RunKeeps(s, acts);
    TxConserved(Run(s, acts).tx);
  }

  /** Bytes returned by reads, then the ring, then the FIFO, are all the bytes the host sent. */
  lemma ReceiveRefinesQueue(s: Sys, acts: seq<Action>)
    requires Fresh(s)
    ensures var rx := Run(s, acts).rx;
            && |rx.buf| == BUF_LEN
            && rx.delivered + Ring(rx.buf, rx.out, rx.inn) + rx.hw == rx.hostSent
            && |Ring(rx.buf, rx.out, rx.inn)| <= BUF_LEN - 1
  {
    RunKeeps(s, acts);
    RxConserved(Run(s, acts).rx);
  }

  /** What a finished write has done: it returns the number of bytes it enqueued, which are the
      first of the caller's; it stops short only when it must not block or has met an inactive
      host, and then the ring was full when it last looked. */
  ghost predicate WriteDone(w: Writer, tx: Tx) {
    && w.base <= |tx.accepted|
    && var enqueued := tx.accepted[w.base..];
    && enqueued <= w.data
    && (w.ret > 0 ==> w.ret == |enqueued|)
    && (w.ret <= 0 ==> enqueued == [] && w.ret == (if w.nonblock then -EWOULDBLOCK else -EIO))
    && (enqueued != w.data ==> (w.nonblock || w.gaveUp) && |tx.accepted| == w.outAbs + BUF_LEN - 1)
  }

  /** What a finished read has done: it returns the number of bytes it put in the caller's
      buffer, and these are exactly the next bytes of the host's stream; it gets nothing only
      when it asked for nothing, must not block, or has met a host that counts as gone; and
      when it gets less than it asked for, it has got all that had been received when it last
      looked. */
  ghost predicate ReadDone(r: Reader, rx: Rx) {
    && |r.buf| <= r.cap
    && r.base + |r.buf| <= |rx.hostSent|
    && r.buf == rx.hostSent[r.base..r.base + |r.buf|]
    && (r.ret > 0 ==> r.ret == |r.buf|)
    && (r.ret <= 0 ==> r.buf == [] && r.ret == (if r.nonblock then -EWOULDBLOCK else -EIO))
    && (r.buf == [] ==> r.cap == 0 || r.nonblock || r.gone)
    && (|r.buf| < r.cap ==> r.base + |r.buf| == r.inAbs)
  }

  lemma WriteIsDone(w: Writer, tx: Tx)
    requires TxInv(tx) && WriterInv(w, tx) && w.pc == WIdle && w != NO_WRITER
    ensures WriteDone(w, tx)
  {
  }

  lemma ReadIsDone(r: Reader, rx: Rx)
    requires RxInv(rx) && ReaderInv(r, rx) && r.pc == RIdle && r != NO_READER
    ensures ReadDone(r, rx)
  {
    assert r.buf == r.buf[..r.done] == rx.delivered[r.base..];
  }

  lemma WriteReturnsItsCount(s: Sys, acts: seq<Action>)
    requires Fresh(s) && Run(s, acts).w.pc == WIdle && Run(s, acts).w != NO_WRITER
    ensures WriteDone(Run(s, acts).w, Run(s, acts).tx)
  {
    RunKeeps(s, acts);
    WriteIsDone(Run(s, acts).w, Run(s, acts).tx);
  }

  lemma ReadReturnsItsCount(s: Sys, acts: seq<Action>)
    requires Fresh(s) && Run(s, acts).r.pc == RIdle && Run(s, acts).r != NO_READER
    ensures ReadDone(Run(s, acts).r, Run(s, acts).rx)
  {
    RunKeeps(s, acts);
    ReadIsDone(Run(s, acts).r, Run(s, acts).rx);
  }

  /** Nothing written, sent, got or read is ever taken back. */
  predicate Extends(s: Sys, t: Sys) {
    && s.tx.accepted <= t.tx.accepted && s.tx.hostGot <= t.tx.hostGot
    && s.rx.hostSent <= t.rx.hostSent && s.rx.delivered <= t.rx.delivered
  }

  lemma TxExtends(s: Sys, a: Action)
    requires Safe(s)
    ensures s.tx.accepted <= Step(s, a).tx.accepted && s.tx.hostGot <= Step(s, a).tx.hostGot
  {
  }

  lemma RxExtends(s: Sys, a: Action)
    requires Safe(s)
    ensures s.rx.hostSent <= Step(s, a).rx.hostSent && s.rx.delivered <= Step(s, a).rx.delivered
  {
  }

  lemma StepExtends(s: Sys, a: Action)
    ensures Extends(s, Apply(s, a))
  {
    if Safe(s) {
      TxExtends(s, a);
      RxExtends(s, a);
    }
  }

  /** The queues only move forward: what a run has accepted, sent on, received or returned at
      any point is the beginning of what it has at the end. */
  lemma {:induction false} HistoriesGrow(s: Sys, acts: seq<Action>, n: nat)
    requires n <= |acts|
    ensures Extends(Run(s, acts[..n]), Run(s, acts))
    decreases |acts|
  {
    if n == |acts| {
      assert acts[..n] == acts;
    } else {
      var most := acts[..|acts| - 1];
      assert most[..n] == acts[..n];
      HistoriesGrow(s, most, n);
      StepExtends(Run(s, most), acts[|acts| - 1]);
    }
  }

  function Index(i: nat): nat { i % BUF_LEN }

  lemma FreeSlots(w: Writer, tx: Tx, i: nat)
    requires TxInv(tx) && CopyInv(w, tx) && w.inn == tx.inn
    requires |tx.Sent()| <= i < |tx.accepted|
    ensures !(w.inn <= Index(i) < w.inn + w.n)
  {
    if w.inn <= Index(i) < w.inn + w.n {
      OtherSlot(i, |tx.accepted|, Index(i) - w.inn);
    }
  }

  /** A stale `out` is safe: while a write copies, no slot it fills holds an unsent byte. */
  lemma WriteFillsFreeSlots(s: Sys, acts: seq<Action>)
    requires Fresh(s) && Run(s, acts).w.pc == WCopy
    ensures var (w, tx) := (Run(s, acts).w, Run(s, acts).tx);
            forall i: nat :: |tx.Sent()| <= i < |tx.accepted| ==> !(w.inn <= Index(i) < w.inn + w.n)
  {
    RunKeeps(s, acts);
    var (w, tx) := (Run(s, acts).w, Run(s, acts).tx);
    forall i: nat | |tx.Sent()| <= i < |tx.accepted| ensures !(w.inn <= Index(i) < w.inn + w.n) {
      FreeSlots(w, tx, i);
    }
  }

  lemma SlotBeingRead(r: Reader, rx: Rx, j: nat)
    requires RxInv(rx) && TakeInv(r, rx) && j < r.n
    ensures rx.buf[r.out + j] == rx.hostSent[|rx.delivered| + j]
    ensures rx.inn == r.out + j ==> rx.Full()
  {
    SlotTaken(rx, j);
    OtherSlot(rx.Taken(), |rx.delivered|, j);
  }

  /** The slots a read is copying hold the next bytes of the stream, and the slot the
      interrupt routine would fill next is not one of them. */
  ghost predicate Undisturbed(r: Reader, rx: Rx) {
    && r.out + r.n <= |rx.buf|
    && |rx.delivered| + r.n <= |rx.hostSent|
    && rx.buf[r.out..r.out + r.n] == rx.hostSent[|rx.delivered|..|rx.delivered| + r.n]
    && (!rx.Full() ==> !(r.out <= rx.inn < r.out + r.n))
  }

  lemma SlotsBeingRead(r: Reader, rx: Rx)
    requires RxInv(rx) && TakeInv(r, rx)
    ensures Undisturbed(r, rx)
  {
    var seen, next := rx.buf[r.out..r.out + r.n], rx.hostSent[|rx.delivered|..|rx.delivered| + r.n];
    forall j: nat | j < r.n ensures seen[j] == next[j] {
      SlotBeingRead(r, rx, j);
    }
    assert seen == next;
    if r.out <= rx.inn < r.out + r.n { SlotBeingRead(r, rx, rx.inn - r.out); }
  }

  /** A stale `in` is safe: no step disturbs the slots while a read copies them. */
  lemma ReadSlotsAreUndisturbed(s: Sys, acts: seq<Action>)
    requires Fresh(s) && Run(s, acts).r.pc == RCopy
    ensures Undisturbed(Run(s, acts).r, Run(s, acts).rx)
  {
    RunKeeps(s, acts);
    SlotsBeingRead(Run(s, acts).r, Run(s, acts).rx);
  }

  /** No lost wakeup. Unsent data means WE is set or a write is between its publish and its
      kick; RE clear means the ring is full or a read has made room and not yet set it. */
  lemma NoLostWakeup(s: Sys, acts: seq<Action>)
    requires Fresh(s)
    ensures var t := Run(s, acts);
            !t.tx.Empty() ==> t.we || (t.w.kickDue && t.w.pc != WIdle && t.w.pc != WDecide && t.w.pc != WSpin)
    ensures var t := Run(s, acts);
            !t.re ==> t.rx.Full() || (t.r.enableDue && t.r.pc != RIdle && t.r.pc != RTest && t.r.pc != RSpin)
  {
    RunKeeps(s, acts);
  }

  lemma EmptyIsDrained(tx: Tx)
    requires TxInv(tx) && tx.Empty()
    ensures tx.Sent() == tx.accepted
  {
    if |tx.Sent()| < |tx.accepted| { ModDistinct(|tx.Sent()|, |tx.accepted|); }
  }

  lemma DrainedOrFull(t: Sys)
    requires TxInv(t.tx) && RxInv(t.rx)
    requires t.tx.Empty() || |t.tx.hw| == FIFO_DEPTH
    requires t.rx.Full() || t.rx.hw == []
    ensures t.tx.hostGot + t.tx.hw == t.tx.accepted || |t.tx.hw| == FIFO_DEPTH
    ensures t.rx.hw == [] || |t.rx.hostSent| - |t.rx.hw| - |t.rx.delivered| == BUF_LEN - 1
  {
    if t.tx.Empty() { EmptyIsDrained(t.tx); }
    FullWhenFilled(|t.rx.delivered|, t.rx.Taken());
  }

  /** Hence, when no call is in progress and the device has no interrupt left to raise,
      unsent data waits only for FIFO room and unread host data only for ring room. */
  lemma NothingIsStranded(s: Sys, acts: seq<Action>)
    requires Fresh(s)
    requires var t := Run(s, acts);
             && t.w.pc == WIdle && t.r.pc == RIdle && t.isr.pc == IIdle
             && !(t.re && t.rx.hw != []) && !(t.we && |t.tx.hw| < FIFO_DEPTH)
    ensures var t := Run(s, acts);
            && (t.tx.hostGot + t.tx.hw == t.tx.accepted || |t.tx.hw| == FIFO_DEPTH)
            && (t.rx.hw == [] || |t.rx.hostSent| - |t.rx.hw| - |t.rx.delivered| == BUF_LEN - 1)
  {
    RunKeeps(s, acts);
    DrainedOrFull(Run(s, acts));
  }

  /** A blocked call waits on an index that wraps, yet leaves the wait exactly when the
      stream has moved: comparing the index with its snapshot misses nothing. */
  lemma SpinsSeeProgress(s: Sys, acts: seq<Action>)
    requires Fresh(s)
    ensures var (w, tx) := (Run(s, acts).w, Run(s, acts).tx);
            w.pc == WSpin && w.done < |w.data| ==> (w.out == tx.out <==> |tx.Sent()| == w.outAbs)
    ensures var (r, rx) := (Run(s, acts).r, Run(s, acts).rx);
            r.pc == RSpin ==> (r.inn == rx.inn <==> rx.Taken() == |rx.delivered|)
  {
    RunKeeps(s, acts);
    var (w, tx) := (Run(s, acts).w, Run(s, acts).tx);
    if w.pc == WSpin && w.done < |w.data| && |tx.Sent()| != w.outAbs {
      ModDistinct(w.outAbs, |tx.Sent()|);
    }
    var (r, rx) := (Run(s, acts).r, Run(s, acts).rx);
    if r.pc == RSpin && rx.Taken() != r.inAbs {
      ModDistinct(r.inAbs, rx.Taken());
    }
  }

  // ---------------------------------------------------------------- the interrupt routine's loops

  /** Free slots of the receive ring. */
  function RxRoom(rx: Rx): nat {
    var held := rx.Taken() - |rx.delivered|;
    if 0 <= held <= BUF_LEN - 1 then BUF_LEN - 1 - held else 0
  }

  /** A bound on the steps left before the routine reads the control register again. */
  function IsrWork(s: Sys): nat {
    var tx := if s.isr.wi then s.isr.space + 3 else 1;
    match s.isr.pc
    case IIdle => 0
    case IControl => 0
    case IRx => RxRoom(s.rx) + tx + 2
    case IRxEnd => tx + 1
    case ITx => s.isr.space + 2
    case ITxEnd => 1
  }

  lemma IsrWorkShrinks(t: Sys)
    requires TxInv(t.tx) && RxInv(t.rx) && t.isr.pc != IIdle && t.isr.pc != IControl
    ensures IsrSafe(t) && IsrWork(IsrNext(t)) < IsrWork(t)
  {
    FullWhenFilled(|t.rx.delivered|, t.rx.Taken());
    if IsrMayReceive(t.isr, t.rx) {
      assert IsrReceive(t.rx).Taken() == t.rx.Taken() + 1;
    }
  }

  lemma HostAddsNoWork(t: Sys, a: Action)
    requires RxInv(t.rx) && (a.HostSend? || a.HostDrain? || a.HostPoll?)
    ensures IsrWork(HostNext(t, a)) == IsrWork(t)
  {
    if a.HostSend? {
      assert HostNext(t, a).rx.Taken() == t.rx.Taken();
    }
  }

  /** Both inner loops end, on ring room or on FIFO room, however the host behaves: every
      step of the routine uses up work, and no action of the host adds any. */
  lemma IsrLoopsEnd(s: Sys, acts: seq<Action>, a: Action)
    requires Fresh(s) && Run(s, acts).isr.pc != IIdle && Run(s, acts).isr.pc != IControl
    ensures var t := Run(s, acts);
            && IsrSafe(t)
            && IsrWork(IsrNext(t)) < IsrWork(t) <= BUF_LEN + FIFO_DEPTH + 4
            && ((a.HostSend? || a.HostDrain? || a.HostPoll?) ==> IsrWork(HostNext(t, a)) == IsrWork(t))
  {
    RunKeeps(s, acts);
    IsrWorkShrinks(Run(s, acts));
    if a.HostSend? || a.HostDrain? || a.HostPoll? { HostAddsNoWork(Run(s, acts), a); }
  }

  // ---------------------------------------------------------------- when a call reports -EIO

  /** A finished write reports -EIO exactly when it is blocking, has enqueued nothing, and had
      no data or found the host inactive, for however short a time, after its wait. With data,
      the report is true of a host that counted as gone; if it did not, bytes had been sent
      while the call waited, and it gave up although there was room. */
  lemma WriteEioIff(s: Sys, acts: seq<Action>)
    requires Fresh(s) && Run(s, acts).w.pc == WIdle && Run(s, acts).w != NO_WRITER
    ensures var w := Run(s, acts).w;
            && (w.ret == -EIO <==> !w.nonblock && w.done == 0 && (w.data == [] || w.gaveUp))
            && (w.ret == -EIO && w.data != [] && !w.gone ==> w.outAbs < |Run(s, acts).tx.Sent()|)
            && (w.gone ==> w.data != [])
  {
    RunKeeps(s, acts);
  }

  /** A finished read reports -EIO exactly when it is blocking and has got nothing, and then the
      host counted as gone if and only if the caller had asked for any bytes. */
  lemma ReadEioIff(s: Sys, acts: seq<Action>)
    requires Fresh(s) && Run(s, acts).r.pc == RIdle && Run(s, acts).r != NO_READER
    ensures var r := Run(s, acts).r;
            && (r.ret == -EIO <==> !r.nonblock && r.done == 0)
            && (r.ret == -EIO ==> (r.gone <==> r.cap > 0))
  {
    RunKeeps(s, acts);
  }

  /** The host was inactive for less than `limit` at every moment of the run. */
  ghost predicate InactiveBelow(s: Sys, acts: seq<Action>, limit: nat) {
    forall n {:trigger acts[..n]} :: 0 <= n <= |acts| ==> Run(s, acts[..n]).hostInactive < limit
  }

  lemma TimeoutStays(s: Sys, a: Action)
    ensures Apply(s, a).timeout == s.timeout
  {
  }

  lemma WaitsWithHost(s: Sys, a: Action)
    requires s.hostInactive < s.timeout && !s.w.gone && !s.r.gone
    ensures !Apply(s, a).w.gone && !Apply(s, a).r.gone
  {
    if Safe(s) {
      match a {
        case WriterStep => assert !WriterLocals(s.w, s.tx, s.hostInactive, s.timeout).gone;
        case ReaderStep => assert !ReaderLocals(s.r, s.rx, s.hostInactive, s.timeout).gone;
        case _ =>
      }
    }
  }

  lemma ChecksWithHost(s: Sys, a: Action)
    requires s.hostInactive == 0 && !s.w.gaveUp
    ensures !Apply(s, a).w.gaveUp
  {
    if Safe(s) && a.WriterStep? {
      assert !WriterLocals(s.w, s.tx, s.hostInactive, s.timeout).gaveUp;
    }
  }

  lemma InactiveBelowPrefix(s: Sys, acts: seq<Action>, limit: nat)
    requires acts != [] && InactiveBelow(s, acts, limit)
    ensures InactiveBelow(s, acts[..|acts| - 1], limit) && Run(s, acts[..|acts| - 1]).hostInactive < limit
  {
    var most := acts[..|acts| - 1];
    forall n {:trigger most[..n]} | 0 <= n <= |most| ensures Run(s, most[..n]).hostInactive < limit {
      assert most[..n] == acts[..n];
    }
  }

  lemma {:induction false} NobodyGone(s: Sys, acts: seq<Action>)
    requires Fresh(s) && InactiveBelow(s, acts, s.timeout)
    ensures Run(s, acts).timeout == s.timeout && !Run(s, acts).w.gone && !Run(s, acts).r.gone
    decreases |acts|
  {
    if acts != [] {
      var most, a := acts[..|acts| - 1], acts[|acts| - 1];
      InactiveBelowPrefix(s, acts, s.timeout);
      NobodyGone(s, most);
      TimeoutStays(Run(s, most), a);
      WaitsWithHost(Run(s, most), a);
    }
  }

  lemma {:induction false} NobodyGivesUp(s: Sys, acts: seq<Action>)
    requires Fresh(s) && InactiveBelow(s, acts, 1)
    ensures !Run(s, acts).w.gaveUp
    decreases |acts|
  {
    if acts != [] {
      InactiveBelowPrefix(s, acts, 1);
      NobodyGivesUp(s, acts[..|acts| - 1]);
      ChecksWithHost(Run(s, acts[..|acts| - 1]), acts[|acts| - 1]);
    }
  }

  /** While the host is never inactive for the whole timeout, -EIO is reported to exactly the
      blocking reads that ask for nothing. */
  lemma ReadEioWithHost(s: Sys, acts: seq<Action>)
    requires Fresh(s) && InactiveBelow(s, acts, s.timeout)
    requires Run(s, acts).r.pc == RIdle && Run(s, acts).r != NO_READER
    ensures var r := Run(s, acts).r; r.ret == -EIO <==> !r.nonblock && r.cap == 0
  {
    RunKeeps(s, acts);
    ReadEioIff(s, acts);
    NobodyGone(s, acts);
  }

  /** For writes this takes a host that is never inactive when the timer looks. */
  lemma WriteEioWithHost(s: Sys, acts: seq<Action>)
    requires Fresh(s) && InactiveBelow(s, acts, 1)
    requires Run(s, acts).w.pc == WIdle && Run(s, acts).w != NO_WRITER
    ensures var w := Run(s, acts).w; w.ret == -EIO <==> !w.nonblock && w.data == []
  {
    RunKeeps(s, acts);
    WriteEioIff(s, acts);
    NobodyGivesUp(s, acts);
  }

  lemma RunOfThree(s: Sys, a: Action, b: Action, c: Action)
    ensures Run(s, [a, b, c]) == Apply(Apply(Apply(s, a), b), c)
  {
    assert [a] == [] + [a] && [a, b] == [a] + [b] && [a, b, c] == [a, b] + [c];
    RunSnoc(s, [], a);
    RunSnoc(s, [a], b);
    RunSnoc(s, [a, b], c);
  }

  /** A blocking write of no bytes to a new driver reports that the host has gone. */
  lemma EmptyWriteFails(s: Sys)
    requires Fresh(s)
    ensures var t := Run(s, [StartWrite([], false), WriterStep, WriterStep] + [WriterStep]);
            t.w.pc == WIdle && t.w.ret == -EIO && t.hostInactive == 0 && !t.w.gaveUp
  {
    RunOfThree(s, StartWrite([], false), WriterStep, WriterStep);
    RunSnoc(s, [StartWrite([], false), WriterStep, WriterStep], WriterStep);
    var t1 := Apply(s, StartWrite([], false));
    assert t1 == s.(w := NO_WRITER.(pc := WTest));
    var t2 := Apply(t1, WriterStep);
    assert t2 == s.(w := NO_WRITER.(pc := WKick));
    var t3 := Apply(t2, WriterStep);
    assert t3 == s.(w := NO_WRITER.(pc := WDecide), we := true);
  }

  /** And so does a blocking read of no bytes. */
  lemma EmptyReadFails(s: Sys)
    requires Fresh(s)
    ensures var t := Run(s, [StartRead(0, false), ReaderStep, ReaderStep]);
            t.r.pc == RIdle && t.r.ret == -EIO && t.hostInactive == 0 && !t.r.gone
  {
    RunOfThree(s, StartRead(0, false), ReaderStep, ReaderStep);
    var t1 := Apply(s, StartRead(0, false));
    assert t1 == s.(r := NO_READER.(pc := RTest));
    var t2 := Apply(t1, ReaderStep);
    assert t2 == s.(r := NO_READER.(pc := RFinish));
  }

  // ---------------------------------------------------------------- the whole interrupt routine

  /** Bytes that have been accepted and not been handed to the transmit FIFO. */
  function InRing(tx: Tx): nat {
    if |tx.Sent()| <= |tx.accepted| then |tx.accepted| - |tx.Sent()| else 0
  }

  /** What one pass of the routine uses up: ring room, ring data or an enable bit. */
  function IsrFuel(s: Sys): nat {
    RxRoom(s.rx) + InRing(s.tx) + (if s.re then 1 else 0) + (if s.we then 1 else 0)
  }

  /** The pass that is under way has still to use something up. */
  predicate PassPays(s: Sys) {
    var i := s.isr;
    || (i.pc == IRx && s.rx.hw != [] && !s.rx.Full())
    || (i.pc == IRx && s.rx.Full() && i.ravail > 0 && s.re)
    || (i.pc == IRxEnd && i.ravail > 0 && s.re)
    || ((((i.pc == IRx || i.pc == IRxEnd) && i.wi) || i.pc == ITx) && i.space > 0 && (!s.tx.Empty() || s.we))
    || (i.pc == ITxEnd && i.space > 0 && s.we)
  }

  function IsrRank(s: Sys): nat {
    if s.isr.pc == IIdle then 0
    else if s.isr.pc == IControl then 5000
    else if PassPays(s) then IsrWork(s)
    else 6000 + IsrWork(s)
  }

  /** A bound on the steps left before the routine returns. */
  function IsrDistance(s: Sys): nat { 10_000 * IsrFuel(s) + IsrRank(s) }

  lemma PassStepPays(t: Sys)
    requires Inv(t) && t.isr.pc != IIdle && t.isr.pc != IControl
    ensures IsrWork(t) < 3000
    ensures var u := IsrNext(t);
            IsrFuel(u) < IsrFuel(t) || (IsrFuel(u) == IsrFuel(t) && IsrRank(u) < IsrRank(t))
  {
    IsrWorkShrinks(t);
    FullWhenFilled(|t.rx.delivered|, t.rx.Taken());
    if IsrMayTransmit(t.isr, t.tx) { SendsNext(t.tx); }
  }

  lemma PassStepCounts(t: Sys)
    requires Inv(t) && t.isr.pc != IIdle && t.isr.pc != IControl
    ensures IsrDistance(IsrNext(t)) < IsrDistance(t)
  {
    PassStepPays(t);
    var u := IsrNext(t);
    if u.isr.pc != IIdle && u.isr.pc != IControl {
      IsrKeeps(t);
      PassStepPays(u);
    }
  }

  /** A pass is only entered for something to do. */
  lemma PassIsEntered(t: Sys, ri: bool, wi: bool)
    requires Inv(t) && t.isr.pc == IControl && (ri || wi)
    requires (ri ==> t.re && t.rx.hw != []) && (wi ==> t.we && |t.tx.hw| < FIFO_DEPTH)
    ensures var u := IsrReadControl(t, ri, wi);
            && u == t.(isr := u.isr) && (u.isr.pc == IRx || u.isr.pc == ITx)
            && IsrFuel(u) == IsrFuel(t) && IsrRank(u) < 3000
  {
    var u := IsrReadControl(t, ri, wi);
    ControlKeeps(t, ri, wi);
    PassStepPays(u);
    assert PassPays(u);
  }

  lemma ControlStepCounts(t: Sys, ri: bool, wi: bool)
    requires Inv(t) && IsrReadControl(t, ri, wi) != t
    ensures IsrDistance(IsrReadControl(t, ri, wi)) < IsrDistance(t)
  {
    if ri || wi { PassIsEntered(t, ri, wi); }
  }

  /** The whole routine ends, its outer loop included, however the host behaves: every step of
      it gets closer to the return, no action of the host takes it further away, and the
      distance has a fixed bound. */
  lemma IsrReturns(s: Sys, acts: seq<Action>, a: Action)
    requires Fresh(s) && Run(s, acts).isr.pc != IIdle
    ensures var t := Run(s, acts);
            && Safe(t)
            && IsrDistance(t) <= 10_000 * (2 * BUF_LEN) + 9000
            && ((a.IsrControl? || a.IsrStep?) && Step(t, a) != t ==> IsrDistance(Step(t, a)) < IsrDistance(t))
            && ((a.HostSend? || a.HostDrain? || a.HostPoll?) ==> IsrDistance(HostNext(t, a)) <= IsrDistance(t))
  {
    RunKeeps(s, acts);
    IsrStepCounts(Run(s, acts), a);
  }

  lemma IsrStepCounts(t: Sys, a: Action)
    requires Inv(t) && t.isr.pc != IIdle
    ensures IsrDistance(t) <= 10_000 * (2 * BUF_LEN) + 9000
    ensures (a.IsrControl? || a.IsrStep?) && Step(t, a) != t ==> IsrDistance(Step(t, a)) < IsrDistance(t)
    ensures (a.HostSend? || a.HostDrain? || a.HostPoll?) ==> IsrDistance(HostNext(t, a)) <= IsrDistance(t)
  {
    DistanceBound(t);
    if a.HostSend? || a.HostDrain? || a.HostPoll? {
      HostTakesNothingBack(t, a);
    } else if a.IsrControl? {
      if Step(t, a) != t { ControlStepCounts(t, a.ri, a.wi); }
    } else if a.IsrStep? && t.isr.pc != IControl {
      PassStepCounts(t);
    }
  }

  lemma DistanceBound(t: Sys)
    requires Inv(t)
    ensures IsrDistance(t) <= 10_000 * (2 * BUF_LEN) + 9000
  {
    if t.isr.pc != IIdle && t.isr.pc != IControl { PassStepPays(t); }
  }

  lemma SendKeepsFuel(t: Sys, b: Byte)
    requires Inv(t)
    ensures IsrFuel(HostNext(t, HostSend(b))) == IsrFuel(t) && RxRoom(HostNext(t, HostSend(b)).rx) == RxRoom(t.rx)
  {
    assert HostNext(t, HostSend(b)).rx.Taken() == t.rx.Taken();
  }

  lemma DrainKeepsFuel(t: Sys)
    requires Inv(t)
    ensures IsrFuel(HostNext(t, HostDrain)) == IsrFuel(t) && InRing(HostNext(t, HostDrain).tx) == InRing(t.tx)
  {
    if t.tx.hw != [] { assert HostNext(t, HostDrain).tx.Sent() == t.tx.Sent(); }
  }

  lemma HostKeepsFuel(t: Sys, a: Action)
    requires Inv(t) && (a.HostSend? || a.HostDrain? || a.HostPoll?)
    ensures IsrFuel(HostNext(t, a)) == IsrFuel(t) && RxRoom(HostNext(t, a).rx) == RxRoom(t.rx)
    ensures InRing(HostNext(t, a).tx) == InRing(t.tx)
  {
    if a.HostSend? {
      SendKeepsFuel(t, a.b);
    } else if a.HostDrain? {
      DrainKeepsFuel(t);
    }
  }

  lemma SendTakesNothingBack(t: Sys, b: Byte)
    requires Inv(t)
    ensures IsrDistance(HostNext(t, HostSend(b))) <= IsrDistance(t)
  {
    var u := HostNext(t, HostSend(b));
    HostAddsNoWork(t, HostSend(b));
    assert u.rx.Taken() == t.rx.Taken() && u.rx.Full() == t.rx.Full() && (t.rx.hw != [] ==> u.rx.hw != []);
    assert u.tx == t.tx && u.isr == t.isr && IsrFuel(u) == IsrFuel(t);
    assert PassPays(t) ==> PassPays(u);
  }

  lemma DrainTakesNothingBack(t: Sys)
    requires Inv(t)
    ensures IsrDistance(HostNext(t, HostDrain)) <= IsrDistance(t)
  {
    var u := HostNext(t, HostDrain);
    assert u.tx.Sent() == t.tx.Sent() && u.tx.Empty() == t.tx.Empty();
    assert u.rx == t.rx && u.isr == t.isr && IsrFuel(u) == IsrFuel(t) && IsrWork(u) == IsrWork(t);
  }

  lemma HostTakesNothingBack(t: Sys, a: Action)
    requires Inv(t) && (a.HostSend? || a.HostDrain? || a.HostPoll?)
    ensures IsrDistance(HostNext(t, a)) <= IsrDistance(t)
  {
    if a.HostSend? {
      SendTakesNothingBack(t, a.b);
    } else if a.HostDrain? {
      DrainTakesNothingBack(t);
    }
  }
}
