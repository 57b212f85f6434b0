/**
  The JTAG UART driver as the code is written: one object whose fields the interrupt
  routine and the two calls update in place. Every update is matched by a step of
  `UartSystem`, so the object's whole life is a run of that system and inherits what is
  proved there of every run.

  `Interfere` stands between any two accesses of a call to shared state: an arbitrary
  number of host actions, timer ticks and interrupts happens there.
*/
module JtagUart {
  import opened UartSystem

  datatype Outcome = Returned(ret: int) | StillWaiting

  /** The parts of a call that its copies leave alone. */
  predicate SameCall(w: Writer, v: Writer) {
    w.data == v.data && w.nonblock == v.nonblock && w.gaveUp == v.gaveUp && w.gone == v.gone
  }

  predicate SameRead(r: Reader, v: Reader) {
    r.cap == v.cap && r.nonblock == v.nonblock
  }

  /** Changing one place leaves what comes before a and from c on. */
  lemma SameAround(before: seq<Byte>, now: seq<Byte>, a: nat, at: nat, c: nat)
    requires a <= at < c <= |before| == |now|
    requires now[..at] == before[..at] && now[at + 1..] == before[at + 1..]
    ensures now[..a] == before[..a] && now[c..] == before[c..]
  {
    assert now[..a] == now[..at][..a];
    assert now[c..] == now[at + 1..][c - at - 1..] && before[c..] == before[at + 1..][c - at - 1..];
  }

  lemma JoinPieces(before: seq<Byte>, s: seq<Byte>, a: nat, b: nat, c: nat)
    requires a <= b <= c <= |s|
    ensures before + s[a..b] + s[b..c] == before + s[a..c]
  {
  }

  class Uart {
    // the state structure
    var rxIn: nat
    var rxOut: nat
    var txIn: nat
    var txOut: nat
    const rxBuf: array<Byte>
    const txBuf: array<Byte>
    var re: bool  // the two bits of irq_enable
    var we: bool
    var hostInactive: nat
    const timeout: nat

    // the device
    var hwRx: seq<Byte>
    var hwTx: seq<Byte>
    var ac: bool

    // the run of the step system that the object has gone through
    ghost var states: seq<Sys>
    ghost var acts: seq<Action>
    ghost var sys: Sys  // its last state

    ghost predicate Traced()
      reads this
    {
      IsRun(states, acts) && sys == states[|acts|]
    }

    ghost predicate Matches()
      reads this, rxBuf, txBuf
    {
      && rxBuf != txBuf
      && rxIn == sys.rx.inn && rxOut == sys.rx.out && rxBuf[..] == sys.rx.buf && hwRx == sys.rx.hw
      && txIn == sys.tx.inn && txOut == sys.tx.out && txBuf[..] == sys.tx.buf && hwTx == sys.tx.hw
      && re == sys.re && we == sys.we
      && hostInactive == sys.hostInactive && timeout == sys.timeout && ac == sys.ac
    }

    ghost predicate Valid()
      reads this, rxBuf, txBuf
    {
      Traced() && Matches()
    }

    /** Threads may run, and neither is touched by what has happened since. */
    twostate predicate ThreadsKept()
      reads this
    {
      sys.isr.pc == IIdle && CallsKept()
    }

    constructor (timeout: nat)
      ensures Valid() && acts == [] && Fresh(sys)
      ensures fresh(rxBuf) && fresh(txBuf)
    {
      var rxb, txb := new Byte[BUF_LEN], new Byte[BUF_LEN];
      this.timeout := timeout;
      rxBuf, txBuf := rxb, txb;
      rxIn, rxOut, txIn, txOut := 0, 0, 0, 0;
      re, we, hostInactive := true, false, 0;
      hwRx, hwTx, ac := [], [], false;
      sys := Init(timeout, rxb[..], txb[..]);
      states, acts := [Init(timeout, rxb[..], txb[..])], [];
    }

    /** Records one step of the system. */
    ghost method Advance(a: Action)
      requires Traced()
      modifies this`states, this`acts, this`sys
      ensures Traced() && acts == old(acts) + [a] && old(states) < states
      ensures old(Safe(sys)) && sys == Step(old(sys), a)
    {
      InvHolds();
      states, acts, sys := states + [Step(sys, a)], acts + [a], Step(sys, a);
      forall i | 0 <= i < |acts| ensures Then(states[i], acts[i], states[i + 1]) {
        if i < |acts| - 1 { assert acts[i] == old(acts[i]); }
      }
    }

    /** What the step system guarantees of every state it reaches. */
    lemma InvHolds()
      requires Traced()
      ensures Inv(sys)
    {
      RunOfStates(states, acts);
    }

    lemma InBounds()
      requires Traced()
      ensures IsrSafe(sys) && |sys.rx.buf| == |sys.tx.buf| == BUF_LEN
    {
      InvHolds();
    }

    // -------------------------------------------------------------- the host

    /** What the host can do at any moment, inside the interrupt routine too. */
    twostate predicate HostOnly()
      reads this
    {
      && sys == old(sys).(rx := sys.rx, tx := sys.tx, ac := sys.ac)
      && sys.rx == old(sys.rx).(hw := sys.rx.hw, hostSent := sys.rx.hostSent)
      && sys.tx == old(sys.tx).(hw := sys.tx.hw, hostGot := sys.tx.hostGot)
      && (old(sys.rx.hw) != [] ==> sys.rx.hw != []) && |sys.tx.hw| <= |old(sys.tx.hw)|
      && IsrFuel(sys) == IsrFuel(old(sys)) && RxRoom(sys.rx) == RxRoom(old(sys.rx))
          && InRing(sys.tx) == InRing(old(sys.tx))
    }

    /** The host sends a byte if the FIFO has room. */
    method HostSends(b: Byte)
      requires Valid()
      modifies this`hwRx, this`states, this`acts, this`sys
      ensures Valid() && HostOnly()
    {
      InvHolds();
      if |hwRx| < FIFO_DEPTH {
        HostKeepsFuel(sys, HostSend(b));
        hwRx := hwRx + [b];
        Advance(HostSend(b));
      }
    }

    /** The host takes a byte if there is one. */
    method HostTakes()
      requires Valid()
      modifies this`hwTx, this`states, this`acts, this`sys
      ensures Valid() && HostOnly()
    {
      InvHolds();
      if hwTx != [] {
        HostKeepsFuel(sys, HostDrain);
        hwTx := hwTx[1..];
        Advance(HostDrain);
      }
    }

    method HostPolls()
      requires Valid()
      modifies this`ac, this`states, this`acts, this`sys
      ensures Valid() && HostOnly()
    {
      ac := true;
      Advance(HostPoll);
    }

    /** Any number of host actions, in any order. */
    method HostActs()
      requires Valid()
      modifies this`hwRx, this`hwTx, this`ac, this`states, this`acts, this`sys
      ensures Valid() && HostOnly()
    {
      var k: nat :| 0 <= k;
      for turn := 0 to k
        invariant Valid() && HostOnly()
      {
        var what: nat :| what < 3;
        var b: Byte :| 0 <= b;
        match what
        case 0 => HostSends(b);
        case 1 => HostTakes();
        case _ => HostPolls();
      }
    }

    // -------------------------------------------------------------- interrupt routine

    /** What the interrupt routine leaves to the calls. */
    twostate predicate CallsKept()
      reads this
    {
      && sys.w == old(sys.w) && sys.r == old(sys.r)
      && sys.tx.accepted == old(sys.tx.accepted) && sys.rx.delivered == old(sys.rx.delivered)
      && sys.tx.inn == old(sys.tx.inn) && sys.rx.out == old(sys.rx.out)
      && InRing(sys.tx) <= InRing(old(sys.tx))
    }

    /** One turn of the receive loop. */
    method ReceiveByte() returns (ravail: nat)
      requires Valid() && IsrMayReceive(sys.isr, sys.rx)
      modifies this`rxIn, this`hwRx, this`states, this`acts, this`sys, rxBuf
      ensures Valid()
      ensures sys == old(sys).(rx := sys.rx, isr := old(sys.isr).(ravail := ravail))
      ensures sys.rx.delivered == old(sys.rx.delivered) && sys.rx.out == old(sys.rx.out)
      ensures ravail == |hwRx| == old(|hwRx|) - 1
      ensures RxRoom(sys.rx) < RxRoom(old(sys.rx))
    {
      InBounds();
      RoomShrinks();
      rxBuf[rxIn], hwRx := hwRx[0], hwRx[1..];
      rxIn, ravail := (rxIn + 1) % BUF_LEN, |hwRx|;
      Advance(IsrStep);
    }

    lemma RoomShrinks()
      requires Traced() && IsrMayReceive(sys.isr, sys.rx)
      ensures IsrSafe(sys) && RxRoom(IsrReceive(sys.rx)) < RxRoom(sys.rx)
    {
      InvHolds();
      FullWhenFilled(|sys.rx.delivered|, sys.rx.Taken());
      assert IsrReceive(sys.rx).Taken() == sys.rx.Taken() + 1;
    }

    /** What the receive loop touches: the calls, the enable bits and the transmit ring are
        left alone. */
    twostate predicate ReceivesOnly()
      reads this
    {
      && CallsKept() && sys.re == old(sys.re) && sys.we == old(sys.we)
      && InRing(sys.tx) == InRing(old(sys.tx)) && RxRoom(sys.rx) <= RxRoom(old(sys.rx))
    }

    /** One turn of the receive loop: it ends the loop with the ring full or the FIFO dry, or
        it receives a byte. */
    method ReceiveTurn(ravail0: nat) returns (ravail: nat, over: bool)
      requires Valid() && sys.isr.pc == IRx && sys.isr.ravail == ravail0 && (ravail0 > 0 ==> hwRx != [])
      modifies this`rxIn, this`hwRx, this`hwTx, this`ac, this`states, this`acts, this`sys, rxBuf
      ensures Valid() && ReceivesOnly() && sys.isr == old(sys.isr).(ravail := if over then ravail0 else ravail)
      ensures ravail > 0 ==> hwRx != []
      ensures over ==> if sys.rx.Full() then ravail == ravail0 else ravail == 0 && hwRx == []
      ensures !over || (ravail0 > 0 && ravail == 0) ==> RxRoom(sys.rx) < RxRoom(old(sys.rx))
    {
      ravail, over := ravail0, true;
      HostActs();
      var next := (rxIn + 1) % BUF_LEN;
      if next == rxOut {
        return;
      }
      if hwRx == [] {
        ravail := 0;
        return;
      }
      over := false;
      ravail := ReceiveByte();
    }

    /** The receive loop of the interrupt routine: until the ring is full or the FIFO is dry,
        whatever the host sends meanwhile. Unless the ring was full before, it uses room up. */
    method ReceiveAll() returns (ravail: nat)
      requires Valid() && sys.isr.pc == IRx && sys.isr.ravail == 1 && hwRx != []
      modifies this`rxIn, this`hwRx, this`hwTx, this`ac, this`states, this`acts, this`sys, rxBuf
      ensures Valid() && ReceivesOnly() && sys.isr == old(sys.isr).(pc := IRxEnd, ravail := ravail)
      ensures if ravail > 0 then sys.rx.Full() && hwRx != [] else sys.rx.Full() || hwRx == []
      ensures ravail == 0 ==> RxRoom(sys.rx) < RxRoom(old(sys.rx))
    {
      ravail := 1;
      var over := false;
      while !over
        invariant Valid() && ReceivesOnly()
                  && sys.isr == old(sys.isr).(ravail := if over && !sys.rx.Full() then sys.isr.ravail else ravail)
        invariant ravail > 0 ==> hwRx != []
        invariant over ==> sys.rx.Full() || (ravail == 0 && hwRx == [])
        invariant ravail == 0 ==> RxRoom(sys.rx) < RxRoom(old(sys.rx))
        decreases !over, RxRoom(sys.rx)
      {
        ravail, over := ReceiveTurn(ravail);
      }
      Advance(IsrStep);
    }

    /** What the transmit loop touches: the calls, the enable bits and the receive ring are
        left alone. */
    twostate predicate TransmitsOnly()
      reads this
    {
      CallsKept() && sys.re == old(sys.re) && sys.we == old(sys.we) && RxRoom(sys.rx) == RxRoom(old(sys.rx))
    }

    /** One turn of the transmit loop. */
    method TransmitByte()
      requires Valid() && sys.isr.pc == ITx && sys.isr.space > 0 && !sys.tx.Empty()
      modifies this`txOut, this`hwRx, this`hwTx, this`ac, this`states, this`acts, this`sys
      ensures Valid() && TransmitsOnly() && sys.isr == old(sys.isr).(space := old(sys.isr.space) - 1)
      ensures InRing(sys.tx) == InRing(old(sys.tx)) - 1
    {
      HostActs();
      FirstUnsent();
      hwTx := hwTx + [txBuf[txOut]];
      txOut := (txOut + 1) % BUF_LEN;
      Advance(IsrStep);
    }

    lemma FirstUnsent()
      requires Traced() && IsrMayTransmit(sys.isr, sys.tx)
      ensures IsrSafe(sys) && |sys.tx.buf| == BUF_LEN && InRing(IsrTransmit(sys.tx)) == InRing(sys.tx) - 1
    {
      InvHolds();
      SendsNext(sys.tx);
    }

    /** The transmit loop of the interrupt routine: until the ring is empty or the space is
        used, one byte for each unit of space. */
    method TransmitAll(space: nat) returns (left: nat)
      requires Valid() && sys.isr.pc == ITx && sys.isr.space == space
      modifies this`txOut, this`hwRx, this`hwTx, this`ac, this`states, this`acts, this`sys
      ensures Valid() && TransmitsOnly() && sys.isr == old(sys.isr).(pc := ITxEnd, space := left)
      ensures left > 0 ==> txOut == txIn
      ensures left <= space && InRing(sys.tx) == InRing(old(sys.tx)) - (space - left)
    {
      left := space;
      while left > 0 && txOut != txIn
        invariant Valid() && TransmitsOnly() && sys.isr == old(sys.isr).(space := left)
        invariant left <= space && InRing(sys.tx) == InRing(old(sys.tx)) - (space - left)
      {
        TransmitByte();
        left := left - 1;
      }
      Advance(IsrStep);
    }

    /** Turns RE off when data are left, that is, the ring is full. */
    method EndReceive(ravail: nat)
      requires Valid() && sys.isr.pc == IRxEnd && sys.isr.ravail == ravail
      modifies this`hwRx, this`hwTx, this`ac, this`re, this`states, this`acts, this`sys
      ensures Valid() && CallsKept() && sys.we == old(sys.we)
      ensures sys.isr == old(sys.isr).(pc := if old(sys.isr.wi) then ITx else IControl)
      ensures RxRoom(sys.rx) == RxRoom(old(sys.rx)) && InRing(sys.tx) == InRing(old(sys.tx))
      ensures sys.re == (old(sys.re) && ravail == 0)
    {
      HostActs();
      if ravail > 0 {
        re := false;
      }
      Advance(IsrStep);
    }

    /** The read half of a pass uses up ring room, or turns RE off. */
    method ServeReceive()
      requires Valid() && sys.isr.pc == IRx && sys.isr.ravail == 1 && hwRx != [] && re
      modifies this`rxIn, this`hwRx, this`hwTx, this`ac, this`re, this`states, this`acts, this`sys, rxBuf
      ensures Valid() && CallsKept() && sys.isr.pc == (if old(sys.isr.wi) then ITx else IControl)
      ensures sys.isr.space == old(sys.isr.space) && sys.isr.wi == old(sys.isr.wi) && sys.we == old(sys.we)
      ensures IsrFuel(sys) < IsrFuel(old(sys))
    {
      var ravail := ReceiveAll();
      EndReceive(ravail);
    }

    /** Turns WE off when there was room left, that is, no data. */
    method EndTransmit(left: nat)
      requires Valid() && sys.isr.pc == ITxEnd && sys.isr.space == left
      modifies this`hwRx, this`hwTx, this`ac, this`we, this`states, this`acts, this`sys
      ensures Valid() && CallsKept() && sys.isr.pc == IControl && sys.re == old(sys.re)
      ensures RxRoom(sys.rx) == RxRoom(old(sys.rx)) && InRing(sys.tx) == InRing(old(sys.tx))
      ensures sys.we == (old(sys.we) && left == 0)
    {
      HostActs();
      if left > 0 {
        we := false;
      }
      Advance(IsrStep);
    }

    /** The write half of a pass uses up ring data, or turns WE off. */
    method ServeTransmit(space: nat)
      requires Valid() && sys.isr.pc == ITx && sys.isr.space == space > 0 && we
      modifies this`txOut, this`hwRx, this`hwTx, this`ac, this`we, this`states, this`acts, this`sys
      ensures Valid() && CallsKept() && sys.isr.pc == IControl
      ensures IsrFuel(sys) < IsrFuel(old(sys))
    {
      var left := TransmitAll(space);
      EndTransmit(left);
    }

    /** One pass over the raised interrupts. */
    method Pass(ri: bool, wi: bool, space: nat)
      requires Valid() && sys.isr == Isr(if ri then IRx else ITx, wi, space, 1) && (ri || wi)
      requires (ri ==> re && hwRx != []) && (wi ==> we && space > 0)
      modifies this, rxBuf
      ensures Valid() && CallsKept() && sys.isr.pc == IControl
      ensures IsrFuel(sys) < IsrFuel(old(sys))
    {
      if ri {
        ServeReceive();
      }
      if wi {
        ServeTransmit(space);
      }
    }

    /** Reads the control register: which interrupts are raised, and the room in the FIFO. */
    method ReadControl() returns (ri: bool, wi: bool, space: nat)
      requires Valid() && sys.isr.pc == IControl
      modifies this`hwRx, this`hwTx, this`ac, this`states, this`acts, this`sys
      ensures Valid() && CallsKept() && IsrFuel(sys) == IsrFuel(old(sys))
      ensures ri == (re && hwRx != []) && wi == (we && |hwTx| < FIFO_DEPTH) && (wi ==> space > 0)
      ensures if ri || wi then sys.isr == Isr(if ri then IRx else ITx, wi, space, 1) else sys.isr.pc == IIdle
    {
      HostActs();
      ri, wi := re && hwRx != [], we && |hwTx| < FIFO_DEPTH;
      space := if |hwTx| < FIFO_DEPTH then FIFO_DEPTH - |hwTx| else 0;
      Advance(IsrControl(ri, wi));
    }

    /** The interrupt routine. It ends, whatever the host does, and when it reads the control
        register for the last time there is no interrupt left to serve. */
    method Irq()
      requires Valid() && sys.isr.pc == IIdle
      modifies this, rxBuf
      ensures Valid() && ThreadsKept()
      ensures !(re && hwRx != []) && !(we && |hwTx| < FIFO_DEPTH)
    {
      Advance(IsrEnter);
      while true
        invariant Valid() && CallsKept() && sys.isr.pc == IControl
        decreases IsrFuel(sys)
      {
        var ri, wi, space := ReadControl();
        if !ri && !wi {
          break;
        }
        Pass(ri, wi, space);
      }
    }

    // -------------------------------------------------------------- everything around the calls

    /** The one-second timer, which runs at interrupt level but not inside the routine. */
    method Timeout()
      requires Valid() && sys.isr.pc == IIdle
      modifies this`ac, this`hostInactive, this`states, this`acts, this`sys
      ensures Valid() && ThreadsKept()
      ensures hostInactive ==
              if old(ac) then 0
              else if old(hostInactive) < INT_MAX - 2 then old(hostInactive) + 1
              else old(hostInactive)
    {
      if ac {
        ac, hostInactive := false, 0;
      } else if hostInactive < INT_MAX - 2 {
        hostInactive := hostInactive + 1;
      }
      Advance(TimerTick);
    }

    /** Any number of host actions, timer ticks and interrupts, in any order. */
    method Interfere()
      requires Valid() && sys.isr.pc == IIdle
      modifies this, rxBuf
      ensures Valid() && ThreadsKept()
    {
      var k: nat :| 0 <= k;
      for turn := 0 to k
        invariant Valid() && ThreadsKept()
      {
        var what: nat :| what < 3;
        match what
        case 0 => Irq();
        case 1 => Timeout();
        case _ => HostActs();
      }
    }

    // -------------------------------------------------------------- write

    /** Copies `n` bytes to the free slots from `inn` on, one at a time, and publishes them. */
    method CopyIn(ptr: seq<Byte>, done: nat, inn: nat, n: nat)
      requires Valid() && sys.isr.pc == IIdle && sys.w.pc == WCopy
      requires sys.w.data == ptr && sys.w.done == done && sys.w.inn == inn && sys.w.n == n && sys.w.k == 0
      requires done + n <= |ptr|
      modifies this, rxBuf, txBuf
      ensures Valid() && sys.isr.pc == IIdle && sys.r == old(sys.r)
      ensures sys.w == old(sys.w).(pc := WTest, done := done + n, k := n, kickDue := true)
      ensures sys.tx.accepted == old(sys.tx.accepted) + ptr[done..done + n]
    {
      var k := 0;
      while k < n
        invariant Valid() && sys.isr.pc == IIdle && sys.r == old(sys.r)
        invariant k <= n && sys.w == old(sys.w).(k := k)
        invariant sys.tx.accepted == old(sys.tx.accepted)
      {
        CopyByteIn(ptr[done + k], inn + k);
        k := k + 1;
      }
      PublishTxIn((inn + n) % BUF_LEN);
    }

    method PublishTxIn(at: nat)
      requires Valid() && sys.isr.pc == IIdle && sys.w.pc == WCopy && sys.w.k == sys.w.n
      requires at == (sys.w.inn + sys.w.n) % BUF_LEN && sys.w.done + sys.w.n <= |sys.w.data|
      modifies this, rxBuf
      ensures Valid() && sys.isr.pc == IIdle && sys.r == old(sys.r)
      ensures sys.w == old(sys.w).(pc := WTest, done := old(sys.w.done + sys.w.n), kickDue := true)
      ensures sys.tx.accepted == old(sys.tx.accepted) + sys.w.data[old(sys.w.done)..sys.w.done]
    {
      Interfere();
      txIn := at;
      Advance(WriterStep);
    }

    method CopyByteIn(b: Byte, at: nat)
      requires Valid() && sys.isr.pc == IIdle && sys.w.pc == WCopy && sys.w.k < sys.w.n
      requires at == sys.w.inn + sys.w.k
      requires sys.w.done + sys.w.n <= |sys.w.data| && b == sys.w.data[sys.w.done + sys.w.k]
      modifies this, rxBuf, txBuf
      ensures Valid() && sys.isr.pc == IIdle && sys.r == old(sys.r)
      ensures sys.w == old(sys.w).(k := old(sys.w.k) + 1)
      ensures sys.tx.accepted == old(sys.tx.accepted)
    {
      Interfere();
      WriterInBounds();
      txBuf[at] := b;
      Advance(WriterStep);
    }

    lemma WriterInBounds()
      requires Traced() && sys.w.pc == WCopy
      ensures sys.w.inn + sys.w.n <= BUF_LEN == |sys.tx.buf| && 0 < sys.w.n
    {
      InvHolds();
    }

    lemma RoomIsNat()
      requires Traced() && sys.w.pc == WReadOut
      ensures 0 <= WriteRoom(sys.w.inn, sys.tx.out)
    {
      InvHolds();
      WriterReadsOut(sys.w, sys.tx);
    }

    /** Reads `tx_in`, at whatever moment that happens. */
    method LoadTxIn() returns (inn: nat)
      requires Valid() && sys.isr.pc == IIdle && sys.w.pc == WTest && sys.w.done < |sys.w.data|
      modifies this, rxBuf
      ensures Valid() && sys.isr.pc == IIdle && sys.r == old(sys.r)
      ensures sys.w == old(sys.w).(inn := inn, pc := WReadOut)
      ensures sys.tx.accepted == old(sys.tx.accepted)
    {
      Interfere();
      inn := txIn;
      Advance(WriterStep);
    }

    /** Reads `tx_out` and computes the room seen through that snapshot. */
    method LoadTxOut(inn: nat, count: nat) returns (out: nat, n: nat)
      requires Valid() && sys.isr.pc == IIdle && sys.w.pc == WReadOut && sys.w.inn == inn
      requires count == |sys.w.data| - sys.w.done > 0
      modifies this, rxBuf
      ensures Valid() && sys.isr.pc == IIdle && sys.r == old(sys.r)
      ensures n <= count && out == sys.w.out && sys.w.pc == if n == 0 then WKick else WCopy
      ensures n > 0 ==> sys.w.n == n && sys.w.k == 0
      ensures SameCall(sys.w, old(sys.w)) && sys.w.done == old(sys.w.done) && sys.w.inn == inn
      ensures sys.tx.accepted == old(sys.tx.accepted)
    {
      Interfere();
      out := txOut;
      RoomIsNat();
      n := Min(WriteRoom(inn, out), count);
      Advance(WriterStep);
    }

    /** Copies one contiguous piece, if the ring takes any. */
    method FillPiece(ptr: seq<Byte>, done: nat) returns (n: nat, out: nat)
      requires Valid() && sys.isr.pc == IIdle && sys.w.pc == WTest
      requires sys.w.data == ptr && sys.w.done == done < |ptr|
      modifies this, rxBuf, txBuf
      ensures Valid() && sys.isr.pc == IIdle && sys.r == old(sys.r)
      ensures done + n <= |ptr| && SameCall(sys.w, old(sys.w)) && sys.w.done == done + n
      ensures sys.w.pc == (if n == 0 then WKick else WTest) && (n == 0 ==> sys.w.out == out)
      ensures sys.tx.accepted == old(sys.tx.accepted) + ptr[done..done + n]
    {
      var inn := LoadTxIn();
      out, n := LoadTxOut(inn, |ptr| - done);
      if n != 0 {
        CopyIn(ptr, done, inn, n);
      }
    }

    /** Copies as much as the ring takes, piece by contiguous piece. */
    method Fill(ptr: seq<Byte>, done0: nat) returns (done: nat, out: nat)
      requires Valid() && sys.isr.pc == IIdle && sys.w.pc == WTest
      requires sys.w.data == ptr && sys.w.done == done0 <= |ptr|
      modifies this, rxBuf, txBuf
      ensures Valid() && sys.isr.pc == IIdle && sys.r == old(sys.r)
      ensures sys.w.pc == WKick && done0 <= done <= |ptr| && SameCall(sys.w, old(sys.w)) && sys.w.done == done
      ensures done < |ptr| ==> sys.w.out == out
      ensures sys.tx.accepted == old(sys.tx.accepted) + ptr[done0..done]
    {
      done, out := done0, 0;
      while done < |ptr|
        invariant Valid() && sys.isr.pc == IIdle && sys.r == old(sys.r)
        invariant sys.w.pc == WTest && done0 <= done <= |ptr| && SameCall(sys.w, old(sys.w)) && sys.w.done == done
        invariant sys.tx.accepted == old(sys.tx.accepted) + ptr[done0..done]
      {
        var n;
        n, out := FillPiece(ptr, done);
        if n == 0 {
          return;
        }
        JoinPieces(old(sys.tx.accepted), ptr, done0, done, done + n);
        done := done + n;
      }
      EndFill();
    }

    /** Finds that there is nothing left to copy. */
    ghost method EndFill()
      requires Valid() && sys.isr.pc == IIdle && sys.w.pc == WTest && sys.w.done == |sys.w.data|
      modifies this`states, this`acts, this`sys
      ensures Valid() && sys == old(sys).(w := old(sys.w).(pc := WKick))
    {
      Advance(WriterStep);
    }

    /** Sets WE, with interrupts off. */
    method Kick()
      requires Valid() && sys.isr.pc == IIdle && sys.w.pc == WKick
      modifies this, rxBuf
      ensures Valid() && sys.isr.pc == IIdle && sys.r == old(sys.r)
      ensures sys.tx.accepted == old(sys.tx.accepted)
      ensures sys.w == old(sys.w).(kickDue := false, pc := WDecide)
    {
      Interfere();
      we := true;
      Advance(WriterStep);
    }

    /** Looks whether the call is over. */
    method IsOver(count: nat, nonblock: bool) returns (over: bool)
      requires Valid() && sys.isr.pc == IIdle && sys.w.pc == WDecide
      requires sys.w.done + count == |sys.w.data| && nonblock == sys.w.nonblock
      modifies this, rxBuf
      ensures Valid() && sys.isr.pc == IIdle && sys.r == old(sys.r)
      ensures sys.tx.accepted == old(sys.tx.accepted)
      ensures over == (count == 0 || nonblock)
      ensures sys.w == if over then WriterReturn(old(sys.w)) else old(sys.w).(pc := WSpin)
    {
      Interfere();
      over := count == 0 || nonblock;
      Advance(WriterStep);
    }

    /** Looks whether the host has been inactive. */
    method HostIsInactive() returns (inactive: bool)
      requires Valid() && sys.isr.pc == IIdle && sys.w.pc == WCheck
      modifies this, rxBuf
      ensures Valid() && sys.isr.pc == IIdle && sys.r == old(sys.r)
      ensures sys.tx.accepted == old(sys.tx.accepted)
      ensures sys.w == if inactive then WriterReturn(old(sys.w)).(gaveUp := true) else old(sys.w).(pc := WTest)
    {
      Interfere();
      inactive := hostInactive != 0;
      Advance(WriterStep);
    }

    /** One look at `tx_out` and at the host. */
    method LookForRoom(out: nat) returns (leave: bool)
      requires Valid() && sys.isr.pc == IIdle && sys.w.pc == WSpin && sys.w.out == out
      modifies this, rxBuf
      ensures Valid() && sys.isr.pc == IIdle && sys.r == old(sys.r) && sys.tx.accepted == old(sys.tx.accepted)
      ensures leave == (out != txOut || hostInactive >= timeout)
      ensures sys.w == if leave then old(sys.w).(pc := WCheck, gone := hostInactive >= timeout) else old(sys.w)
    {
      Interfere();
      leave := !(out == txOut && hostInactive < timeout);
      Advance(WriterStep);
    }

    /** Spins until the interrupt routine has sent something or the host counts as gone;
        gives up after `polls` looks, which the code never does. */
    method AwaitRoom(out: nat, polls: nat) returns (left: nat, waiting: bool)
      requires Valid() && sys.isr.pc == IIdle && sys.w.pc == WSpin && sys.w.out == out
      modifies this, rxBuf
      ensures Valid() && sys.isr.pc == IIdle && sys.r == old(sys.r) && sys.tx.accepted == old(sys.tx.accepted)
      ensures if waiting then sys.w == old(sys.w)
              else sys.w == old(sys.w).(pc := WCheck, gone := hostInactive >= timeout)
      ensures !waiting ==> out != txOut || hostInactive >= timeout
      ensures waiting && polls > 0 ==> out == txOut && hostInactive < timeout
      ensures left <= polls && (!waiting ==> left < polls)
    {
      left, waiting := polls, true;
      while left > 0
        invariant Valid() && sys.isr.pc == IIdle && sys.r == old(sys.r) && sys.w == old(sys.w)
        invariant left <= polls && waiting && sys.tx.accepted == old(sys.tx.accepted)
        invariant left < polls ==> out == txOut && hostInactive < timeout
      {
        left := left - 1;
        var leave := LookForRoom(out);
        if leave {
          waiting := false;
          break;
        }
      }
    }

    /** One turn of the outer loop of `write`, up to where it may have to wait. */
    method FillAndKick(ptr: seq<Byte>, done0: nat, nonblock: bool) returns (done: nat, out: nat, over: bool)
      requires Valid() && sys.isr.pc == IIdle && sys.w.pc == WTest && done0 <= |ptr|
      requires sys.w.data == ptr && sys.w.done == done0 && sys.w.nonblock == nonblock
      modifies this, rxBuf, txBuf
      ensures Valid() && sys.isr.pc == IIdle && sys.r == old(sys.r)
      ensures done0 <= done <= |ptr| && over == (done == |ptr| || nonblock)
      ensures SameCall(sys.w, old(sys.w)) && sys.w.done == done && (!over ==> sys.w.out == out)
      ensures sys.w.pc == (if over then WIdle else WSpin) && (over ==> sys.w.ret == CallResult(done, nonblock))
      ensures sys.tx.accepted == old(sys.tx.accepted) + ptr[done0..done]
    {
      done, out := Fill(ptr, done0);
      Kick();
      over := IsOver(|ptr| - done, nonblock);
    }

    /** `write`: what has been enqueued when it returns is what it reports, whatever the
        interrupt routine, the timer and the host did meanwhile. */
    method Write(ptr: seq<Byte>, nonblock: bool, polls: nat) returns (r: Outcome)
      requires Valid() && sys.isr.pc == IIdle && sys.w.pc == WIdle
      modifies this, rxBuf, txBuf
      ensures Valid() && sys.isr.pc == IIdle && sys.r == old(sys.r)
      ensures sys.w.done <= |ptr| && sys.tx.accepted == old(sys.tx.accepted) + ptr[..sys.w.done]
      ensures r.Returned? ==>
        && sys.w.pc == WIdle
        && r.ret == CallResult(sys.w.done, nonblock)
        && (sys.w.done == |ptr| || nonblock || sys.w.gaveUp)
      ensures r.StillWaiting? ==> !nonblock && sys.w.pc == WSpin && sys.w.done < |ptr|
    {
      Advance(StartWrite(ptr, nonblock));
      var done, budget := 0, polls;
      while true
        invariant Valid() && sys.isr.pc == IIdle && sys.r == old(sys.r)
        invariant sys.w.pc == WTest && sys.w.data == ptr && sys.w.nonblock == nonblock && !sys.w.gaveUp
        invariant done <= |ptr| && sys.w.done == done
        invariant sys.tx.accepted == old(sys.tx.accepted) + ptr[..done]
        decreases budget
      {
        ghost var done0 := done;
        var out, over;
        done, out, over := FillAndKick(ptr, done, nonblock);
        JoinPieces(old(sys.tx.accepted), ptr, 0, done0, done);
        if over {
          return Returned(if done != 0 then done else if nonblock then -EWOULDBLOCK else -EIO);
        }
        var waiting;
        budget, waiting := AwaitRoom(out, budget);
        if waiting {
          return StillWaiting;
        }
        var inactive := HostIsInactive();
        if inactive {
          return Returned(if done != 0 then done else -EIO);
        }
      }
    }

    // -------------------------------------------------------------- read

    /** Reads `rx_in`, at whatever moment that happens. */
    method LoadRxIn() returns (inn: nat)
      requires Valid() && sys.isr.pc == IIdle && sys.r.pc == RReadIn
      modifies this, rxBuf
      ensures Valid() && sys.isr.pc == IIdle && sys.w == old(sys.w)
      ensures sys.r == old(sys.r).(inn := inn, inAbs := sys.r.inAbs, pc := RReadOut)
      ensures sys.rx.delivered == old(sys.rx.delivered)
    {
      Interfere();
      inn := rxIn;
      Advance(ReaderStep);
    }

    /** Reads `rx_out` and computes the data seen through the snapshot of `rx_in`. */
    method LoadRxOut(inn: nat, space: nat) returns (out: nat, n: nat)
      requires Valid() && sys.isr.pc == IIdle && sys.r.pc == RReadOut && sys.r.inn == inn
      requires sys.r.done <= sys.r.cap && space == sys.r.cap - sys.r.done > 0
      modifies this, rxBuf
      ensures Valid() && sys.isr.pc == IIdle && sys.w == old(sys.w)
      ensures n <= space && sys.r.pc == if n == 0 then RDecide else RCopy
      ensures sys.r.inn == inn && sys.r.out == out
      ensures n > 0 ==> sys.r.n == n && sys.r.k == 0
      ensures SameRead(sys.r, old(sys.r)) && sys.r.done == old(sys.r.done) && sys.r.buf == old(sys.r.buf)
      ensures sys.rx.delivered == old(sys.rx.delivered)
    {
      Interfere();
      out := rxOut;
      AvailIsNat();
      n := Min(ReadAvail(inn, out), space);
      Advance(ReaderStep);
    }

    lemma AvailIsNat()
      requires Traced() && sys.r.pc == RReadOut
      ensures 0 <= ReadAvail(sys.r.inn, sys.rx.out)
    {
      InvHolds();
      ReaderReadsOut(sys.r, sys.rx);
    }

    lemma ReaderInBounds()
      requires Traced() && sys.r.pc == RCopy
      ensures sys.r.out + sys.r.n <= BUF_LEN == |sys.rx.buf| && 0 < sys.r.n
              && sys.r.done <= sys.r.done + sys.r.k == |sys.r.buf|
    {
      InvHolds();
    }

    method CopyByteOut(buffer: array<Byte>, to: nat, at: nat)
      requires Valid() && sys.isr.pc == IIdle && sys.r.pc == RCopy && sys.r.k < sys.r.n
      requires buffer != rxBuf && buffer != txBuf && to < buffer.Length && to == sys.r.done + sys.r.k
      requires at == sys.r.out + sys.r.k && sys.r.buf == buffer[..to]
      modifies this, rxBuf, buffer
      ensures Valid() && sys.isr.pc == IIdle && sys.w == old(sys.w)
      ensures sys.r == old(sys.r).(buf := buffer[..to + 1], k := old(sys.r.k) + 1)
      ensures sys.rx.delivered == old(sys.rx.delivered)
      ensures buffer[..to] == old(buffer[..to]) && buffer[to + 1..] == old(buffer[to + 1..])
    {
      Interfere();
      ReaderInBounds();
      buffer[to] := rxBuf[at];
      Advance(ReaderStep);
      assert buffer[..to] == old(buffer[..to]);
      assert buffer[..to + 1] == buffer[..to] + [buffer[to]];
    }

    method PublishRxOut(at: nat)
      requires Valid() && sys.isr.pc == IIdle && sys.r.pc == RCopy && sys.r.k == sys.r.n
      requires at == (sys.r.out + sys.r.n) % BUF_LEN
      modifies this, rxBuf
      ensures Valid() && sys.isr.pc == IIdle && sys.w == old(sys.w)
      ensures old(sys.r.done) <= |sys.r.buf|
      ensures sys.r == old(sys.r).(done := old(sys.r.done + sys.r.n), enableDue := true,
                                   pc := if old(sys.r.done + sys.r.n) < sys.r.cap then RReadIn else RDecide)
      ensures sys.rx.delivered == old(sys.rx.delivered) + sys.r.buf[old(sys.r.done)..]
    {
      Interfere();
      ReaderInBounds();
      rxOut := at;
      Advance(ReaderStep);
    }

    /** Copies `n` bytes out of the slots from `out` on, one at a time, and frees the slots. */
    method CopyOut(buffer: array<Byte>, done: nat, out: nat, n: nat)
      requires Valid() && sys.isr.pc == IIdle && sys.r.pc == RCopy
      requires buffer != rxBuf && buffer != txBuf && done + n <= buffer.Length == sys.r.cap
      requires sys.r.done == done && sys.r.out == out && sys.r.n == n && sys.r.k == 0 && sys.r.buf == buffer[..done]
      modifies this, rxBuf, buffer
      ensures Valid() && sys.isr.pc == IIdle && sys.w == old(sys.w)
      ensures sys.r == old(sys.r).(buf := buffer[..done + n], k := n, done := done + n, enableDue := true,
                                   pc := if done + n < sys.r.cap then RReadIn else RDecide)
      ensures sys.rx.delivered == old(sys.rx.delivered) + buffer[done..done + n]
      ensures buffer[..done] == old(buffer[..done]) && buffer[done + n..] == old(buffer[done + n..])
    {
      var k := 0;
      while k < n
        invariant Valid() && sys.isr.pc == IIdle && sys.w == old(sys.w)
        invariant k <= n && sys.r == old(sys.r).(buf := buffer[..done + k], k := k)
        invariant sys.rx.delivered == old(sys.rx.delivered)
        invariant buffer[..done] == old(buffer[..done]) && buffer[done + n..] == old(buffer[done + n..])
      {
        ghost var before := buffer[..];
        CopyByteOut(buffer, done + k, out + k);
        SameAround(before, buffer[..], done, done + k, done + n);
        k := k + 1;
      }
      PublishRxOut((out + n) % BUF_LEN);
    }

    /** What reads have returned is always a prefix of what the host has sent. */
    lemma DeliveredIsPrefix()
      requires Valid()
      ensures sys.rx.delivered <= sys.rx.hostSent
    {
      InvHolds();
    }

    /** Copies out as much as the ring has and the buffer takes, piece by contiguous piece. */
    method Drain(buffer: array<Byte>) returns (done: nat, inn: nat)
      requires Valid() && sys.isr.pc == IIdle && sys.r.pc == RReadIn
      requires buffer != rxBuf && buffer != txBuf && 0 < buffer.Length == sys.r.cap
      requires sys.r.done == 0 && sys.r.buf == []
      modifies this, rxBuf, buffer
      ensures Valid() && sys.isr.pc == IIdle && sys.w == old(sys.w)
      ensures sys.r.pc == RDecide && sys.r.cap == buffer.Length && sys.r.nonblock == old(sys.r.nonblock)
      ensures sys.r.done == done <= buffer.Length && sys.r.buf == buffer[..done] && sys.r.inn == inn
      ensures sys.rx.delivered == old(sys.rx.delivered) + buffer[..done]
      ensures buffer[done..] == old(buffer[..])[done..]
    {
      done := 0;
      while true
        invariant Valid() && sys.isr.pc == IIdle && sys.w == old(sys.w)
        invariant sys.r.pc == RReadIn && sys.r.cap == buffer.Length && sys.r.nonblock == old(sys.r.nonblock)
        invariant sys.r.done == done < buffer.Length && sys.r.buf == buffer[..done]
        invariant sys.rx.delivered == old(sys.rx.delivered) + buffer[..done]
        invariant buffer[done..] == old(buffer[..])[done..]
        decreases buffer.Length - done
      {
        inn := LoadRxIn();
        var out, n := LoadRxOut(inn, buffer.Length - done);
        if n == 0 {
          return;
        }
        CopyOut(buffer, done, out, n);
        JoinPieces(old(sys.rx.delivered), buffer[..], 0, done, done + n);
        done := done + n;
        if done == buffer.Length {
          return;
        }
      }
    }

    /** One look at `rx_in` and at the host. */
    method LookForData(inn: nat) returns (leave: bool)
      requires Valid() && sys.isr.pc == IIdle && sys.r.pc == RSpin && sys.r.inn == inn
      modifies this, rxBuf
      ensures Valid() && sys.isr.pc == IIdle && sys.w == old(sys.w) && sys.rx.delivered == old(sys.rx.delivered)
      ensures leave == (inn != rxIn || hostInactive >= timeout)
      ensures sys.r == if leave then old(sys.r).(pc := RCheck, gone := hostInactive >= timeout) else old(sys.r)
    {
      Interfere();
      leave := !(inn == rxIn && hostInactive < timeout);
      Advance(ReaderStep);
    }

    /** Spins until the interrupt routine has received something or the host counts as gone;
        gives up after `polls` looks, which the code never does. */
    method AwaitData(inn: nat, polls: nat) returns (left: nat, waiting: bool)
      requires Valid() && sys.isr.pc == IIdle && sys.r.pc == RSpin && sys.r.inn == inn
      modifies this, rxBuf
      ensures Valid() && sys.isr.pc == IIdle && sys.w == old(sys.w) && sys.rx.delivered == old(sys.rx.delivered)
      ensures if waiting then sys.r == old(sys.r)
              else sys.r == old(sys.r).(pc := RCheck, gone := hostInactive >= timeout)
      ensures !waiting ==> inn != rxIn || hostInactive >= timeout
      ensures waiting && polls > 0 ==> inn == rxIn && hostInactive < timeout
      ensures left <= polls && (!waiting ==> left < polls)
    {
      left, waiting := polls, true;
      while left > 0
        invariant Valid() && sys.isr.pc == IIdle && sys.r == old(sys.r) && sys.w == old(sys.w)
        invariant left <= polls && waiting && sys.rx.delivered == old(sys.rx.delivered)
        invariant left < polls ==> inn == rxIn && hostInactive < timeout
      {
        left := left - 1;
        var leave := LookForData(inn);
        if leave {
          waiting := false;
          break;
        }
      }
    }

    /** After a wait: is there still nothing new? */
    method StillEmpty(inn: nat) returns (same: bool)
      requires Valid() && sys.isr.pc == IIdle && sys.r.pc == RCheck && sys.r.inn == inn
      modifies this, rxBuf
      ensures Valid() && sys.isr.pc == IIdle && sys.w == old(sys.w)
      ensures sys.r == old(sys.r).(pc := if same then RFinish else RTest)
      ensures sys.rx.delivered == old(sys.rx.delivered)
    {
      Interfere();
      same := inn == rxIn;
      Advance(ReaderStep);
    }

    /** Sets RE, with interrupts off, when the call has made room; the call returns. */
    method Finish(done: nat, nonblock: bool) returns (ret: int)
      requires Valid() && sys.isr.pc == IIdle && sys.r.pc == RFinish
      requires sys.r.done == done && sys.r.nonblock == nonblock
      modifies this, rxBuf
      ensures Valid() && sys.isr.pc == IIdle && sys.w == old(sys.w)
      ensures sys.r == old(sys.r).(pc := RIdle, ret := ret, enableDue := false)
      ensures ret == CallResult(done, nonblock)
      ensures sys.rx.delivered == old(sys.rx.delivered)
    {
      Interfere();
      if done != 0 {
        re := true;
      }
      Advance(ReaderStep);
      ret := if done != 0 then done else if nonblock then -EWOULDBLOCK else -EIO;
    }

    /** Looks whether there is anything to do; a call for no bytes is over at once. */
    method StartTurn(space: nat) returns (over: bool)
      requires Valid() && sys.isr.pc == IIdle && sys.r.pc == RTest && sys.r.done == 0 && sys.r.cap == space
      modifies this`states, this`acts, this`sys
      ensures Valid() && over == (space == 0)
      ensures sys == old(sys).(r := old(sys.r).(pc := if over then RFinish else RReadIn))
    {
      over := !(space > 0);
      Advance(ReaderStep);
    }

    /** Looks whether the call is over after all that could be read has been. */
    method ReadIsOver(done: nat, nonblock: bool) returns (over: bool)
      requires Valid() && sys.isr.pc == IIdle && sys.r.pc == RDecide && sys.r.done == done && sys.r.nonblock == nonblock
      modifies this`states, this`acts, this`sys
      ensures Valid() && over == (done != 0 || nonblock)
      ensures sys == old(sys).(r := old(sys.r).(pc := if over then RFinish else RSpin))
    {
      over := done != 0 || nonblock;
      Advance(ReaderStep);
    }

    /** One turn of the outer loop of `read`, up to where it may have to wait. */
    method DrainAndDecide(buffer: array<Byte>, nonblock: bool) returns (done: nat, inn: nat, over: bool)
      requires Valid() && sys.isr.pc == IIdle && sys.r.pc == RTest
      requires buffer != rxBuf && buffer != txBuf && sys.r.cap == buffer.Length
      requires sys.r.done == 0 && sys.r.buf == [] && sys.r.nonblock == nonblock
      modifies this, rxBuf, buffer
      ensures Valid() && sys.isr.pc == IIdle && sys.w == old(sys.w)
      ensures SameRead(sys.r, old(sys.r)) && sys.r.done == done <= buffer.Length && sys.r.buf == buffer[..done]
      ensures over == (buffer.Length == 0 || done != 0 || nonblock)
      ensures sys.r.pc == (if over then RFinish else RSpin) && (!over ==> sys.r.inn == inn)
      ensures sys.rx.delivered == old(sys.rx.delivered) + buffer[..done]
      ensures buffer[done..] == old(buffer[..])[done..]
    {
      done, inn := 0, 0;
      over := StartTurn(buffer.Length);
      if !over {
        done, inn := Drain(buffer);
        over := ReadIsOver(done, nonblock);
      }
    }

    /** `read`: what it reports is what it has put in the caller's buffer, and those are the
        next bytes of the host's stream; the rest of the buffer is as it was. */
    method Read(buffer: array<Byte>, nonblock: bool, polls: nat) returns (r: Outcome)
      requires Valid() && sys.isr.pc == IIdle && sys.r.pc == RIdle
      requires buffer != rxBuf && buffer != txBuf
      modifies this, rxBuf, buffer
      ensures Valid() && sys.isr.pc == IIdle && sys.w == old(sys.w)
      ensures sys.r.done <= buffer.Length && buffer[sys.r.done..] == old(buffer[..])[sys.r.done..]
      ensures sys.rx.delivered == old(sys.rx.delivered) + buffer[..sys.r.done]
      ensures r.Returned? ==>
        && sys.r.pc == RIdle
        && r.ret == CallResult(sys.r.done, nonblock)
        && (sys.r.done > 0 || buffer.Length == 0 || nonblock || sys.r.gone)
      ensures r.StillWaiting? ==> !nonblock && sys.r.pc == RSpin && sys.r.done == 0
    {
      Advance(StartRead(buffer.Length, nonblock));
      var done, budget := 0, polls;
      while true
        invariant Valid() && sys.isr.pc == IIdle && sys.w == old(sys.w)
        invariant sys.r.pc == RTest && sys.r.cap == buffer.Length && sys.r.nonblock == nonblock
        invariant sys.r.done == 0 && sys.r.buf == [] && buffer[..] == old(buffer[..])
        invariant sys.rx.delivered == old(sys.rx.delivered)
        decreases budget
      {
        var inn, over;
        done, inn, over := DrainAndDecide(buffer, nonblock);
        if over {
          break;
        }
        var waiting;
        budget, waiting := AwaitData(inn, budget);
        if waiting {
          return StillWaiting;
        }
        var same := StillEmpty(inn);
        if same {
          break;
        }
      }
      var ret := Finish(done, nonblock);
      InvHolds();
      r := Returned(ret);
    }

    // -------------------------------------------------------------- close

    /** An empty ring means that the device has everything that was ever accepted. */
    lemma RingIsDrained()
      requires Valid() && txOut == txIn
      ensures sys.tx.Sent() == sys.tx.accepted
    {
      InvHolds();
      EmptyIsDrained(sys.tx);
    }

    /** The indices are equal exactly when the ring has nothing left to send. */
    lemma EmptyIsNothing()
      requires Valid()
      ensures txOut == txIn <==> InRing(sys.tx) == 0
    {
      InvHolds();
      if txOut == txIn { EmptyIsDrained(sys.tx); }
    }

    /** One look at the ring and at the host. */
    method LookForEnd() returns (over: bool)
      requires Valid() && sys.isr.pc == IIdle
      modifies this, rxBuf
      ensures Valid() && ThreadsKept()
      ensures over ==> sys.tx.Sent() == sys.tx.accepted || hostInactive >= timeout
      ensures !over ==> hostInactive < timeout && InRing(old(sys.tx)) > 0
    {
      Interfere();
      EmptyIsNothing();
      if txOut == txIn {
        RingIsDrained();
        return true;
      }
      Interfere();
      over := hostInactive >= timeout;
    }

    /** `close`: it reports success when every accepted byte has been handed to the device, or
        the host counts as gone, and only then: whatever else it answers, there was data in the
        ring when it was called, and the host is still there. A ring that is empty when it is
        called is closed at once. Gives up after `polls` looks, which the code never does. */
    method Close(nonblock: bool, polls: nat) returns (r: Outcome)
      requires Valid() && sys.isr.pc == IIdle
      modifies this, rxBuf
      ensures Valid() && ThreadsKept()
      ensures r == Returned(0) ==> sys.tx.Sent() == sys.tx.accepted || hostInactive >= timeout
      ensures r.Returned? && r.ret != 0 ==> nonblock && r.ret == -EWOULDBLOCK
      ensures r.StillWaiting? ==> !nonblock || polls == 0
      ensures r != Returned(0) && polls > 0 ==> hostInactive < timeout && InRing(old(sys.tx)) > 0
      ensures old(txOut == txIn) && polls > 0 ==> r == Returned(0)
    {
      EmptyIsNothing();
      var left := polls;
      while left > 0
        invariant Valid() && ThreadsKept() && left <= polls
        invariant left == polls || (!nonblock && hostInactive < timeout && InRing(old(sys.tx)) > 0)
      {
        left := left - 1;
        var over := LookForEnd();
        if over {
          return Returned(0);
        }
        if nonblock {
          return Returned(-EWOULDBLOCK);
        }
      }
      return StillWaiting;
    }
  }
}
