/**
  Progress of the JTAG UART driver: from every reachable state accepted bytes get to the host,
  the host's bytes get to the readers, and blocking writes finish, as long as everybody goes
  on. And a run in which a write gives up too early.
*/
module UartProgress {
  import opened UartSystem

  // ---------------------------------------------------------------- everything gets out

  /** What happens next while no call runs: the host takes what there is to take, and else the
      interrupt routine runs, with a device that raises its interrupts truthfully. */
  function DrainAction(s: Sys): Action {
    if s.tx.hw != [] then HostDrain
    else
      match s.isr.pc
      case IIdle => IsrEnter
      case IControl => IsrControl(s.re && s.rx.hw != [], s.we && |s.tx.hw| < FIFO_DEPTH)
      case _ => IsrStep
  }

  function DrainRun(s: Sys, n: nat): Sys
    decreases n
  {
    if n == 0 then s else DrainRun(Apply(s, DrainAction(s)), n - 1)
  }

  /** The routine is on its way to transmit: it has seen WI and room in the FIFO. */
  predicate WillTransmit(i: Isr) {
    i.space > 0 && (i.pc == ITx || ((i.pc == IRx || i.pc == IRxEnd) && i.wi))
  }

  /** A bound on the steps of the routine before it transmits the next byte. */
  function StepsToTransmit(s: Sys): nat {
    if WillTransmit(s.isr) then IsrWork(s)
    else if s.isr.pc == IControl then 5000
    else if s.isr.pc == IIdle then 5001
    else 6000 + IsrWork(s)
  }

  /** Fewer bytes in the ring, or in the FIFO, or fewer steps to the next byte. */
  /** Neither a call nor the timer has moved. */
  predicate CallsStand(t: Sys, u: Sys) {
    u.w == t.w && u.r == t.r && u.hostInactive == t.hostInactive && u.timeout == t.timeout && u.ac == t.ac
  }

  ghost predicate CloserToDrained(t: Sys, u: Sys) {
    && CallsStand(t, u) && u.tx.accepted == t.tx.accepted
    && (InRing(u.tx) < InRing(t.tx)
        || (InRing(u.tx) == InRing(t.tx)
            && (|u.tx.hw| < |t.tx.hw| || (|u.tx.hw| == |t.tx.hw| && StepsToTransmit(u) < StepsToTransmit(t)))))
  }

  /** The routine can see to what is in the ring: WE is set, or there is nothing to see to. */
  predicate Attended(s: Sys) { s.tx.Empty() || s.we }

  lemma DrainIsrStep(t: Sys)
    requires Inv(t) && !t.tx.Empty() && t.we && t.tx.hw == [] && t.isr.pc != IIdle && t.isr.pc != IControl
    ensures CloserToDrained(t, IsrNext(t)) && Attended(IsrNext(t))
  {
    IsrWorkShrinks(t);
    if IsrMayTransmit(t.isr, t.tx) {
      SendsNext(t.tx);
    }
  }

  lemma DrainWithHost(t: Sys)
    requires Inv(t) && t.tx.hw != []
    ensures CloserToDrained(t, HostNext(t, HostDrain)) && (Attended(t) ==> Attended(HostNext(t, HostDrain)))
  {
    HostDrains(t.w, t.tx);
  }

  lemma DrainControl(t: Sys)
    requires Inv(t) && t.isr.pc == IControl && t.we && t.tx.hw == []
    ensures CloserToDrained(t, IsrReadControl(t, t.re && t.rx.hw != [], true))
  {
    PassIsEntered(t, t.re && t.rx.hw != [], true);
    PassStepPays(IsrReadControl(t, t.re && t.rx.hw != [], true));
  }

  /** Every such step gets closer to the end, until the host has everything. */
  lemma DrainStep(t: Sys)
    requires Inv(t) && Attended(t) && t.tx.hostGot != t.tx.accepted
    ensures CloserToDrained(t, Apply(t, DrainAction(t))) && Attended(Apply(t, DrainAction(t)))
  {
    if t.tx.hw != [] {
      DrainWithHost(t);
    } else {
      assert t.tx.Sent() == t.tx.hostGot;
      if t.tx.Empty() { EmptyIsDrained(t.tx); }
      if t.isr.pc == IControl {
        DrainControl(t);
      } else if t.isr.pc != IIdle {
        DrainIsrStep(t);
      }
    }
  }

  lemma DrainOn(t: Sys, u: Sys, n: nat)
    requires u == Apply(t, DrainAction(t))
    ensures DrainRun(t, n + 1) == DrainRun(u, n)
  {
  }

  lemma {:induction false} DrainsFrom(t: Sys) returns (n: nat)
    requires Inv(t) && Attended(t)
    ensures var u := DrainRun(t, n);
            && Inv(u) && CallsStand(t, u)
            && u.tx.accepted == u.tx.hostGot == t.tx.accepted
    decreases InRing(t.tx), |t.tx.hw|, StepsToTransmit(t)
  {
    if t.tx.hostGot == t.tx.accepted {
      n := 0;
    } else {
      var u := Apply(t, DrainAction(t));
      StepKeeps(t, DrainAction(t));
      DrainStep(t);
      n := DrainsFrom(u);
      DrainOn(t, u, n);
      n := n + 1;
    }
  }

  /** Progress: from every reachable state in which WE is set, or no write lies between its
      publish and its kick, the interrupt routine and a host that keeps reading get every
      accepted byte to the host, without a further step of any call. A write that waits for
      room can then go on. */
  lemma EverythingGetsOut(s: Sys, acts: seq<Action>) returns (n: nat)
    requires Fresh(s) && (Run(s, acts).we || !Run(s, acts).w.kickDue)
    ensures var (t, u) := (Run(s, acts), DrainRun(Run(s, acts), n));
            && u.tx.hostGot == t.tx.accepted && u.w == t.w
            && (u.w.pc == WSpin ==> u.w.out != u.tx.out)
  {
    RunKeeps(s, acts);
    n := DrainsFrom(Run(s, acts));
    var u := DrainRun(Run(s, acts), n);
    if u.w.pc == WSpin {
      ModDistinct(u.w.outAbs, |u.tx.Sent()|);
    }
  }

  // ---------------------------------------------------------------- everything gets in

  predicate RxEmpty(rx: Rx) { rx.inn == rx.out }

  /** What happens next while the host is silent: the interrupt routine runs to its end, with
      a device that raises its interrupts truthfully; a reader takes what is in the ring, call
      after call; and when the ring is empty the routine is entered for what is in the FIFO,
      once RE is set. */
  function TakeAction(s: Sys): Action {
    match s.isr.pc
    case IIdle =>
      if RxEmpty(s.rx) && s.re then IsrEnter
      else if s.r.pc == RIdle then StartRead(1, true)
      else ReaderStep
    case IControl => IsrControl(s.re && s.rx.hw != [], s.we && |s.tx.hw| < FIFO_DEPTH)
    case _ => IsrStep
  }

  function TakeRun(s: Sys, n: nat): Sys
    decreases n
  {
    if n == 0 then s else TakeRun(Apply(s, TakeAction(s)), n - 1)
  }

  /** A bound on the reader's steps to its next publish, or to its return with RE set. */
  function ReaderRank(r: Reader, rx: Rx): nat {
    match r.pc
    case RCopy => if r.k <= r.n then r.n - r.k else 0
    case RReadOut => if RxEmpty(rx) || r.inn != rx.inn then 2108 else 2100
    case RReadIn => if RxEmpty(rx) then 2109 else 2101
    case RTest => if r.done < r.cap then 2102 else 2106
    case RIdle => 2103
    case RCheck => 2103
    case RSpin => 2104
    case RFinish => 2105
    case RDecide => 2107
  }

  function TakeRank(s: Sys): nat {
    if s.isr.pc != IIdle then IsrRank(s)
    else if RxEmpty(s.rx) && s.re then 5001
    else ReaderRank(s.r, s.rx)
  }

  /** The reader is in a call that has delivered something, and has RE still to set. */
  function Due(r: Reader): nat { if r.pc != RIdle && r.done != 0 then 1 else 0 }

  function Undelivered(rx: Rx): nat {
    if |rx.delivered| <= |rx.hostSent| then |rx.hostSent| - |rx.delivered| else 0
  }

  /** Fewer undelivered bytes, or a call less that has RE to set, or a pass of the routine less,
      or fewer steps to one of these. */
  ghost predicate CloserToDelivered(t: Sys, u: Sys) {
    && u.rx.hostSent == t.rx.hostSent
    && (Undelivered(u.rx) < Undelivered(t.rx)
        || (Undelivered(u.rx) == Undelivered(t.rx)
            && (Due(u.r) < Due(t.r)
                || (Due(u.r) == Due(t.r)
                    && (IsrFuel(u) < IsrFuel(t)
                        || (IsrFuel(u) == IsrFuel(t) && TakeRank(u) < TakeRank(t)))))))
  }

  lemma TakeIsrStep(t: Sys)
    requires Inv(t) && t.isr.pc != IIdle && t.isr.pc != IControl
    ensures CloserToDelivered(t, IsrNext(t))
  {
    PassStepPays(t);
  }

  /** Where no byte and no enable bit moves, the rank decides. */
  lemma OnlyRank(t: Sys, u: Sys)
    requires u.rx == t.rx && u.tx == t.tx && u.we == t.we && u.re == t.re
    requires Due(u.r) <= Due(t.r) && TakeRank(u) < TakeRank(t)
    ensures CloserToDelivered(t, u)
  {
    assert IsrFuel(u) == IsrFuel(t);
  }

  lemma TakeControl(t: Sys)
    requires Inv(t) && t.isr.pc == IControl && (RxEmpty(t.rx) ==> t.rx.hw != [])
    ensures CloserToDelivered(t, IsrReadControl(t, t.re && t.rx.hw != [], t.we && |t.tx.hw| < FIFO_DEPTH))
  {
    var ri, wi := t.re && t.rx.hw != [], t.we && |t.tx.hw| < FIFO_DEPTH;
    if ri || wi { PassIsEntered(t, ri, wi); }
    OnlyRank(t, IsrReadControl(t, ri, wi));
  }

  /** The indices are equal exactly when the ring has nothing for the reader. */
  lemma EmptyIsTaken(rx: Rx)
    requires RxInv(rx)
    ensures RxEmpty(rx) <==> rx.Taken() == |rx.delivered|
  {
    if rx.Taken() > |rx.delivered| { ModDistinct(|rx.delivered|, rx.Taken()); }
  }

  lemma TakeByCopy(t: Sys)
    requires Inv(t) && t.isr.pc == IIdle && t.r.pc == RCopy && !RxEmpty(t.rx)
    ensures CloserToDelivered(t, ReaderNext(t))
  {
    var u := ReaderNext(t);
    if t.r.k < t.r.n {
      OnlyRank(t, u);
    } else {
      ReadSlotsFreed(t.r, t.rx);
    }
  }

  lemma ReaderGetsCloser(r: Reader, rx: Rx, hostInactive: nat, timeout: nat)
    requires RxInv(rx) && ReaderInv(r, rx) && !RxEmpty(rx)
    requires r.pc != RIdle && r.pc != RCopy && r.pc != RFinish
    ensures var r' := ReaderLocals(r, rx, hostInactive, timeout);
            ReaderRank(r', rx) < ReaderRank(r, rx) && Due(r') <= Due(r)
  {
    EmptyIsTaken(rx);
    if r.pc == RReadOut { ReaderReadsOut(r, rx); }
  }

  /** With something in the ring the reader gets to its next publish. */
  lemma TakeFromRing(t: Sys)
    requires Inv(t) && t.isr.pc == IIdle && t.r.pc != RIdle && !RxEmpty(t.rx)
    ensures CloserToDelivered(t, ReaderNext(t))
  {
    if t.r.pc == RCopy {
      TakeByCopy(t);
    } else if t.r.pc == RFinish {
      TakeByReturn(t);
    } else {
      ReaderGetsCloser(t.r, t.rx, t.hostInactive, t.timeout);
      OnlyRank(t, ReaderNext(t));
    }
  }

  lemma TakeByReturn(t: Sys)
    requires Inv(t) && t.isr.pc == IIdle && t.r.pc == RFinish && (RxEmpty(t.rx) ==> !t.re)
    ensures CloserToDelivered(t, ReaderNext(t))
  {
    var u := ReaderNext(t);
    assert u.rx == t.rx && u.tx == t.tx && Due(u.r) == 0;
    if t.r.done == 0 { OnlyRank(t, u); }
  }

  /** With RE clear over an empty ring the reader is on its way to setting it. */
  lemma TakeToEnable(t: Sys)
    requires Inv(t) && t.isr.pc == IIdle && RxEmpty(t.rx) && !t.re
    ensures t.r.pc != RIdle && CloserToDelivered(t, ReaderNext(t))
  {
    EmptyIsTaken(t.rx);
    if t.r.pc == RReadOut { ReaderReadsOut(t.r, t.rx); }
  }

  lemma TakeEnter(t: Sys)
    requires Inv(t) && t.isr.pc == IIdle && RxEmpty(t.rx) && t.re
    ensures CloserToDelivered(t, Step(t, IsrEnter))
  {
    assert IsrFuel(Step(t, IsrEnter)) == IsrFuel(t);
  }

  lemma TakeStart(t: Sys)
    requires t.isr.pc == IIdle && !RxEmpty(t.rx) && t.r.pc == RIdle
    ensures CloserToDelivered(t, ReaderStart(t, 1, true))
  {
    assert IsrFuel(ReaderStart(t, 1, true)) == IsrFuel(t);
  }

  lemma TakeWhileIdle(t: Sys)
    requires Inv(t) && t.isr.pc == IIdle
    ensures CloserToDelivered(t, Step(t, TakeAction(t)))
  {
    if RxEmpty(t.rx) {
      if t.re { TakeEnter(t); } else { TakeToEnable(t); }
    } else {
      if t.r.pc == RIdle { TakeStart(t); } else { TakeFromRing(t); }
    }
  }

  /** Every such step gets closer to the end, until everything is delivered. */
  lemma TakeStep(t: Sys)
    requires Inv(t) && t.rx.delivered != t.rx.hostSent
    ensures CloserToDelivered(t, Apply(t, TakeAction(t)))
  {
    EmptyIsTaken(t.rx);
    if t.isr.pc == IIdle {
      TakeWhileIdle(t);
    } else if t.isr.pc == IControl {
      TakeControl(t);
    } else {
      TakeIsrStep(t);
    }
  }

  lemma {:induction false} TakesFrom(t: Sys) returns (n: nat)
    requires Inv(t)
    ensures var u := TakeRun(t, n); Inv(u) && u.rx.delivered == u.rx.hostSent == t.rx.hostSent
    decreases Undelivered(t.rx), Due(t.r), IsrFuel(t), TakeRank(t)
  {
    if t.rx.delivered == t.rx.hostSent {
      n := 0;
    } else {
      StepKeeps(t, TakeAction(t));
      TakeStep(t);
      n := TakesFrom(Apply(t, TakeAction(t)));
      n := n + 1;
    }
  }

  /** Progress: from every reachable state a reader that keeps calling and the interrupt
      routine deliver everything the host has sent. */
  lemma EverythingGetsIn(s: Sys, acts: seq<Action>) returns (n: nat)
    requires Fresh(s)
    ensures TakeRun(Run(s, acts), n).rx.delivered == Run(s, acts).rx.hostSent
  {
    RunKeeps(s, acts);
    n := TakesFrom(Run(s, acts));
  }

  // ---------------------------------------------------------------- every write finishes

  /** The write waits, and its snapshot says that nothing has been sent. */
  predicate Stuck(s: Sys) { s.w.pc == WSpin && s.w.out == s.tx.out }

  /** What happens next while a write goes on: while it is stuck, the routine and the host send;
      otherwise the routine runs to its end, and the write takes its next step. */
  function SendAction(s: Sys): Action {
    if Stuck(s) then DrainAction(s)
    else
      match s.isr.pc
      case IIdle => WriterStep
      case IControl => IsrControl(s.re && s.rx.hw != [], s.we && |s.tx.hw| < FIFO_DEPTH)
      case _ => IsrStep
  }

  function SendRun(s: Sys, n: nat): Sys
    decreases n
  {
    if n == 0 then s else SendRun(Apply(s, SendAction(s)), n - 1)
  }

  /** A bound on the write's steps to its next publish, its next wait or its return. */
  function WriterRank(w: Writer): nat {
    match w.pc
    case WIdle => 0
    case WCopy => if w.k <= w.n then w.n - w.k else 0
    case WReadOut => 2100
    case WTest => if w.done < |w.data| then 2101 else 2106
    case WCheck => 2102
    case WSpin => 2103
    case WDecide => 2104
    case WKick => 2105
  }

  /** The same when the ring is full: then every way leads to a wait. */
  function FullRank(w: Writer): nat {
    match w.pc
    case WCheck => 2110
    case WTest => 2109
    case WReadOut => 2108
    case _ => WriterRank(w)
  }

  function SendRank(s: Sys): nat {
    if Stuck(s) then StepsToTransmit(s)
    else if s.isr.pc != IIdle then 30_000 + IsrDistance(s)
    else 20_000 + IdleRank(s.w, s.tx)
  }

  function IdleRank(w: Writer, tx: Tx): nat {
    if InRing(tx) >= BUF_LEN - 1 then FullRank(w) else WriterRank(w)
  }

  function Remaining(w: Writer): nat { if w.done <= |w.data| then |w.data| - w.done else 0 }

  /** The same call, which gives up only on an inactive host. */
  predicate SameRequest(t: Sys, u: Sys) {
    && u.w.data == t.w.data && u.w.nonblock == t.w.nonblock && u.w.base == t.w.base
    && u.hostInactive == t.hostInactive
    && (u.w.gaveUp ==> t.w.gaveUp || t.hostInactive != 0)
    && (t.w.pc == WIdle ==> u.w == t.w)
    && (u.w.pc == WIdle && t.w.pc != WIdle ==> u.w.ret != 0)
  }

  lemma SameRequestStill(t: Sys, u: Sys, v: Sys)
    requires SameRequest(t, u) && SameRequest(u, v)
    ensures SameRequest(t, v)
  {
  }

  /** Less data to publish, or fewer bytes in the ring, or in the FIFO, or fewer steps to one of
      these or to the return. */
  ghost predicate CloserToReturn(t: Sys, u: Sys) {
    && SameRequest(t, u)
    && Below(Remaining(u.w), InRing(u.tx), |u.tx.hw|, SendRank(u), Remaining(t.w), InRing(t.tx), |t.tx.hw|, SendRank(t))
  }

  /** Lexicographically. */
  predicate Below(a: nat, b: nat, c: nat, d: nat, a': nat, b': nat, c': nat, d': nat) {
    a < a' || (a == a' && (b < b' || (b == b' && (c < c' || (c == c' && d < d')))))
  }

  lemma StuckIsFull(t: Sys)
    requires Inv(t) && t.w.pc == WSpin
    ensures Stuck(t) <==> InRing(t.tx) == BUF_LEN - 1
    ensures Stuck(t) ==> !t.tx.Empty() && t.we
  {
    if |t.tx.Sent()| != t.w.outAbs { ModDistinct(t.w.outAbs, |t.tx.Sent()|); }
    ModDistinct(|t.tx.Sent()|, |t.tx.Sent()| + BUF_LEN - 1);
  }

  lemma SendWhileStuck(t: Sys)
    requires Inv(t) && Stuck(t)
    ensures CloserToReturn(t, Apply(t, DrainAction(t)))
  {
    StuckIsFull(t);
    var u := Apply(t, DrainAction(t));
    StepKeeps(t, DrainAction(t));
    DrainStep(t);
    StuckIsFull(u);
    if InRing(u.tx) == InRing(t.tx) { assert SendRank(u) == StepsToTransmit(u); }
  }

  lemma SendIsr(t: Sys)
    requires Inv(t) && !Stuck(t) && t.isr.pc != IIdle && t.w.pc != WIdle
    ensures CloserToReturn(t, Apply(t, SendAction(t)))
  {
    var u := Apply(t, SendAction(t));
    if t.isr.pc == IControl {
      SendControl(t);
    } else {
      PassStepCounts(t);
      if IsrMayTransmit(t.isr, t.tx) {
        SendsNext(t.tx);
      } else {
        assert u.tx == t.tx && u.w == t.w;
      }
    }
  }

  lemma SendControl(t: Sys)
    requires Inv(t) && !Stuck(t) && t.isr.pc == IControl && t.w.pc != WIdle
    ensures CloserToReturn(t, IsrReadControl(t, t.re && t.rx.hw != [], t.we && |t.tx.hw| < FIFO_DEPTH))
  {
    var ri, wi := t.re && t.rx.hw != [], t.we && |t.tx.hw| < FIFO_DEPTH;
    var u := IsrReadControl(t, ri, wi);
    ControlStepCounts(t, ri, wi);
    RankBound(t.w, t.tx);
    assert SendRank(t) == 30_000 + IsrDistance(t);
    assert SendRank(u) == if u.isr.pc != IIdle then 30_000 + IsrDistance(u) else 20_000 + IdleRank(t.w, t.tx);
    OnlySendRank(t, u);
  }

  /** Where no byte is published or sent, the rank decides. */
  lemma OnlySendRank(t: Sys, u: Sys)
    requires u.tx == t.tx && u.w.done == t.w.done && SameRequest(t, u) && SendRank(u) < SendRank(t)
    ensures CloserToReturn(t, u)
  {
  }

  lemma RankBound(w: Writer, tx: Tx)
    requires WriterInv(w, tx)
    ensures IdleRank(w, tx) <= 3000 + BUF_LEN
  {
  }

  lemma SendByCopy(t: Sys)
    requires Inv(t) && t.isr.pc == IIdle && t.w.pc == WCopy
    ensures CloserToReturn(t, WriterNext(t))
  {
    var u := WriterNext(t);
    WriterKeeps(t);
    if t.w.k < t.w.n {
      assert u.tx.Sent() == t.tx.Sent() && InRing(u.tx) == InRing(t.tx);
    }
  }

  /** A step that moves no byte. */
  lemma WriterGetsCloser(w: Writer, tx: Tx, hostInactive: nat, timeout: nat)
    requires TxInv(tx) && WriterInv(w, tx) && w.pc != WIdle && w.pc != WCopy
    requires w.pc == WSpin ==> InRing(tx) < BUF_LEN - 1
    ensures var w' := WriterLocals(w, tx, hostInactive, timeout);
            && w'.done == w.done
            && (IdleRank(w', tx) < IdleRank(w, tx) || (w'.pc == WSpin && InRing(tx) >= BUF_LEN - 1))
  {
    if w.pc == WReadOut { WriterReadsOut(w, tx); }
    if w.pc == WSpin { RoomEndsSpin(w, tx); }
  }

  /** Bytes that have left the ring moved its index away from the snapshot. */
  lemma RoomEndsSpin(w: Writer, tx: Tx)
    requires TxInv(tx) && WriterInv(w, tx) && w.pc == WSpin && InRing(tx) < BUF_LEN - 1
    ensures w.out != tx.out
  {
    ModDistinct(w.outAbs, |tx.Sent()|);
  }

  lemma WriterSameRequest(t: Sys)
    requires Inv(t) && t.isr.pc == IIdle && t.w.pc != WIdle
    ensures SameRequest(t, WriterNext(t))
  {
  }

  lemma SendByWriter(t: Sys)
    requires Inv(t) && t.isr.pc == IIdle && t.w.pc != WIdle && t.w.pc != WCopy && !Stuck(t)
    ensures CloserToReturn(t, WriterNext(t))
  {
    var u := WriterNext(t);
    WriterKeeps(t);
    if t.w.pc == WSpin { StuckIsFull(t); }
    if u.w.pc == WSpin { StuckIsFull(u); }
    WriterGetsCloser(t.w, t.tx, t.hostInactive, t.timeout);
    WriterSameRequest(t);
    assert u.tx == t.tx && u.isr == t.isr && u.w == WriterLocals(t.w, t.tx, t.hostInactive, t.timeout);
    assert SendRank(t) == 20_000 + IdleRank(t.w, t.tx);
    assert SendRank(u) == if Stuck(u) then 5001 else 20_000 + IdleRank(u.w, t.tx);
    OnlySendRank(t, u);
  }

  /** Every such step gets closer to the end of the call. */
  lemma SendStep(t: Sys)
    requires Inv(t) && t.w.pc != WIdle
    ensures CloserToReturn(t, Apply(t, SendAction(t)))
  {
    if Stuck(t) {
      SendWhileStuck(t);
    } else if t.isr.pc != IIdle {
      SendIsr(t);
    } else if t.w.pc == WCopy {
      SendByCopy(t);
    } else {
      SendByWriter(t);
    }
  }

  lemma SendOnce(t: Sys) returns (u: Sys)
    requires Inv(t) && t.w.pc != WIdle
    ensures u == Apply(t, SendAction(t)) && Inv(u) && CloserToReturn(t, u) && t.tx.accepted <= u.tx.accepted
    ensures forall n: nat :: SendRun(t, n + 1) == SendRun(u, n)
  {
    u := Apply(t, SendAction(t));
    StepKeeps(t, SendAction(t));
    SendStep(t);
    TxExtends(t, SendAction(t));
  }

  ghost predicate Returned(t: Sys, u: Sys) {
    Inv(u) && u.w.pc == WIdle && SameRequest(t, u) && t.tx.accepted <= u.tx.accepted
  }

  lemma {:induction false} SendsFrom(t: Sys) returns (n: nat)
    requires Inv(t)
    ensures Returned(t, SendRun(t, n))
    decreases Remaining(t.w), InRing(t.tx), |t.tx.hw|, SendRank(t)
  {
    if t.w.pc == WIdle {
      n := 0;
    } else {
      var u := SendOnce(t);
      n := SendsFrom(u);
      SameRequestStill(t, u, SendRun(u, n));
      n := n + 1;
    }
  }

  /** Progress: from every reachable state in which a write is in progress, it returns after
      some steps of the write, the interrupt routine and a host that keeps reading. If it is
      blocking and the host is not inactive, it has then enqueued all its data. */
  lemma EveryWriteReturns(s: Sys, acts: seq<Action>) returns (n: nat)
    requires Fresh(s) && Run(s, acts).w.pc != WIdle
    ensures var (t, u) := (Run(s, acts), SendRun(Run(s, acts), n));
            && u.w.pc == WIdle && u.w.data == t.w.data
            && (t.hostInactive == 0 && !t.w.nonblock ==>
                  && u.w.ret == (if t.w.data == [] then -EIO else |t.w.data|)
                  && t.w.base <= |u.tx.accepted| && u.tx.accepted[t.w.base..] == t.w.data)
  {
    RunKeeps(s, acts);
    n := SendsFrom(Run(s, acts));
    var (t, u) := (Run(s, acts), SendRun(Run(s, acts), n));
    assert u.w.data[..|u.w.data|] == u.w.data;
  }

  /** Progress: from every reachable state whatever, first the write in progress, if any, and
      then the routine and the host get everything to the host that was accepted by then. */
  lemma WholeStreamGetsOut(s: Sys, acts: seq<Action>) returns (n: nat, m: nat)
    requires Fresh(s)
    ensures var (t, u) := (Run(s, acts), DrainRun(SendRun(Run(s, acts), n), m));
            t.tx.accepted <= u.tx.accepted && u.tx.hostGot == u.tx.accepted
  {
    RunKeeps(s, acts);
    n := SendsFrom(Run(s, acts));
    m := DrainsFrom(SendRun(Run(s, acts), n));
  }

  // ---------------------------------------------------------------- a write that gives up too early

  /** How often the timer has ticked. */
  function Ticks(acts: seq<Action>): nat {
    if acts == [] then 0 else Ticks(acts[..|acts| - 1]) + if acts[|acts| - 1] == TimerTick then 1 else 0
  }

  lemma {:induction false} TicksConcat(a: seq<Action>, b: seq<Action>)
    ensures Ticks(a + b) == Ticks(a) + Ticks(b)
    decreases |b|
  {
    if b == [] {
      assert a + b == a;
    } else {
      var n := |b| - 1;
      assert (a + b)[..|a + b| - 1] == a + b[..n];
      TicksConcat(a, b[..n]);
    }
  }

  lemma OneTick(s: Sys, a: Action)
    ensures Apply(s, a).hostInactive <= s.hostInactive + if a == TimerTick then 1 else 0
  {
  }

  /** The inactivity count is at most the number of ticks, at every moment of a run. */
  lemma {:induction false} InactiveAtMostTicks(s: Sys, acts: seq<Action>)
    requires Fresh(s)
    ensures Run(s, acts).hostInactive <= Ticks(acts)
    decreases |acts|
  {
    if acts != [] {
      InactiveAtMostTicks(s, acts[..|acts| - 1]);
      OneTick(Run(s, acts[..|acts| - 1]), acts[|acts| - 1]);
    }
  }

  lemma FewTicks(s: Sys, acts: seq<Action>, limit: nat)
    requires Fresh(s) && Ticks(acts) < limit
    ensures InactiveBelow(s, acts, limit)
  {
    forall n {:trigger acts[..n]} | 0 <= n <= |acts| ensures Run(s, acts[..n]).hostInactive < limit {
      InactiveAtMostTicks(s, acts[..n]);
      TicksConcat(acts[..n], acts[n..]);
      assert acts[..n] + acts[n..] == acts;
    }
  }

  /** There is a path from t to u with so many ticks of the timer. */
  ghost predicate Leads(t: Sys, u: Sys, ticks: nat) {
    exists states, acts :: Path(states, acts) && states[0] == t && states[|acts|] == u && Ticks(acts) == ticks
  }

  lemma Stays(t: Sys)
    ensures Leads(t, t, 0)
  {
    assert Path([t], []);
  }

  lemma LeadsByOne(t: Sys, a: Action)
    ensures Leads(t, Apply(t, a), if a == TimerTick then 1 else 0)
  {
    var states, acts := [t, Apply(t, a)], [a];
    assert Then(states[0], acts[0], states[1]);
    assert Path(states, acts) && acts[..0] == [];
  }

  lemma PathOn(states: seq<Sys>, acts: seq<Action>, more: seq<Sys>, moreActs: seq<Action>)
    requires Path(states, acts) && Path(more, moreActs) && states[|acts|] == more[0]
    ensures Path(states + more[1..], acts + moreActs)
  {
    var all, a := states + more[1..], acts + moreActs;
    forall i {:trigger a[i]} | 0 <= i < |a| ensures Then(all[i], a[i], all[i + 1]) {
      if i < |acts| {
        assert Then(states[i], acts[i], states[i + 1]);
      } else {
        assert Then(more[i - |acts|], moreActs[i - |acts|], more[i - |acts| + 1]);
      }
    }
  }

  lemma LeadsOn(t: Sys, u: Sys, v: Sys, m: nat, n: nat)
    requires Leads(t, u, m) && Leads(u, v, n)
    ensures Leads(t, v, m + n)
  {
    var states, acts :| Path(states, acts) && states[0] == t && states[|acts|] == u && Ticks(acts) == m;
    var more, moreActs :| Path(more, moreActs) && more[0] == u && more[|moreActs|] == v && Ticks(moreActs) == n;
    PathOn(states, acts, more, moreActs);
    TicksConcat(acts, moreActs);
    assert (states + more[1..])[|acts + moreActs|] == v;
  }

  lemma {:induction false} DrainLeads(t: Sys, n: nat)
    ensures Leads(t, DrainRun(t, n), 0)
    decreases n
  {
    if n == 0 {
      Stays(t);
    } else {
      var u := Apply(t, DrainAction(t));
      LeadsByOne(t, DrainAction(t));
      DrainLeads(u, n - 1);
      LeadsOn(t, u, DrainRun(u, n - 1), 0, 0);
    }
  }

  ghost predicate RoutineOnly(t: Sys, u: Sys) { CallsStand(t, u) && u.tx == t.tx && IsrDistance(u) < IsrDistance(t) }

  lemma ControlOverEmpty(t: Sys)
    requires Inv(t) && t.isr.pc == IControl
    ensures RoutineOnly(t, IsrReadControl(t, t.re && t.rx.hw != [], t.we && |t.tx.hw| < FIFO_DEPTH))
  {
    ControlStepCounts(t, t.re && t.rx.hw != [], t.we && |t.tx.hw| < FIFO_DEPTH);
  }

  lemma PassOverEmpty(t: Sys)
    requires Inv(t) && t.tx.Empty() && t.isr.pc != IIdle && t.isr.pc != IControl
    ensures RoutineOnly(t, IsrNext(t))
  {
    PassStepCounts(t);
  }

  /** The routine's next step, with a device that raises its interrupts truthfully. */
  function IsrAction(t: Sys): Action {
    if t.isr.pc == IControl then IsrControl(t.re && t.rx.hw != [], t.we && |t.tx.hw| < FIFO_DEPTH) else IsrStep
  }

  lemma IsrStepOverEmpty(t: Sys) returns (u: Sys)
    requires Inv(t) && t.tx.Empty() && t.isr.pc != IIdle
    ensures Leads(t, u, 0) && Inv(u) && RoutineOnly(t, u)
  {
    u := Apply(t, IsrAction(t));
    LeadsByOne(t, IsrAction(t));
    StepKeeps(t, IsrAction(t));
    IsrActionOverEmpty(t);
  }

  lemma IsrActionOverEmpty(t: Sys)
    requires Inv(t) && t.tx.Empty() && t.isr.pc != IIdle
    ensures RoutineOnly(t, Step(t, IsrAction(t)))
  {
    if t.isr.pc == IControl { ControlOverEmpty(t); } else { PassOverEmpty(t); }
  }

  /** Over an empty ring the routine runs to its end without touching what is sent. */
  lemma {:induction false} RoutineReturns(t: Sys) returns (u: Sys)
    requires Inv(t) && t.tx.Empty()
    ensures Leads(t, u, 0) && Inv(u) && u.isr.pc == IIdle && CallsStand(t, u) && u.tx == t.tx
    decreases IsrDistance(t)
  {
    if t.isr.pc == IIdle {
      u := t;
      Stays(t);
    } else {
      var t1 := IsrStepOverEmpty(t);
      u := RoutineReturns(t1);
      LeadsOn(t, t1, u, 0, 0);
    }
  }

  /** The state after the copy of a piece and its publish. */
  ghost predicate Published(t: Sys, u: Sys) {
    && u == t.(tx := u.tx, w := t.w.(k := t.w.n, done := t.w.done + t.w.n, kickDue := true, pc := WTest))
    && u.tx == t.tx.(buf := u.tx.buf, inn := u.tx.inn, accepted := u.tx.accepted)
    && t.w.done + t.w.n <= |t.w.data|
    && u.tx.accepted == t.tx.accepted + t.w.data[t.w.done..t.w.done + t.w.n]
  }

  lemma CopyStep(t: Sys) returns (u: Sys)
    requires Inv(t) && t.isr.pc == IIdle && t.w.pc == WCopy && t.w.k < t.w.n
    ensures Leads(t, u, 0) && Inv(u) && u == t.(tx := t.tx.(buf := u.tx.buf), w := t.w.(k := t.w.k + 1))
  {
    u := Apply(t, WriterStep);
    LeadsByOne(t, WriterStep);
    WriterKeeps(t);
  }

  lemma PublishStep(t: Sys) returns (u: Sys)
    requires Inv(t) && t.isr.pc == IIdle && t.w.pc == WCopy && t.w.k == t.w.n
    ensures Leads(t, u, 0) && Inv(u) && Published(t, u)
  {
    u := Apply(t, WriterStep);
    LeadsByOne(t, WriterStep);
    WriterKeeps(t);
  }

  lemma PublishedEarlier(t: Sys, u: Sys, v: Sys)
    requires u == t.(tx := t.tx.(buf := u.tx.buf), w := t.w.(k := t.w.k + 1)) && Published(u, v)
    ensures Published(t, v)
  {
  }

  lemma {:induction false} CopiesAll(t: Sys) returns (u: Sys)
    requires Inv(t) && t.isr.pc == IIdle && t.w.pc == WCopy
    ensures Leads(t, u, 0) && Inv(u) && Published(t, u)
    decreases t.w.n - t.w.k
  {
    if t.w.k == t.w.n {
      u := PublishStep(t);
    } else {
      var t1 := CopyStep(t);
      u := CopiesAll(t1);
      PublishedEarlier(t, t1, u);
      LeadsOn(t, t1, u, 0, 0);
    }
  }

  /** One step of the writer that moves no byte. */
  lemma WriterStepIs(t: Sys) returns (u: Sys)
    requires Inv(t) && t.isr.pc == IIdle && t.w.pc != WCopy
    ensures Leads(t, u, 0) && Inv(u)
    ensures u == t.(we := t.we || t.w.pc == WKick, w := WriterLocals(t.w, t.tx, t.hostInactive, t.timeout))
  {
    u := Apply(t, WriterStep);
    LeadsByOne(t, WriterStep);
    WriterKeeps(t);
  }

  lemma WriterStartIs(t: Sys, data: seq<Byte>, nonblock: bool) returns (u: Sys)
    requires Inv(t) && t.isr.pc == IIdle && t.w.pc == WIdle
    ensures Leads(t, u, 0) && Inv(u)
    ensures u == t.(w := NO_WRITER.(pc := WTest, data := data, nonblock := nonblock, base := |t.tx.accepted|))
  {
    u := Apply(t, StartWrite(data, nonblock));
    LeadsByOne(t, StartWrite(data, nonblock));
    StartsKeep(t, StartWrite(data, nonblock));
  }

  function Filler(data: seq<Byte>): Writer { NO_WRITER.(data := data, nonblock := true) }

  /** From the start of a write that fills the ring to its copy. */
  lemma StartsFilling(s: Sys, data: seq<Byte>) returns (u: Sys)
    requires Inv(s) && s.isr.pc == IIdle && s.w.pc == WIdle && |data| == BUF_LEN - 1
    requires s.tx.inn == s.tx.out == 0 && s.tx.accepted == [] && s.tx.Sent() == []
    ensures Leads(s, u, 0) && Inv(u) && u == s.(w := Filler(data).(pc := WCopy, n := BUF_LEN - 1))
  {
    var t := WriterStartIs(s, data, true);
    assert t == s.(w := Filler(data).(pc := WTest));
    var t1 := WriterStepIs(t);
    assert t1 == s.(w := Filler(data).(pc := WReadOut));
    u := WriterStepIs(t1);
    LeadsOn(s, t, t1, 0, 0);
    LeadsOn(s, t1, u, 0, 0);
  }

  /** A state in which a write has just filled the ring of a driver that nobody has used. */
  ghost predicate Filled(s: Sys, u: Sys) {
    && Inv(u) && u.isr.pc == IIdle && u.w.pc == WIdle && u.r == s.r
    && u.hostInactive == 0 && !u.ac && u.timeout == s.timeout && u.we
    && |u.tx.accepted| == BUF_LEN - 1 && u.tx.hostGot == u.tx.hw == [] && u.tx.out == 0
  }

  lemma Kicks(t: Sys) returns (u: Sys)
    requires Inv(t) && t.isr.pc == IIdle && t.w.pc == WTest && t.w.done == |t.w.data|
    ensures Leads(t, u, 0) && Inv(u) && u == t.(we := true, w := t.w.(pc := WDecide, kickDue := false))
  {
    var t1 := WriterStepIs(t);
    assert t1 == t.(w := t.w.(pc := WKick));
    u := WriterStepIs(t1);
    LeadsOn(t, t1, u, 0, 0);
  }

  /** The end of a call that has published everything and must not block. */
  lemma EndsFilling(t: Sys) returns (u: Sys)
    requires Inv(t) && t.isr.pc == IIdle && t.w.pc == WTest && t.w.done == |t.w.data| && t.w.nonblock
    ensures Leads(t, u, 0) && Inv(u)
    ensures u == t.(we := true, w := WriterReturn(t.w.(kickDue := false)))
  {
    var t1 := Kicks(t);
    u := WriterStepIs(t1);
    LeadsOn(t, t1, u, 0, 0);
  }

  lemma FillsRing(s: Sys) returns (u: Sys)
    requires Fresh(s)
    ensures Leads(s, u, 0) && Filled(s, u)
  {
    var data: seq<Byte> := seq(BUF_LEN - 1, _ => 0);
    var t1 := StartsFilling(s, data);
    var t2 := CopiesAll(t1);
    u := EndsFilling(t2);
    LeadsOn(s, t1, t2, 0, 0);
    LeadsOn(s, t2, u, 0, 0);
  }

  const WAITER := NO_WRITER.(data := [7], inn := BUF_LEN - 1, base := BUF_LEN - 1)

  /** A blocking write of one byte that waits for room, one tick after a host was last seen. */
  ghost predicate Waiting(s: Sys, u: Sys) {
    && Inv(u) && u.isr.pc == IIdle && u.hostInactive == 1 && u.timeout == s.timeout && u.we
    && u.w == WAITER.(pc := WSpin)
    && |u.tx.accepted| == BUF_LEN - 1
  }

  lemma FilledIndex(s: Sys, t: Sys)
    requires Filled(s, t)
    ensures t.tx.inn == BUF_LEN - 1 && t.tx.out == 0 && |t.tx.Sent()| == 0
  {
  }

  /** The write of one byte finds the ring full. */
  lemma FindsFull(s: Sys, t: Sys) returns (u: Sys)
    requires Filled(s, t)
    ensures Leads(t, u, 0) && Inv(u) && u == t.(w := WAITER.(pc := WKick))
  {
    FilledIndex(s, t);
    var t1 := WriterStartIs(t, [7], false);
    var t2 := WriterStepIs(t1);
    assert t2.w == WAITER.(pc := WReadOut);
    u := WriterStepIs(t2);
    LeadsOn(t, t1, t2, 0, 0);
    LeadsOn(t, t2, u, 0, 0);
  }

  lemma TickIs(t: Sys) returns (u: Sys)
    requires Inv(t) && t.isr.pc == IIdle && !t.ac && t.hostInactive == 0
    ensures Leads(t, u, 1) && Inv(u) && u == t.(hostInactive := 1)
  {
    u := Apply(t, TimerTick);
    LeadsByOne(t, TimerTick);
    HostKeeps(t, TimerTick);
  }

  /** It kicks, and then waits while the timer ticks. */
  lemma WaitsOnFull(s: Sys, t: Sys) returns (u: Sys)
    requires Filled(s, t)
    ensures Leads(t, u, 1) && Waiting(s, u)
  {
    var t1 := FindsFull(s, t);
    var t2 := WriterStepIs(t1);
    assert t2 == t.(w := WAITER.(pc := WDecide));
    var t3 := WriterStepIs(t2);
    assert t3 == t.(w := WAITER.(pc := WSpin));
    u := TickIs(t3);
    LeadsOn(t, t1, t2, 0, 0);
    LeadsOn(t, t2, t3, 0, 0);
    LeadsOn(t, t3, u, 0, 1);
  }

  lemma DrainedIsEmpty(tx: Tx)
    requires TxInv(tx) && tx.hostGot == tx.accepted
    ensures tx.Empty() && tx.out == |tx.accepted| % BUF_LEN
  {
    assert |tx.Sent()| == |tx.hostGot| + |tx.hw| <= |tx.accepted|;
  }

  /** The host takes everything, and the interrupt routine returns. */
  lemma EverythingIsTaken(t: Sys) returns (u: Sys)
    requires Inv(t) && t.we
    ensures Leads(t, u, 0) && Inv(u) && u.isr.pc == IIdle && CallsStand(t, u)
    ensures u.tx.Empty() && u.tx.hostGot == u.tx.accepted == t.tx.accepted && u.tx.out == |t.tx.accepted| % BUF_LEN
  {
    var n := DrainsFrom(t);
    DrainLeads(t, n);
    var drained := DrainRun(t, n);
    DrainedIsEmpty(drained.tx);
    u := RoutineReturns(drained);
    LeadsOn(t, drained, u, 0, 0);
  }

  /** The write leaves its wait, because there is room, and gives up. */
  lemma GivesUp(t: Sys) returns (u: Sys)
    requires Inv(t) && t.isr.pc == IIdle && t.w == WAITER.(pc := WSpin) && t.tx.out == BUF_LEN - 1
    requires t.hostInactive == 1 < t.timeout
    ensures Leads(t, u, 0) && u.tx == t.tx
    ensures u.w.pc == WIdle && u.w.data == [7] && u.w.ret == -EIO && !u.w.gone
  {
    var t1 := WriterStepIs(t);
    assert t1 == t.(w := WAITER.(pc := WCheck));
    u := WriterStepIs(t1);
    LeadsOn(t, t1, u, 0, 0);
  }

  /** Everything is with the host, and a blocking write of one byte reports that there is none,
      although the host did not count as gone. */
  predicate GaveUpTooEarly(t: Sys) {
    && t.w.pc == WIdle && t.w.data == [7] && t.w.ret == -EIO && !t.w.gone
    && t.tx.Empty() && t.tx.hostGot == t.tx.accepted && |t.tx.accepted| == BUF_LEN - 1
  }

  lemma LeadsToWait(s: Sys) returns (u: Sys)
    requires Fresh(s)
    ensures Leads(s, u, 1) && Waiting(s, u)
  {
    var t := FillsRing(s);
    u := WaitsOnFull(s, t);
    LeadsOn(s, t, u, 0, 1);
  }

  lemma WaitingIsIdle(s: Sys, t: Sys)
    requires Waiting(s, t)
    ensures Inv(t) && t.we && t.hostInactive == 1 && t.timeout == s.timeout && t.w == WAITER.(pc := WSpin)
    ensures |t.tx.accepted| % BUF_LEN == BUF_LEN - 1
  {
  }

  lemma LeadsOutOfWait(s: Sys, t: Sys) returns (u: Sys)
    requires Waiting(s, t) && s.timeout > 1
    ensures Leads(t, u, 0) && GaveUpTooEarly(u)
  {
    WaitingIsIdle(s, t);
    var t1 := EverythingIsTaken(t);
    u := GivesUp(t1);
    LeadsOn(t, t1, u, 0, 0);
  }

  lemma LeadsTooEarly(s: Sys) returns (u: Sys)
    requires Fresh(s) && s.timeout > 1
    ensures Leads(s, u, 1) && GaveUpTooEarly(u)
  {
    var t := LeadsToWait(s);
    u := LeadsOutOfWait(s, t);
    LeadsOn(s, t, u, 1, 0);
  }

  lemma RunTo(t: Sys, u: Sys, ticks: nat) returns (acts: seq<Action>)
    requires Leads(t, u, ticks)
    ensures Run(t, acts) == u && Ticks(acts) == ticks
  {
    var states;
    states, acts :| Path(states, acts) && states[0] == t && states[|acts|] == u && Ticks(acts) == ticks;
    PathIsRun(states, acts);
  }

  /** A write that gives up too early: the host has taken every byte, the ring is empty, and the
      host was never inactive for the timeout. Yet a blocking write of one byte has reported
      that there is no host, because the timer had found it inactive once. */
  lemma WriteGivesUpTooEarly(s: Sys) returns (acts: seq<Action>)
    requires Fresh(s) && s.timeout > 1
    ensures InactiveBelow(s, acts, s.timeout) && GaveUpTooEarly(Run(s, acts))
  {
    var u := LeadsTooEarly(s);
    acts := RunTo(s, u, 1);
    FewTicks(s, acts, s.timeout);
  }
}
