/**
  The arithmetic of alarms: a 32-bit alarm time and a roll-over flag, compared with a 32-bit
  tick counter that wraps, against alarms on unbounded time.
*/
module AlarmTimer {
  import opened Words

  datatype Timer = Timer(time: Word, rollover: bool)

  /** The fields set when an alarm is started at counter value `ticks`. */
  function Started(nticks: Word, ticks: Word): Timer {
    var time := (nticks + ticks + 1) % U32;
    Timer(time, time < ticks)
  }

  /** The flag is cleared when the counter wraps. */
  function OnTick(t: Timer, ticks: Word): Timer {
    t.(rollover := t.rollover && ticks != 0)
  }

  predicate Expired(t: Timer, ticks: Word) { t.time <= ticks && !t.rollover }

  /** A non-zero answer of the callback moves the time on. */
  function Rearmed(t: Timer, k: Word, ticks: Word): Timer {
    var time := (t.time + k) % U32;
    Timer(time, t.rollover || time < ticks)
  }

  /** The unbounded ticks, of the next `horizon` after `now`, at which the alarm's callback
      is called, when it answers with `answers` in turn and with 0 after that. */
  function FireTimes(t: Timer, now: nat, answers: seq<Word>, horizon: nat): seq<nat>
    decreases horizon
  {
    if horizon == 0 then []
    else
      var ticks := (now + 1) % U32;
      var t1 := OnTick(t, ticks);
      if !Expired(t1, ticks) then FireTimes(t1, now + 1, answers, horizon - 1)
      else if answers == [] || answers[0] == 0 then [now + 1]
      else [now + 1] + FireTimes(Rearmed(t1, answers[0], ticks), now + 1, answers[1..], horizon - 1)
  }

  /** The ticks up to `until` at which an alarm on unbounded time, due first at `due`, fires. */
  function Ideal(due: nat, answers: seq<Word>, until: nat): seq<nat>
    decreases |answers|
  {
    if due > until then []
    else if answers == [] || answers[0] == 0 then [due]
    else [due] + Ideal(due + answers[0], answers[1..], until)
  }

  /** The 32-bit time and the flag stand for the unbounded tick `due`. */
  predicate InSync(t: Timer, now: nat, due: nat) {
    && 1 <= due - now <= U32 - 1
    && t.time == due % U32
    && t.rollover == (due / U32 > now / U32)
  }

  /** One tick keeps the alarm in sync until exactly the tick it is due. */
  lemma TickInSync(t: Timer, now: nat, due: nat)
    requires InSync(t, now, due)
    ensures var ticks := (now + 1) % U32; var t1 := OnTick(t, ticks);
            && (Expired(t1, ticks) <==> due == now + 1)
            && (due > now + 1 ==> InSync(t1, now + 1, due))
  {
  }

  lemma RearmInSync(t: Timer, now: nat, k: Word)
    requires t == Timer(now % U32, false) && k > 0
    ensures InSync(Rearmed(t, k, now % U32), now, now + k)
  {
  }

  /** Over any number of wraps an alarm in sync fires exactly when the ideal one does. */
  lemma {:induction false} FiresExactly(t: Timer, now: nat, due: nat, answers: seq<Word>, horizon: nat)
    requires InSync(t, now, due)
    ensures FireTimes(t, now, answers, horizon) == Ideal(due, answers, now + horizon)
    decreases horizon
  {
    if horizon > 0 {
      TickInSync(t, now, due);
      var t1 := OnTick(t, (now + 1) % U32);
      if due > now + 1 {
        FiresExactly(t1, now + 1, due, answers, horizon - 1);
      } else if answers != [] && answers[0] != 0 {
        RearmInSync(t1, now + 1, answers[0]);
        FiresExactly(Rearmed(t1, answers[0], (now + 1) % U32), now + 1, due + answers[0], answers[1..], horizon - 1);
      }
    }
  }

  /** The alarm started at tick `now` fires first at now + nticks + 1, and then after every
      non-zero answer k exactly k ticks later, whatever the answers and however long the run. */
  ghost predicate Exact(now: nat, nticks: Word) {
    forall answers: seq<Word>, horizon: nat ::
      FireTimes(Started(nticks, now % U32), now, answers, horizon) == Ideal(now + nticks + 1, answers, now + horizon)
  }

  lemma StartedInSync(now: nat, nticks: Word)
    requires nticks <= U32 - 2
    ensures InSync(Started(nticks, now % U32), now, now + nticks + 1)
  {
  }

  /** The longest delay started on the last counter value is in sync one tick later. */
  lemma LongestInSync(now: nat)
    requires now % U32 == U32 - 1
    ensures var t := Started(U32 - 1, now % U32);
            && !Expired(OnTick(t, (now + 1) % U32), (now + 1) % U32)
            && InSync(OnTick(t, (now + 1) % U32), now + 1, now + U32)
  {
  }

  /** Every delay is exact except 2^32 - 1, which is taken for "at once" unless the counter
      is about to wrap. */
  lemma ExactUnlessAliased(now: nat, nticks: Word)
    ensures Exact(now, nticks) <==> nticks != U32 - 1 || now % U32 == U32 - 1
  {
    var t := Started(nticks, now % U32);
    if nticks != U32 - 1 {
      StartedInSync(now, nticks);
      forall answers: seq<Word>, horizon: nat
        ensures FireTimes(t, now, answers, horizon) == Ideal(now + nticks + 1, answers, now + horizon)
      {
        FiresExactly(t, now, now + nticks + 1, answers, horizon);
      }
    } else if now % U32 == U32 - 1 {
      LongestInSync(now);
      forall answers: seq<Word>, horizon: nat
        ensures FireTimes(t, now, answers, horizon) == Ideal(now + nticks + 1, answers, now + horizon)
      {
        if horizon > 0 {
          FiresExactly(OnTick(t, (now + 1) % U32), now + 1, now + U32, answers, horizon - 1);
        }
      }
    } else {
      assert FireTimes(t, now, [], 1) == [now + 1];
      assert Ideal(now + nticks + 1, [], now + 1) == [];
    }
  }
}
