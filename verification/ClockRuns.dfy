/**
  Whole runs of the clock with alarms being started and stopped: the object, with its 32-bit
  times, does what an ideal clock does on unbounded time.
*/
module ClockRuns {
  import opened Words
  import opened AlarmTimer
  import opened Alarms
  import opened AlarmRuns

  datatype Event = Start(alarm: Entry, n: Word, callback: int, context: int) | Stop(alarm: Entry) | Tick

  /** An ideal clock: unbounded time, the registered alarms, the tick at which each is due, and
      the calls that have been made. */
  datatype Ideal = Ideal(now: nat, list: seq<Entry>, due: map<Entry, nat>, log: seq<Call>)

  function Without(list: seq<Entry>, e: Entry): seq<Entry> {
    if list == [] then []
    else
      var n := |list| - 1;
      Without(list[..n], e) + if list[n] == e then [] else [list[n]]
  }

  /** The alarms that asked for another call are due then. */
  function NextDue(due: map<Entry, nat>, list: seq<Entry>, answers: seq<Option<Word>>, now: nat): map<Entry, nat>
    requires |answers| == |list|
  {
    if list == [] then due
    else
      var n := |list| - 1;
      var before := NextDue(due, list[..n], answers[..n], now);
      if answers[n].Some? && answers[n].value != 0 then before[list[n] := now + answers[n].value] else before
  }

  function AfterAnswers(a: Ideal, answers: seq<Option<Word>>): Ideal
    requires |answers| == |a.list|
  {
    Ideal(a.now + 1, Kept(a.list, answers), NextDue(a.due, a.list, answers, a.now + 1),
          a.log + CallsOf(a.now + 1, a.list, answers))
  }

  /** A tick of the ideal clock calls exactly the alarms that are due, in list order, and
      unregisters those that answer 0. */
  ghost predicate IdealTick(a: Ideal, answers: seq<Option<Word>>, b: Ideal) {
    && |answers| == |a.list| && b == AfterAnswers(a, answers)
    && forall i :: 0 <= i < |a.list| ==> a.list[i] in a.due && (answers[i].Some? <==> a.due[a.list[i]] == b.now)
  }

  /** An alarm that is registered is not started again, and delays are those that 32 bits can
      tell from "at once": other starts are not made. */
  ghost predicate IdealStep(a: Ideal, event: Event, b: Ideal) {
    match event
    case Start(alarm, n, _, _) =>
      b == if alarm in a.list || n == U32 - 1 then a
           else a.(list := [alarm] + a.list, due := a.due[alarm := a.now + n + 1])
    case Stop(alarm) => b == a.(list := Without(a.list, alarm))
    case Tick => exists answers :: IdealTick(a, answers, b)
  }

  /** The object shows the state of the ideal clock. */
  ghost predicate Shows(c: Clock, a: Ideal)
    reads c, c.list
  {
    c.now == a.now && c.list == a.list && c.log == a.log && OnTime(c, a.due)
  }

  // ---------------------------------------------------------------- ticks

  lemma {:induction false} NextDueAt(due: map<Entry, nat>, list: seq<Entry>, answers: seq<Option<Word>>, now: nat,
                                     e: Entry, i: nat)
    requires |answers| == |list| && Distinct(list) && (e in list ==> i < |list| && list[i] == e) && e in due
    ensures var next := NextDue(due, list, answers, now);
            e in next && next[e] == if e in list && answers[i].Some? && answers[i].value != 0
                then now + answers[i].value else due[e]
  {
    if list != [] {
      var n := |list| - 1;
      NextDueAt(due, list[..n], answers[..n], now, e, i);
    }
  }

  /** What a tick makes of one registered alarm. */
  lemma StaysInSync(due: map<Entry, nat>, list: seq<Entry>, answers: seq<Option<Word>>, now: nat, i: nat, t: Timer,
                    t': Timer)
    requires |answers| == |list| && Distinct(list) && i < |list| && list[i] in due
    requires InSync(t, now, due[list[i]]) && Stepped(t, t', answers[i], (now + 1) % U32)
    ensures answers[i].Some? <==> due[list[i]] == now + 1
    ensures answers[i] != Some(0) ==>
              var next := NextDue(due, list, answers, now + 1); list[i] in next && InSync(t', now + 1, next[list[i]])
  {
    TickFiresDue(t, now, due[list[i]], answers[i]);
    NextDueAt(due, list, answers, now + 1, list[i], i);
  }

  ghost predicate AllInSync(list: seq<Entry>, due: map<Entry, nat>, now: nat, fields: map<Entry, Timer>) {
    forall e :: e in list ==> e in due && e in fields && InSync(fields[e], now, due[e])
  }

  /** The ideal clock ticks along with the answers that the object has got. */
  lemma AllStayInSync(a: Ideal, answers: seq<Option<Word>>, now: nat, list: seq<Entry>, log: seq<Call>,
                      before: map<Entry, Timer>, after: map<Entry, Timer>) returns (b: Ideal)
    requires Distinct(a.list) && AllInSync(a.list, a.due, a.now, before)
    requires |answers| == |a.list| && now == a.now + 1 && list == Kept(a.list, answers)
    requires log == a.log + CallsOf(now, a.list, answers)
    requires AllStepped(a.list, answers, before, after, now % U32)
    ensures IdealTick(a, answers, b) && b.now == now && b.list == list && b.log == log
    ensures AllInSync(list, b.due, now, after)
  {
    b := AfterAnswers(a, answers);
    forall i | 0 <= i < |a.list| ensures a.list[i] in a.due && (answers[i].Some? <==> a.due[a.list[i]] == now) {
      StaysInSync(a.due, a.list, answers, a.now, i, before[a.list[i]], after[a.list[i]]);
    }
    forall e | e in list ensures e in b.due && e in after && InSync(after[e], now, b.due[e]) {
      KeptIsKept(a.list, answers, e);
      var i :| 0 <= i < |a.list| && a.list[i] == e && answers[i] != Some(0);
      StaysInSync(a.due, a.list, answers, a.now, i, before[e], after[e]);
    }
  }

  lemma OnTimeFields(c: Clock, due: map<Entry, nat>, pool: seq<Entry>)
    requires Inside(c.list, pool)
    ensures OnTime(c, due) <==> AllInSync(c.list, due, c.now, FieldsOf(pool))
  {
    var fields := FieldsOf(pool);
    forall e | e in c.list ensures e in fields && fields[e] == e.Fields() {
      var k :| 0 <= k < |c.list| && c.list[k] == e;
      assert c.list[k] in pool;
    }
  }

  /** The object shows the ideal clock's time, list and log. */
  ghost predicate SameClock(c: Clock, a: Ideal)
    reads c
  {
    c.now == a.now && c.list == a.list && c.log == a.log
  }

  method TickInPool(c: Clock, ghost pool: seq<Entry>, ghost a: Ideal)
      returns (ghost b: Ideal, answers: seq<Option<Word>>)
    requires c.Valid() && Inside(c.list, pool) && c.head !in pool
    requires SameClock(c, a) && AllInSync(a.list, a.due, a.now, FieldsOf(pool))
    modifies c`nticks, c`now, c`list, c`log, c.head`next, c.head`previous
    modifies pool`next, pool`previous, pool`time, pool`rollover
    ensures c.Valid() && Inside(c.list, pool) && IdealTick(a, answers, b)
    ensures SameClock(c, b) && AllInSync(b.list, b.due, b.now, FieldsOf(pool))
  {
    ghost var before := FieldsOf(pool);
    answers := TickFields(c, pool);
    b := AllStayInSync(a, answers, c.now, c.list, c.log, before, FieldsOf(pool));
  }

  method TickOnce(c: Clock, ghost pool: seq<Entry>, ghost a: Ideal) returns (ghost b: Ideal, answers: seq<Option<Word>>)
    requires c.Valid() && Shows(c, a) && Inside(c.list, pool) && c.head !in pool
    modifies c`nticks, c`now, c`list, c`log, c.head`next, c.head`previous
    modifies pool`next, pool`previous, pool`time, pool`rollover
    ensures c.Valid() && Shows(c, b) && Inside(c.list, pool) && IdealTick(a, answers, b)
  {
    OnTimeFields(c, a.due, pool);
    b, answers := TickInPool(c, pool, a);
    OnTimeFields(c, b.due, pool);
  }

  // ---------------------------------------------------------------- starts and stops

  method StartOnce(c: Clock, event: Event, ghost pool: seq<Entry>, ghost a: Ideal) returns (ghost b: Ideal)
    requires event.Start? && event.n != U32 - 1 && event.alarm in pool && event.alarm !in c.list
    requires c.Valid() && c.tickRate > 0 && Shows(c, a) && Inside(c.list, pool) && c.head !in pool
    modifies c`list, c.head`next, c.head`previous, pool
    ensures c.Valid() && Shows(c, b) && Inside(c.list, pool) && IdealStep(a, event, b)
  {
    var rc := c.AlarmStart(event.alarm, event.n, event.callback, event.context);
    b := a.(list := [event.alarm] + a.list, due := a.due[event.alarm := a.now + event.n + 1]);
  }

  lemma {:induction false} WithoutIs(list: seq<Entry>, e: Entry, k: nat)
    requires Distinct(list)
    ensures e !in list ==> Without(list, e) == list
    ensures k < |list| && list[k] == e ==> Without(list, e) == list[..k] + list[k + 1..]
  {
    if list != [] {
      var n := |list| - 1;
      WithoutIs(list[..n], e, k);
      assert list == list[..n] + [list[n]];
      if k < n && list[k] == e {
        assert list[..n][..k] + list[..n][k + 1..] + [list[n]] == list[..k] + list[k + 1..];
      } else if k == n && list[k] == e {
        assert e !in list[..n];
        assert list[..n] + [] == list[..n] + list[n + 1..];
      }
    }
  }

  method StopOnce(c: Clock, event: Event, ghost pool: seq<Entry>, ghost a: Ideal) returns (ghost b: Ideal)
    requires event.Stop? && event.alarm in pool && (event.alarm in c.list || event.alarm.Alone())
    requires c.Valid() && Shows(c, a) && Inside(c.list, pool) && c.head !in pool
    modifies c`list, c.head`next, c.head`previous, pool`next, pool`previous
    ensures c.Valid() && Shows(c, b) && Inside(c.list, pool) && IdealStep(a, event, b)
  {
    DistinctTail(c.head, c.list);
    ghost var list := c.list;
    ghost var k := c.AlarmStop(event.alarm);
    WithoutIs(list, event.alarm, k);
    b := a.(list := Without(a.list, event.alarm));
  }

  // ---------------------------------------------------------------- runs

  /** The first k events of a run of the ideal clock. */
  ghost predicate IdealRun(states: seq<Ideal>, events: seq<Event>, k: nat) {
    && k <= |events| && |states| == k + 1
    && forall i {:trigger events[i]} :: 0 <= i < k ==> IdealStep(states[i], events[i], states[i + 1])
  }

  lemma IdealRunOn(states: seq<Ideal>, events: seq<Event>, k: nat, b: Ideal)
    requires IdealRun(states, events, k) && k < |events| && IdealStep(states[k], events[k], b)
    ensures IdealRun(states + [b], events, k + 1) && (states + [b])[0] == states[0] && (states + [b])[k + 1] == b
  {
  }

  /** Any sequence of starts, stops and ticks: over the whole run the object shows the states of
      an ideal clock, calls included. */
  method RunEvents(c: Clock, events: seq<Event>, ghost pool: seq<Entry>, list0: seq<Entry>, ghost a: Ideal)
    returns (ghost states: seq<Ideal>)
    requires c.Valid() && c.tickRate > 0 && Shows(c, a) && Inside(c.list, pool) && c.head !in pool && c.list == list0
    requires forall k :: 0 <= k < |events| && !events[k].Tick? ==> events[k].alarm in pool
    modifies c`nticks, c`now, c`list, c`log, c.head`next, c.head`previous, pool
    ensures c.Valid() && IdealRun(states, events, |events|) && states[0] == a && Shows(c, states[|events|])
  {
    var list := list0;
    states := [a];
    for k := 0 to |events|
      invariant c.Valid() && c.tickRate > 0 && Inside(c.list, pool) && c.list == list
      invariant IdealRun(states, events, k) && states[0] == a && Shows(c, states[k])
    {
      ghost var b;
      b, list := OneEvent(c, events[k], pool, list, states[k]);
      IdealRunOn(states, events, k, b);
      states := states + [b];
    }
  }

  /** One event. An alarm that was never registered has no links and is not stopped. */
  method OneEvent(c: Clock, event: Event, ghost pool: seq<Entry>, list0: seq<Entry>, ghost a: Ideal)
    returns (ghost b: Ideal, list: seq<Entry>)
    requires c.Valid() && c.tickRate > 0 && Shows(c, a) && Inside(c.list, pool) && c.head !in pool && c.list == list0
    requires !event.Tick? ==> event.alarm in pool
    modifies c`nticks, c`now, c`list, c`log, c.head`next, c.head`previous, pool
    ensures c.Valid() && IdealStep(a, event, b) && Shows(c, b) && Inside(c.list, pool) && c.list == list
  {
    b, list := a, list0;
    match event {
      case Start(alarm, n, _, _) =>
        if alarm !in list0 && n != U32 - 1 {
          b := StartOnce(c, event, pool, a);
          list := [alarm] + list0;
        }
      case Stop(alarm) =>
        if alarm in list0 || (alarm.next == alarm && alarm.previous == alarm) {
          b := StopOnce(c, event, pool, a);
          list := Without(list0, alarm);
        } else {
          DistinctTail(c.head, list0);
          WithoutIs(list0, alarm, 0);
        }
      case Tick =>
        var answers;
        b, answers := TickOnce(c, pool, a);
        list := Kept(list0, answers);
    }
  }
}
