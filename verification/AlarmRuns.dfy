/** Whole runs of the clock: the calls of every registered alarm over any number of ticks. */
module AlarmRuns {
  import opened Words
  import opened AlarmTimer
  import opened Alarms

  function Sum(answers: seq<Word>): nat {
    if answers == [] then 0 else answers[0] + Sum(answers[1..])
  }

  /** The ticks at which an alarm first due at `first` is called, once for each answer. */
  function Schedule(first: nat, answers: seq<Word>): seq<nat>
    decreases |answers|
  {
    if answers == [] then [] else [first] + Schedule(first + answers[0], answers[1..])
  }

  lemma {:induction false} ScheduleSnoc(first: nat, answers: seq<Word>, a: Word)
    ensures Schedule(first, answers + [a]) == Schedule(first, answers) + [first + Sum(answers)]
    ensures Sum(answers + [a]) == Sum(answers) + a
    decreases |answers|
  {
    if answers != [] {
      assert (answers + [a])[1..] == answers[1..] + [a];
      ScheduleSnoc(first + answers[0], answers[1..], a);
    } else {
      assert [a][1..] == [] && [] + [a] == [a];
    }
  }

  /** All but the last answer ask for another call, and the last call has been made. */
  predicate Answered(first: nat, answers: seq<Word>, now: nat) {
    answers != [] ==>
      && first + Sum(answers[..|answers| - 1]) <= now
      && forall i :: 0 <= i < |answers| - 1 ==> answers[i] != 0
  }

  /** An alarm that is listed waits for its next call; one that is not has answered 0. */
  predicate Live(first: nat, answers: seq<Word>, now: nat, listed: bool) {
    && Answered(first, answers, now)
    && if listed then (answers != [] ==> answers[|answers| - 1] != 0) && first + Sum(answers) > now
       else answers != [] && answers[|answers| - 1] == 0
  }

  /** Such an alarm has been called exactly when an alarm on unbounded time is. */
  lemma {:induction false} LiveIsIdeal(first: nat, answers: seq<Word>, now: nat, listed: bool)
    requires Live(first, answers, now, listed)
    ensures Schedule(first, answers) == Ideal(first, answers, now)
    decreases |answers|
  {
    if answers != [] && answers[0] != 0 {
      var rest := answers[1..];
      if rest != [] {
        assert answers[..|answers| - 1][1..] == rest[..|rest| - 1];
        assert answers[..|answers| - 1][0] == answers[0];
      }
      LiveIsIdeal(first + answers[0], rest, now, listed);
    }
  }

  // ---------------------------------------------------------------- the calls of one alarm

  function AnswersOf(log: seq<Call>, e: Entry): seq<Word> {
    if log == [] then []
    else
      var n := |log| - 1;
      AnswersOf(log[..n], e) + (if log[n].alarm == e then [log[n].answer] else [])
  }

  function TimesOf(log: seq<Call>, e: Entry): seq<nat> {
    if log == [] then []
    else
      var n := |log| - 1;
      TimesOf(log[..n], e) + (if log[n].alarm == e then [log[n].tick] else [])
  }

  lemma {:induction false} OfBoth(log: seq<Call>, more: seq<Call>, e: Entry)
    ensures AnswersOf(log + more, e) == AnswersOf(log, e) + AnswersOf(more, e)
    ensures TimesOf(log + more, e) == TimesOf(log, e) + TimesOf(more, e)
    decreases |more|
  {
    if more == [] {
      assert log + more == log;
    } else {
      assert (log + more)[..|log + more| - 1] == log + more[..|more| - 1];
      OfBoth(log, more[..|more| - 1], e);
    }
  }

  lemma OfOne(tick: nat, alarm: Entry, answer: Option<Word>, e: Entry)
    ensures AnswersOf(CallOf(tick, alarm, answer), e) == if answer.Some? && alarm == e then [answer.value] else []
    ensures TimesOf(CallOf(tick, alarm, answer), e) == if answer.Some? && alarm == e then [tick] else []
  {
    var calls := CallOf(tick, alarm, answer);
    if answer.Some? { assert calls[..0] == []; }
  }

  ghost predicate CalledIn(calls: seq<Call>, e: Entry, tick: nat, answer: Option<Word>) {
    && AnswersOf(calls, e) == (if answer.Some? then [answer.value] else [])
    && TimesOf(calls, e) == (if answer.Some? then [tick] else [])
  }

  lemma CalledInBoth(log: seq<Call>, more: seq<Call>, e: Entry, tick: nat, a: Option<Word>, b: Option<Word>)
    requires CalledIn(log, e, tick, a) && CalledIn(more, e, tick, b) && (a == None || b == None)
    ensures CalledIn(log + more, e, tick, if a == None then b else a)
  {
    OfBoth(log, more, e);
  }

  /** In one walk an alarm is called at most once, and only where it stands in the list. */
  lemma {:induction false} OfWalk(tick: nat, list: seq<Entry>, answers: seq<Option<Word>>, e: Entry, i: nat)
    requires |answers| <= |list| && Distinct(list) && (e in list ==> i < |list| && list[i] == e)
    ensures CalledIn(CallsOf(tick, list, answers), e, tick, if e in list && i < |answers| then answers[i] else None)
    decreases |answers|
  {
    if answers != [] {
      var n := |answers| - 1;
      var before, last := CallsOf(tick, list, answers[..n]), CallOf(tick, list[n], answers[n]);
      OfWalk(tick, list, answers[..n], e, i);
      OfOne(tick, list[n], answers[n], e);
      if list[n] == e {
        assert i == n;
        CalledInBoth(before, last, e, tick, None, answers[n]);
      } else {
        CalledInBoth(before, last, e, tick, if e in list && i < n then answers[i] else None, None);
      }
    }
  }

  /** Alarms stay listed exactly when they have not answered 0. */
  lemma {:induction false} KeptIff(list: seq<Entry>, answers: seq<Option<Word>>, i: nat)
    requires |answers| == |list| && Distinct(list) && i < |list|
    ensures list[i] in Kept(list, answers) <==> answers[i] != Some(0)
  {
    var n := |list| - 1;
    if i < n {
      KeptIff(list[..n], answers[..n], i);
    } else if list[n] in Kept(list[..n], answers[..n]) {
      KeptIsKept(list[..n], answers[..n], list[n]);
    }
  }

  // ---------------------------------------------------------------- runs of ticks

  /** The 32-bit fields of every registered alarm stand for the unbounded tick it is due. */
  ghost predicate OnTime(c: Clock, due: map<Entry, nat>)
    reads c, c.list
  {
    forall e :: e in c.list ==> e in due && InSync(e.Fields(), c.now, due[e])
  }

  /** Where an alarm stands after some answers: it has been called at `times`, exactly on
      time, and is in step with its next call as long as it is listed. */
  ghost predicate Goes(first: nat, answers: seq<Word>, times: seq<nat>, now: nat, listed: bool, t: Timer) {
    && Live(first, answers, now, listed)
    && times == Schedule(first, answers)
    && (listed ==> InSync(t, now, first + Sum(answers)))
  }

  /** A tick that does not call the alarm. */
  lemma GoesOn(first: nat, answers: seq<Word>, times: seq<nat>, now: nat, listed: bool, t: Timer, t': Timer)
    requires Goes(first, answers, times, now, listed, t)
    requires listed ==> InSync(t', now + 1, first + Sum(answers))
    ensures Goes(first, answers, times, now + 1, listed, t')
  {
  }

  lemma AnsweredOnce(first: nat, answers: seq<Word>, now: nat, a: Word)
    requires Live(first, answers, now, true) && first + Sum(answers) == now + 1
    ensures Live(first, answers + [a], now + 1, a != 0)
  {
    ScheduleSnoc(first, answers, a);
    assert (answers + [a])[..|answers + [a]| - 1] == answers;
  }

  /** A tick that calls it. */
  lemma GoesByCall(first: nat, answers: seq<Word>, times: seq<nat>, now: nat, t: Timer, t': Timer, a: Word)
    requires Goes(first, answers, times, now, true, t) && first + Sum(answers) == now + 1
    requires a != 0 ==> InSync(t', now + 1, now + 1 + a)
    ensures Goes(first, answers + [a], times + [now + 1], now + 1, a != 0, t')
  {
    ScheduleSnoc(first, answers, a);
    AnsweredOnce(first, answers, now, a);
  }

  ghost predicate GoesIn(e: Entry, first: nat, part: seq<Call>, now: nat, listed: bool, t: Timer) {
    Goes(first, AnswersOf(part, e), TimesOf(part, e), now, listed, t)
  }

  /** One tick, for an alarm that is in step. */
  lemma TickGoes(first: nat, answers: seq<Word>, times: seq<nat>, now: nat, t: Timer, answer: Option<Word>)
    requires Goes(first, answers, times, now, true, t)
    requires var ticks := (now + 1) % U32; answer.Some? <==> Expired(OnTick(t, ticks), ticks)
    ensures var t' := AfterTick(t, (now + 1) % U32, answer);
            if answer.Some?
            then Goes(first, answers + [answer.value], times + [now + 1], now + 1, answer.value != 0, t')
            else Goes(first, answers, times, now + 1, true, t')
  {
    var t' := AfterTick(t, (now + 1) % U32, answer);
    TickFiresDue(t, now, first + Sum(answers), answer);
    if answer.Some? {
      GoesByCall(first, answers, times, now, t, t', answer.value);
    } else {
      GoesOn(first, answers, times, now, true, t, t');
    }
  }

  /** The same in terms of the log: `calls` are the calls of the tick. */
  lemma TickGoesIn(e: Entry, first: nat, part: seq<Call>, calls: seq<Call>, now: nat, t: Timer, answer: Option<Word>)
    requires GoesIn(e, first, part, now, true, t)
    requires var ticks := (now + 1) % U32; answer.Some? <==> Expired(OnTick(t, ticks), ticks)
    requires CalledIn(calls, e, now + 1, answer)
    ensures GoesIn(e, first, part + calls, now + 1, answer != Some(0), AfterTick(t, (now + 1) % U32, answer))
  {
    var answers, times := AnswersOf(part, e), TimesOf(part, e);
    TickGoes(first, answers, times, now, t, answer);
    OfBoth(part, calls, e);
    assert answers + [] == answers && times + [] == times;
  }

  lemma TickGoesWithout(e: Entry, first: nat, part: seq<Call>, calls: seq<Call>, now: nat, t: Timer, t': Timer)
    requires GoesIn(e, first, part, now, false, t) && CalledIn(calls, e, now + 1, None)
    ensures GoesIn(e, first, part + calls, now + 1, false, t')
  {
    var answers, times := AnswersOf(part, e), TimesOf(part, e);
    GoesOn(first, answers, times, now, false, t, t');
    OfBoth(part, calls, e);
    assert answers + [] == answers && times + [] == times;
  }

  predicate Stepped(t: Timer, t': Timer, answer: Option<Word>, ticks: Word) {
    (answer.Some? <==> Expired(OnTick(t, ticks), ticks)) && t' == AfterTick(t, ticks, answer)
  }

  /** One tick on the list, for any alarm that has been on it. */
  lemma TickGoesOnList(list: seq<Entry>, answers: seq<Option<Word>>, e: Entry, i: nat, first: nat, part: seq<Call>,
                       now: nat, t: Timer, t': Timer)
    requires |answers| == |list| && Distinct(list) && GoesIn(e, first, part, now, e in list, t)
    requires e in list ==> i < |list| && list[i] == e && Stepped(t, t', answers[i], (now + 1) % U32)
    ensures GoesIn(e, first, part + CallsOf(now + 1, list, answers), now + 1, e in Kept(list, answers), t')
  {
    var calls := CallsOf(now + 1, list, answers);
    if e in list {
      OfWalk(now + 1, list, answers, e, i);
      KeptIff(list, answers, i);
      TickGoesIn(e, first, part, calls, now, t, answers[i]);
    } else {
      OfWalk(now + 1, list, answers, e, 0);
      if e in Kept(list, answers) { KeptIsKept(list, answers, e); }
      TickGoesWithout(e, first, part, calls, now, t, t');
    }
  }

  ghost function FieldsKeys(was: seq<Entry>): set<Entry> { set e | e in was }

  /** The fields of every alarm. */
  ghost function FieldsOf(was: seq<Entry>): (fields: map<Entry, Timer>)
    reads was
    ensures fields.Keys == FieldsKeys(was)
  {
    map e | e in was :: e.Fields()
  }

  ghost predicate AllGo(was: seq<Entry>, list: seq<Entry>, due: map<Entry, nat>, part: seq<Call>, now: nat,
                        fields: map<Entry, Timer>) {
    forall e :: e in was ==> e in due && e in fields && GoesIn(e, due[e], part, now, e in list, fields[e])
  }

  lemma Starts(e: Entry, due: nat, now: nat, t: Timer)
    requires InSync(t, now, due)
    ensures GoesIn(e, due, [], now, true, t)
  {
  }

  lemma AllStart(c: Clock, due: map<Entry, nat>)
    requires OnTime(c, due)
    ensures AllGo(c.list, c.list, due, [], c.now, FieldsOf(c.list))
  {
    var fields := FieldsOf(c.list);
    forall e | e in c.list ensures e in due && e in fields && GoesIn(e, due[e], [], c.now, true, fields[e]) {
      Starts(e, due[e], c.now, e.Fields());
    }
  }

  /** What the log says of an alarm. */
  ghost predicate OnSchedule(e: Entry, first: nat, part: seq<Call>, now: nat, listed: bool) {
    TimesOf(part, e) == Ideal(first, AnswersOf(part, e), now) && (listed <==> 0 !in AnswersOf(part, e))
  }

  lemma GoesOnSchedule(e: Entry, first: nat, part: seq<Call>, now: nat, listed: bool, t: Timer)
    requires GoesIn(e, first, part, now, listed, t)
    ensures OnSchedule(e, first, part, now, listed)
  {
    var answers := AnswersOf(part, e);
    LiveIsIdeal(first, answers, now, listed);
    ListedIff(first, answers, now, listed);
  }

  lemma ListedIff(first: nat, answers: seq<Word>, now: nat, listed: bool)
    requires Live(first, answers, now, listed)
    ensures listed <==> 0 !in answers
  {
  }

  lemma AllOnSchedule(was: seq<Entry>, list: seq<Entry>, due: map<Entry, nat>, part: seq<Call>, now: nat,
                      fields: map<Entry, Timer>)
    requires AllGo(was, list, due, part, now, fields)
    ensures forall e :: e in was ==> e in due && OnSchedule(e, due[e], part, now, e in list)
  {
    forall e | e in was ensures e in due && OnSchedule(e, due[e], part, now, e in list) {
      GoesOnSchedule(e, due[e], part, now, e in list, fields[e]);
    }
  }

  lemma KeptInside(list: seq<Entry>, answers: seq<Option<Word>>, was: seq<Entry>)
    requires |answers| == |list| && Inside(list, was)
    ensures Inside(Kept(list, answers), was)
  {
    forall k | 0 <= k < |Kept(list, answers)| ensures Kept(list, answers)[k] in was {
      KeptIsKept(list, answers, Kept(list, answers)[k]);
    }
  }

  lemma PlaceIn(list: seq<Entry>, e: Entry) returns (i: nat)
    ensures e in list ==> i < |list| && list[i] == e
  {
    i := 0;
    if e in list { i :| 0 <= i < |list| && list[i] == e; }
  }

  /** The fields of the listed alarms after a tick. */
  ghost predicate AllStepped(list: seq<Entry>, answers: seq<Option<Word>>, before: map<Entry, Timer>,
                             after: map<Entry, Timer>, ticks: Word) {
    && |answers| == |list|
    && forall i {:trigger list[i]} :: 0 <= i < |list| ==>
         list[i] in before && list[i] in after && Stepped(before[list[i]], after[list[i]], answers[i], ticks)
  }

  /** One tick, with what it does to the fields of each alarm. */
  method TickFields(c: Clock, ghost was: seq<Entry>) returns (answers: seq<Option<Word>>)
    requires c.Valid() && Inside(c.list, was) && c.head !in was
    modifies c`nticks, c`now, c`list, c`log, c.head`next, c.head`previous, c.list`next, c.list`previous, c.list`time,
             c.list`rollover
    ensures c.Valid() && c.now == old(c.now) + 1 && |answers| == |old(c.list)| && c.list == Kept(old(c.list), answers)
    ensures c.log == old(c.log) + CallsOf(c.now, old(c.list), answers)
    ensures Distinct(old(c.list)) && Inside(c.list, was)
    ensures AllStepped(old(c.list), answers, old(FieldsOf(was)), FieldsOf(was), c.now % U32)
  {
    ghost var list, before := c.list, FieldsOf(was);
    DistinctTail(c.head, list);
    answers := c.Tick();
    KeptInside(list, answers, was);
    forall i {:trigger list[i]} | 0 <= i < |answers|
      ensures list[i] in before && list[i] in FieldsOf(was)
              && Stepped(before[list[i]], FieldsOf(was)[list[i]], answers[i], c.now % U32)
    {
      assert c.Visited(list[i], old(list[i].Fields()), answers[i]);
    }
  }

  lemma TickGoesTo(list: seq<Entry>, answers: seq<Option<Word>>, e: Entry, first: nat, part: seq<Call>, now: nat,
                   t: Timer, t': Timer, i: nat)
    requires now > 0 && |answers| == |list| && Distinct(list) && GoesIn(e, first, part, now - 1, e in list, t)
    requires e in list ==> i < |list| && list[i] == e && Stepped(t, t', answers[i], now % U32)
    ensures GoesIn(e, first, part + CallsOf(now, list, answers), now, e in Kept(list, answers), t')
  {
    var was := now - 1;
    assert now == was + 1;
    TickGoesOnList(list, answers, e, i, first, part, was, t, t');
  }

  /** One tick keeps every alarm on time, listed or not. */
  lemma TickKeepsAll(was: seq<Entry>, list: seq<Entry>, left: seq<Entry>, due: map<Entry, nat>, part: seq<Call>,
                     calls: seq<Call>, now: nat, answers: seq<Option<Word>>, before: map<Entry, Timer>,
                     after: map<Entry, Timer>)
    requires now > 0 && AllGo(was, list, due, part, now - 1, before) && Distinct(list)
    requires AllStepped(list, answers, before, after, now % U32) && after.Keys == FieldsKeys(was)
    requires left == Kept(list, answers) && calls == CallsOf(now, list, answers)
    ensures AllGo(was, left, due, part + calls, now, after)
  {
    forall e | e in was ensures e in due && e in after && GoesIn(e, due[e], part + calls, now, e in left, after[e]) {
      var i := PlaceIn(list, e);
      TickGoesTo(list, answers, e, due[e], part, now, before[e], after[e], i);
    }
  }

  method TickAll(c: Clock, ghost was: seq<Entry>, ghost due: map<Entry, nat>, ghost part: seq<Call>)
      returns (ghost calls: seq<Call>)
    requires c.Valid() && AllGo(was, c.list, due, part, c.now, FieldsOf(was)) && Inside(c.list, was) && c.head !in was
    modifies c`nticks, c`now, c`list, c`log, c.head`next, c.head`previous, was`next, was`previous, was`time,
             was`rollover
    ensures c.Valid() && c.now == old(c.now) + 1 && Inside(c.list, was)
    ensures c.log == old(c.log) + calls && AllGo(was, c.list, due, part + calls, c.now, FieldsOf(was))
  {
    ghost var list, before := c.list, FieldsOf(was);
    var answers := TickFields(c, was);
    calls := CallsOf(c.now, list, answers);
    TickKeepsAll(was, list, c.list, due, part, calls, c.now, answers, before, FieldsOf(was));
  }

  method RunFrom(c: Clock, n: nat, ghost was: seq<Entry>, ghost due: map<Entry, nat>) returns (ghost calls: seq<Call>)
    requires c.Valid() && AllGo(was, c.list, due, [], c.now, FieldsOf(was)) && Inside(c.list, was) && c.head !in was
    modifies c`nticks, c`now, c`list, c`log, c.head`next, c.head`previous, was`next, was`previous, was`time,
             was`rollover
    ensures c.Valid() && c.now == old(c.now) + n && c.log == old(c.log) + calls
    ensures AllGo(was, c.list, due, calls, c.now, FieldsOf(was))
  {
    calls := [];
    for k := 0 to n
      invariant c.Valid() && c.now == old(c.now) + k && c.log == old(c.log) + calls
      invariant AllGo(was, c.list, due, calls, c.now, FieldsOf(was)) && Inside(c.list, was)
    {
      ghost var more := TickAll(c, was, due, calls);
      calls := calls + more;
    }
  }

  /** Any number of ticks: every alarm that was registered is called exactly when one on
      unbounded time would be, for all answers of its callback, and is still registered if
      and only if no answer was 0. */
  method RunTicks(c: Clock, n: nat, ghost due: map<Entry, nat>) returns (ghost calls: seq<Call>)
    requires c.Valid() && OnTime(c, due)
    modifies c`nticks, c`now, c`list, c`log, c.head`next, c.head`previous, c.list`next, c.list`previous, c.list`time,
             c.list`rollover
    ensures c.Valid() && c.now == old(c.now) + n && c.log == old(c.log) + calls
    ensures forall e :: e in old(c.list) ==> OnSchedule(e, due[e], calls, c.now, e in c.list)
  {
    ghost var was := c.list;
    DistinctTail(c.head, was);
    AllStart(c, due);
    calls := RunFrom(c, n, was, due);
    AllOnSchedule(was, c.list, due, calls, c.now, FieldsOf(was));
  }
}
