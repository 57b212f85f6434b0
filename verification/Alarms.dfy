/**
  The list of registered alarms: a circular, intrusive, doubly linked list whose entries
  are inserted and removed in place, and the tick that walks it while entries leave it.
*/
module Alarms {
  import opened Words
  import opened AlarmTimer

  const EINVAL: int := 22
  const ENOTSUP: int := 134

  /** An alarm, which begins with its list links; the list head uses only the links. */
  class Entry {
    var next: Entry?
    var previous: Entry?
    var time: Word
    var rollover: bool
    var callback: int  // which function is called, and with what argument
    var context: int

    constructor ()
      ensures next == previous == null
    {
      next, previous := null, null;
      time, rollover, callback, context := 0, false, 0, 0;
    }

    function Fields(): Timer
      reads this
    {
      Timer(time, rollover)
    }

    /** Out of every list: a further removal is harmless. */
    ghost predicate Alone()
      reads this
    {
      next == this == previous
    }
  }

  ghost predicate Distinct(nodes: seq<Entry>) {
    forall i, j :: 0 <= i < j < |nodes| ==> nodes[i] != nodes[j]
  }

  /** The links of `nodes` form one circle in both directions. */
  ghost predicate Ring(nodes: seq<Entry>)
    reads nodes
  {
    && nodes != []
    && Distinct(nodes)
    && (forall i {:trigger nodes[i].next} :: 0 <= i < |nodes| - 1 ==> nodes[i].next == nodes[i + 1])
    && (forall i {:trigger nodes[i].previous} :: 1 <= i < |nodes| ==> nodes[i].previous == nodes[i - 1])
    && nodes[|nodes| - 1].next == nodes[0]
    && nodes[0].previous == nodes[|nodes| - 1]
  }

  /** Makes `entry` the first entry after the head. An entry that is in the circle already
      short-cuts it: the head leads to the entry, and the entry back to the old first one. */
  method Insert(list: Entry, entry: Entry, ghost nodes: seq<Entry>, ghost k: nat)
    requires Ring(nodes) && list == nodes[0] && entry != list
    requires entry in nodes ==> k < |nodes| && nodes[k] == entry
    modifies list`next, list.next`previous, entry`next, entry`previous
    ensures entry !in nodes ==> Ring([list, entry] + nodes[1..])
    ensures entry in nodes ==> ShortCut(nodes, k)
  {
    entry.previous := list;
    entry.next := list.next;
    list.next.previous := entry;
    list.next := entry;
    ghost var more := [list, entry] + nodes[1..];
    if entry !in nodes {
      forall i, j | 0 <= i < j < |more| ensures more[i] != more[j] {
      }
    }
  }

  /** Following the links from the head leads to the k-th entry, from there to the first, and
      on to the k-th again: the head is not reached any more. */
  ghost predicate ShortCut(nodes: seq<Entry>, k: nat)
    reads nodes
  {
    && 0 < k < |nodes| && Distinct(nodes)
    && nodes[0].next == nodes[k] && nodes[k].next == nodes[1]
    && forall i {:trigger nodes[i].next} :: 1 <= i < k ==> nodes[i].next == nodes[i + 1]
  }

  /** Each entry of a walk leads to the next one. */
  ghost predicate Linked(walk: seq<Entry>)
    reads walk
  {
    forall i {:trigger walk[i].next} :: 0 <= i < |walk| - 1 ==> walk[i].next == walk[i + 1]
  }

  /** A walk from the head over a short cut meets the k-th entry, the first, the second, and
      so on up to the k-th again. */
  lemma {:induction false} ShortCutPath(nodes: seq<Entry>, k: nat, walk: seq<Entry>, j: nat)
    requires ShortCut(nodes, k) && Linked(walk) && j < k && j + 1 < |walk| && walk[0] == nodes[0]
    ensures walk[j + 1] == if j == 0 then nodes[k] else nodes[j]
    ensures walk[j + 1].next == if j + 1 < k then nodes[j + 1] else nodes[k]
  {
    if j > 0 {
      ShortCutPath(nodes, k, walk, j - 1);
    }
  }

  /** After a short cut the links from the head form no circle. */
  lemma ShortCutIsNoRing(nodes: seq<Entry>, k: nat, ring: seq<Entry>)
    requires ShortCut(nodes, k) && ring != [] && ring[0] == nodes[0]
    ensures !Ring(ring)
  {
    if Ring(ring) && |ring| > 1 {
      var m := if |ring| <= k then |ring| - 1 else k;
      ShortCutPath(nodes, k, ring, 0);
      ShortCutPath(nodes, k, ring, m - 1);
    }
  }

  /** Takes `entry` out of the circle it is in, which may be a circle of itself only. */
  method Remove(entry: Entry, ghost nodes: seq<Entry>, ghost k: nat)
    requires Ring(nodes) && k < |nodes| && nodes[k] == entry
    modifies entry`next, entry`previous, entry.next`previous, entry.previous`next
    ensures entry.Alone()
    ensures |nodes| > 1 ==> Ring(nodes[..k] + nodes[k + 1..])
  {
    entry.next.previous := entry.previous;
    entry.previous.next := entry.next;
    entry.previous := entry;
    entry.next := entry;
  }

  /** What taking the k-th alarm out of the list touches and leaves. */
  lemma CutOut(head: Entry, list: seq<Entry>, k: nat)
    requires Ring([head] + list) && k < |list|
    ensures list[k].next in [head] + list && list[k].previous in [head] + list
    ensures list[k] !in list[..k] + list[k + 1..]
    ensures ([head] + list)[..k + 1] + ([head] + list)[k + 2..] == [head] + (list[..k] + list[k + 1..])
  {
    var nodes := [head] + list;
    assert nodes[k + 1].previous == nodes[k];
    if k + 1 < |list| { assert nodes[k + 1].next == nodes[k + 2]; }
    forall j | 0 <= j < |list| && j != k ensures list[j] != list[k] {
      assert nodes[j + 1] == list[j] && nodes[k + 1] == list[k];
    }
  }

  lemma SamePlace(head: Entry, list: seq<Entry>, e: Entry, i: nat, j: nat)
    requires Distinct([head] + list) && i < |list| && j < |list| && list[i] == e == list[j]
    ensures i == j
  {
    assert ([head] + list)[i + 1] == e == ([head] + list)[j + 1];
  }

  /** What a tick makes of one alarm, given its callback's answer if it was called. */
  function AfterTick(t: Timer, ticks: Word, answer: Option<Word>): Timer {
    var t1 := OnTick(t, ticks);
    if answer.Some? && answer.value != 0 then Rearmed(t1, answer.value, ticks) else t1
  }

  /** What a tick makes of an alarm that stands for the unbounded tick `due`: its callback is
      called exactly when that is this tick, and afterwards it stands for the same tick still,
      or for the one its callback asked for. */
  lemma TickFiresDue(t: Timer, now: nat, due: nat, answer: Option<Word>)
    requires InSync(t, now, due)
    requires var ticks := (now + 1) % U32; answer.Some? <==> Expired(OnTick(t, ticks), ticks)
    ensures answer.Some? <==> due == now + 1
    ensures answer == None ==> InSync(AfterTick(t, (now + 1) % U32, answer), now + 1, due)
    ensures answer.Some? && answer.value != 0 ==>
            InSync(AfterTick(t, (now + 1) % U32, answer), now + 1, now + 1 + answer.value)
  {
    TickInSync(t, now, due);
    if answer.Some? && answer.value != 0 {
      RearmInSync(OnTick(t, (now + 1) % U32), now + 1, answer.value);
    }
  }

  /** The alarms that stay: all but those whose callback answered 0. */
  function Kept(list: seq<Entry>, answers: seq<Option<Word>>): seq<Entry>
    requires |list| == |answers|
  {
    if list == [] then []
    else
      var n := |list| - 1;
      Kept(list[..n], answers[..n]) + (if answers[n] == Some(0) then [] else [list[n]])
  }

  /** The list in the middle of a walk: what was kept so far, then what is still to visit. */
  function Walked(list: seq<Entry>, answers: seq<Option<Word>>): seq<Entry>
    requires |answers| <= |list|
  {
    Kept(list[..|answers|], answers) + list[|answers|..]
  }

  lemma DistinctTail(head: Entry, list: seq<Entry>)
    requires Distinct([head] + list)
    ensures Distinct(list) && head !in list
  {
    forall i | 0 <= i < |list| ensures list[i] == ([head] + list)[i + 1] && list[i] != head {
      assert ([head] + list)[0] == head;
    }
    forall i, j | 0 <= i < j < |list| ensures list[i] != list[j] {
      assert ([head] + list)[i + 1] != ([head] + list)[j + 1];
    }
  }

  lemma {:induction false} KeptIsKept(list: seq<Entry>, answers: seq<Option<Word>>, e: Entry)
    requires |list| == |answers| && e in Kept(list, answers)
    ensures exists j :: 0 <= j < |list| && list[j] == e && answers[j] != Some(0)
  {
    var n := |list| - 1;
    if answers[n] == Some(0) || list[n] != e {
      KeptIsKept(list[..n], answers[..n], e);
    }
  }

  /** An alarm that has left is not met again on the walk. */
  lemma RemovedIsOut(list: seq<Entry>, answers: seq<Option<Word>>, i: nat)
    requires Distinct(list) && i < |answers| <= |list| && answers[i] == Some(0)
    ensures list[i] !in Walked(list, answers)
  {
    if list[i] in Kept(list[..|answers|], answers) {
      KeptIsKept(list[..|answers|], answers, list[i]);
    }
  }

  ghost predicate Inside(some: seq<Entry>, list: seq<Entry>) {
    forall k :: 0 <= k < |some| ==> some[k] in list
  }

  lemma WalkedInside(list: seq<Entry>, answers: seq<Option<Word>>)
    requires |answers| <= |list|
    ensures Inside(Walked(list, answers), list)
  {
    forall e | e in Kept(list[..|answers|], answers) ensures e in list {
      KeptIsKept(list[..|answers|], answers, e);
    }
  }

  lemma WalkPlace(list: seq<Entry>, answers: seq<Option<Word>>)
    requires |answers| < |list|
    ensures var k := |Kept(list[..|answers|], answers)|; var walked := Walked(list, answers);
            && k < |walked| && walked[k] == list[|answers|]
            && (if |answers| + 1 < |list| then k + 1 < |walked| && walked[k + 1] == list[|answers| + 1]
                else k + 1 == |walked|)
  {
  }

  lemma CutMiddle(a: seq<Entry>, x: Entry, b: seq<Entry>)
    ensures (a + ([x] + b))[..|a|] + (a + ([x] + b))[|a| + 1..] == a + b
  {
  }

  lemma WalkStep(list: seq<Entry>, answers: seq<Option<Word>>, a: Option<Word>)
    requires |answers| < |list|
    ensures var k := |Kept(list[..|answers|], answers)|; var walked := Walked(list, answers);
            && k < |walked|
            && Walked(list, answers + [a]) == if a == Some(0) then walked[..k] + walked[k + 1..] else walked
  {
    var i := |answers|;
    var kept, rest := Kept(list[..i], answers), list[i + 1..];
    assert list[..i + 1][..i] == list[..i] && (answers + [a])[..i] == answers;
    assert list[i..] == [list[i]] + rest;
    CutMiddle(kept, list[i], rest);
    if a != Some(0) {
      assert kept + [list[i]] + rest == kept + ([list[i]] + rest);
    } else {
      assert kept + [] == kept;
    }
  }

  lemma WalkNone(list: seq<Entry>)
    ensures Walked(list, []) == list && Inside(list, list)
  {
    assert [] + list[0..] == list;
  }

  /** A call of an alarm's callback, at an unbounded tick, and its answer. */
  datatype Call = Call(tick: nat, alarm: Entry, answer: Word)

  /** The calls of one visit, and of a walk over the alarms `list`. */
  function CallOf(tick: nat, alarm: Entry, answer: Option<Word>): seq<Call> {
    if answer.Some? then [Call(tick, alarm, answer.value)] else []
  }

  function CallsOf(tick: nat, list: seq<Entry>, answers: seq<Option<Word>>): seq<Call>
    requires |answers| <= |list|
  {
    if answers == [] then []
    else CallsOf(tick, list, answers[..|answers| - 1]) + CallOf(tick, list[|answers| - 1], answers[|answers| - 1])
  }

  lemma CallsSnoc(log: seq<Call>, tick: nat, list: seq<Entry>, answers: seq<Option<Word>>, a: Option<Word>)
    requires |answers| < |list|
    ensures log + CallsOf(tick, list, answers) + CallOf(tick, list[|answers|], a)
         == log + CallsOf(tick, list, answers + [a])
  {
    assert (answers + [a])[..|answers|] == answers;
  }

  /** The tick counter, the tick rate and the list of registered alarms. */
  class Clock {
    ghost var now: nat          // unbounded time
    ghost var log: seq<Call>    // the calls of callbacks, in order
    var nticks: Word
    var tickRate: Word
    const head: Entry
    ghost var list: seq<Entry>

    ghost predicate Valid()
      reads this, head, list
    {
      nticks == now % U32 && Ring([head] + list)
    }

    constructor (rate: Word)
      ensures Valid() && list == [] && now == 0 && log == [] && tickRate == rate && fresh(head)
    {
      var h := new Entry();
      head, list, nticks, tickRate := h, [], 0, rate;
      now, log := 0, [];
      new;
      head.next, head.previous := head, head;
    }

    /** Registers an alarm, at the front of the list. The list stays sound if and only if the
        alarm was not registered already. */
    method AlarmStart(alarm: Entry?, n: Word, callback: int, context: int) returns (rc: int)
      requires Valid() && alarm != head
      modifies this`list, head`next, head`previous, list`previous, alarm
      ensures rc == if tickRate == 0 then -ENOTSUP else if alarm == null then -EINVAL else 0
      ensures rc != 0 ==> Valid() && list == old(list) && (alarm != null ==> unchanged(alarm))
      ensures rc == 0 ==> alarm.Fields() == Started(n, nticks) && alarm.callback == callback && alarm.context == context
      ensures rc == 0 && alarm !in old(list) ==> Valid() && list == [alarm] + old(list)
      ensures rc == 0 && n != U32 - 1 ==> InSync(alarm.Fields(), now, now + n + 1)
      ensures rc == 0 && alarm in old(list) ==>
        forall nodes: seq<Entry> :: nodes != [] && nodes[0] == head ==> !Ring(nodes)
    {
      if tickRate == 0 {
        return -ENOTSUP;
      }
      if alarm == null {
        return -EINVAL;
      }
      alarm.callback := callback;
      alarm.context := context;
      alarm.time := (n + nticks + 1) % U32;
      alarm.rollover := alarm.time < nticks;
      InsertFirst(alarm);
      if n != U32 - 1 {
        StartedInSync(now, n);
      }
      return 0;
    }

    method InsertFirst(alarm: Entry)
      requires Valid() && alarm != head
      modifies this`list, head`next, head`previous, list`previous, alarm`next, alarm`previous
      ensures alarm !in old(list) ==> Valid() && list == [alarm] + old(list)
      ensures alarm in old(list) ==> forall nodes: seq<Entry> :: nodes != [] && nodes[0] == head ==> !Ring(nodes)
    {
      FirstAndNext(0);
      ghost var nodes := [head] + list;
      ghost var k :| 0 <= k && (alarm in list ==> k < |list| && list[k] == alarm);
      Insert(head, alarm, nodes, k + 1);
      if alarm in list {
        forall ring: seq<Entry> | ring != [] && ring[0] == head ensures !Ring(ring) {
          ShortCutIsNoRing(nodes, k + 1, ring);
        }
      } else {
        list := [alarm] + list;
        assert [head, alarm] + nodes[1..] == [head] + list;
      }
    }

    /** Unregisters an alarm; one that is not registered any more stays so. */
    method AlarmStop(alarm: Entry) returns (ghost k: nat)
      requires Valid() && alarm != head && (alarm in list || alarm.Alone())
      modifies this`list, head`next, head`previous, list`next, list`previous, alarm`next, alarm`previous
      ensures Valid() && alarm.Alone() && alarm !in list
      ensures if alarm in old(list) then k < |old(list)| && old(list)[k] == alarm
              && list == old(list)[..k] + old(list)[k + 1..]
              else list == old(list)
    {
      ghost var place := Place(alarm);
      ghost var nodes, at := [alarm], 0;
      k := 0;
      if alarm in list {
        k := place;
        nodes, at := [head] + list, k + 1;
        list := list[..k] + list[k + 1..];
      }
      Remove(alarm, nodes, at);
    }

    /** Where a registered alarm stands, and what follows for its removal. */
    lemma Place(alarm: Entry) returns (k: nat)
      requires Valid() && alarm != head && (alarm in list || alarm.Alone())
      ensures alarm in list ==>
        && k < |list| && list[k] == alarm
        && alarm.next in [head] + list && alarm.previous in [head] + list
        && alarm !in list[..k] + list[k + 1..]
        && ([head] + list)[..k + 1] + ([head] + list)[k + 2..] == [head] + (list[..k] + list[k + 1..])
    {
      k := 0;
      if alarm in list {
        k :| 0 <= k < |list| && list[k] == alarm;
        CutOut(head, list, k);
      }
    }

    /** The alarm's own function: it answers with any period, and touches no alarm. */
    method Callback(alarm: Entry) returns (k: Word)
      modifies this`log
      ensures log == old(log) + [Call(now, alarm, k)]
    {
      var answer: nat :| answer < U32;
      k := answer;
      log := log + [Call(now, alarm, k)];
    }

    /** One turn of the walk: the flag is cleared on a wrap, and an expired alarm's callback
        is called; the alarm leaves the list when the callback answers 0. */
    method Visit(alarm: Entry, ghost k: nat) returns (answer: Option<Word>)
      requires Valid() && k < |list| && list[k] == alarm && alarm != head
      modifies this`list, this`log, head`next, head`previous, list`next, list`previous, alarm`time, alarm`rollover
      ensures Valid()
      ensures answer.Some? <==> Expired(OnTick(old(alarm.Fields()), nticks), nticks)
      ensures alarm.Fields() == AfterTick(old(alarm.Fields()), nticks, answer)
      ensures list == if answer == Some(0) then old(list)[..k] + old(list)[k + 1..] else old(list)
      ensures answer == Some(0) ==> alarm.Alone()
      ensures log == old(log) + CallOf(now, alarm, answer)
    {
      answer := None;
      if alarm.rollover && nticks == 0 {
        alarm.rollover := false;
      }
      if alarm.time <= nticks && !alarm.rollover {
        var nextCallback := Callback(alarm);
        answer := Some(nextCallback);
        if nextCallback == 0 {
          ghost var at := AlarmStop(alarm);
          SamePlace(head, old(list), alarm, at, k);
        } else {
          alarm.time := (alarm.time + nextCallback) % U32;
          if alarm.time < nticks {
            alarm.rollover := true;
          }
        }
      }
    }

    /** One clock tick. It visits every alarm once, in list order, and calls exactly the
        callbacks of those that have expired: `answers` are the answers by position. The
        list that is left is well formed and holds all but those that answered 0. */
    method Tick() returns (answers: seq<Option<Word>>)
      requires Valid()
      modifies this`nticks, this`now, this`list, this`log, head`next, head`previous, list`next, list`previous,
               list`time, list`rollover
      ensures Valid() && now == old(now) + 1
      ensures |answers| == |old(list)| && list == Kept(old(list), answers)
      ensures forall i :: 0 <= i < |answers| ==> Visited(old(list)[i], old(list[i].Fields()), answers[i])
      ensures log == old(log) + CallsOf(now, old(list), answers)
    {
      nticks, now := (nticks + 1) % U32, now + 1;
      answers := Walk(list, Snapshot(list));
      assert old(list)[..|answers|] == old(list);
    }

    /** The walk over all alarms. */
    method Walk(ghost was: seq<Entry>, ghost fields: seq<Timer>) returns (answers: seq<Option<Word>>)
      requires Valid() && list == was && fields == Snapshot(list)
      modifies this`list, this`log, head`next, head`previous, was`next, was`previous, was`time, was`rollover
      ensures Valid() && |answers| == |was| && Walking(was, fields, old(log), answers, head)
    {
      answers := [];
      var alarm := head.next;
      WalkStarts(was, fields);
      WalkNone(was);
      while alarm != head
        invariant Valid() && Walking(was, fields, old(log), answers, alarm) && Inside(list, was)
        decreases |was| - |answers|
      {
        var answer;
        answer, alarm := Turn(alarm, was, fields, old(log), answers);
        answers := answers + [answer];
        WalkedInside(was, answers);
      }
    }

    lemma WalkStarts(was: seq<Entry>, fields: seq<Timer>)
      requires Valid() && list == was && fields == Snapshot(list)
      ensures head.next != null && Walking(was, fields, log, [], head.next)
    {
      FirstAndNext(0);
      DistinctTail(head, list);
      WalkNone(list);
    }

    ghost function Snapshot(list: seq<Entry>): seq<Timer>
      reads list
    {
      seq(|list|, i requires 0 <= i < |list| reads list => list[i].Fields())
    }

    /** In the middle of a walk over the alarms `was`, with `alarm` the next to visit. */
    ghost predicate Walking(was: seq<Entry>, fields: seq<Timer>, logWas: seq<Call>, answers: seq<Option<Word>>,
                            alarm: Entry?)
      reads this, was
    {
      && |answers| <= |was| == |fields|
      && Distinct(was) && head !in was
      && list == Walked(was, answers)
      && log == logWas + CallsOf(now, was, answers)
      && alarm == (if |answers| < |was| then was[|answers|] else head)
      && Unvisited(was, fields, |answers|)
      && AllVisited(was, fields, answers)
    }

    /** From place n on the fields are those from before the walk. */
    ghost predicate Unvisited(was: seq<Entry>, fields: seq<Timer>, n: nat)
      requires |was| == |fields|
      reads was
    {
      forall j :: n <= j < |was| ==> was[j].Fields() == fields[j]
    }

    ghost predicate AllVisited(was: seq<Entry>, fields: seq<Timer>, answers: seq<Option<Word>>)
      requires |answers| <= |was| == |fields|
      reads this, was
    {
      forall i :: 0 <= i < |answers| ==> Visited(was[i], fields[i], answers[i])
    }

    /** One turn of the loop: the next link is read before the alarm is visited. */
    method Turn(alarm: Entry, ghost was: seq<Entry>, ghost fields: seq<Timer>, ghost logWas: seq<Call>,
                ghost answers: seq<Option<Word>>)
      returns (answer: Option<Word>, next: Entry)
      requires Valid() && Walking(was, fields, logWas, answers, alarm) && alarm != head
      modifies this`list, this`log, head`next, head`previous, list`next, list`previous, alarm`time, alarm`rollover
      ensures Valid() && Walking(was, fields, logWas, answers + [answer], next)
    {
      ghost var k := |Kept(was[..|answers|], answers)|;
      WalkPlace(was, answers);
      FirstAndNext(k + 1);
      next := alarm.next;
      ghost var walked := list;
      answer := VisitNext(alarm, was, fields, answers, k);
      WalkingOn(was, fields, logWas, answers, answer, next, walked);
    }

    /** The walk after one more visit. */
    lemma WalkingOn(was: seq<Entry>, fields: seq<Timer>, logWas: seq<Call>, answers: seq<Option<Word>>,
                    answer: Option<Word>, next: Entry, walked: seq<Entry>)
      requires |answers| < |was| == |fields| && Distinct(was) && head !in was && walked == Walked(was, answers)
      requires var k := |Kept(was[..|answers|], answers)|;
               k < |walked| && list == if answer == Some(0) then walked[..k] + walked[k + 1..] else walked
      requires log == logWas + CallsOf(now, was, answers) + CallOf(now, was[|answers|], answer)
      requires next == if |answers| + 1 < |was| then was[|answers| + 1] else head
      requires Unvisited(was, fields, |answers| + 1) && AllVisited(was, fields, answers + [answer])
      ensures Walking(was, fields, logWas, answers + [answer], next)
    {
      WalkStep(was, answers, answer);
      CallsSnoc(logWas, now, was, answers, answer);
    }

    /** Visiting the next alarm of a walk leaves the others as they are. */
    method VisitNext(alarm: Entry, ghost was: seq<Entry>, ghost fields: seq<Timer>, ghost answers: seq<Option<Word>>,
                     ghost k: nat)
      returns (answer: Option<Word>)
      requires Valid() && Distinct(was) && head !in was && |answers| < |was| == |fields| && alarm == was[|answers|]
      requires list == Walked(was, answers) && k < |list| && list[k] == alarm
      requires Unvisited(was, fields, |answers|) && AllVisited(was, fields, answers)
      modifies this`list, this`log, head`next, head`previous, list`next, list`previous, alarm`time, alarm`rollover
      ensures Valid() && list == if answer == Some(0) then old(list)[..k] + old(list)[k + 1..] else old(list)
      ensures Unvisited(was, fields, |answers| + 1) && AllVisited(was, fields, answers + [answer])
      ensures log == old(log) + CallOf(now, alarm, answer)
    {
      ghost var i := |answers|;
      forall j | 0 <= j < i && answers[j] == Some(0) ensures was[j] !in list && was[j] != head {
        RemovedIsOut(was, answers, j);
      }
      answer := Visit(alarm, k);
      forall j | 0 <= j < |was| && j != i ensures was[j].Fields() == old(was[j].Fields()) {
        assert was[j] != was[i];
      }
      forall j | 0 <= j < i ensures Visited(was[j], fields[j], answers[j]) {
        assert old(Visited(was[j], fields[j], answers[j]));
      }
    }

    /** The entry after the head is the first alarm; after an alarm comes the next one. */
    lemma FirstAndNext(k: nat)
      requires Valid() && k <= |list|
      ensures (if k == 0 then head else list[k - 1]).next == if k < |list| then list[k] else head
    {
      assert ([head] + list)[k].next == if k < |list| then ([head] + list)[k + 1] else head;
    }

    /** The outcome of a visit for one alarm. */
    ghost predicate Visited(alarm: Entry, was: Timer, answer: Option<Word>)
      reads this, alarm
    {
      && (answer.Some? <==> Expired(OnTick(was, nticks), nticks))
      && alarm.Fields() == AfterTick(was, nticks, answer)
      && (answer == Some(0) ==> alarm.Alone())
    }
  }
}
