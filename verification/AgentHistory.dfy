/**
 The connection history of agents: decoded events are sorted by time, split by
 agent, and searched for the address an agent had at a time. The theorems say
 what a lookup means for the events as they were collected, before the sort,
 and exactly when the order the sort leaves open cannot change an answer.
 */
module AgentHistory {
  import opened Common

  type Address = seq<uint8>

  /** No address means that the agent disconnected. */
  datatype Event = Event(agent: string, time: int, address: Option<Address>)

  /** One raw event of the input stream after decoding: BadAddress is an address
      that does not parse, Other any event type that is not about connections. */
  datatype Raw = ReadFailed | BadJson | BadAddress | Other | Decoded(event: Event)

  datatype Lookup =
    | NoEvents
    | NothingBefore
    | Disconnected(exact: bool)
    | Connected(address: Address, exact: bool)

  function Outcome(e: Event, exact: bool): Lookup {
    if e.address.None? then Disconnected(exact) else Connected(e.address.value, exact)
  }

  function TimeOf(e: Event): int {
    e.time
  }

  ghost predicate Sorted(events: seq<Event>) {
    Ordered(TimeOf, events)
  }

  /** The agent's own events, in order. */
  function OfAgent(events: seq<Event>, agent: string): (r: seq<Event>)
    ensures forall e :: e in r <==> e in events && e.agent == agent
  {
    Filter((e: Event) => e.agent == agent, events)
  }

  lemma OfAgentSnoc(events: seq<Event>, e: Event, agent: string)
    ensures OfAgent(events + [e], agent) ==
            if e.agent == agent then OfAgent(events, agent) + [e] else OfAgent(events, agent)
  {
    var p := (d: Event) => d.agent == agent;
    FilterConcat(p, events, [e]);
    assert Filter(p, [e]) == if e.agent == agent then [e] else [];
    assert Filter(p, events) + [] == Filter(p, events);
  }

  lemma {:induction false} OfAgentStaysSorted(events: seq<Event>, agent: string)
    requires Sorted(events)
    ensures Sorted(OfAgent(events, agent))
  {
    if events != [] {
      OfAgentStaysSorted(events[1..], agent);
      var own := OfAgent(events[1..], agent);
      forall e | e in own
        ensures events[0].time <= e.time
      {
        var i :| 0 <= i < |events[1..]| && events[1..][i] == e;
        assert events[i + 1] == e;
      }
      SortedCons(events[0], own);
      assert [] + own == own;
    }
  }

  lemma SortedCons(e: Event, events: seq<Event>)
    requires Sorted(events) && forall d :: d in events ==> e.time <= d.time
    ensures Sorted([e] + events)
  {
    var r := [e] + events;
    forall i, j | 0 <= i < j < |r|
      ensures r[i].time <= r[j].time
    {
      assert r[j] == events[j - 1];
      assert i > 0 ==> r[i] == events[i - 1];
    }
  }

  // ----- The meaning of a lookup -----

  ghost predicate IsLatestBefore(events: seq<Event>, agent: string, t: int, e: Event) {
    && e in events && e.agent == agent && e.time < t
    && forall d :: d in events && d.agent == agent ==> d.time <= e.time || t < d.time
  }

  ghost predicate IsAt(events: seq<Event>, agent: string, t: int, e: Event) {
    e in events && e.agent == agent && e.time == t
  }

  /** r is an answer for agent at t, whatever the order of the events. */
  ghost predicate Answers(events: seq<Event>, agent: string, t: int, r: Lookup) {
    match r
    case NoEvents => forall e :: e in events ==> e.agent != agent
    case NothingBefore =>
      && (exists e :: e in events && e.agent == agent)
      && (forall e :: e in events && e.agent == agent ==> t < e.time)
    case _ =>
      if r.exact then exists e :: IsAt(events, agent, t, e) && r == Outcome(e, true)
      else exists e :: IsLatestBefore(events, agent, t, e) && r == Outcome(e, false)
  }

  /** The linear scan of one agent's events: the first event at t, or else the
      last one seen before t. */
  function Scan(events: seq<Event>, t: int, seen: Option<Event>): Lookup {
    if events == [] then (if seen.None? then NothingBefore else Outcome(seen.value, false))
    else if events[0].time == t then Outcome(events[0], true)
    else Scan(events[1..], t, if events[0].time < t then Some(events[0]) else seen)
  }

  function Answer(events: seq<Event>, agent: string, t: int): Lookup {
    var own := OfAgent(events, agent);
    if own == [] then NoEvents else Scan(own, t, None)
  }

  ghost predicate IsPosition(events: seq<Event>, t: int, i: nat) {
    && i <= |events|
    && (forall k :: 0 <= k < i ==> events[k].time < t)
    && (forall k :: i <= k < |events| ==> t <= events[k].time)
  }

  lemma {:induction false} PositionExists(events: seq<Event>, t: int) returns (i: nat)
    requires Sorted(events)
    ensures IsPosition(events, t, i)
  {
    i := 0;
    while i < |events| && events[i].time < t
      invariant i <= |events| && forall k :: 0 <= k < i ==> events[k].time < t
    {
      i := i + 1;
    }
  }

  lemma {:induction false} ScanPast(events: seq<Event>, t: int, seen: Option<Event>)
    requires forall e :: e in events ==> t < e.time
    ensures Scan(events, t, seen) == if seen.None? then NothingBefore else Outcome(seen.value, false)
  {
    if events != [] {
      ScanPast(events[1..], t, seen);
    }
  }

  /** What the two branches of AddressAt return at the searched position. */
  function AtPosition(events: seq<Event>, t: int, i: nat, seen: Option<Event>): Lookup
    requires i <= |events|
  {
    if i < |events| && events[i].time == t then Outcome(events[i], true)
    else if i > 0 then Outcome(events[i - 1], false)
    else if seen.None? then NothingBefore
    else Outcome(seen.value, false)
  }

  lemma {:induction false} ScanIsSearch(events: seq<Event>, t: int, i: nat, seen: Option<Event>)
    requires Sorted(events) && IsPosition(events, t, i)
    ensures Scan(events, t, seen) == AtPosition(events, t, i, seen)
  {
    if i > 0 {
      ScanIsSearch(events[1..], t, i - 1, Some(events[0]));
    } else if events != [] && events[0].time != t {
      forall e | e in events
        ensures t < e.time
      {
      }
      ScanPast(events, t, seen);
    }
  }

  /** The scan's answer is an answer for the events in any order. */
  lemma AnswerIsRight(events: seq<Event>, collected: seq<Event>, agent: string, t: int)
    requires Sorted(events) && multiset(events) == multiset(collected)
    ensures Answers(collected, agent, t, Answer(events, agent, t))
  {
    SameMembers(events, collected);
    var own := OfAgent(events, agent);
    if own != [] {
      OfAgentStaysSorted(events, agent);
      var i := PositionExists(own, t);
      ScanIsSearch(own, t, i, None);
      if i < |own| && own[i].time == t {
        assert IsAt(collected, agent, t, own[i]);
      } else if i > 0 {
        LatestAt(own, t, i);
        assert IsLatestBefore(collected, agent, t, own[i - 1]);
      } else {
        assert own[0] in own;
      }
    }
  }

  lemma {:induction false} LatestAt(own: seq<Event>, t: int, i: nat)
    requires Sorted(own) && IsPosition(own, t, i) && i > 0
    requires i < |own| ==> own[i].time != t
    ensures forall d :: d in own ==> d.time <= own[i - 1].time || t < d.time
  {
    forall d | d in own
      ensures d.time <= own[i - 1].time || t < d.time
    {
      var k :| 0 <= k < |own| && own[k] == d;
      if k >= i {
        assert own[i].time <= own[k].time || i == k;
      }
    }
  }

  /** Events of one agent at one time say the same thing. */
  ghost predicate NoTies(events: seq<Event>, agent: string) {
    forall d, e :: d in events && e in events && d.agent == agent && e.agent == agent && d.time == e.time
      ==> d.address == e.address
  }

  lemma AnswersAreUnique(events: seq<Event>, agent: string, t: int, r: Lookup, s: Lookup)
    requires NoTies(events, agent)
    requires Answers(events, agent, t, r) && Answers(events, agent, t, s)
    ensures r == s
  {
  }

  /** The sort leaves the order of equal times open. That cannot change any
      answer about an agent if and only if the agent has no two events at one
      time with different addresses. */
  lemma AnswersIgnoreTheSortExactly(events: seq<Event>, agent: string)
    requires Sorted(events)
    ensures NoTies(events, agent) <==>
      forall other, t :: multiset(other) == multiset(events) && Sorted(other)
        ==> Answer(other, agent, t) == Answer(events, agent, t)
  {
    if NoTies(events, agent) {
      forall other, t | multiset(other) == multiset(events) && Sorted(other)
        ensures Answer(other, agent, t) == Answer(events, agent, t)
      {
        AnswerIsRight(events, events, agent, t);
        AnswerIsRight(other, events, agent, t);
        AnswersAreUnique(events, agent, t, Answer(events, agent, t), Answer(other, agent, t));
      }
    } else {
      var other, t := TieChangesAnswer(events, agent);
    }
  }

  /** The first event of agent at t. */
  lemma {:induction false} FirstOf(events: seq<Event>, agent: string, t: int) returns (i: nat)
    requires exists e :: IsAt(events, agent, t, e)
    ensures i < |events| && IsAt(events, agent, t, events[i])
    ensures forall k :: 0 <= k < i ==> !IsAt(events, agent, t, events[k])
  {
    i := 0;
    while !IsAt(events, agent, t, events[i])
      invariant i < |events|
      invariant forall k :: 0 <= k < i ==> !IsAt(events, agent, t, events[k])
      decreases |events| - i
    {
      var e :| IsAt(events, agent, t, e);
      var j :| 0 <= j < |events| && events[j] == e;
      i := i + 1;
    }
  }

  lemma {:induction false} AnswerOfFirst(events: seq<Event>, agent: string, t: int, i: nat, seen: Option<Event>)
    requires i < |events| && events[i].agent == agent && events[i].time == t
    requires forall k :: 0 <= k < i ==> !(events[k].agent == agent && events[k].time == t)
    ensures Scan(OfAgent(events, agent), t, seen) == Outcome(events[i], true)
  {
    var own := OfAgent(events, agent);
    if i == 0 {
      assert own[0] == events[0];
    } else {
      var e := events[0];
      AnswerOfFirst(events[1..], agent, t, i - 1,
                    if e.agent == agent && e.time < t then Some(e) else seen);
      if e.agent == agent {
        assert own[0] == e && own[1..] == OfAgent(events[1..], agent);
      } else {
        assert own == OfAgent(events[1..], agent);
      }
    }
  }

  lemma TieChangesAnswer(events: seq<Event>, agent: string) returns (other: seq<Event>, t: int)
    requires Sorted(events) && !NoTies(events, agent)
    ensures multiset(other) == multiset(events) && Sorted(other)
    ensures Answer(other, agent, t) != Answer(events, agent, t)
  {
    var d, e :| d in events && e in events && d.agent == agent && e.agent == agent && d.time == e.time
      && d.address != e.address;
    t := d.time;
    assert IsAt(events, agent, t, d);
    var i := FirstOf(events, agent, t);
    var second := if events[i].address == d.address then e else d;
    var j :| 0 <= j < |events| && events[j] == second;
    assert IsAt(events, agent, t, events[j]);
    other := events[i := events[j]][j := events[i]];
    SwapKeepsOrdered(TimeOf, events, i, j);
    AnswerOfSwapped(events, agent, t, i, j);
  }

  lemma {:induction false} AnswerOfSwapped(events: seq<Event>, agent: string, t: int, i: nat, j: nat)
    requires i < j < |events| && IsAt(events, agent, t, events[i]) && IsAt(events, agent, t, events[j])
    requires forall k :: 0 <= k < i ==> !IsAt(events, agent, t, events[k])
    requires events[i].address != events[j].address
    ensures Answer(events[i := events[j]][j := events[i]], agent, t) != Answer(events, agent, t)
  {
    var other := events[i := events[j]][j := events[i]];
    forall k | 0 <= k < i
      ensures !(events[k].agent == agent && events[k].time == t) && other[k] == events[k]
    {
      assert !IsAt(events, agent, t, events[k]);
    }
    AnswerOfFirst(events, agent, t, i, None);
    AnswerOfFirst(other, agent, t, i, None);
    assert events[i] in OfAgent(events, agent) && other[i] in OfAgent(other, agent);
  }

  // ----- The stream -----

  /** The connection events among raws, or None when one of them makes the
      constructor fail. */
  function Collected(raws: seq<Raw>): Option<seq<Event>> {
    if raws == [] then Some([]) else Preceded(raws[0], Collected(raws[1..]))
  }

  function Preceded(raw: Raw, rest: Option<seq<Event>>): Option<seq<Event>> {
    match raw
    case Other => rest
    case Decoded(e) => if rest.None? then None else Some([e] + rest.value)
    case _ => None
  }

  predicate IsReadable(raw: Raw) {
    raw.Other? || raw.Decoded?
  }

  /** The connection events among raws. */
  function Connections(raws: seq<Raw>): seq<Event> {
    if raws == [] then []
    else (if raws[0].Decoded? then [raws[0].event] else []) + Connections(raws[1..])
  }

  /** Collecting fails exactly when an event cannot be read, and collects exactly
      the connection events, each as often as it comes and in order. */
  lemma {:induction false} CollectedExactly(raws: seq<Raw>)
    ensures Collected(raws) ==
      if forall raw :: raw in raws ==> IsReadable(raw) then Some(Connections(raws)) else None
  {
    if raws != [] {
      CollectedExactly(raws[1..]);
      assert raws[0] in raws;
      assert forall raw :: raw in raws <==> raw == raws[0] || raw in raws[1..];
      assert [] + Connections(raws[1..]) == Connections(raws[1..]);
    }
  }

  function After(sofar: seq<Event>, rest: Option<seq<Event>>): Option<seq<Event>> {
    if rest.None? then None else Some(sofar + rest.value)
  }

  lemma AfterOne(sofar: seq<Event>, e: Event, rest: Option<seq<Event>>)
    ensures After(sofar, Preceded(Decoded(e), rest)) == After(sofar + [e], rest)
  {
    if rest.Some? {
      assert sofar + ([e] + rest.value) == (sofar + [e]) + rest.value;
    }
  }

  lemma AfterNone(rest: Option<seq<Event>>)
    ensures After([], rest) == rest
  {
    assert rest.Some? ==> [] + rest.value == rest.value;
  }

  method Collect(raws: seq<Raw>) returns (events: Option<seq<Event>>)
    ensures events == Collected(raws)
  {
    var sofar: seq<Event> := [];
    var i := 0;
    assert raws[0..] == raws;
    AfterNone(Collected(raws));
    while i < |raws|
      invariant 0 <= i <= |raws|
      invariant After(sofar, Collected(raws[i..])) == Collected(raws)
    {
      assert Collected(raws[i..]) == Preceded(raws[i], Collected(raws[i + 1..])) by {
        assert raws[i..][1..] == raws[i + 1..];
      }
      match raws[i] {
        case Other =>
        case Decoded(e) =>
          AfterOne(sofar, e, Collected(raws[i + 1..]));
          sofar := sofar + [e];
        case _ => return None;
      }
      i := i + 1;
    }
    assert sofar + [] == sofar;
    return Some(sofar);
  }

  /** byAgent holds every agent's events, in the order of events. */
  ghost predicate Splits(byAgent: map<string, seq<Event>>, events: seq<Event>) {
    forall a :: SplitsAt(byAgent, events, a)
  }

  ghost predicate SplitsAt(byAgent: map<string, seq<Event>>, events: seq<Event>, a: string) {
    if a in byAgent then byAgent[a] == OfAgent(events, a) && byAgent[a] != [] else OfAgent(events, a) == []
  }

  /** Appends e to its agent's list. */
  function Appended(byAgent: map<string, seq<Event>>, e: Event): map<string, seq<Event>> {
    byAgent[e.agent := (if e.agent in byAgent then byAgent[e.agent] else []) + [e]]
  }

  lemma SplitsSnoc(byAgent: map<string, seq<Event>>, events: seq<Event>, e: Event)
    requires Splits(byAgent, events)
    ensures Splits(Appended(byAgent, e), events + [e])
  {
    forall a
      ensures SplitsAt(Appended(byAgent, e), events + [e], a)
    {
      assert SplitsAt(byAgent, events, a);
      OfAgentSnoc(events, e, a);
    }
  }

  method SortByTime(collected: seq<Event>) returns (sorted: seq<Event>)
    ensures Sorted(sorted) && multiset(sorted) == multiset(collected)
  {
    sorted := SortBy(TimeOf, collected);
  }

  method SplitByAgent(events: seq<Event>) returns (byAgent: map<string, seq<Event>>)
    ensures Splits(byAgent, events)
  {
    byAgent := map[];
    var i := 0;
    assert events[..0] == [] && forall a :: SplitsAt(byAgent, [], a);
    while i < |events|
      invariant 0 <= i <= |events|
      invariant Splits(byAgent, events[..i])
    {
      SplitsSnoc(byAgent, events[..i], events[i]);
      assert events[..i + 1] == events[..i] + [events[i]];
      byAgent := Appended(byAgent, events[i]);
      i := i + 1;
    }
    assert events[..i] == events;
  }

  class AgentConnectionStream {
    var events: seq<Event>
    var eventsByAgent: map<string, seq<Event>>

    ghost predicate Valid()
      reads this
    {
      Sorted(events) && Splits(eventsByAgent, events)
    }

    constructor (collected: seq<Event>)
      ensures Valid() && multiset(events) == multiset(collected)
    {
      events := collected;
      eventsByAgent := map[];
      new;
      events := SortByTime(collected);
      eventsByAgent := SplitByAgent(events);
    }

    method AddressAt(agent: string, t: int) returns (r: Lookup)
      requires Valid()
      ensures r == Answer(events, agent, t)
      ensures forall collected :: multiset(collected) == multiset(events) ==> Answers(collected, agent, t, r)
    {
      forall collected | multiset(collected) == multiset(events)
        ensures Answers(collected, agent, t, Answer(events, agent, t))
      {
        AnswerIsRight(events, collected, agent, t);
      }
      assert SplitsAt(eventsByAgent, events, agent);
      if agent !in eventsByAgent || eventsByAgent[agent] == [] {
        return NoEvents;
      }
      var own := eventsByAgent[agent];
      OfAgentStaysSorted(events, agent);
      var i := Search(own, t);
      ScanIsSearch(own, t, i, None);
      if i < |own| && own[i].time == t {
        return Outcome(own[i], true);
      }
      if i == 0 {
        return NothingBefore;
      }
      return Outcome(own[i - 1], false);
    }
  }

  /** NewAgentConnectionStream: the stream of the connection events among raws,
      or None when one of them cannot be read. */
  method Open(raws: seq<Raw>) returns (stream: Option<AgentConnectionStream>)
    ensures stream.Some? <==> forall raw :: raw in raws ==> IsReadable(raw)
    ensures stream.Some? ==> fresh(stream.value) && stream.value.Valid()
    ensures stream.Some? ==> multiset(stream.value.events) == multiset(Connections(raws))
  {
    var collected := Collect(raws);
    CollectedExactly(raws);
    if collected.None? {
      return None;
    }
    var h := new AgentConnectionStream(collected.value);
    return Some(h);
  }

  /** Binary search for the first event at or after t. */
  method Search(events: seq<Event>, t: int) returns (i: nat)
    requires Sorted(events)
    ensures IsPosition(events, t, i)
  {
    i := 0;
    var j := |events|;
    while i < j
      invariant 0 <= i <= j <= |events|
      invariant forall k :: 0 <= k < i ==> events[k].time < t
      invariant forall k :: j <= k < |events| ==> t <= events[k].time
    {
      var h := (i + j) / 2;
      if events[h].time < t {
        i := h + 1;
      } else {
        j := h;
      }
    }
  }
}
