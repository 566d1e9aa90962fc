/** The in-flight counter of the observability middleware (apps/api/core/middleware.py): how
    `dispatch` raises it on the way in and lowers it in a `finally`, from many threads at once. */
module InFlight {
  import opened Text

  /** `max(0, self._in_flight + delta)`. */
  function Adjusted(inFlight: int, delta: int): int {
    if inFlight + delta >= 0 then inFlight + delta else 0
  }

  type Id = nat

  /** The counter, with the metered requests that have added their one and not yet taken it away. */
  class Counter {
    var inFlight: int
    ghost var open: set<Id>

    ghost predicate Valid()
      reads this
    {
      inFlight == |open|
    }

    constructor ()
      ensures Valid() && open == {}
    {
      inFlight := 0;
      open := {};
    }

    /** `_adjust_in_flight`, as `dispatch` calls it for the request `id`: +1 on the way in and -1 in
        the `finally`. What is returned is published: the number of requests then in flight. */
    method AdjustInFlight(ghost id: Id, metered: bool, delta: int) returns (current: Option<int>)
      requires Valid()
      requires (delta == 1 && id !in open) || (delta == -1 && (metered ==> id in open))
      modifies this
      ensures Valid()
      ensures open == if !metered then old(open) else if delta == 1 then old(open) + {id} else old(open) - {id}
      ensures current == if metered then Some(|open|) else None
    {
      if !metered { return None; }
      inFlight := Adjusted(inFlight, delta);
      open := if delta == 1 then open + {id} else open - {id};
      current := Some(inFlight);
    }
  }

  // ----- concurrent requests -----

  /** How far a request has come. Between taking and releasing the lock the counter is read and
      written in separate steps; `write` numbers the writes so that a published value can be told
      from an outdated one. */
  datatype Stage =
    | Arriving
    | UpLocked | UpRead(value: int) | UpWritten | UpReleased(current: int, write: nat)
    | Serving
    | Leaving
    | DownLocked | DownRead(value: int) | DownWritten | DownReleased(current: int, write: nat)
    | Done

  datatype Request = Request(metered: bool, stage: Stage)

  datatype State = State(
    counter: int, lock: Option<Id>, requests: map<Id, Request>, gauge: int, writes: nat, published: nat)

  const INITIAL: State := State(0, None, map[], 0, 0, 0)

  /** One thing that can happen next: a request arrives, takes its next step, or has its next step
      raise. */
  datatype Event = Arrive(id: Id, metered: bool) | Advance(id: Id) | Raise(id: Id)

  function Go(s: State, id: Id, stage: Stage): State
    requires id in s.requests
  {
    s.(requests := s.requests[id := s.requests[id].(stage := stage)])
  }

  function TakeLock(s: State, id: Id, stage: Stage): State
    requires id in s.requests
  {
    if s.lock.None? then Go(s, id, stage).(lock := Some(id)) else s
  }

  function Write(s: State, id: Id, value: int, stage: Stage): State
    requires id in s.requests
  {
    Go(s, id, stage).(counter := value, writes := s.writes + 1)
  }

  /** The step a request takes by itself. A thread that finds the lock taken stays where it is. */
  function Advanced(s: State, id: Id): State
    requires id in s.requests
  {
    match s.requests[id].stage
    case Arriving => if s.requests[id].metered then TakeLock(s, id, UpLocked) else Go(s, id, Serving)
    case UpLocked => Go(s, id, UpRead(s.counter))
    case UpRead(value) => Write(s, id, Adjusted(value, 1), UpWritten)
    case UpWritten => Go(s, id, UpReleased(s.counter, s.writes)).(lock := None)
    case UpReleased(current, write) => Go(s, id, Serving).(gauge := current, published := write)
    case Serving => Go(s, id, Leaving)
    case Leaving => if s.requests[id].metered then TakeLock(s, id, DownLocked) else Go(s, id, Done)
    case DownLocked => Go(s, id, DownRead(s.counter))
    case DownRead(value) => Write(s, id, Adjusted(value, -1), DownWritten)
    case DownWritten => Go(s, id, DownReleased(s.counter, s.writes)).(lock := None)
    case DownReleased(current, write) => Go(s, id, Done).(gauge := current, published := write)
    case Done => s
  }

  /** A handler that raises still reaches the `finally`; a gauge that raises is ignored. */
  function Raised(s: State, id: Id): State
    requires id in s.requests
  {
    match s.requests[id].stage
    case UpReleased(_, _) => Go(s, id, Serving)
    case Serving => Go(s, id, Leaving)
    case DownReleased(_, _) => Go(s, id, Done)
    case _ => s
  }

  function Next(s: State, e: Event): State {
    match e
    case Arrive(id, metered) =>
      if id in s.requests then s else s.(requests := s.requests[id := Request(metered, Arriving)])
    case Advance(id) => if id in s.requests then Advanced(s, id) else s
    case Raise(id) => if id in s.requests then Raised(s, id) else s
  }

  /** The state after any interleaving of events. */
  function Run(events: seq<Event>): State {
    if events == [] then INITIAL else Next(Run(events[..|events| - 1]), events[|events| - 1])
  }

  // ----- the invariant -----

  /** The request has added its one and not yet taken it away. */
  predicate Counts(r: Request) {
    r.metered && match r.stage
                 case UpWritten | UpReleased(_, _) | Serving | Leaving | DownLocked | DownRead(_) => true
                 case _ => false
  }

  predicate HoldsLock(r: Request) {
    match r.stage
    case UpLocked | UpRead(_) | UpWritten | DownLocked | DownRead(_) | DownWritten => true
    case _ => false
  }

  predicate OutsideMetering(r: Request) {
    match r.stage
    case Arriving | Serving | Leaving | Done => true
    case _ => false
  }

  function Counting(requests: map<Id, Request>): set<Id> {
    set id | id in requests && Counts(requests[id])
  }

  /** What is known of one request: only the owner is inside the lock, a value read there is still
      the counter's, a value to be published is the one its write left, and a request without
      metrics is never inside. */
  predicate Consistent(s: State, id: Id)
    requires id in s.requests
  {
    var r := s.requests[id];
    && (HoldsLock(r) <==> s.lock == Some(id))
    && (!r.metered ==> OutsideMetering(r))
    && match r.stage
       case UpRead(value) => value == s.counter
       case DownRead(value) => value == s.counter
       case UpReleased(current, write) => write <= s.writes && (write == s.writes ==> current == s.counter)
       case DownReleased(current, write) => write <= s.writes && (write == s.writes ==> current == s.counter)
       case _ => true
  }

  ghost predicate Inv(s: State) {
    && s.counter == |Counting(s.requests)|
    && (forall id | id in s.requests :: Consistent(s, id))
    && (s.lock.Some? ==> s.lock.value in s.requests)
    && s.published <= s.writes && (s.published == s.writes ==> s.gauge == s.counter)
  }

  /** Replacing one request adds it to, or takes it out of, those that count. */
  lemma CountingStep(requests: map<Id, Request>, id: Id, r: Request)
    ensures var before, after := Counting(requests), Counting(requests[id := r]);
            |after| == |before| + (if Counts(r) then 1 else 0) - (if id in before then 1 else 0)
  {
    var before, after := Counting(requests), Counting(requests[id := r]);
    assert after == if Counts(r) then before + {id} else before - {id};
  }

  lemma InvArrive(s: State, id: Id, metered: bool)
    requires Inv(s)
    ensures Inv(Next(s, Arrive(id, metered)))
  {
    if id !in s.requests {
      var t := Next(s, Arrive(id, metered));
      CountingStep(s.requests, id, Request(metered, Arriving));
      forall other | other in t.requests ensures Consistent(t, other) {
        if other != id { assert Consistent(s, other); }
      }
    }
  }

  /** Moving one request on keeps the invariant if the counter moves with it and both it and the
      others fit the new state. */
  lemma InvReplace(s: State, id: Id, t: State)
    requires Inv(s) && id in s.requests && id in t.requests && t.requests == s.requests[id := t.requests[id]]
    requires t.counter
          == s.counter + (if Counts(t.requests[id]) then 1 else 0) - (if Counts(s.requests[id]) then 1 else 0)
    requires Consistent(t, id)
    requires forall other | other in s.requests && other != id :: Consistent(s, other) ==> Consistent(t, other)
    requires t.lock.Some? ==> t.lock.value in t.requests
    requires t.published <= t.writes && (t.published == t.writes ==> t.gauge == t.counter)
    ensures Inv(t)
  {
    CountingStep(s.requests, id, t.requests[id]);
    forall other | other in t.requests ensures Consistent(t, other) {
      if other != id { assert Consistent(s, other); }
    }
  }

  lemma InvGo(s: State, id: Id, stage: Stage)
    requires Inv(s) && id in s.requests
    requires var r, r' := s.requests[id], s.requests[id].(stage := stage);
             (HoldsLock(r) <==> HoldsLock(r')) && (Counts(r) <==> Counts(r'))
             && (stage.UpRead? ==> stage.value == s.counter) && (stage.DownRead? ==> stage.value == s.counter)
             && !stage.UpReleased? && !stage.DownReleased? && (!r.metered ==> OutsideMetering(r'))
    ensures Inv(Go(s, id, stage))
  {
    assert Consistent(s, id);
    InvReplace(s, id, Go(s, id, stage));
  }

  lemma InvTakeLock(s: State, id: Id, stage: Stage)
    requires Inv(s) && id in s.requests && s.requests[id].metered
    requires || (s.requests[id].stage.Arriving? && stage == UpLocked)
             || (s.requests[id].stage.Leaving? && stage == DownLocked)
    ensures Inv(TakeLock(s, id, stage))
  {
    assert Consistent(s, id);
    if s.lock.None? { InvReplace(s, id, TakeLock(s, id, stage)); }
  }

  lemma InvWrite(s: State, id: Id)
    requires Inv(s) && id in s.requests
    requires s.requests[id].stage.UpRead? || s.requests[id].stage.DownRead?
    ensures Inv(Advanced(s, id))
  {
    assert Consistent(s, id);
    if s.requests[id].stage.DownRead? {
      assert id in Counting(s.requests);
      assert |Counting(s.requests)| >= 1;
    }
    InvReplace(s, id, Advanced(s, id));
  }

  lemma InvRelease(s: State, id: Id)
    requires Inv(s) && id in s.requests
    requires s.requests[id].stage.UpWritten? || s.requests[id].stage.DownWritten?
    ensures Inv(Advanced(s, id))
  {
    assert Consistent(s, id);
    InvReplace(s, id, Advanced(s, id));
  }

  lemma InvPublish(s: State, id: Id)
    requires Inv(s) && id in s.requests
    requires s.requests[id].stage.UpReleased? || s.requests[id].stage.DownReleased?
    ensures Inv(Advanced(s, id)) && Inv(Raised(s, id))
  {
    assert Consistent(s, id);
    InvReplace(s, id, Advanced(s, id));
    InvReplace(s, id, Raised(s, id));
  }

  lemma {:induction false} InvAdvanced(s: State, id: Id)
    requires Inv(s) && id in s.requests
    ensures Inv(Advanced(s, id))
  {
    assert Consistent(s, id);
    match s.requests[id].stage
    case Arriving => if s.requests[id].metered { InvTakeLock(s, id, UpLocked); } else { InvGo(s, id, Serving); }
    case UpLocked => InvGo(s, id, UpRead(s.counter));
    case UpRead(_) => InvWrite(s, id);
    case UpWritten => InvRelease(s, id);
    case UpReleased(_, _) => InvPublish(s, id);
    case Serving => InvGo(s, id, Leaving);
    case Leaving => if s.requests[id].metered { InvTakeLock(s, id, DownLocked); } else { InvGo(s, id, Done); }
    case DownLocked => InvGo(s, id, DownRead(s.counter));
    case DownRead(_) => InvWrite(s, id);
    case DownWritten => InvRelease(s, id);
    case DownReleased(_, _) => InvPublish(s, id);
    case Done =>
  }

  lemma InvRaised(s: State, id: Id)
    requires Inv(s) && id in s.requests
    ensures Inv(Raised(s, id))
  {
    match s.requests[id].stage
    case UpReleased(_, _) => InvPublish(s, id);
    case DownReleased(_, _) => InvPublish(s, id);
    case Serving => InvGo(s, id, Leaving);
    case _ =>
  }

  /** Every interleaving keeps the invariant. */
  lemma {:induction false} InvAlways(events: seq<Event>)
    ensures Inv(Run(events))
  {
    if events != [] {
      var s, e := Run(events[..|events| - 1]), events[|events| - 1];
      InvAlways(events[..|events| - 1]);
      match e
      case Arrive(id, metered) => InvArrive(s, id, metered);
      case Advance(id) => if id in s.requests { InvAdvanced(s, id); }
      case Raise(id) => if id in s.requests { InvRaised(s, id); }
    }
  }

  // ----- what follows -----

  /** In every interleaving, with handlers and gauges raising anywhere, the counter is the number of
      metered requests between their own +1 and -1. */
  lemma CounterIsExact(events: seq<Event>)
    ensures var s := Run(events); s.counter == |Counting(s.requests)|
  {
    InvAlways(events);
  }

  /** The floor at zero never comes into play: whoever is about to write adds exactly its delta. */
  lemma FloorNeverApplies(events: seq<Event>, id: Id)
    requires id in Run(events).requests
    ensures match Run(events).requests[id].stage
            case UpRead(value) => Adjusted(value, 1) == Run(events).counter + 1
            case DownRead(value) => value >= 1 && Adjusted(value, -1) == Run(events).counter - 1
            case _ => true
  {
    var s := Run(events);
    InvAlways(events);
    assert Consistent(s, id);
    if s.requests[id].stage.DownRead? { assert id in Counting(s.requests); }
  }

  /** Once no metered request is under way the counter is back at zero. */
  lemma DrainsToZero(events: seq<Event>)
    requires forall id | id in Run(events).requests :: !Counts(Run(events).requests[id])
    ensures Run(events).counter == 0
  {
    InvAlways(events);
    assert Counting(Run(events).requests) == {};
  }

  /** At most one thread is between taking and releasing the lock. */
  lemma MutualExclusion(events: seq<Event>, a: Id, b: Id)
    requires a in Run(events).requests && b in Run(events).requests
    requires HoldsLock(Run(events).requests[a]) && HoldsLock(Run(events).requests[b])
    ensures a == b
  {
    InvAlways(events);
    assert Consistent(Run(events), a) && Consistent(Run(events), b);
  }

  // ----- every run can finish -----

  /** A handler that raises comes to the same place as one that returns; a gauge that raises only is not set. */
  lemma RaisedExactly(s: State, id: Id)
    requires id in s.requests
    ensures s.requests[id].stage == Serving ==> Next(s, Raise(id)) == Next(s, Advance(id)) == Go(s, id, Leaving)
    ensures s.requests[id].stage.UpReleased? || s.requests[id].stage.DownReleased? ==>
              Next(s, Raise(id)) == Next(s, Advance(id)).(gauge := s.gauge, published := s.published)
  {
  }

  function StepsLeft(stage: Stage): nat {
    match stage
    case Arriving => 11
    case UpLocked => 10
    case UpRead(_) => 9
    case UpWritten => 8
    case UpReleased(_, _) => 7
    case Serving => 6
    case Leaving => 5
    case DownLocked => 4
    case DownRead(_) => 3
    case DownWritten => 2
    case DownReleased(_, _) => 1
    case Done => 0
  }

  predicate MayProceed(s: State, id: Id) { s.lock == None || s.lock == Some(id) }

  lemma StepForward(s: State, id: Id)
    requires Inv(s) && id in s.requests && MayProceed(s, id) && s.requests[id].stage != Done
    ensures var t := Next(s, Advance(id));
            && id in t.requests && t.requests == s.requests[id := t.requests[id]] && MayProceed(t, id)
            && StepsLeft(t.requests[id].stage) < StepsLeft(s.requests[id].stage)
  {
    assert Consistent(s, id);
  }

  /** A request that has the lock, or needs wait for nobody, can be brought to its end. */
  lemma {:induction false} FinishOne(events: seq<Event>, id: Id) returns (more: seq<Event>)
    requires id in Run(events).requests && MayProceed(Run(events), id)
    ensures var s, t := Run(events), Run(events + more);
            && id in t.requests && t.requests == s.requests[id := t.requests[id]]
            && t.requests[id].stage == Done && t.lock == None
    ensures |more| <= StepsLeft(Run(events).requests[id].stage)
    decreases StepsLeft(Run(events).requests[id].stage)
  {
    var s := Run(events);
    InvAlways(events);
    if s.requests[id].stage == Done {
      more := [];
      assert events + [] == events && Consistent(s, id);
    } else {
      var step := [Advance(id)];
      StepForward(s, id);
      assert (events + step)[..|events|] == events;
      var rest := FinishOne(events + step, id);
      more := step + rest;
      assert events + more == events + step + rest;
    }
  }

  function Unfinished(s: State): set<Id> {
    set id | id in s.requests && s.requests[id].stage != Done
  }

  lemma WhenAllFinished(events: seq<Event>)
    requires Unfinished(Run(events)) == {}
    ensures Run(events).lock == None && Run(events).counter == 0
  {
    var s := Run(events);
    InvAlways(events);
    forall id | id in s.requests ensures s.requests[id].stage == Done {
      assert id !in Unfinished(s);
    }
    assert s.lock.Some? ==> Consistent(s, s.lock.value);
    DrainsToZero(events);
  }

  /** Whoever has the lock can proceed, and if nobody has it, everybody can. */
  lemma SomeoneMayProceed(s: State) returns (id: Id)
    requires Inv(s) && Unfinished(s) != {}
    ensures id in Unfinished(s) && MayProceed(s, id)
  {
    id :| id in Unfinished(s);
    if s.lock.Some? {
      id := s.lock.value;
      assert Consistent(s, id);
    }
  }

  lemma OneLessUnfinished(s: State, t: State, id: Id)
    requires id in Unfinished(s) && id in t.requests && t.requests[id].stage == Done
    requires t.requests == s.requests[id := t.requests[id]]
    ensures t.requests.Keys == s.requests.Keys && |Unfinished(t)| == |Unfinished(s)| - 1
  {
    assert Unfinished(t) == Unfinished(s) - {id};
  }

  lemma AtMostEleven(stage: Stage)
    ensures StepsLeft(stage) <= 11
  {
  }

  /** Nothing gets stuck: from wherever an interleaving stands, its requests can all come to their end, in at
      most eleven steps each, and then the lock is free and the counter at zero. */
  lemma {:induction false} EveryRunCanFinish(events: seq<Event>) returns (more: seq<Event>)
    ensures var s, t := Run(events), Run(events + more);
            && t.requests.Keys == s.requests.Keys && Unfinished(t) == {} && t.lock == None && t.counter == 0
            && |more| <= 11 * |Unfinished(s)|
    decreases |Unfinished(Run(events))|
  {
    var s := Run(events);
    if Unfinished(s) == {} {
      more := [];
      assert events + [] == events;
      WhenAllFinished(events);
    } else {
      InvAlways(events);
      var id := SomeoneMayProceed(s);
      var one := FinishOne(events, id);
      AtMostEleven(s.requests[id].stage);
      OneLessUnfinished(s, Run(events + one), id);
      var rest := EveryRunCanFinish(events + one);
      more := one + rest;
      assert events + more == events + one + rest;
    }
  }

  // ----- the gauge -----

  function Sum(deltas: seq<int>): int {
    if deltas == [] then 0 else Sum(deltas[..|deltas| - 1]) + deltas[|deltas| - 1]
  }

  /** What an event in a state adds to the counter, if it is a write. */
  function Delta(s: State, e: Event): seq<int> {
    if e.Advance? && e.id in s.requests then
      match s.requests[e.id].stage
      case UpRead(_) => [1]
      case DownRead(_) => [-1]
      case _ => []
    else []
  }

  /** The +1s and -1s written so far, in the order of the writes. */
  function Deltas(events: seq<Event>): seq<int> {
    if events == [] then []
    else
      var before := events[..|events| - 1];
      Deltas(before) + Delta(Run(before), events[|events| - 1])
  }

  /** A value waiting to be published is what the counter was after the write it stems from. */
  predicate ReadingOf(r: Request, deltas: seq<int>) {
    match r.stage
    case UpReleased(current, write) => write <= |deltas| && current == Sum(deltas[..write])
    case DownReleased(current, write) => write <= |deltas| && current == Sum(deltas[..write])
    case _ => true
  }

  ghost predicate GaugeInv(s: State, deltas: seq<int>) {
    && |deltas| == s.writes && Sum(deltas) == s.counter
    && s.published <= |deltas| && s.gauge == Sum(deltas[..s.published])
    && forall id | id in s.requests :: ReadingOf(s.requests[id], deltas)
  }

  lemma SumAppend(deltas: seq<int>, d: int)
    ensures Sum(deltas + [d]) == Sum(deltas) + d
  {
    assert (deltas + [d])[..|deltas|] == deltas;
  }

  lemma {:induction false} SumSplit(deltas: seq<int>, n: nat)
    requires n <= |deltas|
    ensures Sum(deltas) == Sum(deltas[..n]) + Sum(deltas[n..])
  {
    if n == |deltas| {
      assert deltas[..n] == deltas && deltas[n..] == [];
    } else {
      var m := |deltas| - 1;
      SumSplit(deltas[..m], n);
      assert deltas[..m][..n] == deltas[..n] && deltas[n..][..m - n] == deltas[..m][n..];
    }
  }

  lemma ReadingKept(r: Request, deltas: seq<int>, d: int)
    requires ReadingOf(r, deltas)
    ensures ReadingOf(r, deltas + [d])
  {
    match r.stage
    case UpReleased(_, write) => assert (deltas + [d])[..write] == deltas[..write];
    case DownReleased(_, write) => assert (deltas + [d])[..write] == deltas[..write];
    case _ =>
  }

  lemma GaugeWrite(s: State, deltas: seq<int>, id: Id, d: int)
    requires Inv(s) && GaugeInv(s, deltas) && id in s.requests && Delta(s, Advance(id)) == [d]
    ensures GaugeInv(Advanced(s, id), deltas + [d])
  {
    var t := Advanced(s, id);
    assert Consistent(s, id);
    if s.requests[id].stage.DownRead? { assert id in Counting(s.requests); }
    SumAppend(deltas, d);
    assert (deltas + [d])[..s.published] == deltas[..s.published];
    forall other | other in t.requests ensures ReadingOf(t.requests[other], deltas + [d]) {
      if other != id { ReadingKept(s.requests[other], deltas, d); }
    }
  }

  lemma GaugeOther(s: State, deltas: seq<int>, e: Event)
    requires Inv(s) && GaugeInv(s, deltas) && Delta(s, e) == []
    ensures GaugeInv(Next(s, e), deltas)
  {
    assert deltas[..|deltas|] == deltas;
    if !e.Arrive? && e.id in s.requests {
      assert Consistent(s, e.id) && ReadingOf(s.requests[e.id], deltas);
    }
  }

  lemma {:induction false} GaugeAlways(events: seq<Event>)
    ensures GaugeInv(Run(events), Deltas(events))
  {
    if events != [] {
      var before, e := events[..|events| - 1], events[|events| - 1];
      InvAlways(before);
      GaugeAlways(before);
      if Delta(Run(before), e) == [] {
        assert Deltas(events) == Deltas(before);
        GaugeOther(Run(before), Deltas(before), e);
      } else {
        GaugeWrite(Run(before), Deltas(before), e.id, Delta(Run(before), e)[0]);
      }
    }
  }

  /** The gauge is published outside the lock, but never invented: it shows what the counter was
      after one of its writes. */
  lemma {:induction false} GaugeIsAReading(events: seq<Event>)
    ensures Run(events).published <= Run(events).writes == |Deltas(events)|
    ensures Run(events).counter == Sum(Deltas(events))
    ensures Run(events).gauge == Sum(Deltas(events)[..Run(events).published])
  {
    GaugeAlways(events);
  }

  /** It is right exactly when the writes since then took away as much as they added, in particular
      when there was none. */
  lemma GaugeIsCurrentExactly(events: seq<Event>)
    ensures Run(events).published <= |Deltas(events)|
    ensures Run(events).gauge == Run(events).counter <==> Sum(Deltas(events)[Run(events).published..]) == 0
    ensures Run(events).published == Run(events).writes ==> Run(events).gauge == Run(events).counter
  {
    GaugeAlways(events);
    SumSplit(Deltas(events), Run(events).published);
  }

  // ----- an interleaving that outdates the gauge -----

  function Times(s: State, id: Id, n: nat): State {
    if n == 0 then s else Next(Times(s, id, n - 1), Advance(id))
  }

  function Steps(id: Id, n: nat): seq<Event> {
    if n == 0 then [] else Steps(id, n - 1) + [Advance(id)]
  }

  lemma {:induction false} RunSteps(events: seq<Event>, id: Id, n: nat)
    ensures Run(events + Steps(id, n)) == Times(Run(events), id, n)
  {
    if n == 0 {
      assert events + [] == events;
    } else {
      RunSteps(events, id, n - 1);
      var all := events + Steps(id, n);
      assert all[..|all| - 1] == events + Steps(id, n - 1);
    }
  }

  /** Two steps of one request in a row leave what the second one says of it. */
  lemma GoTwice(s: State, id: Id, a: Stage, b: Stage)
    requires id in s.requests
    ensures Go(Go(s, id, a), id, b) == Go(s, id, b)
  {
    assert s.requests[id := s.requests[id].(stage := a)][id := s.requests[id].(stage := b)]
        == s.requests[id := s.requests[id].(stage := b)];
  }

  lemma Enter(s: State, id: Id)
    requires id in s.requests && s.lock == None && s.requests[id] == Request(true, Arriving) && s.counter >= 0
    ensures Times(s, id, 5)
         == Go(s, id, Serving).(
              counter := s.counter + 1, gauge := s.counter + 1, writes := s.writes + 1, published := s.writes + 1)
  {
    var n := s.counter + 1;
    var s1 := Go(s, id, UpLocked).(lock := Some(id));
    var s2 := Go(s, id, UpRead(s.counter)).(lock := Some(id));
    var s3 := Go(s, id, UpWritten).(lock := Some(id), counter := n, writes := s.writes + 1);
    var s4 := Go(s, id, UpReleased(n, s.writes + 1)).(counter := n, writes := s.writes + 1);
    GoTwice(s, id, UpLocked, UpRead(s.counter));
    GoTwice(s, id, UpRead(s.counter), UpWritten);
    GoTwice(s, id, UpWritten, UpReleased(n, s.writes + 1));
    GoTwice(s, id, UpReleased(n, s.writes + 1), Serving);
    assert Times(s, id, 0) == s;
    assert Times(s, id, 1) == s1;
    assert Times(s, id, 2) == s2;
    assert Times(s, id, 3) == s3;
    assert Times(s, id, 4) == s4;
  }

  lemma LeaveUnpublished(s: State, id: Id)
    requires id in s.requests && s.lock == None && s.requests[id] == Request(true, Serving) && s.counter >= 1
    ensures Times(s, id, 5)
         == Go(s, id, DownReleased(s.counter - 1, s.writes + 1)).(counter := s.counter - 1, writes := s.writes + 1)
  {
    var n := s.counter - 1;
    var s1 := Go(s, id, Leaving);
    var s2 := Go(s, id, DownLocked).(lock := Some(id));
    var s3 := Go(s, id, DownRead(s.counter)).(lock := Some(id));
    var s4 := Go(s, id, DownWritten).(lock := Some(id), counter := n, writes := s.writes + 1);
    GoTwice(s, id, Leaving, DownLocked);
    GoTwice(s, id, DownLocked, DownRead(s.counter));
    GoTwice(s, id, DownRead(s.counter), DownWritten);
    GoTwice(s, id, DownWritten, DownReleased(n, s.writes + 1));
    assert Times(s, id, 0) == s;
    assert Times(s, id, 1) == s1;
    assert Times(s, id, 2) == s2;
    assert Times(s, id, 3) == s3;
    assert Times(s, id, 4) == s4;
  }

  const DRAINED_WITH_GAUGE_ONE: State :=
    State(0, None, map[1 := Request(true, Done), 2 := Request(true, Done)], 1, 4, 3)

  lemma TwoArrive() returns (events: seq<Event>)
    ensures Run(events) == INITIAL.(requests := map[1 := Request(true, Arriving), 2 := Request(true, Arriving)])
  {
    var a := [Arrive(1, true)];
    events := a + [Arrive(2, true)];
    assert a[..0] == [] && events[..1] == a;
    assert Run(a) == Next(Run(a[..0]), Arrive(1, true)) == INITIAL.(requests := map[1 := Request(true, Arriving)]);
  }

  /** The gauge is not always right: two requests that publish in the opposite order of their writes
      leave it at one although everything is served and the counter is zero. */
  lemma GaugeCanStayBehind()
    ensures exists events :: Run(events) == DRAINED_WITH_GAUGE_ONE
  {
    var e := BothServing();
    LeaveUnpublished(Run(e), 1); RunSteps(e, 1, 5); e := e + Steps(1, 5);
    LeaveUnpublished(Run(e), 2); RunSteps(e, 2, 5); e := e + Steps(2, 5);
    PublishBothLate(e);
  }

  lemma BothServing() returns (e: seq<Event>)
    ensures Run(e) == State(2, None, map[1 := Request(true, Serving), 2 := Request(true, Serving)], 2, 2, 2)
  {
    e := FirstServing();
    Enter(Run(e), 2); RunSteps(e, 2, 5); e := e + Steps(2, 5);
  }

  lemma FirstServing() returns (e: seq<Event>)
    ensures Run(e) == State(1, None, map[1 := Request(true, Serving), 2 := Request(true, Arriving)], 1, 1, 1)
  {
    e := TwoArrive();
    Enter(Run(e), 1); RunSteps(e, 1, 5); e := e + Steps(1, 5);
  }

  lemma PublishBothLate(e: seq<Event>)
    requires Run(e) == State(
               0, None, map[1 := Request(true, DownReleased(1, 3)), 2 := Request(true, DownReleased(0, 4))], 2, 4, 2)
    ensures exists events :: Run(events) == DRAINED_WITH_GAUGE_ONE
  {
    var f := e + [Advance(2)];
    var g := f + [Advance(1)];
    assert f[..|f| - 1] == e && g[..|g| - 1] == f;
    assert Run(f) == State(0, None, map[1 := Request(true, DownReleased(1, 3)), 2 := Request(true, Done)], 0, 4, 4);
    assert Run(g) == State(0, None, map[1 := Request(true, Done), 2 := Request(true, Done)], 1, 4, 3);
  }
}
