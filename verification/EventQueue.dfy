/**
 * The event queue between the worker thread and the user of the asynchronous client (src/macr.rs). Every
 * access to the shared buffer happens under its lock, so runs interleave whole operations.
 */
module EventQueue {
  import opened Prelude

  function Reverse<T>(s: seq<T>): (r: seq<T>)
    ensures |r| == |s| && forall i :: 0 <= i < |s| ==> r[i] == s[|s| - 1 - i]
  {
    seq(|s|, i requires 0 <= i < |s| => s[|s| - 1 - i])
  }

  /** The user's own buffer and the one shared with the worker. */
  datatype Queues<E> = Queues(pending: seq<E>, shared: seq<E>)

  /** The buffers are swapped, reversed and popped: the last element comes first. */
  function AfterNext<E>(q: Queues<E>): Queues<E> {
    if q.pending != [] then q.(pending := q.pending[..|q.pending| - 1])
    else if q.shared != [] then Queues(Reverse(q.shared)[..|q.shared| - 1], [])
    else q
  }

  function NextOf<E>(q: Queues<E>): Option<E> {
    if q.pending != [] then Some(q.pending[|q.pending| - 1])
    else if q.shared != [] then Some(q.shared[0])
    else None
  }

  /** Draining takes what is left in the user's buffer as it lies there; only an empty one is swapped. */
  function AfterDrain<E>(q: Queues<E>): Queues<E> {
    if q.pending != [] then q.(pending := []) else Queues([], [])
  }

  function DrainOf<E>(q: Queues<E>): seq<E> {
    if q.pending != [] then q.pending else q.shared
  }

  class SharedEvents<E> {
    var events: seq<E>

    constructor ()
      ensures events == []
    {
      events := [];
    }

    /** The worker appends what the client has produced. */
    method Extend(produced: seq<E>)
      modifies this
      ensures events == old(events) + produced
    {
      events := events + produced;
    }
  }

  class AsyncClient<E> {
    const shared: SharedEvents<E>
    var pendingEvents: seq<E>

    ghost function View(): Queues<E>
      reads this, shared
    {
      Queues(pendingEvents, shared.events)
    }

    constructor (shared: SharedEvents<E>)
      ensures this.shared == shared && pendingEvents == []
    {
      this.shared := shared;
      pendingEvents := [];
    }

    method Swap()
      modifies this, shared
      ensures pendingEvents == old(shared.events) && shared.events == old(pendingEvents)
    {
      pendingEvents, shared.events := shared.events, pendingEvents;
    }

    method NextEvent() returns (r: Option<E>)
      modifies this, shared
      ensures View() == AfterNext(old(View())) && r == NextOf(old(View()))
    {
      if pendingEvents == [] {
        Swap();
        ReverseInPlace();
      }
      if pendingEvents == [] { return None; }
      r := Some(pendingEvents[|pendingEvents| - 1]);
      pendingEvents := pendingEvents[..|pendingEvents| - 1];
    }

    method ReverseInPlace()
      modifies this`pendingEvents
      ensures pendingEvents == Reverse(old(pendingEvents))
    {
      ghost var before := pendingEvents;
      var n := |pendingEvents|;
      for i := 0 to n / 2
        invariant |pendingEvents| == n
        invariant forall k :: i <= k < n - i ==> pendingEvents[k] == before[k]
        invariant forall k :: 0 <= k < i ==>
          pendingEvents[k] == before[n - 1 - k] && pendingEvents[n - 1 - k] == before[k]
      {
        pendingEvents := pendingEvents[i := pendingEvents[n - 1 - i]][n - 1 - i := pendingEvents[i]];
      }
      assert forall k :: 0 <= k < n ==> pendingEvents[k] == before[n - 1 - k];
    }

    method DrainEvents() returns (r: seq<E>)
      modifies this, shared
      ensures View() == AfterDrain(old(View())) && r == DrainOf(old(View()))
    {
      if pendingEvents == [] {
        Swap();
      }
      r := pendingEvents;
      pendingEvents := [];
    }
  }

  // ----- Every interleaving -----

  datatype Step<E> = Extend(events: seq<E>) | NextEvent | DrainEvents

  /** The queues with everything ever produced and everything the user has got. */
  datatype State<E> = State(queues: Queues<E>, produced: seq<E>, consumed: seq<E>)

  function Take<E>(st: State<E>, step: Step<E>): State<E> {
    match step
    case Extend(es) => st.(queues := st.queues.(shared := st.queues.shared + es), produced := st.produced + es)
    case NextEvent =>
      st.(queues := AfterNext(st.queues), consumed := st.consumed
        + (if NextOf(st.queues).Some? then [NextOf(st.queues).value] else []))
    case DrainEvents =>
      st.(queues := AfterDrain(st.queues), consumed := st.consumed + DrainOf(st.queues))
  }

  function Run<E>(steps: seq<Step<E>>): State<E> {
    if steps == [] then State(Queues([], []), [], []) else Take(Run(steps[..|steps| - 1]), steps[|steps| - 1])
  }

  /** What the user has got, what waits in reverse and what waits in the shared buffer make up what was produced. */
  predicate InOrder<E(==)>(st: State<E>) {
    st.consumed + Reverse(st.queues.pending) + st.queues.shared == st.produced
  }

  /** The user got a beginning of what was produced. */
  predicate Faithful<E(==)>(st: State<E>) {
    st.consumed <= st.produced
  }

  /** A drain that finds events left by `next_event` hands them out backwards. */
  predicate GoodDrain<E(==)>(q: Queues<E>, step: Step<E>) {
    step.DrainEvents? ==> Reverse(q.pending) == q.pending
  }

  ghost predicate GoodDrains<E>(steps: seq<Step<E>>) {
    forall k :: 0 <= k < |steps| ==> GoodDrain(Run(steps[..k]).queues, steps[k])
  }

  lemma StepKeepsOrder<E>(st: State<E>, step: Step<E>)
    requires InOrder(st)
    ensures InOrder(Take(st, step)) <==> GoodDrain(st.queues, step)
  {
    var q, st' := st.queues, Take(st, step);
    var p, sh, c := q.pending, q.shared, st.consumed;
    match step
    case Extend(es) => ConcatAssociates(c + Reverse(p), sh, es);
    case NextEvent =>
      if p != [] {
        assert Reverse(p) == [p[|p| - 1]] + Reverse(p[..|p| - 1]);
        ConcatAssociates(c, [p[|p| - 1]], Reverse(p[..|p| - 1]));
      } else if sh != [] {
        assert Reverse(Reverse(sh)[..|sh| - 1]) == sh[1..];
        assert sh == [sh[0]] + sh[1..];
        assert c + Reverse(p) == c && st'.queues.shared == [];
        ConcatAssociates(c, [sh[0]], sh[1..]);
      }
    case DrainEvents =>
      if p != [] {
        assert st'.consumed + Reverse(st'.queues.pending) + sh == (c + p) + sh;
        if (c + p) + sh == (c + Reverse(p)) + sh {
          forall i | 0 <= i < |p| ensures p[i] == Reverse(p)[i] {
            assert ((c + p) + sh)[|c| + i] == p[i] && ((c + Reverse(p)) + sh)[|c| + i] == Reverse(p)[i];
          }
        }
      }
  }

  /** What has come out wrong stays wrong: nothing consumed is ever taken back. */
  lemma DisorderStays<E>(st: State<E>, step: Step<E>)
    requires !Faithful(st) && |st.consumed| <= |st.produced|
    ensures !Faithful(Take(st, step))
  {
    var st' := Take(st, step);
    assert st.consumed <= st'.consumed && st.produced <= st'.produced;
    var i :| 0 <= i < |st.consumed| && st.consumed[i] != st.produced[i];
    assert st'.consumed[i] != st'.produced[i];
  }

  /** The copies of an event: those the user has got and those that wait. */
  function Copies<E(==)>(st: State<E>, e: E): nat {
    multiset(st.consumed)[e] + multiset(st.queues.pending)[e] + multiset(st.queues.shared)[e]
  }

  lemma StepConserves<E>(st: State<E>, step: Step<E>, e: E)
    requires Copies(st, e) == multiset(st.produced)[e]
    ensures Copies(Take(st, step), e) == multiset(Take(st, step).produced)[e]
  {
    match step
    case Extend(es) => CopiesOfConcat(st.queues.shared, es, e); CopiesOfConcat(st.produced, es, e);
    case NextEvent => NextConserves(st, e);
    case DrainEvents => CopiesOfConcat(st.consumed, DrainOf(st.queues), e);
  }

  lemma CopiesOfConcat<E>(a: seq<E>, b: seq<E>, e: E)
    ensures multiset(a + b)[e] == multiset(a)[e] + multiset(b)[e]
  {}

  lemma NextConserves<E>(st: State<E>, e: E)
    ensures Copies(Take(st, NextEvent), e) == Copies(st, e)
  {
    hide Reverse;
    var c, p, sh := st.consumed, st.queues.pending, st.queues.shared;
    if p != [] {
      MoveLast(c, p, e);
      assert Take(st, NextEvent) == State(Queues(p[..|p| - 1], sh), st.produced, c + [p[|p| - 1]]);
    } else if sh != [] {
      SwapAndMove(c, sh, e);
      assert Take(st, NextEvent) == State(Queues(Reverse(sh)[..|sh| - 1], []), st.produced, c + [sh[0]]);
    } else {
      assert c + [] == c;
    }
  }

  lemma SwapAndMove<E>(c: seq<E>, sh: seq<E>, e: E)
    requires sh != []
    ensures multiset(c + [sh[0]])[e] + multiset(Reverse(sh)[..|sh| - 1])[e] == multiset(c)[e] + multiset(sh)[e]
  {
    var r := Reverse(sh);
    ReverseConserves(sh);
    FirstIsLast(sh);
    MoveLast(c, r, e);
  }

  lemma MoveLast<E>(c: seq<E>, p: seq<E>, e: E)
    requires p != []
    ensures multiset(c + [p[|p| - 1]])[e] + multiset(p[..|p| - 1])[e] == multiset(c)[e] + multiset(p)[e]
  {
    var x := p[|p| - 1];
    CopiesOfConcat(c, [x], e);
    CopiesOfConcat(p[..|p| - 1], [x], e);
    assert p == p[..|p| - 1] + [x];
  }

  lemma FirstIsLast<E>(s: seq<E>)
    requires s != []
    ensures |Reverse(s)| == |s| && Reverse(s)[|s| - 1] == s[0]
  {}

  /** Nothing is lost or made up, in whatever order it comes out. */
  lemma {:induction false} Conserved<E>(steps: seq<Step<E>>, e: E)
    ensures Copies(Run(steps), e) == multiset(Run(steps).produced)[e]
  {
    if steps != [] {
      Conserved(steps[..|steps| - 1], e);
      StepConserves(Run(steps[..|steps| - 1]), steps[|steps| - 1], e);
    }
  }

  lemma {:induction false} ReverseConserves<E>(s: seq<E>)
    ensures multiset(Reverse(s)) == multiset(s)
  {
    if s != [] {
      ReverseConserves(s[1..]);
      assert Reverse(s) == Reverse(s[1..]) + [s[0]];
      assert s == [s[0]] + s[1..];
    }
  }

  /** Whoever only ever calls `next_event`, or only ever drains, gets everything in order. */
  lemma {:induction false} OneWayInOrder<E>(steps: seq<Step<E>>)
    requires DrainEvents !in steps || NextEvent !in steps
    ensures InOrder(Run(steps))
    ensures NextEvent !in steps ==> Run(steps).queues.pending == []
  {
    if steps != [] {
      var front := steps[..|steps| - 1];
      OneWayInOrder(front);
      assert steps[|steps| - 1] in steps && forall s :: s in front ==> s in steps;
      StepKeepsOrder(Run(front), steps[|steps| - 1]);
    }
  }

  /** A user who only ever drains gets everything that was produced by then. */
  lemma DrainGetsAll<E>(steps: seq<Step<E>>)
    requires NextEvent !in steps
    ensures Run(steps + [DrainEvents]).consumed == Run(steps).produced
    ensures Run(steps + [DrainEvents]).queues == Queues([], [])
  {
    RunNext(steps, DrainEvents);
    OneWayInOrder(steps);
    assert Run(steps).consumed + Reverse(Run(steps).queues.pending) == Run(steps).consumed;
  }

  /** A user who only ever asks for the next event gets it as long as there is one. */
  lemma NextGetsNext<E>(steps: seq<Step<E>>)
    requires DrainEvents !in steps
    ensures var (st, st') := (Run(steps), Run(steps + [NextEvent]));
      && |st.consumed| <= |st.produced|
      && st'.consumed
         == st.consumed + if |st.consumed| < |st.produced| then [st.produced[|st.consumed|]] else []
  {
    var st, st' := Run(steps), Run(steps + [NextEvent]);
    RunNext(steps, NextEvent);
    OneWayInOrder(steps);
    StepKeepsOrder(st, NextEvent);
    var waiting := Reverse(st.queues.pending) + st.queues.shared;
    ConcatAssociates(st.consumed, Reverse(st.queues.pending), st.queues.shared);
    assert st.produced == st.consumed + waiting;
    if waiting != [] { assert NextOf(st.queues) == Some(waiting[0]); }
  }

  /** Draining twice empties the queues, whatever was mixed before: then the user has got just what was produced. */
  lemma TwoDrainsEmpty<E(!new)>(steps: seq<Step<E>>)
    ensures var st := Run(steps + [DrainEvents] + [DrainEvents]);
      st.queues == Queues([], []) && multiset(st.consumed) == multiset(Run(steps).produced)
  {
    hide Run;
    var once := steps + [DrainEvents];
    var st := Run(once + [DrainEvents]);
    RunNext(steps, DrainEvents);
    RunNext(once, DrainEvents);
    assert st.queues == Queues([], []) && st.produced == Run(steps).produced;
    forall e: E ensures multiset(st.consumed)[e] == multiset(st.produced)[e] {
      Conserved(once + [DrainEvents], e);
      AllGot(st, e);
    }
  }

  lemma AllGot<E>(st: State<E>, e: E)
    requires st.queues == Queues([], [])
    ensures Copies(st, e) == multiset(st.consumed)[e]
  {}

  lemma RunNext<E>(steps: seq<Step<E>>, step: Step<E>)
    ensures Run(steps + [step]) == Take(Run(steps), step)
  {
    assert (steps + [step])[..|steps|] == steps;
  }

  /** Mixing the two keeps the order exactly when every drain finds events that read the same backwards. */
  lemma {:induction false} MixedInOrderExactly<E(!new)>(steps: seq<Step<E>>)
    ensures InOrder(Run(steps)) <==> GoodDrains(steps)
    ensures InOrder(Run(steps)) <==> Faithful(Run(steps))
  {
    if steps != [] {
      var front, last := steps[..|steps| - 1], steps[|steps| - 1];
      var st := Run(front);
      MixedInOrderExactly(front);
      FrontDrains(steps);
      if InOrder(st) {
        StepKeepsOrder(st, last);
        if !GoodDrain(st.queues, last) { WrongAtOnce(st); }
      } else {
        SameSize(front);
        DisorderStays(st, last);
      }
    }
    if InOrder(Run(steps)) { OrderedIsFaithful(Run(steps)); }
  }

  lemma SameSize<E(!new)>(steps: seq<Step<E>>)
    ensures |Run(steps).consumed| <= |Run(steps).produced|
  {
    var st := Run(steps);
    var all := st.consumed + st.queues.pending + st.queues.shared;
    forall e: E ensures multiset(all)[e] == multiset(st.produced)[e] {
      Conserved(steps, e);
    }
    PermutationLength(all, st.produced);
  }

  lemma OrderedIsFaithful<E>(st: State<E>)
    requires InOrder(st)
    ensures Faithful(st)
  {
    assert st.consumed <= st.consumed + Reverse(st.queues.pending) + st.queues.shared;
  }

  lemma FrontDrains<E>(steps: seq<Step<E>>)
    requires steps != []
    ensures var front := steps[..|steps| - 1];
      GoodDrains(steps) <==> (GoodDrains(front) && GoodDrain(Run(front).queues, steps[|steps| - 1]))
  {
    hide Run;
    hide GoodDrain;
    var front := steps[..|steps| - 1];
    forall k | 0 <= k < |front| ensures front[..k] == steps[..k] && front[k] == steps[k] {}
    if GoodDrains(steps) {
      forall k | 0 <= k < |front| ensures GoodDrain(Run(front[..k]).queues, front[k]) {
        assert GoodDrain(Run(steps[..k]).queues, steps[k]);
      }
      assert GoodDrain(Run(steps[..|front|]).queues, steps[|front|]);
    } else {
      var k :| 0 <= k < |steps| && !GoodDrain(Run(steps[..k]).queues, steps[k]);
      assert k < |front| ==> !GoodDrain(Run(front[..k]).queues, front[k]);
    }
  }

  lemma WrongAtOnce<E>(st: State<E>)
    requires InOrder(st) && Reverse(st.queues.pending) != st.queues.pending
    ensures !Faithful(Take(st, DrainEvents))
  {
    var p, c, sh := st.queues.pending, st.consumed, st.queues.shared;
    var i :| 0 <= i < |p| && Reverse(p)[i] != p[i];
    assert (c + p)[|c| + i] == p[i] && (c + Reverse(p) + sh)[|c| + i] == Reverse(p)[i];
  }

  /** The shortest mix that goes wrong: of three events the user gets the first, then the third and the second. */
  lemma MixedGoesWrong()
    ensures Run([Extend([1, 2, 3]), NextEvent, DrainEvents]).consumed == [1, 3, 2]
  {
    var s1: seq<Step<int>> := [Extend([1, 2, 3])];
    var s2 := s1 + [NextEvent];
    RunNext([], Extend([1, 2, 3]));
    assert [] + s1 == s1 && [] + [1, 2, 3] == [1, 2, 3];
    RunNext(s1, NextEvent);
    RunNext(s2, DrainEvents);
    ThirdBeforeSecond();
    assert s2 + [DrainEvents] == [Extend([1, 2, 3]), NextEvent, DrainEvents];
  }

  lemma ThirdBeforeSecond()
    ensures Take(Take(State(Queues([], [1, 2, 3]), [1, 2, 3], []), NextEvent), DrainEvents).consumed == [1, 3, 2]
  {
    assert Reverse([1, 2, 3])[..2] == [3, 2];
    assert Take(State(Queues([], [1, 2, 3]), [1, 2, 3], []), NextEvent).consumed == [1];
  }
}
