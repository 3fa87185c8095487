/**
 * The connector that tries one protocol after the other (src/macr.rs), for a list of any number of
 * protocols.
 */
module Connector {
  import opened Prelude

  datatype ClientStatus = Connecting | Ok | Timeout | Ended | Error

  /**
   * What one call meets: the stems the caller passes, whether starting a protocol succeeds, and the
   * status each client shows once it has processed.
   */
  datatype Call = Call(stems: seq<bool>, starts: nat -> bool, status: nat -> ClientStatus)

  datatype Answer = Connected(protocol: nat) | Failed

  /** `done` counts the protocols done with; `started` lists those a client was asked for. */
  datatype Progress = Progress(done: nat, client: Option<nat>, started: seq<nat>)

  predicate Usable(infos: seq<bool>, call: Call, i: nat) {
    i < |infos| && infos[i] && i < |call.stems| && call.stems[i]
  }

  /** Goes on to the next protocol that can be started. */
  function Advance(p: Progress, infos: seq<bool>, call: Call): Progress
    decreases |infos| - p.done
  {
    if p.done >= |infos| then p.(client := None)
    else if !Usable(infos, call, p.done) then Advance(p.(done := p.done + 1), infos, call)
    else if call.starts(p.done) then p.(client := Some(p.done), started := p.started + [p.done])
    else Advance(p.(done := p.done + 1, started := p.started + [p.done]), infos, call)
  }

  /** What a call makes of the clients it polls, one after the other. */
  function Attempt(p: Progress, infos: seq<bool>, call: Call): (Progress, Option<Answer>)
    requires p.client.Some? ==> p.client.value == p.done < |infos|
    decreases |infos| - p.done
  {
    if p.client.None? then (p, Some(Failed))
    else
      match call.status(p.done)
      case Connecting => (p, None)
      case Ok => (p.(client := None), Some(Connected(p.done)))
      case _ =>
        AdvanceFacts(p.(done := p.done + 1), infos, call);
        Attempt(Advance(p.(done := p.done + 1), infos, call), infos, call)
  }

  lemma {:induction false} AdvanceFacts(p: Progress, infos: seq<bool>, call: Call)
    ensures var q := Advance(p, infos, call);
      && p.done <= q.done && p.started <= q.started
      && (p.done <= |infos| ==> q.done <= |infos|)
      && (q.client.Some? ==> q.client.value == q.done < |infos|)
      && (q.client.None? ==> q.done >= |infos|)
    decreases |infos| - p.done
  {
    if p.done < |infos| {
      if !Usable(infos, call, p.done) {
        AdvanceFacts(p.(done := p.done + 1), infos, call);
      } else if !call.starts(p.done) {
        AdvanceFacts(p.(done := p.done + 1, started := p.started + [p.done]), infos, call);
      }
    }
  }

  const UNSTARTED := Progress(0, None, [])

  class Connector {
    const infos: seq<bool>
    const doneFlags: array<bool>
    var client: Option<nat>
    ghost var progress: Progress

    /** The done flags form a prefix. */
    ghost predicate FlagsValid()
      reads this, doneFlags
    {
      && doneFlags.Length == |infos| && progress.done <= |infos|
      && forall i :: 0 <= i < |infos| ==> (doneFlags[i] <==> i < progress.done)
    }

    /** Moreover the active client is that of the first protocol not done. */
    ghost predicate Valid()
      reads this, doneFlags
    {
      FlagsValid() && client == progress.client && (client.Some? ==> client.value == progress.done < |infos|)
    }

    constructor (infos: seq<bool>)
      ensures Valid() && fresh(doneFlags) && this.infos == infos && progress == UNSTARTED
    {
      this.infos := infos;
      doneFlags := new bool[|infos|](_ => false);
      client := None;
      progress := UNSTARTED;
    }

    method CurrKind() returns (kind: Option<nat>)
      requires FlagsValid()
      ensures kind == if progress.done < |infos| then Some(progress.done) else None
    {
      for i := 0 to |infos|
        invariant i <= progress.done
      {
        if !doneFlags[i] { return Some(i); }
      }
      return None;
    }

    /** Marks the first protocol that is not done. */
    method SetDone()
      requires FlagsValid()
      modifies this`progress, doneFlags
      ensures FlagsValid()
      ensures progress == if old(progress).done < |infos| then old(progress).(done := old(progress).done + 1)
        else old(progress)
    {
      for i := 0 to |infos|
        invariant FlagsValid() && progress == old(progress) && i <= progress.done
      {
        if !doneFlags[i] {
          doneFlags[i] := true;
          progress := progress.(done := progress.done + 1);
          return;
        }
      }
    }

    /** Starts the first protocol, among those not done, that is available and starts; those before it are done. */
    method Next(call: Call) returns (r: Option<nat>)
      requires FlagsValid()
      modifies this`progress, doneFlags
      ensures FlagsValid() && progress == Advance(old(progress), infos, call) && r == progress.client
      ensures forall i :: old(progress).done <= i < progress.done ==>
        !infos[i] || i >= |call.stems| || !call.stems[i] || !call.starts(i)
      ensures r.Some? ==> r.value == progress.done < |infos|
      ensures r.Some? ==> infos[r.value] && r.value < |call.stems| && call.stems[r.value] && call.starts(r.value)
    {
      for i := 0 to |infos|
        invariant FlagsValid() && i <= progress.done
        invariant Advance(progress, infos, call) == Advance(old(progress), infos, call)
        invariant forall j :: old(progress).done <= j < progress.done ==>
          !infos[j] || j >= |call.stems| || !call.stems[j] || !call.starts(j)
      {
        if !doneFlags[i] {
          if Usable(infos, call, i) {
            progress := progress.(started := progress.started + [i]);
            if call.starts(i) {
              progress := progress.(client := Some(i));
              return Some(i);
            }
          }
          SetDone();
        }
      }
      progress := progress.(client := None);
      return None;
    }

    /** Polls the active client, and on its failure those of the protocols after it. */
    method AttemptConnect(call: Call) returns (r: Option<Answer>)
      requires Valid()
      modifies this, doneFlags
      ensures Valid() && (progress, r) == Attempt(old(progress), infos, call)
      decreases |infos| - progress.done
    {
      if client.None? { return Some(Failed); }
      var active := client.value;
      match call.status(active) {
        case Connecting =>
          return None;
        case Ok =>
          client := None;
          progress := progress.(client := None);
          return Some(Connected(active));
        case _ =>
          SetDone();
          ghost var before := progress;
          client := Next(call);
          AdvanceFacts(before, infos, call);
          r := AttemptConnect(call);
      }
    }
  }

  /** Some protocol from `from` on is available and starts. */
  predicate CanStart(infos: seq<bool>, call: Call, from: nat) {
    exists i :: from <= i < |infos| && StartsAt(infos, call, i)
  }

  predicate StartsAt(infos: seq<bool>, call: Call, i: nat) {
    Usable(infos, call, i) && call.starts(i)
  }

  /** Advancing finds a protocol exactly when there is one, and then the first. */
  lemma {:induction false} AdvanceFindsFirst(p: Progress, infos: seq<bool>, call: Call)
    ensures var q := Advance(p, infos, call);
      && (q.client.Some? <==> CanStart(infos, call, p.done))
      && (q.client.Some? ==> StartsAt(infos, call, q.client.value))
      && forall i :: p.done <= i < |infos| && StartsAt(infos, call, i) ==> q.client.Some? && q.client.value <= i
    decreases |infos| - p.done
  {
    if p.done < |infos| {
      if !Usable(infos, call, p.done) {
        AdvanceFindsFirst(p.(done := p.done + 1), infos, call);
      } else if !call.starts(p.done) {
        AdvanceFindsFirst(p.(done := p.done + 1, started := p.started + [p.done]), infos, call);
      } else {
        assert StartsAt(infos, call, p.done);
      }
    }
  }

  /** Creating a connector starts the first protocol that can be; without one there is no connector. */
  method New(infos: seq<bool>, call: Call) returns (connector: Connector, ok: bool)
    ensures fresh(connector) && fresh(connector.doneFlags) && connector.Valid() && connector.infos == infos
    ensures connector.progress == After(infos, [call])
    ensures ok <==> CanStart(infos, call, 0)
    ensures ok ==> connector.client.Some? && StartsAt(infos, call, connector.client.value)
    ensures forall i :: 0 <= i < |infos| && StartsAt(infos, call, i) ==> ok && connector.client.value <= i
  {
    connector := new Connector(infos);
    connector.client := connector.Next(call);
    AdvanceFindsFirst(UNSTARTED, infos, call);
    ok := connector.client.Some?;
  }

  /** The client that call polls: that of the protocol active before, or the next one that could be started. */
  predicate Polls(infos: seq<bool>, call: Call, from: nat, i: nat) {
    i == from || (i > from && StartsAt(infos, call, i))
  }

  /** The first client polled that has not failed. */
  predicate Decides(infos: seq<bool>, call: Call, from: nat, i: nat) {
    && i < |infos| && Polls(infos, call, from, i) && !ClientFails(call, i)
    && forall j :: from <= j < i && Polls(infos, call, from, j) ==> ClientFails(call, j)
  }

  /**
   * What a call answers with an active client: the first client polled that has not failed is handed out
   * if it is connected and waited for if it is still connecting; if there is none, nothing could connect.
   */
  lemma {:induction false} AttemptDecides(p: Progress, infos: seq<bool>, call: Call)
    requires p.client == Some(p.done) && p.done < |infos|
    ensures var (q, r) := Attempt(p, infos, call);
      && (r == Some(Failed) <==> forall i :: p.done <= i < |infos| ==> !Decides(infos, call, p.done, i))
      && forall i: nat :: Decides(infos, call, p.done, i) ==>
           if call.status(i) == Ok then r == Some(Connected(i)) && q.client == None
           else r == None && q.client == Some(i)
    decreases |infos| - p.done
  {
    if ClientFails(call, p.done) {
      var failed := p.(done := p.done + 1);
      var next := Advance(failed, infos, call);
      AdvanceFacts(failed, infos, call);
      AdvanceFindsFirst(failed, infos, call);
      if next.client.Some? {
        AttemptDecides(next, infos, call);
        SamePolls(infos, call, p.done, next.done);
      } else {
        assert forall i :: p.done < i < |infos| ==> !StartsAt(infos, call, i);
      }
    } else {
      assert Decides(infos, call, p.done, p.done);
    }
  }

  /** Once the client polled first has failed, the next one that starts takes its place. */
  lemma SamePolls(infos: seq<bool>, call: Call, from: nat, next: nat)
    requires from < next && ClientFails(call, from) && StartsAt(infos, call, next)
    requires forall i :: from < i < next ==> !StartsAt(infos, call, i)
    ensures forall i: nat :: Decides(infos, call, from, i) <==> next <= i && Decides(infos, call, next, i)
  {
    assert forall i: nat :: i > from ==> (Polls(infos, call, from, i) <==> i >= next && Polls(infos, call, next, i));
    forall i: nat | Decides(infos, call, from, i) ensures next <= i && Decides(infos, call, next, i) {
      assert i != from;
      forall j | next <= j < i && Polls(infos, call, next, j) ensures ClientFails(call, j) {
        assert Polls(infos, call, from, j);
      }
    }
    forall i: nat | next <= i && Decides(infos, call, next, i) ensures Decides(infos, call, from, i) {
      forall j | from <= j < i && Polls(infos, call, from, j) ensures ClientFails(call, j) {
        if j != from { assert Polls(infos, call, next, j); }
      }
    }
  }

  // ----- Every sequence of calls -----

  /** The connector after its creation, which is the first call, and the calls that follow. */
  function After(infos: seq<bool>, calls: seq<Call>): (p: Progress)
    ensures p.client.Some? ==> p.client.value == p.done < |infos|
  {
    if |calls| == 0 then UNSTARTED
    else if |calls| == 1 then
      AdvanceFacts(UNSTARTED, infos, calls[0]);
      Advance(UNSTARTED, infos, calls[0])
    else
      AttemptFacts(After(infos, calls[..|calls| - 1]), infos, calls[|calls| - 1]);
      Attempt(After(infos, calls[..|calls| - 1]), infos, calls[|calls| - 1]).0
  }

  function AnswerOf(infos: seq<bool>, calls: seq<Call>): Option<Answer>
    requires |calls| > 1
  {
    Attempt(After(infos, calls[..|calls| - 1]), infos, calls[|calls| - 1]).1
  }

  predicate ClientFails(call: Call, i: nat) { call.status(i) !in {Connecting, Ok} }

  /**
   * A call that leads from `p` to `q` passes over protocol `i`, for a reason it met itself: the client it
   * found active failed; or the protocol was not available, and no client was asked for; or a client was
   * asked for, and did not start or failed when `polled`.
   */
  predicate PassedOver(p: Progress, q: Progress, infos: seq<bool>, call: Call, polled: bool, i: nat) {
    && p.done <= i < q.done
    && if p.client == Some(i) then i in q.started && polled && ClientFails(call, i)
       else if !Usable(infos, call, i) then i !in q.started
       else i in q.started && (!call.starts(i) || (polled && ClientFails(call, i)))
  }

  /** One of the calls passed over the protocol; the first call, which creates the connector, polls no client. */
  ghost predicate Refused(infos: seq<bool>, calls: seq<Call>, i: nat) {
    exists j :: 0 <= j < |calls| && RefusedIn(infos, calls, j, i)
  }

  predicate RefusedIn(infos: seq<bool>, calls: seq<Call>, j: nat, i: nat)
    requires j < |calls|
  {
    PassedOver(After(infos, calls[..j]), After(infos, calls[..j + 1]), infos, calls[j], j > 0, i)
  }

  predicate Ascending(s: seq<nat>) {
    forall i, j :: 0 <= i < j < |s| ==> s[i] < s[j]
  }

  /** Clients were asked for in order, of protocols already done or of the active one. */
  predicate InTurn(p: Progress, n: nat) {
    && Ascending(p.started)
    && (forall i :: i in p.started ==> i < p.done || (p.started[|p.started| - 1] == i == p.done < n))
    && (p.client.Some? ==> p.client.value == p.done < n && p.done in p.started)
  }

  predicate Awaiting(p: Progress, n: nat) {
    Ascending(p.started) && forall i :: i in p.started ==> i < p.done
  }

  lemma AskedNext(p: Progress, n: nat)
    requires Awaiting(p, n)
    ensures Awaiting(p.(done := p.done + 1), n)
    ensures Awaiting(p.(done := p.done + 1, started := p.started + [p.done]), n)
    ensures p.done < n ==> InTurn(p.(client := Some(p.done), started := p.started + [p.done]), n)
  {
    var s := p.started + [p.done];
    forall i, j | 0 <= i < j < |s| ensures s[i] < s[j] {
      if j == |p.started| { assert s[i] in p.started; }
    }
    assert s[|s| - 1] == p.done;
  }

  /** No client of a protocol before `from` is asked for any more. */
  predicate AsksFrom(p: Progress, q: Progress, from: nat) {
    p.started <= q.started && forall i :: i < from && i in q.started ==> i in p.started
  }

  lemma {:induction false} AdvanceInTurn(p: Progress, infos: seq<bool>, call: Call)
    requires Awaiting(p, |infos|)
    ensures var q := Advance(p, infos, call);
      && InTurn(q, |infos|) && (q.client.None? ==> Awaiting(q, |infos|)) && AsksFrom(p, q, p.done)
      && (q.client.Some? ==> StartsAt(infos, call, q.done))
      && forall i :: p.done <= i < q.done ==> PassedOver(p.(client := None), q, infos, call, false, i)
    decreases |infos| - p.done
  {
    hide Ascending;
    hide Usable;
    if p.done < |infos| {
      AskedNext(p, |infos|);
      var skipped := p.(done := p.done + 1);
      var asked := skipped.(started := p.started + [p.done]);
      var q := Advance(p, infos, call);
      if !Usable(infos, call, p.done) {
        AdvanceInTurn(skipped, infos, call);
      } else if !call.starts(p.done) {
        AdvanceInTurn(asked, infos, call);
        assert p.done in asked.started;
      }
      forall i | p.done <= i < q.done ensures PassedOver(p.(client := None), q, infos, call, false, i) {
        if i > p.done {
          assert PassedOver((if Usable(infos, call, p.done) then asked else skipped).(client := None), q, infos, call,
                            false, i);
        }
      }
    }
  }

  /** One call: whatever it passes over it met a reason for, and it keeps asking in order. */
  lemma {:induction false} AttemptInTurn(p: Progress, infos: seq<bool>, call: Call)
    requires InTurn(p, |infos|)
    ensures var (q, r) := Attempt(p, infos, call);
      && InTurn(q, |infos|) && AsksFrom(p, q, p.done)
      && (r.Some? && r.value.Connected? ==> q.done in q.started)
      && forall i :: p.done <= i < q.done ==> PassedOver(p, q, infos, call, true, i)
    decreases |infos| - p.done
  {
    if p.client.Some? && ClientFails(call, p.done) {
      var failed := p.(done := p.done + 1);
      var next, q := Advance(failed, infos, call), Attempt(p, infos, call).0;
      AdvanceFacts(failed, infos, call);
      AdvanceInTurn(failed, infos, call);
      AttemptInTurn(next, infos, call);
      forall i | p.done <= i < q.done ensures PassedOver(p, q, infos, call, true, i) {
        if p.done < i < next.done {
          assert PassedOver(failed.(client := None), next, infos, call, false, i);
        } else if i >= next.done {
          assert PassedOver(next, q, infos, call, true, i);
        }
      }
    }
  }

  /** One call: its answer, and the client it leaves. */
  lemma {:induction false} AttemptFacts(p: Progress, infos: seq<bool>, call: Call)
    requires p.client.Some? ==> p.client.value == p.done < |infos|
    ensures var (q, r) := Attempt(p, infos, call);
      && (q.client.Some? ==> q.client.value == q.done < |infos|)
      && p.done <= q.done && p.started <= q.started
      && (p.done <= |infos| ==> q.done <= |infos|)
      && (r.None? ==> q.client.Some? && call.status(q.done) == Connecting)
      && (r == Some(Failed) ==> q.client.None? && (p.client.Some? ==> q.done >= |infos|))
      && (r.Some? && r.value.Connected? ==>
         r.value.protocol == q.done < |infos| && call.status(q.done) == Ok && q.client.None?)
    decreases |infos| - p.done
  {
    if p.client.Some? && ClientFails(call, p.done) {
      var q := p.(done := p.done + 1);
      AdvanceFacts(q, infos, call);
      AttemptFacts(Advance(q, infos, call), infos, call);
    }
  }

  /** The state between calls, before any call has succeeded. */
  ghost predicate RunInv(infos: seq<bool>, calls: seq<Call>) {
    var p := After(infos, calls);
    && InTurn(p, |infos|) && p.done <= |infos|
    && (forall i :: 0 <= i < p.done ==> Refused(infos, calls, i))
  }

  lemma {:induction false} CallsKeepInv(infos: seq<bool>, calls: seq<Call>)
    ensures RunInv(infos, calls)
  {
    if |calls| > 0 {
      var front, last := calls[..|calls| - 1], calls[|calls| - 1];
      var p, q := After(infos, front), After(infos, calls);
      assert calls[..|calls|] == calls;
      CallsKeepInv(infos, front);
      AdvanceFacts(UNSTARTED, infos, last);
      AdvanceInTurn(UNSTARTED, infos, last);
      AttemptFacts(p, infos, last);
      AttemptInTurn(p, infos, last);
      forall i | 0 <= i < q.done ensures Refused(infos, calls, i) {
        if i < p.done {
          assert Refused(infos, front, i);
          var j :| 0 <= j < |front| && RefusedIn(infos, front, j, i);
          assert front[..j] == calls[..j] && front[..j + 1] == calls[..j + 1];
          assert RefusedIn(infos, calls, j, i);
        } else {
          assert RefusedIn(infos, calls, |calls| - 1, i);
        }
      }
    }
  }

  /** In every run, clients are asked for one protocol after the other and never twice for the same. */
  lemma StartedOnceInOrder(infos: seq<bool>, calls: seq<Call>)
    ensures Ascending(After(infos, calls).started)
    ensures forall i :: 0 <= i < |After(infos, calls).started| ==> After(infos, calls).started[i] < |infos|
  {
    CallsKeepInv(infos, calls);
    var started := After(infos, calls).started;
    assert forall i :: 0 <= i < |started| ==> started[i] in started;
  }

  /** Some earlier call handed out a connected client. */
  ghost predicate HandedOut(infos: seq<bool>, calls: seq<Call>) {
    exists k :: 1 < k <= |calls| && AnswerOf(infos, calls[..k]).Some? && AnswerOf(infos, calls[..k]).value.Connected?
  }

  /** Without a client, either one was handed out or every protocol is done with. */
  lemma {:induction false} NoClient(infos: seq<bool>, calls: seq<Call>)
    requires |calls| > 0 && After(infos, calls).client.None?
    ensures HandedOut(infos, calls) || After(infos, calls).done >= |infos|
  {
    if |calls| == 1 {
      AdvanceFacts(UNSTARTED, infos, calls[0]);
    } else {
      var front, last := calls[..|calls| - 1], calls[|calls| - 1];
      AttemptFacts(After(infos, front), infos, last);
      assert calls[..|calls|] == calls;
      if After(infos, front).client.None? {
        NoClient(infos, front);
        if HandedOut(infos, front) {
          var k :| 1 < k <= |front| && AnswerOf(infos, front[..k]).Some?
            && AnswerOf(infos, front[..k]).value.Connected?;
          assert calls[..k] == front[..k];
        }
      } else if AnswerOf(infos, calls).value.Connected? {
        assert AnswerOf(infos, calls[..|calls|]) == AnswerOf(infos, calls);
      }
    }
  }

  /** Unless a client was handed out before, a failure is reported only after every protocol was refused. */
  lemma FailureMeansAllRefused(infos: seq<bool>, calls: seq<Call>, i: nat)
    requires |calls| > 1 && AnswerOf(infos, calls) == Some(Failed) && !HandedOut(infos, calls) && i < |infos|
    ensures Refused(infos, calls, i)
  {
    CallsKeepInv(infos, calls);
    AttemptFacts(After(infos, calls[..|calls| - 1]), infos, calls[|calls| - 1]);
    NoClient(infos, calls);
  }

  /** A client handed out is connected, and every protocol before its own was refused. */
  lemma SuccessIsFirst(infos: seq<bool>, calls: seq<Call>, i: nat)
    requires |calls| > 1 && AnswerOf(infos, calls).Some? && AnswerOf(infos, calls).value.Connected?
    ensures var k := AnswerOf(infos, calls).value.protocol;
      && k < |infos| && k in After(infos, calls).started && calls[|calls| - 1].status(k) == Ok
      && (i < k ==> Refused(infos, calls, i))
  {
    CallsKeepInv(infos, calls);
    CallsKeepInv(infos, calls[..|calls| - 1]);
    AttemptInTurn(After(infos, calls[..|calls| - 1]), infos, calls[|calls| - 1]);
    AttemptFacts(After(infos, calls[..|calls| - 1]), infos, calls[|calls| - 1]);
  }

  /** Once a client was handed out, every later call reports failure and starts nothing. */
  lemma {:induction false} AfterSuccessOnlyFailure(infos: seq<bool>, calls: seq<Call>, k: nat)
    requires 1 < k < |calls| && AnswerOf(infos, calls[..k]).Some? && AnswerOf(infos, calls[..k]).value.Connected?
    ensures AnswerOf(infos, calls) == Some(Failed) && After(infos, calls) == After(infos, calls[..k])
    ensures After(infos, calls).client.None?
  {
    var front := calls[..|calls| - 1];
    assert front[..k] == calls[..k];
    AttemptFacts(After(infos, calls[..k][..k - 1]), infos, calls[..k][k - 1]);
    if k < |front| {
      AfterSuccessOnlyFailure(infos, front, k);
    } else {
      assert front == calls[..k];
    }
  }
}
