/**
  The in-flight counter of disk/aio.c: any number of submitters and the event thread,
  as interleaved steps on one atomic counter.
 */
module Aio {
  import opened Basics

  /** Where a request is, from the addition in aio_submit on. */
  datatype Where = Counted | InKernel | Refused | Withdrawn | Harvested | Called | Finished

  /** The event thread: between calls, or with what io_getevents returned and a number of callbacks run. */
  datatype Events = Waiting | Got(nr: int, ids: seq<nat>, called: nat)

  /** `errors` adds up what negative returns of io_getevents have been "subtracted". */
  datatype State = State(inflight: int, requests: seq<Where>, events: Events, errors: nat)

  datatype Step =
    // aio_submit
    | Add | Accept(id: nat) | Again(id: nat) | Refuse(id: nat) | Withdraw(id: nat)
    // disk_aio_get_events
    | Harvest(ids: seq<nat>) | HarvestFails(nr: int) | Callback | Subtract

  const AIO_MAX := 256

  /** Counted in aio_inflight. */
  predicate Busy(w: Where) {
    w != Withdrawn && w != Finished
  }

  function BusyCount(s: seq<Where>): (n: nat) {
    if s == [] then 0 else BusyCount(s[..|s| - 1]) + if Busy(s[|s| - 1]) then 1 else 0
  }

  predicate Is(s: seq<Where>, id: nat, w: Where) {
    id < |s| && s[id] == w
  }

  predicate Init(s: State) {
    s == State(0, [], Waiting, 0)
  }

  predicate Can(s: State, step: Step) {
    match step
    case Add => true
    case Accept(i) => Is(s.requests, i, Counted)
    case Again(i) => Is(s.requests, i, Counted)
    case Refuse(i) => Is(s.requests, i, Counted)
    case Withdraw(i) => Is(s.requests, i, Refused)
    case Harvest(ids) =>
      s.events == Waiting && |ids| <= AIO_MAX && Distinct(ids) && forall k :: 0 <= k < |ids| ==> Is(s.requests, ids[k], InKernel)
    case HarvestFails(nr) => s.events == Waiting && nr < 0
    case Callback => s.events.Got? && s.events.called < |s.events.ids| && s.events.ids[s.events.called] < |s.requests|
    case Subtract => s.events.Got? && s.events.called == |s.events.ids| && forall k :: 0 <= k < |s.events.ids| ==> s.events.ids[k] < |s.requests|
  }

  /** Every request of `ids` moved to `w`. */
  function Moved(s: seq<Where>, ids: seq<nat>, w: Where): (r: seq<Where>)
    requires forall k :: 0 <= k < |ids| ==> ids[k] < |s|
    ensures |r| == |s| && forall i :: 0 <= i < |s| ==> r[i] == if i in ids then w else s[i]
    decreases |ids|
  {
    if ids == [] then s else Moved(s[ids[|ids| - 1] := w], ids[..|ids| - 1], w)
  }

  function After(s: State, step: Step): State
    requires Can(s, step)
  {
    match step
    case Add => s.(inflight := s.inflight + 1, requests := s.requests + [Counted])
    case Accept(i) => s.(requests := s.requests[i := InKernel])
    case Again(i) => s
    case Refuse(i) => s.(requests := s.requests[i := Refused])
    case Withdraw(i) => s.(inflight := s.inflight - 1, requests := s.requests[i := Withdrawn])
    case Harvest(ids) => s.(requests := Moved(s.requests, ids, Harvested), events := Got(|ids|, ids, 0))
    case HarvestFails(nr) => s.(events := Got(nr, [], 0))
    case Callback =>
      s.(requests := s.requests[s.events.ids[s.events.called] := Called], events := s.events.(called := s.events.called + 1))
    case Subtract =>
      s.(inflight := s.inflight - s.events.nr, requests := Moved(s.requests, s.events.ids, Finished), events := Waiting,
         errors := s.errors + if s.events.nr < 0 then -s.events.nr else 0)
  }

  ghost predicate Reaches(a: State, steps: seq<Step>, b: State)
    decreases |steps|
  {
    if steps == [] then a == b
    else
      var rest, step := steps[..|steps| - 1], steps[|steps| - 1];
      exists mid: State :: Reaches(a, rest, mid) && Can(mid, step) && After(mid, step) == b
  }

  /** What the event thread holds is what is harvested, its callbacks run in order. */
  ghost predicate Holds(s: seq<Where>, e: Events) {
    match e
    case Waiting => forall i :: 0 <= i < |s| ==> s[i] != Harvested && s[i] != Called
    case Got(nr, ids, called) =>
      called <= |ids| && Distinct(ids) && (if 0 <= nr then nr == |ids| else ids == []) &&
      (forall k :: 0 <= k < |ids| ==> Is(s, ids[k], if k < called then Called else Harvested)) &&
      forall i :: 0 <= i < |s| && (s[i] == Harvested || s[i] == Called) ==> i in ids
  }

  ghost predicate Inv(s: State) {
    s.inflight == BusyCount(s.requests) + s.errors && Holds(s.requests, s.events)
  }

  lemma {:induction false} CountUpdate(s: seq<Where>, i: nat, w: Where)
    requires i < |s|
    ensures BusyCount(s[i := w]) == BusyCount(s) - (if Busy(s[i]) then 1 else 0) + if Busy(w) then 1 else 0
  {
    var n := |s| - 1;
    if i == n {
      assert s[i := w][..n] == s[..n];
    } else {
      assert s[i := w][..n] == s[..n][i := w];
      CountUpdate(s[..n], i, w);
    }
  }

  lemma {:induction false} CountMoved(s: seq<Where>, ids: seq<nat>, w: Where)
    requires Distinct(ids) && forall k :: 0 <= k < |ids| ==> ids[k] < |s| && Busy(s[ids[k]])
    ensures BusyCount(Moved(s, ids, w)) == BusyCount(s) - if Busy(w) then 0 else |ids|
    decreases |ids|
  {
    if ids != [] {
      var n := |ids| - 1;
      CountUpdate(s, ids[n], w);
      CountMoved(s[ids[n] := w], ids[..n], w);
    }
  }

  lemma {:induction false} NoneCounted(s: seq<Where>)
    ensures BusyCount(s) == 0 <==> forall i :: 0 <= i < |s| ==> !Busy(s[i])
  {
    if s != [] {
      var n := |s| - 1;
      NoneCounted(s[..n]);
      assert forall i :: 0 <= i < |s| ==> s[i] == if i < n then s[..n][i] else s[n];
    }
  }

  lemma StepCount(s: State, step: Step)
    requires Inv(s) && Can(s, step)
    ensures After(s, step).inflight == BusyCount(After(s, step).requests) + After(s, step).errors
  {
    hide BusyCount;
    match step
    case Add => CountAdded(s.requests);
    case Accept(i) => CountUpdate(s.requests, i, InKernel);
    case Again(i) =>
    case Refuse(i) => CountUpdate(s.requests, i, Refused);
    case Withdraw(i) => CountUpdate(s.requests, i, Withdrawn);
    case Harvest(ids) => CountMoved(s.requests, ids, Harvested);
    case HarvestFails(nr) =>
    case Callback => CountUpdate(s.requests, s.events.ids[s.events.called], Called);
    case Subtract => CountMoved(s.requests, s.events.ids, Finished);
  }

  lemma StepHolds(s: State, step: Step)
    requires Inv(s) && Can(s, step)
    ensures Holds(After(s, step).requests, After(s, step).events)
  {
    hide BusyCount;
  }

  lemma StepInv(s: State, step: Step)
    requires Inv(s) && Can(s, step)
    ensures Inv(After(s, step))
  {
    hide BusyCount, Holds, After;
    StepCount(s, step);
    StepHolds(s, step);
  }

  lemma CountAdded(s: seq<Where>)
    ensures BusyCount(s + [Counted]) == BusyCount(s) + 1
  {
  }

  lemma {:induction false} Safety(a: State, steps: seq<Step>, b: State)
    requires Init(a) && Reaches(a, steps, b)
    ensures Inv(b)
    decreases |steps|
  {
    hide Inv, Can, After;
    if steps == [] {
      InitInv(a);
    } else {
      var rest, step := steps[..|steps| - 1], steps[|steps| - 1];
      var mid: State :| Reaches(a, rest, mid) && Can(mid, step) && After(mid, step) == b;
      Safety(a, rest, mid);
      StepInv(mid, step);
    }
  }

  lemma InitInv(s: State)
    requires Init(s)
    ensures Inv(s)
  {
  }

  /**
    raw_image__wait, which returns when it reads 0: in every interleaving that is when
    no call of io_getevents has failed and every request has either been withdrawn or
    had its callback run.
   */
  lemma WaitReturns(a: State, steps: seq<Step>, s: State)
    requires Init(a) && Reaches(a, steps, s)
    ensures s.inflight == 0 <==> s.errors == 0 && forall i :: 0 <= i < |s.requests| ==> s.requests[i] == Withdrawn || s.requests[i] == Finished
  {
    Safety(a, steps, s);
    NoneCounted(s.requests);
  }

  /**
    A failed call is never made up for: however a run goes on, the counter stays above
    the requests there are by at least what the call returned, so a wait never ends.
   */
  lemma {:induction false} FailureStays(a: State, steps: seq<Step>, s: State, more: seq<Step>, s': State)
    requires Init(a) && Reaches(a, steps, s) && Reaches(s, more, s')
    ensures Inv(s') && s.errors <= s'.errors && BusyCount(s'.requests) + s.errors <= s'.inflight
    decreases |more|
  {
    hide BusyCount, Holds, Can;
    if more == [] {
      Safety(a, steps, s);
    } else {
      var rest, step := more[..|more| - 1], more[|more| - 1];
      var mid: State :| Reaches(s, rest, mid) && Can(mid, step) && After(mid, step) == s';
      FailureStays(a, steps, s, rest, mid);
      StepInv(mid, step);
    }
  }

  /** The way of a request: its callback runs once, between harvest and subtraction. */
  predicate Edge(p: Where, q: Where) {
    p == q ||
    match p
    case Counted => q == InKernel || q == Refused
    case InKernel => q == Harvested
    case Refused => q == Withdrawn
    case Harvested => q == Called
    case Called => q == Finished
    case _ => false
  }

  lemma LifeCycle(s: State, step: Step)
    requires Inv(s) && Can(s, step)
    ensures |s.requests| <= |After(s, step).requests|
    ensures forall i :: 0 <= i < |s.requests| ==> Edge(s.requests[i], After(s, step).requests[i])
    ensures step == Callback ==> Is(s.requests, s.events.ids[s.events.called], Harvested)
  {
  }

  /** Any number of edges on. */
  predicate Later(p: Where, q: Where) {
    p == q ||
    match p
    case Counted => true
    case InKernel => q == Harvested || q == Called || q == Finished
    case Refused => q == Withdrawn
    case Harvested => q == Called || q == Finished
    case Called => q == Finished
    case _ => false
  }

  /**
    Over any run every request only moves on: one whose callback has run never comes to
    it again, and one that was refused or withdrawn never comes to it at all.
   */
  lemma {:induction false} OnceCalled(s: State, steps: seq<Step>, s': State)
    requires Inv(s) && Reaches(s, steps, s')
    ensures Inv(s') && |s.requests| <= |s'.requests|
    ensures forall i :: 0 <= i < |s.requests| ==> Later(s.requests[i], s'.requests[i])
    decreases |steps|
  {
    hide Inv, Can, After;
    if steps != [] {
      var rest, step := steps[..|steps| - 1], steps[|steps| - 1];
      var mid: State :| Reaches(s, rest, mid) && Can(mid, step) && After(mid, step) == s';
      OnceCalled(s, rest, mid);
      StepInv(mid, step);
      LifeCycle(mid, step);
    }
  }

  /** io_submit has taken it. */
  predicate Taken(w: Where) {
    w == InKernel || w == Harvested || w == Called || w == Finished
  }

  /** What each step does to each request, by the name of the step alone. */
  lemma StepMoves(s: State, step: Step)
    requires Inv(s) && Can(s, step)
    ensures var s' := After(s, step);
      |s'.requests| == |s.requests| + (if step == Add then 1 else 0) && (step == Add ==> s'.requests[|s.requests|] == Counted) &&
      forall i :: 0 <= i < |s.requests| ==>
        (Taken(s'.requests[i]) <==> Taken(s.requests[i]) || step == Accept(i)) &&
        (s'.requests[i] == Refused || s'.requests[i] == Withdrawn <==> s.requests[i] == Refused || s.requests[i] == Withdrawn || step == Refuse(i)) &&
        (s'.requests[i] == Withdrawn <==> s.requests[i] == Withdrawn || step == Withdraw(i))
  {
    hide BusyCount;
  }

  /**
    A request is with the kernel, or has come back from it, exactly if io_submit took it;
    it is withdrawn exactly if it was refused and then given up. EAGAIN leaves it where
    it is: until one of the two has happened it is still to be submitted.
   */
  lemma {:induction false} TakenIffAccepted(a: State, steps: seq<Step>, s: State)
    requires Init(a) && Reaches(a, steps, s)
    ensures forall i: nat :: Accept(i) in steps <==> i < |s.requests| && Taken(s.requests[i])
    ensures forall i: nat :: Refuse(i) in steps <==> i < |s.requests| && (s.requests[i] == Refused || s.requests[i] == Withdrawn)
    ensures forall i: nat :: Withdraw(i) in steps <==> i < |s.requests| && s.requests[i] == Withdrawn
    ensures forall i :: 0 <= i < |s.requests| && Accept(i) !in steps && Refuse(i) !in steps ==> s.requests[i] == Counted
    decreases |steps|
  {
    hide Inv, Can, After, Taken;
    if steps == [] {
      assert forall i: nat :: Accept(i) !in steps && Refuse(i) !in steps && Withdraw(i) !in steps;
    } else {
      var rest, step := steps[..|steps| - 1], steps[|steps| - 1];
      var mid: State :| Reaches(a, rest, mid) && Can(mid, step) && After(mid, step) == s;
      assert steps == rest + [step];
      TakenIffAccepted(a, rest, mid);
      Safety(a, rest, mid);
      StepMoves(mid, step);
      StepNames(mid, step);
      NotTaken();
    }
    StillCounted(s);
  }

  lemma StepNames(s: State, step: Step)
    requires Can(s, step)
    ensures forall i: nat :: step == Accept(i) || step == Refuse(i) || step == Withdraw(i) ==> i < |s.requests|
  {
  }

  lemma NotTaken()
    ensures !Taken(Counted)
  {
  }

  lemma StillCounted(s: State)
    ensures forall i :: 0 <= i < |s.requests| ==> Taken(s.requests[i]) || s.requests[i] == Refused || s.requests[i] == Withdrawn || s.requests[i] == Counted
  {
  }

  /** What the failed calls of io_getevents in a run returned, added up. */
  function FailedBy(steps: seq<Step>): nat {
    if steps == [] then 0
    else
      var step := steps[|steps| - 1];
      FailedBy(steps[..|steps| - 1]) + if step.HarvestFails? && step.nr < 0 then -step.nr else 0
  }

  /** All of it stays in the counter, or is about to be added to it. */
  lemma {:induction false} FailuresCounted(a: State, steps: seq<Step>, s: State)
    requires Init(a) && Reaches(a, steps, s)
    ensures s.inflight == BusyCount(s.requests) + s.errors
    ensures s.errors + (if s.events.Got? && s.events.nr < 0 then -s.events.nr else 0) == FailedBy(steps)
    decreases |steps|
  {
    hide BusyCount, Holds;
    Safety(a, steps, s);
    if steps != [] {
      var rest, step := steps[..|steps| - 1], steps[|steps| - 1];
      var mid: State :| Reaches(a, rest, mid) && Can(mid, step) && After(mid, step) == s;
      FailuresCounted(a, rest, mid);
    }
  }
}
