/**
  A conforming driver and the virtio-blk device on one queue, as interleaved steps.
  Beside the 16-bit fields the state keeps the unbounded counters behind them; a
  request is named by its position in the order of publication.
 */
module VirtProtocol {
  import opened Basics
  import opened VirtRing

  datatype Option<T> = None | Some(value: T)

  /** Where a request is once the device has popped it. */
  datatype Phase = Popped | InFlight | Dropped | Completing | Used | Reaped

  /** The I/O thread: blocked on the eventfd, inside the tests of virt_queue__available, or with a request. */
  datatype Pc = Reading | Eventing | Comparing | Popping | Handling

  /** A completion inside virtio_queue__should_signal, with the indices it has read. */
  datatype Check = AtOld | AtNew(oldAt: nat) | AtEvent(oldAt: nat, newAt: nat) | AtStore(newAt: nat) | Signalling

  datatype State = State(
    v: Vring,
    // the driver
    avail: seq<nat>,              // every head ever put in the ring
    published: nat,               // how many of them avail->idx shows
    checked: nat,                 // how many it had published when it last tested avail_event
    kick: bool,                   // it is about to notify
    owner: seq<Option<nat>>,      // the request a head serves
    lastUsed: nat,                // completions it has taken back
    armed: Option<nat>,           // the count used_event asks for
    asleep: bool,                 // it waits for an interrupt
    irq: bool,                    // one is pending
    // the device
    pc: Pc,
    efd: nat,                     // the eventfd counter
    phase: seq<Phase>,            // of each request popped so far
    reqs: seq<nat>,               // the request whose data reqs[head] holds
    eventAt: nat,                 // the count behind avail_event
    done: seq<nat>,               // requests in order of completion
    lens: seq<int>,               // the lengths reported for them, and for the one completing
    completing: Option<nat>,      // the holder of the mutex
    checks: map<nat, Check>,      // completions that have not finished signalling
    signalledAt: nat              // the count behind last_used_signalled
  )

  datatype Step =
    // the driver
    | Stage(head: nat) | Publish | CheckKick | Kick | Reap | Arm | Suppress(event: nat) | Sleep | Interrupt
    // the I/O thread
    | ReadEfd | WriteEvent | Compare | Pop | Submit | Drop
    // a completion
    | WriteUsed(id: nat, len: int) | AdvanceUsed | ReadOld(id: nat) | ReadNew(id: nat) | Decide(id: nat) | Store(id: nat) | Signal(id: nat)

  predicate Init(s: State) {
    var v := s.v;
    v.Shaped() && v.availIdx == v.availEvent == v.usedIdx == v.lastAvailIdx == v.lastUsedSignalled == 0 &&
    s.avail == [] && s.published == s.checked == 0 && !s.kick && |s.owner| == |s.reqs| == v.num &&
    (forall h :: 0 <= h < v.num ==> s.owner[h] == None) && s.lastUsed == 0 && s.armed == None && !s.asleep && !s.irq &&
    s.pc == Reading && s.efd == 0 && s.phase == [] && s.eventAt == 0 && s.done == [] && s.lens == [] && s.completing == None &&
    s.checks == map[] && s.signalledAt == 0
  }

  /** Less than 2^16 completions since the values a completion compares with. */
  predicate Recent(s: State, done: nat) {
    s.v.useEventIdx ==> done < s.signalledAt + U16_RANGE && forall i :: i in s.checks ==> CheckRecent(s.checks[i], done)
  }

  predicate CheckRecent(c: Check, done: nat) {
    (c.AtNew? || c.AtEvent? ==> done < c.oldAt + U16_RANGE) && (c.AtStore? ==> done < c.newAt + U16_RANGE)
  }

  /** What the notification test of the driver says; without the event index it always notifies. */
  predicate WouldKick(s: State) {
    !s.v.useEventIdx || NeedEvent(s.v.availEvent, U16(s.published), U16(s.checked))
  }

  predicate Can(s: State, step: Step)
    requires Shape(s)
  {
    match step
    case Stage(h) => h < s.v.num && s.owner[h] == None
    case Publish => s.published < |s.avail|
    case CheckKick => s.checked < s.published
    case Kick => s.kick
    case Reap => !s.asleep && s.v.usedIdx != U16(s.lastUsed)
    case Arm => !s.asleep
    case Suppress(_) => !s.asleep
    case Sleep => s.armed == Some(s.lastUsed) && s.v.usedIdx == U16(s.lastUsed)
    case Interrupt => s.irq
    case ReadEfd => s.pc == Reading && 0 < s.efd
    case WriteEvent => s.pc == Eventing
    case Compare => s.pc == Comparing
    case Pop => s.pc == Popping
    case Submit => s.pc == Handling
    case Drop => s.pc == Handling
    case WriteUsed(i, _) => i < |s.phase| && s.phase[i] == InFlight && s.completing == None
    case AdvanceUsed => s.completing.Some?
    case ReadOld(i) => i in s.checks && s.checks[i].AtOld?
    case ReadNew(i) => i in s.checks && s.checks[i].AtNew?
    case Decide(i) => i in s.checks && s.checks[i].AtEvent?
    case Store(i) => i in s.checks && s.checks[i].AtStore?
    case Signal(i) => i in s.checks && s.checks[i].Signalling?
  }

  /** The sizes and ranges that make the steps well defined. */
  predicate Shape(s: State) {
    s.v.Shaped() && |s.owner| == |s.reqs| == s.v.num && |s.phase| <= s.published <= |s.avail| && s.checked <= s.published &&
    s.lastUsed <= |s.done| && (forall i :: 0 <= i < |s.avail| ==> s.avail[i] < s.v.num) &&
    (forall k :: 0 <= k < |s.done| ==> s.done[k] < |s.phase|) &&
    (s.completing.Some? ==> s.completing.value < |s.phase|) && (s.pc == Popping ==> s.v.Head() < s.v.num) &&
    (s.pc == Handling ==> s.phase != []) && (s.lastUsed < |s.done| ==> s.v.usedRing[U16(s.lastUsed) % s.v.num].id < s.v.num)
  }

  function After(s: State, step: Step): State
    requires Shape(s) && Can(s, step)
  {
    var v := s.v;
    match step
    case Stage(h) =>
      s.(v := v.(availRing := v.availRing[U16(|s.avail|) % v.num := h]), avail := s.avail + [h], owner := s.owner[h := Some(|s.avail|)])
    case Publish => s.(v := v.(availIdx := U16(|s.avail|)), published := |s.avail|)
    case CheckKick => s.(kick := s.kick || WouldKick(s), checked := s.published)
    case Kick => s.(efd := s.efd + 1, kick := false)
    case Reap =>
      if s.lastUsed < |s.done| then
        var h := v.usedRing[U16(s.lastUsed) % v.num].id;
        s.(owner := s.owner[h := None], phase := s.phase[s.done[s.lastUsed] := Reaped], lastUsed := s.lastUsed + 1)
      else s
    case Arm => s.(v := v.(usedEvent := U16(s.lastUsed), noInterrupt := false), armed := Some(s.lastUsed))
    case Suppress(event) => s.(v := v.(usedEvent := event, noInterrupt := true), armed := None)
    case Sleep => s.(asleep := true)
    case Interrupt => s.(irq := false, asleep := false)
    case ReadEfd => s.(efd := 0, pc := Eventing)
    case WriteEvent => s.(v := v.EventWritten(), eventAt := |s.phase|, pc := Comparing)
    case Compare => s.(pc := if v.MoreAvailable() then Popping else Reading)
    case Pop => s.(v := v.Popped(), phase := s.phase + [Phase.Popped], reqs := s.reqs[v.Head() := |s.phase|], pc := Handling)
    case Submit => s.(phase := s.phase[|s.phase| - 1 := InFlight], pc := Eventing)
    case Drop => s.(phase := s.phase[|s.phase| - 1 := Dropped], pc := Eventing)
    case WriteUsed(i, len) =>
      s.(v := v.UsedWritten(s.avail[i], len), phase := s.phase[i := Completing], completing := Some(i), lens := s.lens + [len])
    case AdvanceUsed =>
      var i := s.completing.value;
      s.(v := v.UsedAdvanced(), done := s.done + [i], phase := s.phase[i := Used], completing := None, checks := s.checks[i := AtOld])
    case ReadOld(i) => s.(checks := s.checks[i := AtNew(s.signalledAt)])
    case ReadNew(i) => s.(checks := s.checks[i := AtEvent(s.checks[i].oldAt, |s.done|)])
    case Decide(i) =>
      var c := s.checks[i];
      if !v.Signals(U16(c.oldAt), U16(c.newAt)) then s.(checks := s.checks - {i})
      else s.(checks := s.checks[i := if v.useEventIdx then AtStore(c.newAt) else Signalling])
    case Store(i) =>
      s.(v := v.(lastUsedSignalled := U16(s.checks[i].newAt)), signalledAt := s.checks[i].newAt, checks := s.checks[i := Signalling])
    case Signal(i) => s.(irq := true, checks := s.checks - {i})
  }

  /**
    All runs; those in which the driver tests for notification before it has published
    2^16 entries since the last test; and those in which fewer than 2^16 completions
    pass since the indices that a completion compares with.
   */
  datatype Runs = Every | Prompt | Fresh

  predicate Within(runs: Runs, s: State, step: Step) {
    match runs
    case Every => true
    case Prompt => step.Publish? && s.v.useEventIdx ==> |s.avail| < s.checked + U16_RANGE
    case Fresh => step.AdvanceUsed? ==> Recent(s, |s.done| + 1)
  }

  /** `b` is reached from `a` by a run of steps of the kind given. */
  ghost predicate Reaches(runs: Runs, a: State, steps: seq<Step>, b: State)
    decreases |steps|
  {
    if steps == [] then a == b
    else
      var rest, step := steps[..|steps| - 1], steps[|steps| - 1];
      exists mid: State ::
        Reaches(runs, a, rest, mid) && Shape(mid) && Can(mid, step) && Within(runs, mid, step) && After(mid, step) == b
  }

  lemma {:induction false} AnyRun(runs: Runs, a: State, steps: seq<Step>, b: State)
    requires Reaches(runs, a, steps, b)
    ensures Reaches(Every, a, steps, b)
    decreases |steps|
  {
    hide Shape, Can, After;
    if steps != [] {
      var rest, step := steps[..|steps| - 1], steps[|steps| - 1];
      var mid: State :| Reaches(runs, a, rest, mid) && Shape(mid) && Can(mid, step) && Within(runs, mid, step) && After(mid, step) == b;
      AnyRun(runs, a, rest, mid);
    }
  }

  // ---------------------------------------------------------------------
  // What every step keeps
  // ---------------------------------------------------------------------

  /** A request is live until the driver has taken its head back. */
  predicate Live(phase: seq<Phase>, i: nat) {
    i < |phase| ==> phase[i] != Reaped
  }

  /** A head serves one request at a time: the busy heads and the live requests are in bijection. */
  ghost predicate Owners(avail: seq<nat>, owner: seq<Option<nat>>, phase: seq<Phase>) {
    (forall i :: 0 <= i < |avail| ==> avail[i] < |owner|) &&
    (forall h :: 0 <= h < |owner| && owner[h].Some? ==>
       owner[h].value < |avail| && avail[owner[h].value] == h && Live(phase, owner[h].value)) &&
    (forall i :: 0 <= i < |avail| && Live(phase, i) ==> owner[avail[i]] == Some(i))
  }

  /** No entry of the available ring is overwritten before it is popped. */
  ghost predicate AvailSlots(ring: seq<nat>, avail: seq<nat>, popped: nat) {
    0 < |ring| && forall i {:trigger avail[i]} :: popped <= i < |avail| ==> ring[i % |ring|] == avail[i]
  }

  /** The log of completions holds each completed request once, in order. */
  ghost predicate UsedLog(phase: seq<Phase>, done: seq<nat>, lastUsed: nat, completing: Option<nat>) {
    lastUsed <= |done| && (forall i, k :: 0 <= i < k < |done| ==> done[i] != done[k]) &&
    (forall k :: 0 <= k < |done| ==> done[k] < |phase| && phase[done[k]] == if k < lastUsed then Reaped else Used) &&
    (forall i :: 0 <= i < |phase| && (phase[i] == Used || phase[i] == Reaped) ==> i in done) &&
    (forall i :: 0 <= i < |phase| ==> (phase[i] == Completing <==> completing == Some(i))) &&
    (completing.Some? ==> completing.value < |phase|)
  }

  /** No entry of the used ring is overwritten before the driver has taken it. */
  ghost predicate UsedSlots(ring: seq<UsedElem>, avail: seq<nat>, done: seq<nat>, lastUsed: nat, completing: Option<nat>) {
    0 < |ring| && (forall k :: 0 <= k < |done| ==> done[k] < |avail|) &&
    (forall k {:trigger done[k]} :: lastUsed <= k < |done| ==> ring[k % |ring|].id == avail[done[k]]) &&
    (completing.Some? ==> completing.value < |avail| && ring[|done| % |ring|].id == avail[completing.value])
  }

  /** Each of these entries holds the length that was reported with it. */
  ghost predicate UsedLens(ring: seq<UsedElem>, lens: seq<int>, done: nat, lastUsed: nat, completing: Option<nat>) {
    0 < |ring| && |lens| == done + (if completing.Some? then 1 else 0) &&
    forall k {:trigger lens[k]} :: lastUsed <= k < |lens| ==> ring[k % |ring|].len == lens[k]
  }

  /** reqs[head] keeps the data of its request until that has completed. */
  ghost predicate Records(phase: seq<Phase>, avail: seq<nat>, reqs: seq<nat>, handling: bool) {
    |phase| <= |avail| && (forall i :: 0 <= i < |avail| ==> avail[i] < |reqs|) &&
    (forall i :: 0 <= i < |phase| && (phase[i] == Phase.Popped || phase[i] == InFlight || phase[i] == Completing) ==> reqs[avail[i]] == i) &&
    (handling ==> phase != []) &&
    (forall i :: 0 <= i < |phase| ==> (phase[i] == Phase.Popped <==> handling && i == |phase| - 1))
  }

  ghost predicate Indices(s: State) {
    s.v.availIdx == U16(s.published) && s.v.lastUsedSignalled == U16(s.signalledAt) && s.v.lastAvailIdx == U16(|s.phase|) && s.v.usedIdx == U16(|s.done|) &&
    (s.pc == Popping ==> |s.phase| < s.published)
  }

  /**
    The available side of the notifications: while the thread is blocked with nothing
    in the eventfd, the driver has tested nothing that the thread has not popped.
   */
  ghost predicate AvailSide(s: State) {
    (s.v.useEventIdx ==> s.v.availEvent == U16(s.eventAt)) && s.eventAt <= |s.phase| &&
    (s.v.useEventIdx ==> s.published < s.checked + U16_RANGE) &&
    (s.v.useEventIdx && (s.pc == Reading || s.pc == Comparing || s.pc == Popping) ==> s.eventAt == |s.phase|) &&
    (s.pc == Reading && s.efd == 0 && !s.kick ==> s.checked <= |s.phase|)
  }

  /** A completion that will yet interrupt a driver asleep at `at`. */
  predicate WillSignal(c: Check, at: nat, useEventIdx: bool) {
    match c
    case AtOld => true
    case AtNew(oldAt) => useEventIdx ==> oldAt <= at
    case AtEvent(oldAt, newAt) => useEventIdx ==> oldAt <= at < newAt
    case AtStore(_) => true
    case Signalling => true
  }

  /** It has passed the test. */
  predicate Passed(c: Check) {
    c.AtStore? || c.Signalling?
  }

  predicate InRange(c: Check, done: nat) {
    match c
    case AtNew(oldAt) => oldAt <= done
    case AtEvent(oldAt, newAt) => oldAt <= newAt <= done
    case AtStore(newAt) => newAt <= done
    case _ => true
  }

  predicate NotBeyond(c: Check, at: nat) {
    c.AtNew? || c.AtEvent? ==> c.oldAt <= at
  }

  /**
    Completions on their way through virtio_queue__should_signal: while a driver waits
    at `at` and none of them is past the test, nothing has been signalled beyond `at`,
    and if something has completed since, one of them will yet signal it.
   */
  ghost predicate Checks(checks: map<nat, Check>, done: nat, signalledAt: nat, at: nat, useEventIdx: bool, waiting: bool) {
    (forall i :: i in checks ==> InRange(checks[i], done) && (useEventIdx ==> CheckRecent(checks[i], done))) &&
    (waiting && useEventIdx && (forall i :: i in checks ==> !Passed(checks[i])) ==>
       signalledAt <= at && forall i :: i in checks ==> NotBeyond(checks[i], at)) &&
    (waiting && at < done ==> exists i :: i in checks && WillSignal(checks[i], at, useEventIdx))
  }

  /** The used side of the notifications. */
  ghost predicate UsedSide(s: State) {
    s.v.lastUsedSignalled == U16(s.signalledAt) && s.signalledAt <= |s.done| &&
    (s.v.useEventIdx ==> |s.done| < s.signalledAt + U16_RANGE) && (forall i :: i in s.checks ==> i in s.done) &&
    (s.armed.Some? ==> s.v.usedEvent == U16(s.armed.value) && !s.v.noInterrupt && s.armed.value <= s.lastUsed) &&
    (s.asleep ==> s.armed == Some(s.lastUsed)) &&
    Checks(s.checks, |s.done|, s.signalledAt, s.lastUsed, s.v.useEventIdx, s.asleep && !s.irq)
  }

  ghost predicate Rings(s: State) {
    Owners(s.avail, s.owner, s.phase) && AvailSlots(s.v.availRing, s.avail, |s.phase|) &&
    UsedLog(s.phase, s.done, s.lastUsed, s.completing) &&
    UsedSlots(s.v.usedRing, s.avail, s.done, s.lastUsed, s.completing) &&
    UsedLens(s.v.usedRing, s.lens, |s.done|, s.lastUsed, s.completing) &&
    Records(s.phase, s.avail, s.reqs, s.pc == Handling)
  }

  /** What holds in every run; the two sides of the notifications need the runs named above. */
  ghost predicate Inv(s: State) {
    Shape(s) && Indices(s) && Rings(s)
  }

  lemma InitInv(s: State)
    requires Init(s)
    ensures Inv(s) && AvailSide(s) && UsedSide(s)
  {
  }

  // ---------------------------------------------------------------------
  // The rings
  // ---------------------------------------------------------------------

  /** No more requests wait than the ring has slots, and one less while a head is free. */
  lemma WaitingBound(avail: seq<nat>, owner: seq<Option<nat>>, phase: seq<Phase>)
    requires Owners(avail, owner, phase) && |phase| <= |avail|
    ensures |avail| <= |phase| + |owner|
    ensures forall h :: 0 <= h < |owner| && owner[h] == None ==> |avail| < |phase| + |owner|
  {
    var w := avail[|phase|..];
    DistinctHeads(avail, owner, phase);
    Pigeonhole(w, |owner|);
    forall h | 0 <= h < |owner| && owner[h] == None ensures |avail| < |phase| + |owner| {
      Pigeonhole(w + [h], |owner|);
    }
  }

  lemma DistinctHeads(avail: seq<nat>, owner: seq<Option<nat>>, phase: seq<Phase>)
    requires Owners(avail, owner, phase)
    ensures forall i, j :: 0 <= i < j < |avail| && Live(phase, i) && Live(phase, j) ==> avail[i] != avail[j]
  {
  }

  /** Nor are more completions waiting to be taken back; one less while a request is in flight. */
  lemma UnreapedBound(avail: seq<nat>, owner: seq<Option<nat>>, phase: seq<Phase>, done: seq<nat>, lastUsed: nat, completing: Option<nat>)
    requires Owners(avail, owner, phase) && |phase| <= |avail| && UsedLog(phase, done, lastUsed, completing)
    ensures |done| <= lastUsed + |owner|
    ensures forall i :: 0 <= i < |phase| && phase[i] == InFlight ==> |done| < lastUsed + |owner|
  {
    DistinctHeads(avail, owner, phase);
    var n := |done| - lastUsed;
    var w: seq<nat> := seq(n, k requires 0 <= k < n => avail[done[lastUsed + k]]);
    forall i, j | 0 <= i < j < n ensures w[i] != w[j] {
      assert done[lastUsed + i] != done[lastUsed + j];
      assert phase[done[lastUsed + i]] == Used == phase[done[lastUsed + j]];
    }
    forall i | 0 <= i < n ensures w[i] < |owner| {
    }
    Pigeonhole(w, |owner|);
    forall i | 0 <= i < |phase| && phase[i] == InFlight ensures |done| < lastUsed + |owner| {
      forall j | 0 <= j < n ensures w[j] != avail[i] {
        assert phase[done[lastUsed + j]] == Used;
      }
      Pigeonhole(w + [avail[i]], |owner|);
    }
  }

  /** The driver puts a free head behind the waiting ones. */
  lemma StageRings(avail: seq<nat>, owner: seq<Option<nat>>, phase: seq<Phase>, ring: seq<nat>, h: nat)
    requires Owners(avail, owner, phase) && |phase| <= |avail| && AvailSlots(ring, avail, |phase|)
    requires |ring| == |owner| && h < |owner| && owner[h] == None && RingSize(|ring|)
    ensures Owners(avail + [h], owner[h := Some(|avail|)], phase)
    ensures AvailSlots(ring[U16(|avail|) % |ring| := h], avail + [h], |phase|)
  {
    var avail', n := avail + [h], |avail|;
    WaitingBound(avail, owner, phase);
    SlotOfU16(n, |ring|);
    forall i | |phase| <= i < n ensures ring[n % |ring| := h][i % |ring|] == avail'[i] {
      RemaindersApart(i, n, |ring|);
      assert ring[i % |ring|] == avail[i];
    }
    forall i | 0 <= i < n && Live(phase, i) ensures avail[i] != h {
      assert owner[avail[i]] == Some(i);
    }
  }

  lemma StageOther(avail: seq<nat>, h: nat, ring: seq<UsedElem>, done: seq<nat>, lastUsed: nat, completing: Option<nat>,
                   phase: seq<Phase>, reqs: seq<nat>, handling: bool)
    requires UsedSlots(ring, avail, done, lastUsed, completing) && Records(phase, avail, reqs, handling) && h < |reqs|
    ensures UsedSlots(ring, avail + [h], done, lastUsed, completing) && Records(phase, avail + [h], reqs, handling)
  {
  }

  lemma OwnersPhase(avail: seq<nat>, owner: seq<Option<nat>>, phase: seq<Phase>, phase': seq<Phase>)
    requires Owners(avail, owner, phase) && forall i: nat :: Live(phase', i) == Live(phase, i)
    ensures Owners(avail, owner, phase')
  {
  }

  /** The driver takes back a head, and with it ends the request. */
  lemma OwnersReap(avail: seq<nat>, owner: seq<Option<nat>>, phase: seq<Phase>, i: nat)
    requires Owners(avail, owner, phase) && i < |phase| <= |avail| && phase[i] == Used
    ensures Owners(avail, owner[avail[i] := None], phase[i := Reaped])
  {
  }

  lemma UsedLogReap(phase: seq<Phase>, done: seq<nat>, lastUsed: nat, completing: Option<nat>)
    requires UsedLog(phase, done, lastUsed, completing) && lastUsed < |done|
    ensures UsedLog(phase[done[lastUsed] := Reaped], done, lastUsed + 1, completing)
  {
  }

  lemma UsedSlotsReap(ring: seq<UsedElem>, avail: seq<nat>, done: seq<nat>, lastUsed: nat, completing: Option<nat>)
    requires UsedSlots(ring, avail, done, lastUsed, completing) && lastUsed < |done| && RingSize(|ring|)
    ensures ring[U16(lastUsed) % |ring|].id == avail[done[lastUsed]]
    ensures UsedSlots(ring, avail, done, lastUsed + 1, completing)
  {
    SlotOfU16(lastUsed, |ring|);
  }

  /** A request moves on in the device; it stops needing its record when it completes. */
  lemma RecordsMove(phase: seq<Phase>, avail: seq<nat>, reqs: seq<nat>, handling: bool, i: nat, p: Phase, handling': bool)
    requires Records(phase, avail, reqs, handling) && i < |phase| && p != Phase.Popped
    requires p == InFlight || p == Completing ==> phase[i] == Phase.Popped || phase[i] == InFlight || phase[i] == Completing
    requires if phase[i] == Phase.Popped then !handling' else handling' == handling
    ensures Records(phase[i := p], avail, reqs, handling')
  {
  }

  lemma RecordsPop(phase: seq<Phase>, avail: seq<nat>, owner: seq<Option<nat>>, reqs: seq<nat>)
    requires Records(phase, avail, reqs, false) && Owners(avail, owner, phase) && |phase| < |avail|
    ensures Records(phase + [Phase.Popped], avail, reqs[avail[|phase|] := |phase|], true)
  {
  }

  lemma UsedLogPop(phase: seq<Phase>, done: seq<nat>, lastUsed: nat, completing: Option<nat>)
    requires UsedLog(phase, done, lastUsed, completing)
    ensures UsedLog(phase + [Phase.Popped], done, lastUsed, completing)
  {
  }

  lemma UsedLogMove(phase: seq<Phase>, done: seq<nat>, lastUsed: nat, completing: Option<nat>, i: nat, p: Phase)
    requires UsedLog(phase, done, lastUsed, completing) && i < |phase|
    requires phase[i] == Phase.Popped && (p == InFlight || p == Dropped)
    ensures UsedLog(phase[i := p], done, lastUsed, completing)
  {
  }

  lemma UsedLogHold(phase: seq<Phase>, done: seq<nat>, lastUsed: nat, i: nat)
    requires UsedLog(phase, done, lastUsed, None) && i < |phase| && phase[i] == InFlight
    ensures UsedLog(phase[i := Completing], done, lastUsed, Some(i))
  {
  }

  lemma UsedLogAdvance(phase: seq<Phase>, done: seq<nat>, lastUsed: nat, i: nat)
    requires UsedLog(phase, done, lastUsed, Some(i))
    ensures UsedLog(phase[i := Used], done + [i], lastUsed, None)
  {
  }

  lemma UsedSlotsWrite(ring: seq<UsedElem>, avail: seq<nat>, done: seq<nat>, lastUsed: nat, i: nat, e: UsedElem)
    requires UsedSlots(ring, avail, done, lastUsed, None) && |done| < lastUsed + |ring| && i < |avail| && e.id == avail[i]
    requires lastUsed <= |done|
    ensures UsedSlots(ring[|done| % |ring| := e], avail, done, lastUsed, Some(i))
  {
    forall k | lastUsed <= k < |done| ensures ring[|done| % |ring| := e][k % |ring|].id == avail[done[k]] {
      RemaindersApart(k, |done|, |ring|);
      assert ring[k % |ring|].id == avail[done[k]];
    }
  }

  lemma UsedLensWrite(ring: seq<UsedElem>, lens: seq<int>, done: nat, lastUsed: nat, i: nat, e: UsedElem)
    requires UsedLens(ring, lens, done, lastUsed, None) && done < lastUsed + |ring| && lastUsed <= done
    ensures UsedLens(ring[done % |ring| := e], lens + [e.len], done, lastUsed, Some(i))
  {
    forall k | lastUsed <= k < done ensures ring[done % |ring| := e][k % |ring|].len == lens[k] {
      RemaindersApart(k, done, |ring|);
      assert ring[k % |ring|].len == lens[k];
    }
  }

  /** The driver takes one, or the index shows one. */
  lemma UsedLensMove(ring: seq<UsedElem>, lens: seq<int>, done: nat, lastUsed: nat, completing: Option<nat>)
    requires UsedLens(ring, lens, done, lastUsed, completing)
    ensures UsedLens(ring, lens, done, lastUsed + 1, completing)
    ensures completing.Some? ==> UsedLens(ring, lens, done + 1, lastUsed, None)
  {
  }

  lemma UsedSlotsAdvance(ring: seq<UsedElem>, avail: seq<nat>, done: seq<nat>, lastUsed: nat, i: nat)
    requires UsedSlots(ring, avail, done, lastUsed, Some(i))
    ensures UsedSlots(ring, avail, done + [i], lastUsed, None)
  {
  }

  /** The next entry is the next request's head. */
  lemma HeadIs(s: State)
    requires s.v.Shaped() && AvailSlots(s.v.availRing, s.avail, |s.phase|) && |s.phase| < |s.avail|
    requires s.v.lastAvailIdx == U16(|s.phase|)
    ensures s.v.Head() == s.avail[|s.phase|]
  {
    SlotOfU16(|s.phase|, s.v.num);
  }

  lemma HeadsInRange(avail: seq<nat>, owner: seq<Option<nat>>, phase: seq<Phase>)
    requires Owners(avail, owner, phase)
    ensures forall i :: 0 <= i < |avail| ==> avail[i] < |owner|
  {
  }

  lemma LogInRange(phase: seq<Phase>, done: seq<nat>, lastUsed: nat, completing: Option<nat>)
    requires UsedLog(phase, done, lastUsed, completing)
    ensures lastUsed <= |done| && (forall k :: 0 <= k < |done| ==> done[k] < |phase|)
    ensures completing.Some? ==> completing.value < |phase| && phase[completing.value] == Completing && completing.value !in done
    ensures lastUsed < |done| ==> phase[done[lastUsed]] == Used
  {
  }

  lemma HandlingLast(phase: seq<Phase>, avail: seq<nat>, reqs: seq<nat>)
    requires Records(phase, avail, reqs, true)
    ensures phase != [] && phase[|phase| - 1] == Phase.Popped
  {
  }

  /** The shape follows from the rings and the counters. */
  lemma ShapeFrom(s: State)
    requires s.v.Shaped() && |s.owner| == |s.reqs| == s.v.num && |s.phase| <= s.published <= |s.avail| && s.checked <= s.published
    requires Rings(s) && Indices(s)
    ensures Shape(s)
  {
    hide Owners, AvailSlots, UsedLog, UsedSlots, UsedLens, Records, U16;
    HeadsInRange(s.avail, s.owner, s.phase);
    LogInRange(s.phase, s.done, s.lastUsed, s.completing);
    if s.pc == Popping {
      HeadIs(s);
    }
    if s.pc == Handling {
      HandlingLast(s.phase, s.avail, s.reqs);
    }
    if s.lastUsed < |s.done| {
      UsedSlotsReap(s.v.usedRing, s.avail, s.done, s.lastUsed, s.completing);
    }
  }

  /** Steps that only move counters and notification state. */
  predicate Quiet(step: Step) {
    !(step.Stage? || step.Reap? || step.Pop? || step.Submit? || step.Drop? || step.WriteUsed? || step.AdvanceUsed?)
  }

  lemma QuietKeepsRings(s: State, step: Step)
    requires Inv(s) && Can(s, step) && Quiet(step)
    ensures Inv(After(s, step))
  {
    hide Owners, AvailSlots, UsedLog, UsedSlots, UsedLens, Records, U16;
    if step.Compare? {
      BehindIs(s);
    }
    ShapeFrom(After(s, step));
  }

  /** The comparison on truncated indices is the comparison of the counts. */
  lemma BehindIs(s: State)
    requires Shape(s) && Indices(s) && Rings(s)
    ensures s.v.MoreAvailable() <==> |s.phase| < s.published
    ensures s.published - |s.phase| < U16_RANGE
  {
    WaitingBound(s.avail, s.owner, s.phase);
    U16Near(s.published, |s.phase|);
  }

  lemma UnreapedIs(s: State)
    requires Shape(s) && Indices(s) && Rings(s)
    ensures s.v.usedIdx != U16(s.lastUsed) <==> s.lastUsed < |s.done|
    ensures 0 <= |s.done| - s.lastUsed <= s.v.num < U16_RANGE
  {
    UnreapedBound(s.avail, s.owner, s.phase, s.done, s.lastUsed, s.completing);
    U16Near(|s.done|, s.lastUsed);
  }

  lemma DriverKeepsRings(s: State, step: Step)
    requires Inv(s) && Can(s, step) && (step.Stage? || step.Reap?)
    ensures Inv(After(s, step))
  {
    hide Owners, AvailSlots, UsedLog, UsedSlots, UsedLens, Records, U16;
    match step
    case Stage(h) =>
      StageRings(s.avail, s.owner, s.phase, s.v.availRing, h);
      StageOther(s.avail, h, s.v.usedRing, s.done, s.lastUsed, s.completing, s.phase, s.reqs, s.pc == Handling);
      ShapeFrom(After(s, step));
    case Reap =>
      UnreapedIs(s);
      var i := s.done[s.lastUsed];
      LogInRange(s.phase, s.done, s.lastUsed, s.completing);
      UsedSlotsReap(s.v.usedRing, s.avail, s.done, s.lastUsed, s.completing);
      OwnersReap(s.avail, s.owner, s.phase, i);
      UsedLogReap(s.phase, s.done, s.lastUsed, s.completing);
      UsedLensMove(s.v.usedRing, s.lens, |s.done|, s.lastUsed, s.completing);
      RecordsMove(s.phase, s.avail, s.reqs, s.pc == Handling, i, Reaped, s.pc == Handling);
      ShapeFrom(After(s, step));
  }

  lemma PopKeepsRings(s: State)
    requires Inv(s) && Can(s, Pop)
    ensures Inv(After(s, Pop))
  {
    hide Owners, UsedLog, UsedSlots, UsedLens, Records, U16;
    HeadIs(s);
    U16Next(|s.phase|);
    OwnersPhase(s.avail, s.owner, s.phase, s.phase + [Phase.Popped]);
    UsedLogPop(s.phase, s.done, s.lastUsed, s.completing);
    RecordsPop(s.phase, s.avail, s.owner, s.reqs);
    ShapeFrom(After(s, Pop));
  }

  lemma HandledKeepsRings(s: State, step: Step)
    requires Inv(s) && Can(s, step) && (step.Submit? || step.Drop?)
    ensures Inv(After(s, step))
  {
    hide Owners, AvailSlots, UsedLog, UsedSlots, UsedLens, Records, U16;
    var n, p := |s.phase|, if step.Submit? then InFlight else Dropped;
    HandlingLast(s.phase, s.avail, s.reqs);
    OwnersPhase(s.avail, s.owner, s.phase, s.phase[n - 1 := p]);
    UsedLogMove(s.phase, s.done, s.lastUsed, s.completing, n - 1, p);
    RecordsMove(s.phase, s.avail, s.reqs, true, n - 1, p, false);
    ShapeFrom(After(s, step));
  }

  lemma WriteKeepsRings(s: State, i: nat, len: int)
    requires Inv(s) && Can(s, WriteUsed(i, len))
    ensures Inv(After(s, WriteUsed(i, len)))
  {
    hide Owners, AvailSlots, UsedLog, UsedSlots, UsedLens, Records, U16;
    LogInRange(s.phase, s.done, s.lastUsed, s.completing);
    UnreapedBound(s.avail, s.owner, s.phase, s.done, s.lastUsed, s.completing);
    SlotOfU16(|s.done|, s.v.num);
    OwnersPhase(s.avail, s.owner, s.phase, s.phase[i := Completing]);
    UsedLogHold(s.phase, s.done, s.lastUsed, i);
    UsedSlotsWrite(s.v.usedRing, s.avail, s.done, s.lastUsed, i, UsedElem(s.avail[i], len));
    UsedLensWrite(s.v.usedRing, s.lens, |s.done|, s.lastUsed, i, UsedElem(s.avail[i], len));
    RecordsMove(s.phase, s.avail, s.reqs, s.pc == Handling, i, Completing, s.pc == Handling);
    ShapeFrom(After(s, WriteUsed(i, len)));
  }

  lemma AdvanceKeepsRings(s: State)
    requires Inv(s) && Can(s, AdvanceUsed)
    ensures Inv(After(s, AdvanceUsed))
  {
    hide Owners, AvailSlots, UsedLog, UsedSlots, UsedLens, Records, U16;
    LogInRange(s.phase, s.done, s.lastUsed, s.completing);
    var i := s.completing.value;
    U16Next(|s.done|);
    OwnersPhase(s.avail, s.owner, s.phase, s.phase[i := Used]);
    UsedLogAdvance(s.phase, s.done, s.lastUsed, i);
    UsedSlotsAdvance(s.v.usedRing, s.avail, s.done, s.lastUsed, i);
    UsedLensMove(s.v.usedRing, s.lens, |s.done|, s.lastUsed, s.completing);
    RecordsMove(s.phase, s.avail, s.reqs, s.pc == Handling, i, Used, s.pc == Handling);
    ShapeFrom(After(s, AdvanceUsed));
  }

  // ---------------------------------------------------------------------
  // The notifications
  // ---------------------------------------------------------------------

  lemma KeepsAvailSide(s: State, step: Step)
    requires Inv(s) && AvailSide(s) && Can(s, step) && Within(Prompt, s, step)
    ensures AvailSide(After(s, step))
  {
    hide Rings, U16, NeedEvent;
    BehindIs(s);
    if step.CheckKick? && s.v.useEventIdx && s.pc == Reading {
      NeedEventPassed(s.eventAt, s.published, s.checked);
    }
  }

  /** A step of a completion between its reading of the first index and its interrupt. */
  predicate Checking(step: Step) {
    step.ReadOld? || step.ReadNew? || step.Store?
  }

  lemma OthersKeepUsedSide(s: State, step: Step)
    requires Inv(s) && UsedSide(s) && Can(s, step) && !step.Decide? && !step.Signal? && !step.AdvanceUsed? && !Checking(step)
    ensures UsedSide(After(s, step))
  {
    hide Rings, Indices, Shape, U16, NeedEvent, Checks;
    UnreapedIs(s);
    if step.Sleep? || step.Reap? || step.Interrupt? {
      NotWaiting(s.checks, |s.done|, s.signalledAt, s.lastUsed, s.v.useEventIdx, s.asleep && !s.irq, After(s, step).lastUsed, After(s, step).asleep && !s.irq);
    }
  }

  /** A driver that is awake may take completions back, or go to sleep where nothing is left to take. */
  lemma NotWaiting(checks: map<nat, Check>, done: nat, signalledAt: nat, at: nat, useEventIdx: bool, waiting: bool, at': nat, waiting': bool)
    requires Checks(checks, done, signalledAt, at, useEventIdx, waiting) && signalledAt <= done
    requires waiting' ==> (at' == done || (waiting && at' == at))
    ensures Checks(checks, done, signalledAt, at', useEventIdx, waiting')
  {
  }

  /** One completion reads an index or stores the one it signals for. */
  lemma CheckMoves(checks: map<nat, Check>, i: nat, c: Check, done: nat, signalledAt: nat, signalledAt': nat, at: nat, useEventIdx: bool, waiting: bool)
    requires Checks(checks, done, signalledAt, at, useEventIdx, waiting) && i in checks
    requires signalledAt <= done && (useEventIdx ==> done < signalledAt + U16_RANGE)
    requires match checks[i]
      case AtOld => c == AtNew(signalledAt) && signalledAt' == signalledAt
      case AtNew(oldAt) => c == AtEvent(oldAt, done) && signalledAt' == signalledAt
      case AtEvent(oldAt, newAt) => c == AtStore(newAt) && signalledAt' == signalledAt
      case AtStore(newAt) => c == Signalling && signalledAt' == newAt
      case Signalling => false
    ensures Checks(checks[i := c], done, signalledAt', at, useEventIdx, waiting)
  {
    var checks' := checks[i := c];
    if waiting {
      if j :| j in checks && Passed(checks[j]) {
        assert j in checks' && Passed(checks'[j]);
      } else if at < done {
        var k :| k in checks && WillSignal(checks[k], at, useEventIdx);
        assert k in checks';
      }
    }
  }

  lemma CheckLeaves(checks: map<nat, Check>, i: nat, done: nat, signalledAt: nat, at: nat, useEventIdx: bool, waiting: bool)
    requires Checks(checks, done, signalledAt, at, useEventIdx, waiting) && i in checks
    requires waiting ==> !Passed(checks[i]) && !WillSignal(checks[i], at, useEventIdx)
    ensures Checks(checks - {i}, done, signalledAt, at, useEventIdx, waiting)
  {
    var checks' := checks - {i};
    if waiting {
      if j :| j in checks && Passed(checks[j]) {
        assert j in checks' && Passed(checks'[j]);
      }
      if at < done {
        var k :| k in checks && WillSignal(checks[k], at, useEventIdx);
        assert k in checks';
      }
    }
  }

  lemma CheckStarts(checks: map<nat, Check>, i: nat, done: nat, signalledAt: nat, at: nat, useEventIdx: bool, waiting: bool)
    requires Checks(checks, done, signalledAt, at, useEventIdx, waiting) && i !in checks
    requires useEventIdx ==> forall j :: j in checks ==> CheckRecent(checks[j], done + 1)
    ensures Checks(checks[i := AtOld], done + 1, signalledAt, at, useEventIdx, waiting)
  {
    var checks' := checks[i := AtOld];
    assert i in checks' && WillSignal(checks'[i], at, useEventIdx);
    if j :| j in checks && Passed(checks[j]) {
      assert j in checks' && Passed(checks'[j]);
    }
  }

  lemma StoreFacts(s: State, i: nat)
    requires UsedSide(s) && i in s.checks
    ensures InRange(s.checks[i], |s.done|) && (s.v.useEventIdx ==> CheckRecent(s.checks[i], |s.done|))
  {
  }

  lemma CheckingKeepsUsedSide(s: State, step: Step)
    requires Inv(s) && UsedSide(s) && Can(s, step) && Checking(step)
    ensures UsedSide(After(s, step))
  {
    hide Rings, Indices, Shape, U16, NeedEvent, Checks;
    var s' := After(s, step);
    var i := step.id;
    StoreFacts(s, i);
    CheckMoves(s.checks, i, s'.checks[i], |s.done|, s.signalledAt, s'.signalledAt, s.lastUsed, s.v.useEventIdx, s.asleep && !s.irq);
  }

  lemma AdvanceKeepsUsedSide(s: State)
    requires Inv(s) && UsedSide(s) && Can(s, AdvanceUsed) && Within(Fresh, s, AdvanceUsed)
    ensures UsedSide(After(s, AdvanceUsed))
  {
    hide Owners, AvailSlots, UsedLog, UsedSlots, UsedLens, Records, Indices, Shape, U16, NeedEvent, Checks;
    LogInRange(s.phase, s.done, s.lastUsed, s.completing);
    var s', i := After(s, AdvanceUsed), s.completing.value;
    assert s'.done[|s.done|] == i;
    CheckStarts(s.checks, i, |s.done|, s.signalledAt, s.lastUsed, s.v.useEventIdx, s.asleep && !s.irq);
  }

  lemma DecideKeepsUsedSide(s: State, i: nat)
    requires Inv(s) && UsedSide(s) && Can(s, Decide(i))
    ensures UsedSide(After(s, Decide(i)))
  {
    hide Rings, Indices, Shape, U16, NeedEvent, Checks;
    UnreapedIs(s);
    StoreFacts(s, i);
    var c, waiting := s.checks[i], s.asleep && !s.irq;
    if s.asleep && s.v.useEventIdx && c.oldAt <= s.lastUsed {
      NeedEventPassed(s.lastUsed, c.newAt, c.oldAt);
    }
    if !s.v.Signals(U16(c.oldAt), U16(c.newAt)) {
      CheckLeaves(s.checks, i, |s.done|, s.signalledAt, s.lastUsed, s.v.useEventIdx, waiting);
    } else if s.v.useEventIdx {
      CheckMoves(s.checks, i, AtStore(c.newAt), |s.done|, s.signalledAt, s.signalledAt, s.lastUsed, true, waiting);
    } else {
      CheckPasses(s.checks, i, |s.done|, s.signalledAt, s.lastUsed, waiting);
    }
  }

  lemma CheckPasses(checks: map<nat, Check>, i: nat, done: nat, signalledAt: nat, at: nat, waiting: bool)
    requires Checks(checks, done, signalledAt, at, false, waiting) && i in checks
    ensures Checks(checks[i := Signalling], done, signalledAt, at, false, waiting)
  {
    assert WillSignal(checks[i := Signalling][i], at, false);
  }

  lemma SignalKeepsUsedSide(s: State, i: nat)
    requires Inv(s) && UsedSide(s) && Can(s, Signal(i))
    ensures UsedSide(After(s, Signal(i)))
  {
    hide Rings, U16;
  }

  lemma KeepsUsedSide(s: State, step: Step)
    requires Inv(s) && UsedSide(s) && Can(s, step) && Within(Fresh, s, step)
    ensures UsedSide(After(s, step))
  {
    hide Inv, UsedSide, Shape;
    match step {
      case Decide(i) => DecideKeepsUsedSide(s, i);
      case Signal(i) => SignalKeepsUsedSide(s, i);
      case AdvanceUsed => AdvanceKeepsUsedSide(s);
      case _ =>
        if Checking(step) {
          CheckingKeepsUsedSide(s, step);
        } else {
          OthersKeepUsedSide(s, step);
        }
    }
  }

  /** Every step of the driver, the I/O thread or a completion keeps the invariant. */
  lemma StepInv(s: State, step: Step)
    requires Inv(s) && Can(s, step)
    ensures Inv(After(s, step))
  {
    hide Rings, Indices, Shape;
    match step {
      case Stage(_) => DriverKeepsRings(s, step);
      case Reap => DriverKeepsRings(s, step);
      case Pop => PopKeepsRings(s);
      case Submit => HandledKeepsRings(s, step);
      case Drop => HandledKeepsRings(s, step);
      case WriteUsed(i, len) => WriteKeepsRings(s, i, len);
      case AdvanceUsed => AdvanceKeepsRings(s);
      case _ => QuietKeepsRings(s, step);
    }
  }

  /** So it holds after every interleaving, and each side of the notifications after those that meet its condition. */
  lemma {:induction false} Safety(runs: Runs, a: State, steps: seq<Step>, b: State)
    requires Init(a) && Reaches(runs, a, steps, b)
    ensures Inv(b) && (runs == Prompt ==> AvailSide(b)) && (runs == Fresh ==> UsedSide(b))
    decreases |steps|
  {
    hide Inv, Init, Can, Shape, AvailSide, UsedSide, Within;
    if steps == [] {
      InitInv(a);
    } else {
      var rest, step := steps[..|steps| - 1], steps[|steps| - 1];
      var mid: State :| Reaches(runs, a, rest, mid) && Shape(mid) && Can(mid, step) && Within(runs, mid, step) && After(mid, step) == b;
      Safety(runs, a, rest, mid);
      StepInv(mid, step);
      if runs == Prompt {
        KeepsAvailSide(mid, step);
      } else if runs == Fresh {
        KeepsUsedSide(mid, step);
      }
    }
  }

  // ---------------------------------------------------------------------
  // What it means
  // ---------------------------------------------------------------------

  /**
    Conservation: in every reachable state the live requests have different heads, a head
    is free exactly when it serves none of them, no waiting entry of either ring and no
    record of a request in the device has been overwritten, and used->idx counts the
    completions, each of a different request and with the length it reported.
   */
  lemma Conservation(a: State, steps: seq<Step>, s: State)
    requires Init(a) && Reaches(Every, a, steps, s)
    ensures forall i, j :: 0 <= i < j < |s.avail| && Live(s.phase, i) && Live(s.phase, j) ==> s.avail[i] != s.avail[j]
    ensures forall h :: 0 <= h < |s.owner| ==> (s.owner[h] == None <==> forall i :: 0 <= i < |s.avail| && Live(s.phase, i) ==> s.avail[i] != h)
    ensures s.v.Shaped() && forall i :: |s.phase| <= i < s.published <= |s.avail| ==> s.v.availRing[U16(i) % s.v.num] == s.avail[i]
    ensures |s.done| <= |s.lens| && forall k :: s.lastUsed <= k < |s.done| ==>
      s.done[k] < |s.avail| && s.v.usedRing[U16(k) % s.v.num].id == s.avail[s.done[k]] && s.v.usedRing[U16(k) % s.v.num].len == s.lens[k]
    ensures |s.phase| <= |s.avail| && forall i :: 0 <= i < |s.phase| && s.phase[i] == InFlight ==> s.avail[i] < |s.reqs| && s.reqs[s.avail[i]] == i
    ensures s.v.usedIdx == U16(|s.done|) && s.v.lastAvailIdx == U16(|s.phase|)
    ensures forall i, k :: 0 <= i < k < |s.done| ==> s.done[i] != s.done[k]
    ensures forall i :: 0 <= i < |s.phase| ==> (i in s.done <==> s.phase[i] == Used || s.phase[i] == Reaped)
  {
    hide Inv, U16, Live;
    Safety(Every, a, steps, s);
    AvailConserved(s);
    UsedConserved(s);
  }

  lemma AvailConserved(s: State)
    requires Inv(s)
    ensures forall i, j :: 0 <= i < j < |s.avail| && Live(s.phase, i) && Live(s.phase, j) ==> s.avail[i] != s.avail[j]
    ensures forall h :: 0 <= h < |s.owner| ==> (s.owner[h] == None <==> forall i :: 0 <= i < |s.avail| && Live(s.phase, i) ==> s.avail[i] != h)
    ensures s.v.Shaped() && forall i :: |s.phase| <= i < s.published <= |s.avail| ==> s.v.availRing[U16(i) % s.v.num] == s.avail[i]
    ensures |s.phase| <= |s.avail| && forall i :: 0 <= i < |s.phase| && s.phase[i] == InFlight ==> s.avail[i] < |s.reqs| && s.reqs[s.avail[i]] == i
    ensures s.v.lastAvailIdx == U16(|s.phase|)
  {
    hide U16, UsedLog, UsedSlots, UsedLens;
    DistinctHeads(s.avail, s.owner, s.phase);
    forall i: nat ensures U16(i) % s.v.num == i % s.v.num {
      SlotOfU16(i, s.v.num);
    }
  }

  lemma UsedConserved(s: State)
    requires Inv(s)
    ensures s.v.Shaped() && |s.done| <= |s.lens| && forall k :: s.lastUsed <= k < |s.done| ==>
      s.done[k] < |s.avail| && s.v.usedRing[U16(k) % s.v.num].id == s.avail[s.done[k]] && s.v.usedRing[U16(k) % s.v.num].len == s.lens[k]
    ensures s.v.usedIdx == U16(|s.done|) && forall i, k :: 0 <= i < k < |s.done| ==> s.done[i] != s.done[k]
    ensures forall i :: 0 <= i < |s.phase| ==> (i in s.done <==> s.phase[i] == Used || s.phase[i] == Reaped)
  {
    hide U16, Owners, AvailSlots, Records;
    forall i: nat ensures U16(i) % s.v.num == i % s.v.num {
      SlotOfU16(i, s.v.num);
    }
  }

  /** The lengths are what the completions reported: each was written with the entry of its request. */
  lemma {:induction false} Reported(a: State, steps: seq<Step>, s: State)
    requires Init(a) && Reaches(Every, a, steps, s)
    ensures |s.lens| == |s.done| + if s.completing.Some? then 1 else 0
    ensures forall k :: 0 <= k < |s.done| ==> WriteUsed(s.done[k], s.lens[k]) in steps
    ensures s.completing.Some? ==> WriteUsed(s.completing.value, s.lens[|s.done|]) in steps
    decreases |steps|
  {
    hide Shape, Init, Can, After;
    if steps == [] {
      LogEmpty(a);
    } else {
      var rest, step := steps[..|steps| - 1], steps[|steps| - 1];
      var mid: State :| Reaches(Every, a, rest, mid) && Shape(mid) && Can(mid, step) && After(mid, step) == s;
      Reported(a, rest, mid);
      assert steps == rest + [step];
      LogAfter(mid, step);
    }
  }

  lemma LogEmpty(s: State)
    requires Init(s)
    ensures s.done == [] && s.lens == [] && s.completing == None
  {
  }

  /** What a step does to the log of completions. */
  lemma LogAfter(s: State, step: Step)
    requires Shape(s) && Can(s, step)
    ensures var s' := After(s, step);
      match step
      case WriteUsed(i, len) => s.completing == None && s'.done == s.done && s'.completing == Some(i) && s'.lens == s.lens + [len]
      case AdvanceUsed => s.completing.Some? && s'.done == s.done + [s.completing.value] && s'.completing == None && s'.lens == s.lens
      case _ => s'.done == s.done && s'.completing == s.completing && s'.lens == s.lens
  {
    hide Shape, U16, WouldKick, Vring.Signals, Vring.Decided, Vring.UsedWritten, Vring.UsedAdvanced;
  }

  /** The way of a request through the device. */
  predicate Edge(p: Phase, q: Phase) {
    p == q ||
    match p
    case Popped => q == InFlight || q == Dropped
    case InFlight => q == Completing
    case Completing => q == Used
    case Used => q == Reaped
    case _ => false
  }

  /** What a step does to the phases. */
  lemma PhaseAfter(s: State, step: Step)
    requires Shape(s) && Can(s, step)
    ensures After(s, step).phase ==
      match step
      case Reap => if s.lastUsed < |s.done| then s.phase[s.done[s.lastUsed] := Reaped] else s.phase
      case Pop => s.phase + [Phase.Popped]
      case Submit => s.phase[|s.phase| - 1 := InFlight]
      case Drop => s.phase[|s.phase| - 1 := Dropped]
      case WriteUsed(i, _) => s.phase[i := Completing]
      case AdvanceUsed => s.phase[s.completing.value := Used]
      case _ => s.phase
  {
    hide U16, WouldKick, Shape, Vring.Signals, Vring.Decided, Vring.UsedWritten, Vring.UsedAdvanced, Vring.Popped, Vring.EventWritten,
      Vring.MoreAvailable, Vring.Head;
  }

  /** A step moves each request along that way or leaves it. */
  lemma LifeCycle(s: State, step: Step)
    requires Inv(s) && Can(s, step)
    ensures |s.phase| <= |After(s, step).phase|
    ensures forall i :: 0 <= i < |s.phase| ==> Edge(s.phase[i], After(s, step).phase[i])
  {
    hide After, U16, Indices, Owners, AvailSlots, UsedSlots, UsedLens, UsedLog, Records, WouldKick;
    PhaseAfter(s, step);
    LogInRange(s.phase, s.done, s.lastUsed, s.completing);
    if s.pc == Handling {
      HandlingLast(s.phase, s.avail, s.reqs);
    }
  }

  /** Where a request can be after it has been at `p`: nowhere it was before, and nowhere at all after a drop. */
  predicate Later(p: Phase, q: Phase) {
    p == q ||
    match p
    case Popped => true
    case InFlight => q == Completing || q == Used || q == Reaped
    case Completing => q == Used || q == Reaped
    case Used => q == Reaped
    case _ => false
  }

  /**
    From any point of a run on, completions are only added, each popped request only
    moves on, and so one that was dropped never completes and one that completed
    stays where it is in the order of completion.
   */
  lemma {:induction false} DoneGrows(s: State, steps: seq<Step>, s': State)
    requires Inv(s) && Reaches(Every, s, steps, s')
    ensures Inv(s') && s.done <= s'.done && |s.phase| <= |s'.phase|
    ensures forall i :: 0 <= i < |s.phase| ==> Later(s.phase[i], s'.phase[i])
    ensures forall i :: 0 <= i < |s.phase| && s.phase[i] == Dropped ==> i !in s'.done
    decreases |steps|
  {
    hide Inv, Shape, Can, After;
    if steps != [] {
      var rest, step := steps[..|steps| - 1], steps[|steps| - 1];
      var mid: State :| Reaches(Every, s, rest, mid) && Shape(mid) && Can(mid, step) && After(mid, step) == s';
      DoneGrows(s, rest, mid);
      StepInv(mid, step);
      LifeCycle(mid, step);
      DoneAfter(mid, step);
    }
    DroppedNotDone(s');
  }

  lemma DroppedNotDone(s: State)
    requires Inv(s)
    ensures forall i :: 0 <= i < |s.phase| && s.phase[i] == Dropped ==> i !in s.done
  {
    hide Shape, Indices, Owners, AvailSlots, UsedSlots, UsedLens, Records;
  }

  lemma DoneAfter(s: State, step: Step)
    requires Shape(s) && Can(s, step)
    ensures s.done <= After(s, step).done
  {
    hide U16, WouldKick, Shape, Vring.Signals, Vring.Decided;
  }

  // ---------------------------------------------------------------------
  // The steps in one go are the operations of the queue
  // ---------------------------------------------------------------------

  /** A completion that is not interleaved with anything does what virtio_queue__should_signal does, and raises the interrupt if that says so. */
  lemma SignalAtOnce(s: State, i: nat) returns (steps: seq<Step>, s': State)
    requires Inv(s) && i in s.checks && s.checks[i].AtOld?
    ensures Reaches(Every, s, steps, s') && forall k :: 0 <= k < |steps| ==> OfCompletion(steps[k]) && steps[k].id == i
    ensures s'.v == s.v.Decided(s.v.lastUsedSignalled, s.v.usedIdx) && s'.checks == s.checks - {i}
    ensures s'.irq <==> s.irq || s.v.Signals(s.v.lastUsedSignalled, s.v.usedIdx)
  {
    hide U16, Inv, Reaches, After, Can, Vring.Signals;
    var s2;
    steps, s2 := BothRead(s, i);
    steps, s' := DecideAtOnce(s, steps, s2, i);
    SignalledFor(s);
    assert s2.checks - {i} == s.checks - {i};
  }

  lemma SignalledFor(s: State)
    requires Inv(s)
    ensures s.v.lastUsedSignalled == U16(s.signalledAt) && s.v.usedIdx == U16(|s.done|)
  {
  }

  lemma BothRead(s: State, i: nat) returns (steps: seq<Step>, s': State)
    requires Inv(s) && i in s.checks && s.checks[i].AtOld?
    ensures Inv(s') && Reaches(Every, s, steps, s') && forall k :: 0 <= k < |steps| ==> OfCompletion(steps[k]) && steps[k].id == i
    ensures s' == s.(checks := s.checks[i := AtEvent(s.signalledAt, |s.done|)])
  {
    hide U16, Rings, Reaches, Shape, After;
    var mid;
    steps, mid := OneStep(s, [], s, ReadOld(i));
    steps, s' := OneStep(s, steps, mid, ReadNew(i));
    assert s.checks[i := AtNew(s.signalledAt)][i := AtEvent(s.signalledAt, |s.done|)] == s.checks[i := AtEvent(s.signalledAt, |s.done|)];
  }

  lemma DecideAtOnce(a: State, begun: seq<Step>, s: State, i: nat) returns (steps: seq<Step>, s': State)
    requires Inv(s) && Reaches(Every, a, begun, s) && i in s.checks && s.checks[i].AtEvent?
    requires forall k :: 0 <= k < |begun| ==> OfCompletion(begun[k]) && begun[k].id == i
    ensures Reaches(Every, a, steps, s') && forall k :: 0 <= k < |steps| ==> OfCompletion(steps[k]) && steps[k].id == i
    ensures s'.v == s.v.Decided(U16(s.checks[i].oldAt), U16(s.checks[i].newAt)) && s'.checks == s.checks - {i}
    ensures s'.irq <==> s.irq || s.v.Signals(U16(s.checks[i].oldAt), U16(s.checks[i].newAt))
  {
    hide U16, Rings, Reaches, Shape, After, Vring.Signals;
    DecidedOnce(s, i);
    steps, s' := OneStep(a, begun, s, Decide(i));
    if i in s'.checks {
      steps, s' := PassedAtOnce(a, steps, s', i);
    }
  }

  lemma PassedAtOnce(a: State, begun: seq<Step>, s: State, i: nat) returns (steps: seq<Step>, s': State)
    requires Inv(s) && Reaches(Every, a, begun, s) && i in s.checks && Passed(s.checks[i])
    requires forall k :: 0 <= k < |begun| ==> OfCompletion(begun[k]) && begun[k].id == i
    ensures Reaches(Every, a, steps, s') && forall k :: 0 <= k < |steps| ==> OfCompletion(steps[k]) && steps[k].id == i
    ensures s'.v == (if s.checks[i].AtStore? then s.v.(lastUsedSignalled := U16(s.checks[i].newAt)) else s.v)
    ensures s'.checks == s.checks - {i} && s'.irq
  {
    hide U16, Rings, Reaches, Shape, After, Vring.Signals;
    steps, s' := begun, s;
    if s.checks[i].AtStore? {
      steps, s' := OneStep(a, steps, s', Store(i));
    }
    steps, s' := OneStep(a, steps, s', Signal(i));
  }

  lemma DecidedOnce(s: State, i: nat)
    requires Shape(s) && Can(s, Decide(i))
    ensures var s', c := After(s, Decide(i)), s.checks[i];
      s' == s.(checks := if !s.v.Signals(U16(c.oldAt), U16(c.newAt)) then s.checks - {i}
                         else s.checks[i := if s.v.useEventIdx then AtStore(c.newAt) else Signalling])
  {
  }

  lemma OneStep(a: State, steps: seq<Step>, s: State, step: Step) returns (steps': seq<Step>, s': State)
    requires (steps == [] && a == s) || Reaches(Every, a, steps, s)
    requires Inv(s) && Can(s, step) && OfCompletion(step)
    ensures steps' == steps + [step] && s' == After(s, step) && Inv(s') && Reaches(Every, a, steps', s')
    ensures match step
      case ReadOld(i) => s' == s.(checks := s.checks[i := AtNew(s.signalledAt)])
      case ReadNew(i) => s' == s.(checks := s.checks[i := AtEvent(s.checks[i].oldAt, |s.done|)])
      case Store(i) =>
        s' == s.(v := s.v.(lastUsedSignalled := U16(s.checks[i].newAt)), signalledAt := s.checks[i].newAt, checks := s.checks[i := Signalling])
      case Signal(i) => s' == s.(irq := true, checks := s.checks - {i})
      case _ => true
  {
    hide U16, Rings, Vring.Signals, WouldKick;
    steps', s' := steps + [step], After(s, step);
    QuietStep(s, step);
    StepsOn(a, steps, s, step);
  }

  lemma QuietStep(s: State, step: Step)
    requires Inv(s) && Can(s, step) && Quiet(step)
    ensures Inv(After(s, step))
  {
    QuietKeepsRings(s, step);
  }

  lemma StepsOn(a: State, steps: seq<Step>, s: State, step: Step)
    requires (steps == [] && a == s) || Reaches(Every, a, steps, s)
    requires Shape(s) && Can(s, step)
    ensures Reaches(Every, a, steps + [step], After(s, step))
  {
    hide Shape, Can, After;
    assert (steps + [step])[..|steps|] == steps;
  }

  /** Entry and index of a completion in one go are virt_queue__set_used_elem. */
  lemma UsedAtOnce(s: State, i: nat, len: int)
    requires Inv(s) && Can(s, WriteUsed(i, len)) && i < |s.avail|
    ensures var mid := After(s, WriteUsed(i, len));
      Inv(mid) && Can(mid, AdvanceUsed) && After(mid, AdvanceUsed).v == s.v.UsedWritten(s.avail[i], len).UsedAdvanced()
  {
    hide Rings, U16;
    WriteKeepsRings(s, i, len);
  }

  /**
    No lost wake-up: the I/O thread is not blocked on an empty eventfd with an entry
    it has not popped, unless the driver is still to notify: it has decided to, or
    its test, when it comes to it, will say so.
   */
  lemma NoLostWakeup(a: State, steps: seq<Step>, s: State)
    requires Init(a) && Reaches(Prompt, a, steps, s)
    requires s.pc == Reading && s.efd == 0 && |s.phase| < s.published
    ensures s.kick || (s.checked < s.published && WouldKick(s))
  {
    hide U16, Rings;
    Safety(Prompt, a, steps, s);
    BehindIs(s);
    if !s.kick && s.v.useEventIdx {
      NeedEventPassed(s.eventAt, s.published, s.checked);
    }
  }

  /**
    No lost interrupt: if something completed after a driver armed used_event, found
    nothing new and went to sleep, an interrupt is pending or a completion will raise it.
   */
  lemma NoLostInterrupt(a: State, steps: seq<Step>, s: State)
    requires Init(a) && Reaches(Fresh, a, steps, s)
    requires s.asleep && s.v.usedIdx != U16(s.lastUsed)
    ensures s.irq || exists i :: i in s.checks && WillSignal(s.checks[i], s.lastUsed, s.v.useEventIdx)
    ensures s.checks == map[] ==> s.irq
  {
    hide U16, Rings;
    Safety(Fresh, a, steps, s);
    UnreapedIs(s);
  }

  /**
    What the test of a completion that has read both indices is to say: the event index
    is one of the positions between them, counted back from the new one; or, without
    event index, the driver has not asked to be left alone.
   */
  ghost predicate Wanted(v: Vring, oldAt: nat, newAt: nat) {
    if v.useEventIdx then
      exists e: int :: newAt - (newAt - oldAt) % 0x1_0000 <= e < newAt && e % 0x1_0000 == v.usedEvent % 0x1_0000
    else !v.noInterrupt
  }

  lemma SignalsIffWanted(v: Vring, oldAt: nat, newAt: nat)
    ensures v.Signals(U16(oldAt), U16(newAt)) <==> Wanted(v, oldAt, newAt)
  {
    hide U16, NeedEvent;
    if v.useEventIdx {
      NeedEventPlain(v.usedEvent, newAt, oldAt);
    }
  }

  /** Step `k` of the run let the completion of `i` pass the test, and rightly so. */
  ghost predicate PassedAt(a: State, steps: seq<Step>, k: nat, mid: State, i: nat) {
    k < |steps| && steps[k] == Decide(i) && Reaches(Every, a, steps[..k], mid) &&
    i in mid.checks && mid.checks[i].AtEvent? && Wanted(mid.v, mid.checks[i].oldAt, mid.checks[i].newAt)
  }

  lemma PassedBefore(a: State, steps: seq<Step>, k: nat, mid: State, i: nat, step: Step)
    requires PassedAt(a, steps, k, mid, i)
    ensures PassedAt(a, steps + [step], k, mid, i)
  {
    assert (steps + [step])[..k] == steps[..k];
  }

  /**
    No interrupt without need: over any run, a completion that is past the test, and one
    that has raised the interrupt that is pending, found it wanted when it was decided.
   */
  lemma {:induction false} NoNeedlessInterrupt(a: State, steps: seq<Step>, s: State)
    requires Init(a) && Reaches(Every, a, steps, s)
    ensures forall i :: i in s.checks && Passed(s.checks[i]) ==> exists k, mid :: PassedAt(a, steps, k, mid, i)
    ensures s.irq ==> exists k, mid, i :: PassedAt(a, steps, k, mid, i)
    decreases |steps|
  {
    hide Shape, PassedAt, Wanted, After;
    if steps != [] {
      var rest, step := steps[..|steps| - 1], steps[|steps| - 1];
      var mid: State :| Reaches(Every, a, rest, mid) && Shape(mid) && Can(mid, step) && After(mid, step) == s;
      assert steps == rest + [step];
      NoNeedlessInterrupt(a, rest, mid);
      TestAfter(mid, step);
      forall i | i in s.checks && Passed(s.checks[i]) ensures exists k, m :: PassedAt(a, steps, k, m, i) {
        if step == Decide(i) {
          DecidedNow(a, rest, mid, i);
          assert PassedAt(a, steps, |rest|, mid, i);
        } else {
          var k, m :| PassedAt(a, rest, k, m, i);
          PassedBefore(a, rest, k, m, i, step);
        }
      }
      if s.irq {
        var i :| (i in mid.checks && Passed(mid.checks[i])) || mid.irq;
        var k, m, j :| PassedAt(a, rest, k, m, j);
        PassedBefore(a, rest, k, m, j, step);
      }
    }
  }

  lemma DecidedNow(a: State, rest: seq<Step>, mid: State, i: nat)
    requires Reaches(Every, a, rest, mid) && Shape(mid) && Can(mid, Decide(i)) && i in After(mid, Decide(i)).checks
    ensures PassedAt(a, rest + [Decide(i)], |rest|, mid, i)
  {
    hide Shape, U16, Wanted, Reaches, NeedEvent, Vring.Signals;
    var c := mid.checks[i];
    SignalsIffWanted(mid.v, c.oldAt, c.newAt);
    assert (rest + [Decide(i)])[..|rest|] == rest;
  }

  /** Past the test is who was so before, or has just been decided; and only who is past it raises an interrupt. */
  lemma TestAfter(s: State, step: Step)
    requires Shape(s) && Can(s, step)
    ensures forall i :: i in After(s, step).checks && Passed(After(s, step).checks[i]) ==> step == Decide(i) || (i in s.checks && Passed(s.checks[i]))
    ensures After(s, step).irq ==> s.irq || (step.Signal? && step.id in s.checks && Passed(s.checks[step.id]))
  {
    hide Shape, U16, WouldKick, Vring.Signals, Vring.Decided, Vring.UsedWritten, Vring.UsedAdvanced;
  }

  /** A step of a completion after it has shown its entry. */
  predicate OfCompletion(step: Step) {
    Checking(step) || step.Decide? || step.Signal?
  }

  /** And that completion does: each of its steps leaves it one that will, until it raises the interrupt. */
  lemma SignalComes(s: State, i: nat, step: Step)
    requires Inv(s) && UsedSide(s) && Can(s, step) && s.asleep && !s.irq && s.lastUsed < |s.done|
    requires i in s.checks && WillSignal(s.checks[i], s.lastUsed, s.v.useEventIdx) && OfCompletion(step) && step.id == i
    requires s.checks[i].AtOld? && s.v.useEventIdx ==> s.signalledAt <= s.lastUsed
    ensures var s' := After(s, step);
      s'.irq || (i in s'.checks && WillSignal(s'.checks[i], s'.lastUsed, s'.v.useEventIdx))
  {
    hide U16, NeedEvent, Rings, Shape, Indices;
    UnreapedIs(s);
    StoreFacts(s, i);
    var c := s.checks[i];
    if step.Decide? && s.v.useEventIdx {
      NeedEventPassed(s.lastUsed, c.newAt, c.oldAt);
    }
  }

  /** Steps a completion has before it. */
  function Left(c: Check): nat {
    match c
    case AtOld => 5
    case AtNew(_) => 4
    case AtEvent(_, _) => 3
    case AtStore(_) => 2
    case Signalling => 1
  }

  function Work(ids: seq<nat>, checks: map<nat, Check>): nat {
    if ids == [] then 0
    else
      var n := |ids| - 1;
      Work(ids[..n], checks) + if ids[n] in checks then Left(checks[ids[n]]) else 0
  }

  /** `checks'` is `checks` with the completion of `i` one step on or gone. */
  ghost predicate OneOn(checks: map<nat, Check>, i: nat, checks': map<nat, Check>) {
    i in checks && (i in checks' ==> Left(checks'[i]) < Left(checks[i])) &&
    forall j :: j != i ==> (j in checks' <==> j in checks) && (j in checks ==> checks'[j] == checks[j])
  }

  lemma {:induction false} WorkFalls(ids: seq<nat>, checks: map<nat, Check>, i: nat, checks': map<nat, Check>)
    requires OneOn(checks, i, checks')
    ensures Work(ids, checks') <= Work(ids, checks)
    ensures i in ids ==> Work(ids, checks') < Work(ids, checks)
  {
    if ids != [] {
      WorkFalls(ids[..|ids| - 1], checks, i, checks');
    }
  }

  lemma CompletionStep(s: State, step: Step)
    requires Shape(s) && Can(s, step) && OfCompletion(step)
    ensures var s' := After(s, step);
      OneOn(s.checks, step.id, s'.checks) && s'.done == s.done && s'.lastUsed == s.lastUsed && s'.asleep == s.asleep &&
      (s.irq ==> s'.irq)
  {
    hide U16, WouldKick, Shape, OneOn, Vring.Signals;
    var i := step.id;
    CheckOn(s.checks, i, s.checks[i]);
    if !step.Signal? {
      CheckOn(s.checks, i, if i in After(s, step).checks then After(s, step).checks[i] else s.checks[i]);
    }
  }

  lemma CheckOn(checks: map<nat, Check>, i: nat, c: Check)
    requires i in checks
    ensures OneOn(checks, i, checks - {i}) && (Left(c) < Left(checks[i]) ==> OneOn(checks, i, checks[i := c]))
  {
  }

  /**
    The interrupt comes within a bound: while only completions step and none starts, a
    run has no more steps than they have left, and when they are through, or that many
    steps have been taken, the sleeping driver has an interrupt pending.
   */
  lemma {:induction false} InterruptWithin(s: State, steps: seq<Step>, s': State)
    requires Inv(s) && UsedSide(s) && Reaches(Every, s, steps, s')
    requires forall k :: 0 <= k < |steps| ==> OfCompletion(steps[k])
    ensures |steps| + Work(s'.done, s'.checks) <= Work(s.done, s.checks)
    ensures Inv(s') && UsedSide(s') && s'.done == s.done && s'.lastUsed == s.lastUsed && s'.asleep == s.asleep
    ensures s.asleep && s.lastUsed < |s.done| && (s'.checks == map[] || |steps| == Work(s.done, s.checks)) ==> s'.irq
    decreases |steps|
  {
    hide Inv, UsedSide, Can, Shape, After;
    if steps != [] {
      var rest, step := steps[..|steps| - 1], steps[|steps| - 1];
      var mid: State :| Reaches(Every, s, rest, mid) && Shape(mid) && Can(mid, step) && After(mid, step) == s';
      assert forall k :: 0 <= k < |rest| ==> OfCompletion(rest[k]);
      InterruptWithin(s, rest, mid);
      StepInv(mid, step);
      KeepsUsedSide(mid, step);
      CompletionStep(mid, step);
      CheckedDone(mid);
      WorkFalls(mid.done, mid.checks, step.id, s'.checks);
    }
    NoWorkNoCheck(s');
  }

  lemma CheckedDone(s: State)
    requires UsedSide(s)
    ensures forall i :: i in s.checks ==> i in s.done
  {
  }

  /** When nothing is left to do, a sleeping driver with something to take has been interrupted. */
  lemma NoWorkNoCheck(s: State)
    requires Inv(s) && UsedSide(s)
    ensures s.asleep && s.lastUsed < |s.done| && (s.checks == map[] || Work(s.done, s.checks) == 0) ==> s.irq
  {
    hide Inv, U16;
    if Work(s.done, s.checks) == 0 {
      NoneLeft(s.done, s.checks);
    }
  }

  lemma {:induction false} NoneLeft(ids: seq<nat>, checks: map<nat, Check>)
    requires Work(ids, checks) == 0
    ensures forall i :: i in ids ==> i !in checks
  {
    if ids != [] {
      NoneLeft(ids[..|ids| - 1], checks);
    }
  }

  /** Until then one of them can step. */
  lemma CompletionCan(s: State, i: nat) returns (step: Step)
    requires Shape(s) && i in s.checks
    ensures OfCompletion(step) && step.id == i && Can(s, step)
  {
    hide Shape;
    step := match s.checks[i]
      case AtOld => ReadOld(i)
      case AtNew(_) => ReadNew(i)
      case AtEvent(_, _) => Decide(i)
      case AtStore(_) => Store(i)
      case Signalling => Signal(i);
  }
}
