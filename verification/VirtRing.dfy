/**
  The device side of a split virtqueue: the index arithmetic of include/kvm/virtio.h
  and virtio/core.c on free-running 16-bit indices.
 */
module VirtRing {
  import opened Basics

  lemma U16Shift(x: int, q: int)
    ensures U16(x + q * U16_RANGE) == U16(x)
  {
  }

  /** Truncating before the arithmetic or after it is the same. */
  lemma U16Sub(x: int, y: int, c: int)
    ensures U16(U16(x) - U16(y) - c) == U16(x - y - c)
  {
  }

  lemma U16Next(x: int)
    ensures U16(U16(x) + 1) == U16(x + 1)
  {
  }

  lemma U16Same(x: int, y: int, z: int)
    requires U16(x) == U16(y)
    ensures U16(z - x) == U16(z - y)
  {
  }

  lemma U16Near(x: int, y: int)
    requires -U16_RANGE < x - y < U16_RANGE
    ensures U16(x) == U16(y) <==> x == y
  {
  }

  /** The ring sizes the indices wrap on: divisors of 2^16 below it. */
  predicate RingSize(num: nat) {
    0 < num < U16_RANGE && U16_RANGE % num == 0
  }

  /** The slot of a truncated index is the slot of the index. */
  lemma SlotOfU16(x: nat, num: nat)
    requires RingSize(num)
    ensures U16(x) % num == x % num
  {
    var q, k := x / U16_RANGE, U16_RANGE / num;
    assert x == q * U16_RANGE + U16(x);
    assert q * (k * num) == (q * k) * num;
    RemainderShift(U16(x), q * k, num);
  }

  /** vring_need_event, section 2.6.7.1 of VIRTIO 1.1. */
  predicate NeedEvent(event: nat, new_: nat, old_: nat) {
    U16(new_ - event - 1) < U16(new_ - old_)
  }

  /** What the test looks at: the last (new - old) mod 2^16 positions before `new`. */
  lemma NeedEventExact(event: nat, new_: nat, old_: nat)
    ensures NeedEvent(U16(event), U16(new_), U16(old_)) <==>
      exists e: int :: new_ - U16(new_ - old_) <= e < new_ && U16(e) == U16(event)
  {
    hide U16;
    var e0, w := new_ - 1 - U16(new_ - event - 1), U16(new_ - old_);
    U16Sub(new_, event, 1);
    U16Sub(new_, old_, 0);
    Latest(event, new_ - 1);
    if e: int :| new_ - w <= e < new_ && U16(e) == U16(event) {
      U16Same(e, event, new_ - 1);
      U16Small(new_ - 1 - e);
    }
  }

  /** The same in plain arithmetic, whatever number the event index is given as. */
  lemma NeedEventPlain(event: nat, new_: nat, old_: nat)
    ensures NeedEvent(event, U16(new_), U16(old_)) <==>
      exists e: int :: new_ - (new_ - old_) % 0x1_0000 <= e < new_ && e % 0x1_0000 == event % 0x1_0000
  {
    hide NeedEvent;
    EventU16(event, U16(new_), U16(old_));
    NeedEventExact(event, new_, old_);
    hide U16;
    U16Is(new_ - old_);
    U16Is(event);
    if e: int :| new_ - U16(new_ - old_) <= e < new_ && U16(e) == U16(event) {
      U16Is(e);
    }
    if e: int :| new_ - (new_ - old_) % 0x1_0000 <= e < new_ && e % 0x1_0000 == event % 0x1_0000 {
      U16Is(e);
    }
  }

  lemma U16Is(x: int)
    ensures U16(x) == x % 0x1_0000
  {
  }

  lemma EventU16(event: nat, new_: nat, old_: nat)
    ensures NeedEvent(event, new_, old_) <==> NeedEvent(U16(event), new_, old_)
  {
    U16Sub(new_, event, 1);
    U16Sub(new_, U16(event), 1);
  }

  /** And on the indices as they are kept. */
  lemma NeedEventLiteral(event: nat, new_: nat, old_: nat)
    ensures NeedEvent(event, new_, old_) <==>
      exists e: int :: new_ - (new_ - old_) % 0x1_0000 <= e < new_ && e % 0x1_0000 == event % 0x1_0000
  {
    hide NeedEvent, U16;
    NeedEventPlain(event, new_, old_);
    IndicesU16(event, new_, old_);
  }

  lemma IndicesU16(event: nat, new_: nat, old_: nat)
    ensures NeedEvent(event, U16(new_), U16(old_)) <==> NeedEvent(event, new_, old_)
  {
    U16Sub(new_, event, 1);
    U16Sub(new_, old_, 0);
    U16Sub(U16(new_), event, 1);
  }

  /** The last position up to `at` that truncates like `event`. */
  lemma Latest(event: int, at: int)
    ensures U16(at - U16(at - event)) == U16(event)
  {
  }

  lemma U16Small(x: nat)
    requires x < U16_RANGE
    ensures U16(x) == x
  {
  }

  /** With fewer than 2^16 steps from `old` to `new`, and no event further than that, it asks whether `event` was passed. */
  lemma NeedEventPassed(event: nat, new_: nat, old_: nat)
    requires old_ <= new_ < old_ + U16_RANGE && new_ <= event + U16_RANGE && event < old_ + U16_RANGE
    ensures NeedEvent(U16(event), U16(new_), U16(old_)) <==> old_ <= event < new_
  {
    hide U16;
    U16Sub(new_, event, 1);
    U16Sub(new_, old_, 0);
    U16Small(new_ - old_);
    if event < new_ {
      U16Small(new_ - event - 1);
    } else {
      U16Shift(new_ - event - 1, 1);
      U16Small(new_ - event - 1 + U16_RANGE);
    }
  }

  /** At 2^16 steps the test sees none of them: the event just passed is missed. */
  lemma NeedEventMissed(old_: nat)
    ensures var new_ := old_ + U16_RANGE;
      old_ <= new_ - 1 < new_ && !NeedEvent(U16(new_ - 1), U16(new_), U16(old_))
  {
  }

  datatype UsedElem = UsedElem(id: nat, len: int)

  /** What driver and device share, and the device's own two indices. */
  datatype Vring = Vring(num: nat, useEventIdx: bool,
                         availRing: seq<nat>, availIdx: nat, availEvent: nat,
                         usedRing: seq<UsedElem>, usedIdx: nat, usedEvent: nat, noInterrupt: bool,
                         lastAvailIdx: nat, lastUsedSignalled: nat) {
    predicate Shaped() {
      RingSize(num) && |availRing| == |usedRing| == num
    }

    /** virt_queue__pop */
    function Head(): nat
      requires Shaped()
    {
      availRing[lastAvailIdx % num]
    }

    function Popped(): Vring {
      this.(lastAvailIdx := U16(lastAvailIdx + 1))
    }

    /** virt_queue__available, the write and the comparison */
    function EventWritten(): Vring {
      if useEventIdx then this.(availEvent := lastAvailIdx) else this
    }

    predicate MoreAvailable() {
      availIdx != lastAvailIdx
    }

    /** virt_queue__set_used_elem_no_update and virt_queue__used_idx_advance, by one */
    function UsedWritten(head: nat, len: int): Vring
      requires Shaped()
    {
      this.(usedRing := usedRing[usedIdx % num := UsedElem(head, len)])
    }

    function UsedAdvanced(): Vring {
      this.(usedIdx := U16(usedIdx + 1))
    }

    /** virtio_queue__should_signal, with the index it read first */
    predicate Signals(oldIdx: nat, newIdx: nat) {
      if useEventIdx then NeedEvent(usedEvent, newIdx, oldIdx) else !noInterrupt
    }

    function Decided(oldIdx: nat, newIdx: nat): Vring {
      if useEventIdx && Signals(oldIdx, newIdx) then this.(lastUsedSignalled := newIdx) else this
    }
  }

  class VirtQueue {
    const num: nat
    const useEventIdx: bool
    // shared with the driver
    const availRing: array<nat>
    var availIdx: nat
    var availEvent: nat
    const usedRing: array<UsedElem>
    var usedIdx: nat
    var usedEvent: nat
    var noInterrupt: bool
    // the device's own
    var lastAvailIdx: nat
    var lastUsedSignalled: nat

    constructor (num: nat, useEventIdx: bool, availRing: array<nat>, usedRing: array<UsedElem>)
      requires RingSize(num) && availRing.Length == usedRing.Length == num
      ensures Mem() == Vring(num, useEventIdx, availRing[..], 0, 0, usedRing[..], 0, 0, false, 0, 0)
      ensures this.availRing == availRing && this.usedRing == usedRing
    {
      this.num, this.useEventIdx, this.availRing, this.usedRing := num, useEventIdx, availRing, usedRing;
      availIdx, availEvent, usedIdx, usedEvent, noInterrupt := 0, 0, 0, 0, false;
      lastAvailIdx, lastUsedSignalled := 0, 0;
    }

    ghost function Mem(): Vring
      reads this, availRing, usedRing
    {
      Vring(num, useEventIdx, availRing[..], availIdx, availEvent, usedRing[..], usedIdx, usedEvent, noInterrupt,
            lastAvailIdx, lastUsedSignalled)
    }

    /** virt_queue__pop */
    method Pop() returns (head: nat)
      requires Mem().Shaped()
      modifies this`lastAvailIdx
      ensures head == availRing[old(lastAvailIdx) % num] && lastAvailIdx == (old(lastAvailIdx) + 1) % 0x1_0000
      ensures head == old(Mem()).Head() && Mem() == old(Mem()).Popped()
    {
      head := availRing[lastAvailIdx % num];
      lastAvailIdx := U16(lastAvailIdx + 1);
    }

    /** virt_queue__available: the event index is written before the other index is read. */
    method Available() returns (more: bool)
      modifies this`availEvent
      ensures more <==> availIdx != lastAvailIdx
      ensures availEvent == if useEventIdx then lastAvailIdx else old(availEvent)
      ensures Mem() == old(Mem()).EventWritten() && more == Mem().MoreAvailable()
    {
      if useEventIdx {
        availEvent := lastAvailIdx;
      }
      return availIdx != lastAvailIdx;
    }

    /** virt_queue__set_used_elem: the entry first, then the index that shows it. */
    method SetUsedElem(head: nat, len: int)
      requires Mem().Shaped()
      modifies this`usedIdx, usedRing
      ensures usedRing[old(usedIdx) % num].id == head && usedRing[old(usedIdx) % num].len == len
      ensures forall j :: 0 <= j < num && j != old(usedIdx) % num ==> usedRing[j] == old(usedRing[j])
      ensures usedIdx == (old(usedIdx) + 1) % 0x1_0000
      ensures Mem() == old(Mem()).UsedWritten(head, len).UsedAdvanced()
    {
      usedRing[usedIdx % num] := UsedElem(head, len);
      usedIdx := U16(usedIdx + 1);
    }

    /**
      virtio_queue__should_signal: with the event index exactly where one of the last
      (new - old) mod 2^16 positions before used->idx truncates to used_event, and then
      the index is kept as the one signalled for; without it where the driver did not
      ask to be left alone.
     */
    method ShouldSignal() returns (signal: bool)
      modifies this`lastUsedSignalled
      ensures useEventIdx ==>
        (signal <==> exists e: int :: usedIdx - (usedIdx - old(lastUsedSignalled)) % 0x1_0000 <= e < usedIdx && e % 0x1_0000 == usedEvent % 0x1_0000)
      ensures !useEventIdx ==> (signal <==> !noInterrupt)
      ensures lastUsedSignalled == if signal && useEventIdx then usedIdx else old(lastUsedSignalled)
      ensures signal == old(Mem()).Signals(old(lastUsedSignalled), usedIdx)
      ensures Mem() == old(Mem()).Decided(old(lastUsedSignalled), usedIdx)
    {
      if !useEventIdx {
        return !noInterrupt;
      }
      NeedEventLiteral(usedEvent, usedIdx, lastUsedSignalled);
      if NeedEvent(usedEvent, usedIdx, lastUsedSignalled) {
        lastUsedSignalled := usedIdx;
        return true;
      }
      return false;
    }

    /**
      The loop of virtio_blk_do_io while the driver adds nothing: it pops the `n`
      entries that wait, in order, and leaves the event index where it stopped.
     */
    method PopAll(ghost popped: nat, ghost n: nat) returns (heads: seq<nat>)
      requires Mem().Shaped() && n <= num && lastAvailIdx == U16(popped) && availIdx == U16(popped + n)
      modifies this`lastAvailIdx, this`availEvent
      ensures |heads| == n && forall k :: 0 <= k < n ==> heads[k] == availRing[(popped + k) % num]
      ensures lastAvailIdx == availIdx && (useEventIdx ==> availEvent == availIdx)
    {
      hide U16;
      heads := [];
      U16Near(popped, popped + n);
      var more := Available();
      while more
        invariant |heads| <= n && lastAvailIdx == U16(popped + |heads|) && (more <==> |heads| < n)
        invariant forall k :: 0 <= k < |heads| ==> heads[k] == availRing[(popped + k) % num]
        invariant useEventIdx ==> availEvent == lastAvailIdx
        decreases n - |heads|
      {
        SlotOfU16(popped + |heads|, num);
        U16Next(popped + |heads|);
        var head := Pop();
        heads := heads + [head];
        U16Near(popped + |heads|, popped + n);
        more := Available();
      }
    }
  }
}
