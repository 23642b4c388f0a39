/**
 The receive ring between the radio task and the main loop. The callback and the drain loop are cut
 into the steps that can interleave: check, two copies and publish on one side; take, which advances
 the tail before the entry is read, and finish on the other.
 */
module RecvRing {
  import opened Basics
  import opened MeshTypes

  const RING_SIZE: nat := 8

  datatype Entry = Entry(src: Mac, msg: MeshMsg)

  datatype CallbackPc = Idle | Copying(frame: Entry, copied: nat)

  datatype DrainPc = Testing | Processing(at: nat)

  /** The shared ring with both program counters, and what has happened so far: frames offered to the
      callback with the callback's decision, frames published and frames processed. */
  datatype Ring = Ring(slots: seq<Entry>, head: nat, tail: nat, callback: CallbackPc, drain: DrainPc,
                       offered: seq<(Entry, bool)>, accepted: seq<Entry>, processed: seq<Entry>)

  datatype Step = Check(frame: Entry) | CopySource | CopyMessage | Publish | Take | Finish

  predicate Enabled(r: Ring, step: Step) {
    match step
    case Check(_) => r.callback.Idle?
    case CopySource => r.callback.Copying? && r.callback.copied == 0
    case CopyMessage => r.callback.Copying? && r.callback.copied == 1
    case Publish => r.callback.Copying? && r.callback.copied == 2
    case Take => r.drain.Testing? && r.tail != r.head
    case Finish => r.drain.Processing?
  }

  /** The indices are those of an eight-slot array. */
  predicate Shape(r: Ring) {
    && |r.slots| == RING_SIZE && r.head < RING_SIZE && r.tail < RING_SIZE
    && (r.drain.Processing? ==> r.drain.at < RING_SIZE)
  }

  function Next(r: Ring, step: Step): (n: Ring)
    requires Shape(r) && Enabled(r, step)
    ensures Shape(n)
  {
    match step
    case Check(f) =>
      var full := (r.head + 1) % RING_SIZE == r.tail;
      r.(offered := r.offered + [(f, !full)], callback := if full then Idle else Copying(f, 0))
    case CopySource =>
      r.(slots := r.slots[r.head := r.slots[r.head].(src := r.callback.frame.src)],
         callback := r.callback.(copied := 1))
    case CopyMessage =>
      r.(slots := r.slots[r.head := r.slots[r.head].(msg := r.callback.frame.msg)],
         callback := r.callback.(copied := 2))
    case Publish =>
      r.(head := (r.head + 1) % RING_SIZE, accepted := r.accepted + [r.callback.frame], callback := Idle)
    case Take =>
      r.(tail := (r.tail + 1) % RING_SIZE, drain := Processing(r.tail))
    case Finish =>
      r.(processed := r.processed + [r.slots[r.drain.at]], drain := Testing)
  }

  /** Frames the drain loop has taken off the ring, the one in hand included. */
  function Taken(r: Ring): nat {
    |r.processed| + if r.drain.Processing? then 1 else 0
  }

  /** The frames the callback decided to keep. */
  function Kept(offered: seq<(Entry, bool)>): seq<Entry> {
    if offered == [] then []
    else Kept(offered[..|offered| - 1])
         + (if offered[|offered| - 1].1 then [offered[|offered| - 1].0] else [])
  }

  ghost predicate Inv(r: Ring) {
    var a, k := |r.accepted|, Taken(r);
    && Shape(r)
    && k <= a <= k + 7
    && r.head == a % RING_SIZE && r.tail == k % RING_SIZE
    && (r.drain.Processing? ==> r.drain.at == |r.processed| % RING_SIZE)
    // Every published frame not yet finished is intact in its slot, the one in hand too.
    && (forall i | |r.processed| <= i < a :: r.slots[i % RING_SIZE] == r.accepted[i])
    && r.processed == r.accepted[..|r.processed|]
    // A copy under way has a slot of its own.
    && (r.callback.Copying? ==>
          && a <= k + 6 && r.callback.copied <= 2
          && (r.callback.copied >= 1 ==> r.slots[r.head].src == r.callback.frame.src)
          && (r.callback.copied == 2 ==> r.slots[r.head] == r.callback.frame))
    && Kept(r.offered) == r.accepted + (if r.callback.Copying? then [r.callback.frame] else [])
  }

  /** An empty ring with anything in its slots. */
  predicate Initial(r: Ring) {
    && |r.slots| == RING_SIZE && r.head == 0 && r.tail == 0 && r.callback.Idle? && r.drain.Testing?
    && r.offered == [] && r.accepted == [] && r.processed == []
  }

  lemma InitialInv(r: Ring)
    requires Initial(r)
    ensures Inv(r)
  {
  }

  lemma SlotsDiffer(i: nat, a: nat)
    requires i < a < i + RING_SIZE
    ensures i % RING_SIZE != a % RING_SIZE
  {
  }

  lemma NextSlot(a: nat)
    ensures (a % RING_SIZE + 1) % RING_SIZE == (a + 1) % RING_SIZE
  {
  }

  /** Writing the slot at the head touches no published frame that is still needed. */
  lemma HeadIsFree(r: Ring)
    requires Inv(r) && r.callback.Copying?
    ensures forall i | |r.processed| <= i < |r.accepted| :: i % RING_SIZE != r.head
  {
    forall i | |r.processed| <= i < |r.accepted| ensures i % RING_SIZE != r.head {
      SlotsDiffer(i, |r.accepted|);
    }
  }

  /** The callback finds the ring full exactly when seven frames wait to be taken. */
  lemma RoomIff(r: Ring)
    requires Inv(r)
    ensures (r.head + 1) % RING_SIZE == r.tail <==> |r.accepted| - Taken(r) == 7
  {
  }

  lemma CheckKeepsInv(r: Ring, f: Entry)
    requires Inv(r) && Enabled(r, Check(f))
    ensures Inv(Next(r, Check(f)))
  {
    var n := Next(r, Check(f));
    assert n.offered[..|n.offered| - 1] == r.offered;
    RoomIff(r);
    assert r.accepted + [] == r.accepted;
  }

  lemma CopyKeepsInv(r: Ring, step: Step)
    requires Inv(r) && Enabled(r, step) && (step.CopySource? || step.CopyMessage?)
    ensures Inv(Next(r, step))
  {
    hide Kept;
    HeadIsFree(r);
    var n := Next(r, step);
    forall i | |r.processed| <= i < |r.accepted| ensures n.slots[i % RING_SIZE] == r.accepted[i] {
      assert r.slots[i % RING_SIZE] == r.accepted[i];
    }
  }

  lemma PublishKeepsInv(r: Ring)
    requires Inv(r) && Enabled(r, Publish)
    ensures Inv(Next(r, Publish))
  {
    hide Kept;
    NextSlot(|r.accepted|);
    var n := Next(r, Publish);
    assert n.accepted + [] == n.accepted;
    assert n.accepted[..|n.processed|] == r.accepted[..|r.processed|];
    forall i | |n.processed| <= i < |n.accepted| ensures n.slots[i % RING_SIZE] == n.accepted[i] {
      if i < |r.accepted| {
        assert r.slots[i % RING_SIZE] == r.accepted[i];
      }
    }
  }

  lemma DrainKeepsInv(r: Ring, step: Step)
    requires Inv(r) && Enabled(r, step) && (step.Take? || step.Finish?)
    ensures Inv(Next(r, step))
  {
    hide Kept;
    NextSlot(Taken(r));
    var n := Next(r, step);
    if step.Take? {
      assert Taken(r) < |r.accepted|;
    } else {
      assert r.slots[|r.processed| % RING_SIZE] == r.accepted[|r.processed|];
      assert n.processed == r.accepted[..|n.processed|];
    }
    forall i | |n.processed| <= i < |n.accepted| ensures n.slots[i % RING_SIZE] == n.accepted[i] {
      assert r.slots[i % RING_SIZE] == r.accepted[i];
    }
  }

  /** Every step of either side keeps the invariant, whatever the other side is in the middle of. */
  lemma StepKeepsInv(r: Ring, step: Step)
    requires Inv(r) && Enabled(r, step)
    ensures Inv(Next(r, step))
  {
    hide Inv, Kept;
    match step
    case Check(f) => CheckKeepsInv(r, f);
    case Publish => PublishKeepsInv(r);
    case CopySource => CopyKeepsInv(r, step);
    case CopyMessage => CopyKeepsInv(r, step);
    case _ => DrainKeepsInv(r, step);
  }

  /** States along a run of enabled steps. */
  ghost predicate IsRun(states: seq<Ring>, steps: seq<Step>) {
    && |states| == |steps| + 1
    && forall i | 0 <= i < |steps| ::
         Shape(states[i]) && Enabled(states[i], steps[i]) && states[i + 1] == Next(states[i], steps[i])
  }

  lemma {:induction false} RunKeepsInv(states: seq<Ring>, steps: seq<Step>, n: nat)
    requires IsRun(states, steps) && Initial(states[0]) && n <= |steps|
    ensures Inv(states[n])
  {
    if n == 0 {
      InitialInv(states[0]);
    } else {
      RunKeepsInv(states, steps, n - 1);
      StepKeepsInv(states[n - 1], steps[n - 1]);
    }
  }

  /** Over every interleaving: what was processed is a prefix of what was accepted, the entry in hand is
      the next accepted frame however long processing takes, a frame is refused only when seven wait, and
      once the ring is found empty everything accepted has been processed. */
  lemma RingIsFifo(states: seq<Ring>, steps: seq<Step>, n: nat)
    requires IsRun(states, steps) && Initial(states[0]) && n <= |steps|
    ensures var r := states[n];
            && r.processed <= r.accepted <= Kept(r.offered)
            && |Kept(r.offered)| <= |r.accepted| + 1
            && (r.drain.Processing? ==> |r.processed| < |r.accepted| && r.drain.at < |r.slots|
                                        && r.slots[r.drain.at] == r.accepted[|r.processed|])
            && (r.drain.Testing? && r.head == r.tail ==> r.processed == r.accepted)
    ensures forall f :: n < |steps| && steps[n] == Check(f) ==>
              (|states[n + 1].offered| > 0 && states[n + 1].offered[|states[n + 1].offered| - 1]
                == (f, |states[n].accepted| - Taken(states[n]) != 7))
  {
    RunKeepsInv(states, steps, n);
    RoomIff(states[n]);
  }

  /** The callback's steps in a row: one when the ring is full, else all four. */
  ghost function AfterCallback(r: Ring, f: Entry): Ring
    requires Shape(r) && r.callback.Idle?
  {
    var checked := Next(r, Check(f));
    if checked.callback.Idle? then checked else Next(Next(Next(checked, CopySource), CopyMessage), Publish)
  }

  lemma CallbackWhole(r: Ring, f: Entry)
    requires Inv(r) && r.callback.Idle?
    ensures Shape(r) && Inv(AfterCallback(r, f))
    ensures (r.head + 1) % RING_SIZE == r.tail <==> |r.accepted| - Taken(r) == 7
    ensures |r.accepted| - Taken(r) <= 7
    ensures var n := AfterCallback(r, f); var full := (r.head + 1) % RING_SIZE == r.tail;
            n == if full then r.(offered := r.offered + [(f, false)])
                 else r.(offered := r.offered + [(f, true)], accepted := r.accepted + [f],
                         slots := r.slots[r.head := f], head := (r.head + 1) % RING_SIZE)
  {
    RoomIff(r);
    var checked := Next(r, Check(f));
    StepKeepsInv(r, Check(f));
    if checked.callback.Copying? {
      var source := Next(checked, CopySource);
      StepKeepsInv(checked, CopySource);
      var message := Next(source, CopyMessage);
      StepKeepsInv(source, CopyMessage);
      StepKeepsInv(message, Publish);
      assert message.slots == r.slots[r.head := f];
    }
  }

  /** The queue itself, at moments when neither side is in the middle of anything. */
  class RecvQueue {
    const recvQueue: array<Entry>
    var head: nat
    var tail: nat
    ghost var ring: Ring

    ghost predicate Valid()
      reads this, recvQueue
    {
      && Inv(ring) && ring.callback.Idle? && ring.drain.Testing?
      && ring.slots == recvQueue[..] && ring.head == head && ring.tail == tail
    }

    constructor (blank: Entry)
      ensures Valid() && Initial(ring) && fresh(recvQueue)
    {
      recvQueue := new Entry[RING_SIZE](_ => blank);
      head, tail := 0, 0;
      new;
      ring := Ring(recvQueue[..], 0, 0, Idle, Testing, [], [], []);
    }

    /** The radio callback, uninterrupted: short frames are ignored, a full ring refuses the frame. */
    method OnDataRecvCallback(src: Mac, msg: MeshMsg, len: nat)
      requires Valid()
      modifies this, recvQueue
      ensures Valid() && ring.processed == old(ring.processed)
      ensures len < 127 ==> ring == old(ring)
      ensures len >= 127 ==> var room := |old(ring.accepted)| - |old(ring.processed)| < 7;
                && ring.offered == old(ring.offered) + [(Entry(src, msg), room)]
                && ring.accepted == old(ring.accepted) + (if room then [Entry(src, msg)] else [])
    {
      if len < 127 {
        return;
      }
      hide Inv;
      CallbackWhole(ring, Entry(src, msg));
      var nextHead := (head + 1) % RING_SIZE;
      if nextHead == tail {
        ring := AfterCallback(ring, Entry(src, msg));
        return;
      }
      ring := AfterCallback(ring, Entry(src, msg));
      recvQueue[head] := recvQueue[head].(src := src);
      recvQueue[head] := recvQueue[head].(msg := msg);
      head := nextHead;
    }

    /** The drain loop, collecting the entries it hands to the dispatcher. */
    method Drain() returns (entries: seq<Entry>)
      requires Valid()
      modifies this
      ensures Valid() && ring.accepted == old(ring.accepted) == ring.processed
      ensures old(ring.processed) + entries == ring.processed
    {
      entries := [];
      while tail != head
        invariant Valid() && ring.accepted == old(ring.accepted)
        invariant ring.processed == old(ring.processed) + entries
        decreases |ring.accepted| - |ring.processed|
      {
        StepKeepsInv(ring, Take);
        ring := Next(ring, Take);
        StepKeepsInv(ring, Finish);
        ring := Next(ring, Finish);
        var at := tail;
        tail := (tail + 1) % RING_SIZE;
        entries := entries + [recvQueue[at]];
      }
    }
  }
}
