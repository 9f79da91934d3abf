/**
 The indication ring of platform.c.  The polling thread inserts under the queue mutex but sizes its
 request from an unlocked read of the indices; the dispatching thread hands out a slot after releasing
 the mutex.  Threads are interleaved as atomic steps; Ring is the data both of them share.
 */
module IndicationQueue {
  import opened Bytes

  const MAX_NUMBER_INDICATION := 30
  const CAPACITY := MAX_NUMBER_INDICATION * 2   // MAX_NUMBER_INDICATION_QUEUE

  // timestamped_frame_t
  datatype Indication = Indication(frame: seq<byte>, timestampMs: nat)

  datatype Ring = Ring(slots: seq<Indication>, write: nat, read: nat, empty: bool)

  /* ---------- The shared data ---------- */

  predicate WellFormed(r: Ring) {
    |r.slots| == CAPACITY && r.write < CAPACITY && r.read < CAPACITY
  }

  predicate LooksFull(r: Ring) { !r.empty && r.write == r.read }

  function Inserted(r: Ring, ind: Indication): Ring
    requires WellFormed(r)
  {
    if LooksFull(r) then r
    else Ring(r.slots[r.write := ind], (r.write + 1) % CAPACITY, r.read, false)
  }

  function Advanced(r: Ring): Ring { r.(read := (r.read + 1) % CAPACITY) }

  function Marked(r: Ring): Ring { if r.read == r.write then r.(empty := true) else r }

  // How many indications poll_for_indication asks for; 0 when it does not poll.
  function Request(r: Ring): nat
    requires WellFormed(r)
  {
    var room := if r.empty then CAPACITY
                else if r.write > r.read then CAPACITY - (r.write - r.read)
                else r.read - r.write;
    if LooksFull(r) then 0 else if room > MAX_NUMBER_INDICATION then MAX_NUMBER_INDICATION else room
  }

  class Queue {
    var slots: array<Indication>
    var write: nat
    var read: nat
    var empty: bool

    ghost predicate Valid()
      reads this, slots
    {
      WellFormed(View())
    }

    function View(): Ring
      reads this, slots
    {
      Ring(slots[..], write, read, empty)
    }

    constructor ()
      ensures Valid() && write == 0 && read == 0 && empty && fresh(slots)
    {
      slots := new Indication[CAPACITY](_ => Indication([], 0));
      write, read, empty := 0, 0, true;
    }

    // onIndicationReceivedLocked; noRoom is its "must never happen" branch
    method OnIndicationReceived(ind: Indication) returns (noRoom: bool)
      requires Valid()
      modifies this`write, this`empty, slots
      ensures Valid() && View() == Inserted(old(View()), ind) && noRoom == LooksFull(old(View()))
    {
      if !empty && write == read {
        return true;
      }
      slots[write] := ind;
      write := (write + 1) % CAPACITY;
      empty := false;
      noRoom := false;
    }

    // The part of poll_for_indication that decides how many indications to ask for
    method MaxNumIndication() returns (max: nat)
      requires Valid()
      ensures max == Request(View())
    {
      var freeBufferRoom;
      if !empty && write == read {
        return 0;
      } else if empty {
        freeBufferRoom := CAPACITY;
      } else if write > read {
        freeBufferRoom := CAPACITY - (write - read);
      } else {
        freeBufferRoom := read - write;
      }
      max := if freeBufferRoom > MAX_NUMBER_INDICATION then MAX_NUMBER_INDICATION else freeBufferRoom;
    }

    // dispatch_indication after the callback, in its two stores
    method AdvanceRead()
      requires Valid()
      modifies this`read
      ensures Valid() && View() == Advanced(old(View()))
    {
      read := (read + 1) % CAPACITY;
    }

    method MarkEmpty()
      requires Valid()
      modifies this`empty
      ensures Valid() && View() == Marked(old(View()))
    {
      if read == write {
        empty := true;
      }
    }
  }

  /* ---------- Two threads ---------- */

  datatype Poller =
    | Idle
    | Polling(budget: nat)   // callbacks get_indication may still make for this poll

  datatype Dispatcher =
    | Waiting                // at the top of its loop, or in the condition wait
    | Holding(slot: nat)     // outside the mutex, before the callback reads the slot
    | Returned               // the callback has returned
    | Locked                 // mutex taken back, read index advanced, empty flag not yet updated

  // received: indications handed to the insertion callback; dispatched: those handed to the
  // dispatcher's callback; dropped: times the insertion found no room.
  datatype State = State(ring: Ring, poller: Poller, dispatcher: Dispatcher,
                         received: seq<Indication>, dispatched: seq<Indication>, dropped: nat)

  datatype Step = Poll | Insert(ind: Indication) | EndPoll | Take | Call | Advance | Mark

  ghost predicate Init(s: State) {
    && WellFormed(s.ring) && s.ring.write == s.ring.read == 0 && s.ring.empty
    && s.poller == Idle && s.dispatcher == Waiting
    && s.received == [] && s.dispatched == [] && s.dropped == 0
  }

  // Insert needs the mutex, which the dispatcher holds while Locked; Poll reads without it.
  predicate Enabled(s: State, step: Step) {
    match step
    case Poll => s.poller.Idle?
    case Insert(_) => s.poller.Polling? && s.poller.budget > 0 && !s.dispatcher.Locked?
    case EndPoll => s.poller.Polling?
    case Take => s.dispatcher.Waiting? && !s.ring.empty
    case Call => s.dispatcher.Holding?
    case Advance => s.dispatcher.Returned?
    case Mark => s.dispatcher.Locked?
  }

  function Next(s: State, step: Step): State
    requires WellFormed(s.ring) && Enabled(s, step) && (s.dispatcher.Holding? ==> s.dispatcher.slot < CAPACITY)
  {
    match step
    case Poll => if LooksFull(s.ring) then s else s.(poller := Polling(Request(s.ring)))
    case Insert(ind) =>
      s.(ring := Inserted(s.ring, ind), poller := Polling(s.poller.budget - 1),
         received := s.received + [ind], dropped := s.dropped + (if LooksFull(s.ring) then 1 else 0))
    case EndPoll => s.(poller := Idle)
    case Take => s.(dispatcher := Holding(s.ring.read))
    case Call => s.(dispatched := s.dispatched + [s.ring.slots[s.dispatcher.slot]], dispatcher := Returned)
    case Advance => s.(ring := Advanced(s.ring), dispatcher := Locked)
    case Mark => s.(ring := Marked(s.ring), dispatcher := Waiting)
  }

  /* ---------- The invariant ---------- */

  // Slots given back by the dispatcher so far
  function Freed(s: State): int {
    if s.dispatcher.Returned? then |s.dispatched| - 1 else |s.dispatched|
  }

  // Each received and not yet freed indication sits in its slot.
  ghost predicate InPlace(slots: seq<Indication>, received: seq<Indication>, freed: int)
    requires |slots| == CAPACITY && 0 <= freed
  {
    forall j {:trigger received[j]} :: freed <= j < |received| ==> slots[j % CAPACITY] == received[j]
  }

  ghost predicate Inv(s: State) {
    var freed := Freed(s);
    && WellFormed(s.ring) && s.dropped == 0
    && 0 <= freed <= |s.received| <= freed + CAPACITY
    && s.ring.write == |s.received| % CAPACITY && s.ring.read == freed % CAPACITY
    && (s.ring.empty <==> freed == |s.received| && !s.dispatcher.Locked?)
    && (s.poller.Polling? ==> |s.received| + s.poller.budget <= freed + CAPACITY)
    && (s.dispatcher.Holding? ==> s.dispatcher.slot == s.ring.read && freed < |s.received|)
    && (s.dispatcher.Returned? ==> freed < |s.received|)
    && (s.dispatcher.Locked? ==> |s.received| < freed + CAPACITY)
    && InPlace(s.ring.slots, s.received, freed)
    && s.dispatched <= s.received
  }

  lemma InitInv(s: State)
    requires Init(s)
    ensures Inv(s)
  {
  }

  lemma ModApart(i: nat, j: nat)
    requires j < i < j + CAPACITY
    ensures i % CAPACITY != j % CAPACITY
  {
  }

  lemma ModNext(i: nat)
    ensures (i % CAPACITY + 1) % CAPACITY == (i + 1) % CAPACITY
  {
  }

  // The indices tell the number of pending indications.
  lemma IndicesTell(received: nat, freed: nat)
    requires freed <= received <= freed + CAPACITY
    ensures var w, r := received % CAPACITY, freed % CAPACITY;
      && (w == r <==> received == freed || received == freed + CAPACITY)
      && (w > r ==> received - freed == w - r)
      && (w < r ==> received - freed == CAPACITY - (r - w))
  {
    var a, b := received / CAPACITY, freed / CAPACITY;
    assert received == a * CAPACITY + received % CAPACITY && freed == b * CAPACITY + freed % CAPACITY;
  }

  // The budget of a poll never exceeds the free slots, even when the snapshot falls between the two
  // stores of the dispatcher.
  lemma PollKeepsInv(s: State)
    requires Inv(s) && Enabled(s, Poll)
    ensures Inv(Next(s, Poll))
  {
    hide InPlace;
    IndicesTell(|s.received|, Freed(s));
  }

  lemma InsertKeepsInv(s: State, ind: Indication)
    requires Inv(s) && Enabled(s, Insert(ind))
    ensures Inv(Next(s, Insert(ind))) && !LooksFull(s.ring)
  {
    var n, freed := |s.received|, Freed(s);
    IndicesTell(n, freed);
    ModNext(n);
    var t := Next(s, Insert(ind));
    forall j | freed <= j < |t.received|
      ensures t.ring.slots[j % CAPACITY] == t.received[j]
    {
      if j < n {
        ModApart(n, j);
        assert t.received[j] == s.received[j];
      }
    }
  }

  lemma DispatchKeepsInv(s: State, step: Step)
    requires Inv(s) && Enabled(s, step) && (step.Take? || step.Call? || step.Mark?)
    ensures Inv(Next(s, step))
  {
    IndicesTell(|s.received|, Freed(s));
    if step.Call? { assert s.received[|s.dispatched|] == s.ring.slots[s.dispatcher.slot]; }
  }

  lemma AdvanceKeepsInv(s: State)
    requires Inv(s) && Enabled(s, Advance)
    ensures Inv(Next(s, Advance))
  {
    ModNext(Freed(s));
  }

  lemma NextKeepsInv(s: State, step: Step)
    requires Inv(s) && Enabled(s, step)
    ensures Inv(Next(s, step))
  {
    match step
    case Poll => PollKeepsInv(s);
    case Insert(ind) => InsertKeepsInv(s, ind);
    case EndPoll =>
    case Take => DispatchKeepsInv(s, step);
    case Call => DispatchKeepsInv(s, step);
    case Advance => AdvanceKeepsInv(s);
    case Mark => DispatchKeepsInv(s, step);
  }

  /* ---------- Every interleaving ---------- */

  // The states of a run, one per step taken and the initial one.
  ghost predicate IsRun(states: seq<State>, steps: seq<Step>) {
    && |states| == |steps| + 1 && Init(states[0])
    && forall i {:trigger steps[i]} :: 0 <= i < |steps| ==> Moves(states[i], steps[i], states[i + 1])
  }

  ghost predicate Moves(s: State, step: Step, t: State) {
    && WellFormed(s.ring) && (s.dispatcher.Holding? ==> s.dispatcher.slot < CAPACITY)
    && Enabled(s, step) && t == Next(s, step)
  }

  lemma {:induction false} RunInv(states: seq<State>, steps: seq<Step>, i: nat)
    requires IsRun(states, steps) && i < |states|
    ensures Inv(states[i])
  {
    if i == 0 {
      InitInv(states[0]);
    } else {
      RunInv(states, steps, i - 1);
      assert states[i] == Next(states[i - 1], steps[i - 1]);
      NextKeepsInv(states[i - 1], steps[i - 1]);
    }
  }

  // In every interleaving: what has been dispatched is a prefix of what was received, nothing was
  // dropped, and whatever is neither dispatched nor pending does not exist.
  lemma FifoWithoutLoss(states: seq<State>, steps: seq<Step>, i: nat)
    requires IsRun(states, steps) && i < |states|
    ensures states[i].dispatched <= states[i].received && states[i].dropped == 0
    ensures states[i].dispatcher.Waiting? && states[i].ring.empty ==> states[i].dispatched == states[i].received
  {
    RunInv(states, steps, i);
  }

  // Indications received whose slot has not been given back
  function Pending(s: State): int { |s.received| - Freed(s) }

  // The poller asks for the free slots, thirty at most, so a burst always has room.  It asks for none
  // in one more case: the last slot has been given back and the empty flag does not say so yet.
  lemma AsksForRoom(states: seq<State>, steps: seq<Step>, i: nat)
    requires IsRun(states, steps) && i < |states|
    ensures WellFormed(states[i].ring) && 0 <= Pending(states[i]) <= CAPACITY
    ensures var s := states[i]; var room := CAPACITY - Pending(s);
      Request(s.ring) == if s.dispatcher.Locked? && room == CAPACITY then 0
                         else if room > MAX_NUMBER_INDICATION then MAX_NUMBER_INDICATION else room
  {
    hide InPlace;
    RunInv(states, steps, i);
    IndicesTell(|states[i].received|, Freed(states[i]));
  }

  // What a poll in a run asks for: as many indications as slots are free, thirty at most; it stays idle on
  // a full ring, and when the last slot has been given back and the empty flag does not say so yet.
  lemma PollGrants(states: seq<State>, steps: seq<Step>, i: nat)
    requires IsRun(states, steps) && i < |steps| && steps[i].Poll?
    ensures 0 <= Pending(states[i]) <= CAPACITY
    ensures var s, t := states[i], states[i + 1]; var room := CAPACITY - Pending(s);
      && t == s.(poller := t.poller)
      && t.poller == if room == 0 || (s.dispatcher.Locked? && room == 60) then Idle
                     else if room > 30 then Polling(30) else Polling(room)
  {
    hide InPlace;
    RunInv(states, steps, i);
    IndicesTell(|states[i].received|, Freed(states[i]));
    assert states[i + 1] == Next(states[i], steps[i]);
  }

  // Advancing the read index gives back the slot of the indication just dispatched, and no other.
  lemma AdvanceFreesOne(states: seq<State>, steps: seq<Step>, i: nat)
    requires IsRun(states, steps) && i < |steps| && steps[i].Advance?
    ensures Pending(states[i + 1]) == Pending(states[i]) - 1 >= 0 && Freed(states[i + 1]) == |states[i].dispatched|
    ensures states[i + 1].ring.slots == states[i].ring.slots && states[i + 1].received == states[i].received
  {
    hide InPlace;
    RunInv(states, steps, i);
    assert states[i + 1] == Next(states[i], steps[i]);
  }

  // Except between the dispatcher's two stores the flag says exactly whether nothing is pending.
  lemma EmptyIffNothingPending(states: seq<State>, steps: seq<Step>, i: nat)
    requires IsRun(states, steps) && i < |states| && !states[i].dispatcher.Locked?
    ensures states[i].ring.empty <==> Pending(states[i]) == 0
  {
    hide InPlace;
    RunInv(states, steps, i);
  }

  // The dispatcher is using a slot, or has used it and not yet given it back.
  predicate InUse(s: State) { s.dispatcher.Holding? || s.dispatcher.Returned? }

  // From the moment the dispatcher takes a slot until it advances the read index, no step of either
  // thread touches the slot: it holds the indication that is, or was, due.
  lemma HeldSlotStable(states: seq<State>, steps: seq<Step>, i: nat)
    requires IsRun(states, steps) && i < |steps| && InUse(states[i])
    ensures var s, t, slot := states[i], states[i + 1], states[i].ring.read;
      && slot < CAPACITY == |s.ring.slots| == |t.ring.slots| && 0 <= Freed(s) < |s.received|
      && (s.dispatcher.Holding? ==> s.dispatcher.slot == slot && Freed(s) == |s.dispatched|)
      && s.ring.slots[slot] == s.received[Freed(s)] && t.ring.slots[slot] == s.ring.slots[slot]
      && (!steps[i].Advance? ==> InUse(t) && t.ring.read == slot && Freed(t) == Freed(s))
  {
    RunInv(states, steps, i);
    RunInv(states, steps, i + 1);
    var s, t := states[i], states[i + 1];
    assert t == Next(s, steps[i]);
    var due := Freed(s);
    assert s.ring.slots[due % CAPACITY] == s.received[due];
    if steps[i].Insert? {
      assert t.received[due] == s.received[due];
    }
  }

  // The "No more room" branch is never taken.
  lemma NeverNoRoom(states: seq<State>, steps: seq<Step>, i: nat)
    requires IsRun(states, steps) && i < |steps| && steps[i].Insert?
    ensures WellFormed(states[i].ring) && !LooksFull(states[i].ring)
  {
    RunInv(states, steps, i);
    InsertKeepsInv(states[i], steps[i].ind);
  }

  // Every enabled step of a reachable state extends the run: the guards on the ring in IsRun never
  // cut a run short.
  lemma RunExtends(states: seq<State>, steps: seq<Step>, step: Step)
    requires IsRun(states, steps) && Enabled(states[|steps|], step)
    ensures var s := states[|steps|];
      && WellFormed(s.ring) && (s.dispatcher.Holding? ==> s.dispatcher.slot < CAPACITY)
      && IsRun(states + [Next(s, step)], steps + [step])
  {
    RunInv(states, steps, |steps|);
    var states', steps' := states + [Next(states[|steps|], step)], steps + [step];
    forall i {:trigger steps'[i]} | 0 <= i < |steps'|
      ensures Moves(states'[i], steps'[i], states'[i + 1])
    {
      if i < |steps| {
        assert steps'[i] == steps[i] && states'[i] == states[i] && states'[i + 1] == states[i + 1];
      }
    }
  }

  /* ---------- Whatever the node sends gets through ---------- */

  ghost predicate Extends(states: seq<State>, steps: seq<Step>, states': seq<State>, steps': seq<Step>) {
    IsRun(states', steps') && states <= states' && steps <= steps'
  }

  lemma Taking(states: seq<State>, steps: seq<Step>, step: Step) returns (states': seq<State>, steps': seq<Step>)
    requires IsRun(states, steps) && Enabled(states[|steps|], step)
    ensures Extends(states, steps, states', steps') && |steps'| == |steps| + 1
    ensures var s := states[|steps|];
      && WellFormed(s.ring) && (s.dispatcher.Holding? ==> s.dispatcher.slot < CAPACITY)
      && states'[|steps'|] == Next(s, step)
  {
    RunExtends(states, steps, step);
    states', steps' := states + [Next(states[|steps|], step)], steps + [step];
  }

  // How far the dispatcher is from giving a slot back
  function Rank(d: Dispatcher): nat {
    match d
    case Locked => 3
    case Waiting => 2
    case Holding(_) => 1
    case Returned => 0
  }

  function NextDispatch(d: Dispatcher): Step {
    match d
    case Locked => Mark
    case Waiting => Take
    case Holding(_) => Call
    case Returned => Advance
  }

  lemma DispatchProgress(s: State)
    requires Inv(s) && !(s.dispatcher.Waiting? && s.ring.empty)
    ensures var step := NextDispatch(s.dispatcher);
      && Enabled(s, step) && (s.dispatcher.Holding? ==> s.dispatcher.slot < CAPACITY)
      && var t := Next(s, step);
      && t.received == s.received && t.poller == s.poller && 0 <= Pending(t) <= Pending(s)
      && (Pending(t) < Pending(s) || Rank(t.dispatcher) < Rank(s.dispatcher))
  {
    hide InPlace;
    NextKeepsInv(s, NextDispatch(s.dispatcher));
  }

  // From every reachable state the dispatcher can go on until everything received has been dispatched.
  lemma {:induction false} Drains(states: seq<State>, steps: seq<Step>)
    returns (states': seq<State>, steps': seq<Step>)
    requires IsRun(states, steps)
    ensures Extends(states, steps, states', steps')
    ensures var s, t := states[|steps|], states'[|steps'|];
      && t.dispatcher.Waiting? && t.ring.empty && t.poller == s.poller && t.received == t.dispatched == s.received
    decreases Pending(states[|steps|]), Rank(states[|steps|].dispatcher)
  {
    hide Inv, Next, Enabled;
    RunInv(states, steps, |steps|);
    var s := states[|steps|];
    if s.dispatcher.Waiting? && s.ring.empty {
      states', steps' := states, steps;
      FifoWithoutLoss(states, steps, |steps|);
    } else {
      PendingBounds(s);
      DispatchProgress(s);
      states', steps' := Taking(states, steps, NextDispatch(s.dispatcher));
      states', steps' := Drains(states', steps');
    }
  }

  lemma PendingBounds(s: State)
    requires Inv(s)
    ensures 0 <= Pending(s) <= CAPACITY
  {
    hide InPlace;
  }

  // With the budget granted that many indications can be inserted, whatever they are.
  lemma {:induction false} Inserts(states: seq<State>, steps: seq<Step>, xs: seq<Indication>)
    returns (states': seq<State>, steps': seq<Step>)
    requires IsRun(states, steps)
    requires var s := states[|steps|];
      s.poller.Polling? && |xs| <= s.poller.budget && !s.dispatcher.Locked?
    ensures Extends(states, steps, states', steps')
    ensures var s, t := states[|steps|], states'[|steps'|];
      && t.received == s.received + xs && t.dispatched == s.dispatched && t.dispatcher == s.dispatcher
      && t.poller == Polling(s.poller.budget - |xs|)
    decreases |xs|
  {
    var s := states[|steps|];
    if xs == [] {
      states', steps' := states, steps;
      assert s.received + xs == s.received;
    } else {
      states', steps' := Taking(states, steps, Insert(xs[0]));
      states', steps' := Inserts(states', steps', xs[1..]);
      assert s.received + xs == s.received + [xs[0]] + xs[1..];
    }
  }

  // A poll from any reachable state with an idle poller, outside the dispatcher's two stores, can take in
  // any indications there is room for, thirty at most.
  lemma PollTakesIn(states: seq<State>, steps: seq<Step>, xs: seq<Indication>)
    returns (states': seq<State>, steps': seq<Step>)
    requires IsRun(states, steps)
    requires var s := states[|steps|];
      s.poller.Idle? && !s.dispatcher.Locked? && |xs| <= 30 && |xs| <= CAPACITY - Pending(s)
    ensures Extends(states, steps, states', steps')
    ensures var s, t := states[|steps|], states'[|steps'|];
      t.received == s.received + xs && t.dispatched == s.dispatched && t.dispatcher == s.dispatcher && t.poller.Idle?
  {
    hide Inv;
    var s := states[|steps|];
    if xs == [] {
      states', steps' := states, steps;
      assert s.received + xs == s.received;
    } else {
      states', steps' := Taking(states, steps, Poll);
      PollGrants(states', steps', |steps|);
      states', steps' := Inserts(states', steps', xs);
      states', steps' := Taking(states', steps', EndPoll);
    }
  }

  // From every reachable state, whatever the node sends next can reach the dispatcher's callback, behind
  // everything received before: the queue never gets stuck.
  lemma EverythingGetsThrough(states: seq<State>, steps: seq<Step>, xs: seq<Indication>)
    returns (states': seq<State>, steps': seq<Step>)
    requires IsRun(states, steps)
    ensures Extends(states, steps, states', steps')
    ensures states'[|steps'|].dispatched == states[|steps|].received + xs
  {
    hide Inv;
    states', steps' := states, steps;
    if states[|steps|].poller.Polling? {
      states', steps' := Taking(states, steps, EndPoll);
    }
    states', steps' := Drains(states', steps');
    for n := 0 to |xs|
      invariant Extends(states, steps, states', steps')
      invariant var t := states'[|steps'|];
        && t.poller.Idle? && t.dispatcher.Waiting? && t.ring.empty
        && t.dispatched == t.received == states[|steps|].received + xs[..n]
    {
      NothingPending(states', steps');
      states', steps' := PollTakesIn(states', steps', [xs[n]]);
      states', steps' := Drains(states', steps');
      assert xs[..n + 1] == xs[..n] + [xs[n]];
    }
    assert xs[..|xs|] == xs;
  }

  lemma NothingPending(states: seq<State>, steps: seq<Step>)
    requires IsRun(states, steps) && states[|steps|].dispatcher.Waiting? && states[|steps|].ring.empty
    ensures Pending(states[|steps|]) == 0
  {
    hide InPlace;
    RunInv(states, steps, |steps|);
  }
}
