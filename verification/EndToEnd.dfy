/**
 Whole runs of the receiver: fragments of any number of packets, in any order, interleaved, duplicated
 and lost, with garbage collection running beside them.  The store always holds exactly what the
 tracker says, so what the tracker delivers is what the application gets.
 */
module EndToEnd {
  import opened Bytes
  import opened Fragments
  import Spec = ReassemblySpec
  import opened ReassemblySpec
  import opened DsapTx
  import opened DsapRx
  import opened Gathering
  import opened Tracking

  /* ---------- The store against the tracker ---------- */

  // The store entry of a packet of which something is held
  ghost predicate Entry(msgs: seq<Msg>, t: Tracker, store: Store, m: nat)
    requires AllSendable(msgs) && Shaped(msgs, t) && m < |msgs|
  {
    && msgs[m].key in store && !Complete(msgs[m], t.got[m])
    && Holding(store[msgs[m].key], msgs[m], t.got[m])
    && store[msgs[m].key].stamp == t.stamps[m]
  }

  predicate Active(t: Tracker, m: nat)
    requires m < |t.got|
  {
    t.got[m] != {}
  }

  ghost predicate Owned(msgs: seq<Msg>, t: Tracker, key: Key)
    requires Shaped(msgs, t)
  {
    exists m :: 0 <= m < |msgs| && Active(t, m) && msgs[m].key == key
  }

  ghost predicate KeysApart(msgs: seq<Msg>, t: Tracker)
    requires Shaped(msgs, t)
  {
    forall m, n :: 0 <= m < n < |msgs| && Active(t, m) && Active(t, n) ==> msgs[m].key != msgs[n].key
  }

  // The store holds exactly the active packets, each with exactly its fragments.
  ghost predicate Inv(msgs: seq<Msg>, t: Tracker, store: Store)
    requires AllSendable(msgs) && Shaped(msgs, t)
  {
    && (forall m :: 0 <= m < |msgs| && Active(t, m) ==> Entry(msgs, t, store, m))
    && (forall k :: k in store ==> Owned(msgs, t, k))
    && KeysApart(msgs, t)
  }

  // No other packet the receiver still holds something of uses the key.
  predicate KeyFree(msgs: seq<Msg>, t: Tracker, e: Event)
    requires Shaped(msgs, t) && e.m < |msgs|
  {
    forall m :: 0 <= m < |msgs| && m != e.m && Active(t, m) ==> msgs[m].key != msgs[e.m].key
  }

  predicate ClockPast(t: Tracker, now: nat)
    requires |t.got| == |t.stamps|
  {
    t.lastGc <= now < 1000 * 0x1_0000_0000 && forall m :: 0 <= m < |t.got| && Active(t, m) ==> t.stamps[m] <= now
  }

  // What the environment owes the receiver: a fragment of a packet, no clash of keys, a monotonic clock.
  predicate Admissible(msgs: seq<Msg>, t: Tracker, e: Event)
    requires AllSendable(msgs) && Shaped(msgs, t)
  {
    e.m < |msgs| && e.i < Size(msgs[e.m]) && KeyFree(msgs, t, e) && ClockPast(t, e.now)
  }

  /* ---------- One event, its own packet ---------- */

  // What adding the fragment does to its own packet.
  lemma OwnStep(msg: Msg, p: Packet, store: Store, arrived: set<nat>, i: nat, now: nat)
    requires Sendable(msg) && Holding(p, msg, arrived) && i < Size(msg) && p == FoundOrNew(store, msg.key)
    requires !Complete(msg, arrived) && (msg.key in store <==> arrived != {})
    ensures var a := Spec.AddFragment(store, FragmentOf(msg, i), now, AllMallocs);
      && msg.key in a.store && a.store == store[msg.key := a.store[msg.key]]
      && (!Complete(msg, arrived + {i}) ==>
            && !(a.ok && a.fullSize != 0) && !a.store[msg.key].isFull
            && Holding(a.store[msg.key], msg, arrived + {i})
            && a.store[msg.key].stamp == if i in arrived then p.stamp else now)
      && (Complete(msg, arrived + {i}) ==>
            && a.ok && a.fullSize == |msg.payload| && a.store[msg.key].isFull
            && a.store[msg.key].fullSize == |msg.payload|
            && Gathered(a.store[msg.key].frags, msg, arrived + {i}))
  {
    hide Gathered, HasOffset, TileAt, Checked, WithFragment, Complete;
    OffsetKnownIff(p.frags, msg, arrived, i);
    if i in arrived {
      assert arrived + {i} == arrived;
    } else {
      HoldingMore(p, msg, arrived, i, now);
    }
  }

  // The handler up to garbage collection: the packet is delivered exactly when this fragment
  // completes it, and then its entry is gone.
  lemma AcceptStep(msg: Msg, st: RxState, arrived: set<nat>, i: nat, now: nat)
    requires Sendable(msg) && i < Size(msg) && !Complete(msg, arrived) && |st.buffer| == BUFFER_SIZE
    requires Holding(FoundOrNew(st.store, msg.key), msg, arrived) && (msg.key in st.store <==> arrived != {})
    ensures Fits(st.store, FragmentOf(msg, i), now, AllMallocs)
    ensures var h := Accepting(st, FragmentOf(msg, i), now, AllMallocs);
      && h.st.lastGc == st.lastGc && |h.st.buffer| == BUFFER_SIZE
      && (Complete(msg, arrived + {i}) ==>
            h.st.store == st.store - {msg.key} && h.delivered == [Delivery(msg.key.srcAdd, msg.payload)])
      && (!Complete(msg, arrived + {i}) ==>
            && h.delivered == [] && msg.key in h.st.store
            && h.st.store == st.store[msg.key := h.st.store[msg.key]]
            && Holding(h.st.store[msg.key], msg, arrived + {i})
            && h.st.store[msg.key].stamp == if i in arrived then FoundOrNew(st.store, msg.key).stamp else now)
  {
    hide Holding, Gathered, Spec.AddFragment, Complete, Within, CopiedAll, Size, TileAt;
    OwnStep(msg, FoundOrNew(st.store, msg.key), st.store, arrived, i, now);
    var a := Spec.AddFragment(st.store, FragmentOf(msg, i), now, AllMallocs);
    if Complete(msg, arrived + {i}) {
      CopyYieldsPayload(st.buffer, a.store[msg.key].frags, msg, arrived + {i});
      assert a.store - {msg.key} == st.store - {msg.key};
    }
  }

  /* ---------- One event, every packet ---------- */

  // Before the event the receiver has for this packet what the tracker says.
  lemma OwnEntry(msgs: seq<Msg>, t: Tracker, e: Event, store: Store)
    requires AllSendable(msgs) && Shaped(msgs, t) && Inv(msgs, t, store) && Admissible(msgs, t, e)
    ensures Holding(FoundOrNew(store, msgs[e.m].key), msgs[e.m], t.got[e.m]) && !Complete(msgs[e.m], t.got[e.m])
    ensures msgs[e.m].key in store <==> Active(t, e.m)
    ensures Active(t, e.m) ==> store[msgs[e.m].key].stamp == t.stamps[e.m]
  {
    hide Holding, Complete, ClockPast;
    if Active(t, e.m) {
      assert Entry(msgs, t, store, e.m);
    } else {
      NewHoldsNothing(msgs[e.m]);
      NothingIncomplete(msgs[e.m]);
    }
  }

  // Nothing but the entry of the event's own key changes.
  ghost predicate OthersKept(store: Store, store': Store, key: Key) {
    forall k :: k != key ==> (k in store <==> k in store') && (k in store ==> store'[k] == store[k])
  }

  lemma AcceptKeepsInv(msgs: seq<Msg>, t: Tracker, e: Event, st: RxState)
    requires AllSendable(msgs) && Shaped(msgs, t) && Inv(msgs, t, st.store) && Admissible(msgs, t, e)
    requires |st.buffer| == BUFFER_SIZE
    ensures Fits(st.store, FragmentOf(msgs[e.m], e.i), e.now, AllMallocs)
    ensures var h := Accepting(st, FragmentOf(msgs[e.m], e.i), e.now, AllMallocs);
      && Inv(msgs, Accepted(msgs, t, e), h.st.store) && h.st.lastGc == st.lastGc
      && h.delivered == if Completes(msgs, t, e) then [Delivery(msgs[e.m].key.srcAdd, msgs[e.m].payload)] else []
  {
    hide Holding, Accepting, Fits, Complete, Inv, Size, TileAt, ClockPast;
    OwnEntry(msgs, t, e, st.store);
    AcceptStep(msgs[e.m], st, t.got[e.m], e.i, e.now);
    var store := Accepting(st, FragmentOf(msgs[e.m], e.i), e.now, AllMallocs).st.store;
    AcceptedShape(msgs, t, e);
    InvFrom(msgs, t, e, st.store, store);
  }

  lemma AcceptedShape(msgs: seq<Msg>, t: Tracker, e: Event)
    requires AllSendable(msgs) && Shaped(msgs, t) && e.m < |msgs|
    ensures var a := Accepted(msgs, t, e);
      && a.got[e.m] == (if Completes(msgs, t, e) then {} else t.got[e.m] + {e.i})
      && a.stamps[e.m] == if e.i in t.got[e.m] then t.stamps[e.m] else e.now
  {
    hide Complete;
  }

  lemma InvFrom(msgs: seq<Msg>, t: Tracker, e: Event, store: Store, store': Store)
    requires AllSendable(msgs) && Shaped(msgs, t) && Inv(msgs, t, store) && Admissible(msgs, t, e)
    requires OthersKept(store, store', msgs[e.m].key)
    requires Completes(msgs, t, e) ==> msgs[e.m].key !in store'
    requires !Completes(msgs, t, e) ==> Entry(msgs, Accepted(msgs, t, e), store', e.m)
    ensures Inv(msgs, Accepted(msgs, t, e), store')
  {
    hide Holding, Complete, ClockPast, Accepted, Completes;
    var a := Accepted(msgs, t, e);
    AcceptedShape(msgs, t, e);
    forall m | 0 <= m < |msgs| && Active(a, m)
      ensures Entry(msgs, a, store', m)
    {
      if m != e.m { assert Active(t, m) && Entry(msgs, t, store, m); }
    }
    forall k | k in store'
      ensures Owned(msgs, a, k)
    {
      if k != msgs[e.m].key {
        assert Owned(msgs, t, k);
        var m :| 0 <= m < |msgs| && Active(t, m) && msgs[m].key == k;
        assert Active(a, m);
      } else {
        assert Active(a, e.m);
      }
    }
    forall m, n | 0 <= m < n < |msgs| && Active(a, m) && Active(a, n)
      ensures msgs[m].key != msgs[n].key
    {
      assert m != e.m ==> Active(t, m);
      assert n != e.m ==> Active(t, n);
    }
  }

  // Garbage collection removes the entries of exactly the stale packets.
  lemma SweepKeepsInv(msgs: seq<Msg>, t: Tracker, now: nat, timeoutS: nat, store: Store)
    requires AllSendable(msgs) && Shaped(msgs, t) && Inv(msgs, t, store) && ClockPast(t, now)
    requires NoLaterThan(store, now)
    ensures Inv(msgs, Swept(t, now, timeoutS), Spec.GarbageCollect(store, timeoutS, now))
  {
    hide Holding, Complete, Expired;
    var s, store' := Swept(t, now, timeoutS), Spec.GarbageCollect(store, timeoutS, now);
    forall m | 0 <= m < |msgs| && Active(t, m)
      ensures msgs[m].key in store && (Expired(store[msgs[m].key], timeoutS, now) <==> Stale(t, m, now, timeoutS))
    {
      assert Entry(msgs, t, store, m);
      ExpiredIffIdle(store[msgs[m].key], timeoutS, now);
    }
    forall m | 0 <= m < |msgs| && Active(s, m)
      ensures Entry(msgs, s, store', m)
    {
      assert Active(t, m) && Entry(msgs, t, store, m);
    }
    forall k | k in store'
      ensures Owned(msgs, s, k)
    {
      assert Owned(msgs, t, k);
      var m :| 0 <= m < |msgs| && Active(t, m) && msgs[m].key == k;
      assert Active(s, m);
    }
    forall m, n | 0 <= m < n < |msgs| && Active(s, m) && Active(s, n)
      ensures msgs[m].key != msgs[n].key
    {
      assert Active(t, m) && Active(t, n);
    }
  }

  lemma StampsArePast(msgs: seq<Msg>, t: Tracker, now: nat, store: Store)
    requires AllSendable(msgs) && Shaped(msgs, t) && Inv(msgs, t, store) && ClockPast(t, now)
    ensures NoLaterThan(store, now)
  {
    hide Holding, Complete;
    forall k | k in store
      ensures store[k].stamp <= now
    {
      assert Owned(msgs, t, k);
      var m :| 0 <= m < |msgs| && Active(t, m) && msgs[m].key == k;
      assert Entry(msgs, t, store, m);
    }
  }

  lemma ClockStaysPast(msgs: seq<Msg>, t: Tracker, e: Event)
    requires AllSendable(msgs) && Shaped(msgs, t) && Admissible(msgs, t, e)
    ensures ClockPast(Accepted(msgs, t, e), e.now)
  {
    hide Complete, Accepted, Completes;
    AcceptedShape(msgs, t, e);
    var a := Accepted(msgs, t, e);
    forall m | 0 <= m < |msgs| && Active(a, m)
      ensures a.stamps[m] <= e.now
    {
      if m != e.m || e.i in t.got[e.m] { assert Active(t, m); }
    }
  }

  // One whole call of the handler: the store follows the tracker, and the packet is delivered exactly
  // when this fragment is the last one missing.
  lemma HandleStep(msgs: seq<Msg>, t: Tracker, e: Event, timeoutS: nat, st: RxState)
    requires AllSendable(msgs) && Shaped(msgs, t) && Inv(msgs, t, st.store) && Admissible(msgs, t, e)
    requires |st.buffer| == BUFFER_SIZE && st.lastGc == t.lastGc
    ensures NoLaterThan(st.store, e.now)
    ensures Fits(st.store, FragmentOf(msgs[e.m], e.i), e.now, AllMallocs)
    ensures var h := Handle(st, FragmentOf(msgs[e.m], e.i), timeoutS, e.now, AllMallocs);
      && |h.st.buffer| == BUFFER_SIZE
      && Inv(msgs, After(msgs, t, e, timeoutS), h.st.store) && h.st.lastGc == After(msgs, t, e, timeoutS).lastGc
      && h.delivered == if Completes(msgs, t, e) then [Delivery(msgs[e.m].key.srcAdd, msgs[e.m].payload)] else []
  {
    hide Inv, Accepting, Fits, NoLaterThan, Spec.GarbageCollect, Accepted, Completes, KeyFree, ClockPast, Swept;
    StampsArePast(msgs, t, e.now, st.store);
    AcceptKeepsInv(msgs, t, e, st);
    var f := FragmentOf(msgs[e.m], e.i);
    AcceptedStamps(st, f, e.now, AllMallocs);
    ClockStaysPast(msgs, t, e);
    SweepKeepsInv(msgs, Accepted(msgs, t, e), e.now, timeoutS, Accepting(st, f, e.now, AllMallocs).st.store);
  }

  /* ---------- Whole runs ---------- */

  function Zeros(n: nat): (s: seq<byte>)
    ensures |s| == n
  {
    if n == 0 then [] else Zeros(n - 1) + [0]
  }

  // An empty store and the zero-initialised static buffer
  function InitialState(): RxState {
    RxState(map[], 0, Zeros(BUFFER_SIZE))
  }

  predicate WellBehaved(msgs: seq<Msg>, events: seq<Event>, timeoutS: nat)
    requires AllSendable(msgs) && InRange(msgs, events)
  {
    forall j :: 0 <= j < |events| ==> Admissible(msgs, At(msgs, events, timeoutS, j), events[j])
  }

  lemma EmptyInv(msgs: seq<Msg>)
    requires AllSendable(msgs)
    ensures Inv(msgs, Start(msgs), map[])
  {
  }

  // The handler called for the first n events, from an empty store.  Every reachable store is the one
  // the tracker describes.
  ghost function Run(msgs: seq<Msg>, events: seq<Event>, timeoutS: nat, n: nat): (h: Handled)
    requires AllSendable(msgs) && InRange(msgs, events) && WellBehaved(msgs, events, timeoutS) && n <= |events|
    ensures |h.st.buffer| == BUFFER_SIZE && h.st.lastGc == At(msgs, events, timeoutS, n).lastGc
    ensures Inv(msgs, At(msgs, events, timeoutS, n), h.st.store)
  {
    if n == 0 then
      EmptyInv(msgs);
      Handled(InitialState(), [])
    else
      var e, before := events[n - 1], Run(msgs, events, timeoutS, n - 1);
      HandleStep(msgs, At(msgs, events, timeoutS, n - 1), e, timeoutS, before.st);
      var h := Handle(before.st, FragmentOf(msgs[e.m], e.i), timeoutS, e.now, AllMallocs);
      Handled(h.st, before.delivered + h.delivered)
  }

  function DeliveriesOf(msgs: seq<Msg>, done: seq<nat>): seq<Delivery>
    requires forall k :: 0 <= k < |done| ==> done[k] < |msgs|
  {
    if done == [] then []
    else
      var m := done[|done| - 1];
      DeliveriesOf(msgs, done[..|done| - 1]) + [Delivery(msgs[m].key.srcAdd, msgs[m].payload)]
  }

  lemma DeliveriesAppend(msgs: seq<Msg>, done: seq<nat>, m: nat)
    requires m < |msgs| && forall k :: 0 <= k < |done| ==> done[k] < |msgs|
    ensures DeliveriesOf(msgs, []) == [] && done + [] == done
    ensures DeliveriesOf(msgs, done + [m])
      == DeliveriesOf(msgs, done) + [Delivery(msgs[m].key.srcAdd, msgs[m].payload)]
  {
    assert (done + [m])[..|done|] == done;
  }

  // The application receives the payloads of the packets completed, in order of completion, and
  // nothing else.
  lemma {:induction false} DeliversCompletions(msgs: seq<Msg>, events: seq<Event>, timeoutS: nat, n: nat)
    requires AllSendable(msgs) && InRange(msgs, events) && WellBehaved(msgs, events, timeoutS) && n <= |events|
    ensures Run(msgs, events, timeoutS, n).delivered == DeliveriesOf(msgs, Completions(msgs, events, timeoutS, n))
  {
    hide Inv, Handle, Completes, DeliveriesOf, Fits, NoLaterThan, At, KeyFree, ClockPast;
    if n == 0 {
      NothingDelivered(msgs, events, timeoutS);
    } else {
      var e, before := events[n - 1], Run(msgs, events, timeoutS, n - 1);
      DeliversCompletions(msgs, events, timeoutS, n - 1);
      HandleStep(msgs, At(msgs, events, timeoutS, n - 1), e, timeoutS, before.st);
      DeliveriesAppend(msgs, Completions(msgs, events, timeoutS, n - 1), e.m);
    }
  }

  lemma NothingDelivered(msgs: seq<Msg>, events: seq<Event>, timeoutS: nat)
    requires AllSendable(msgs) && InRange(msgs, events) && WellBehaved(msgs, events, timeoutS)
    ensures Run(msgs, events, timeoutS, 0).delivered == [] && DeliveriesOf(msgs, []) == []
    ensures Completions(msgs, events, timeoutS, 0) == []
  {
  }

  // A packet nothing is held of, all of whose fragments arrive without it being given up in between, is
  // delivered byte for byte by the last of them, and not before: whatever became of other packets, and
  // of earlier attempts at this one.
  lemma DeliveredWhenAllSeen(msgs: seq<Msg>, events: seq<Event>, timeoutS: nat, from: nat, last: nat, m: nat)
    requires AllSendable(msgs) && InRange(msgs, events) && WellBehaved(msgs, events, timeoutS)
    requires from <= last < |events| && m < |msgs|
    requires At(msgs, events, timeoutS, from).got[m] == {} && Kept(msgs, events, timeoutS, from, last, m)
    requires !Complete(msgs[m], Seen(events, from, last, m)) && Complete(msgs[m], Seen(events, from, last + 1, m))
    ensures Run(msgs, events, timeoutS, last + 1).delivered
      == Run(msgs, events, timeoutS, last).delivered + [Delivery(msgs[m].key.srcAdd, msgs[m].payload)]
    ensures Times(Completions(msgs, events, timeoutS, last), m) == Times(Completions(msgs, events, timeoutS, from), m)
    ensures msgs[m].key !in Run(msgs, events, timeoutS, last + 1).st.store
  {
    hide At, Complete, Seen, Kept, Inv, WellBehaved, Run, Completions, DeliveriesOf, CompletesAt;
    CompletedWhenAllSeen(msgs, events, timeoutS, from, last, m);
    DeliversCompletions(msgs, events, timeoutS, last);
    DeliversCompletions(msgs, events, timeoutS, last + 1);
    CompletionsStep(msgs, events, timeoutS, last);
    DeliveriesAppend(msgs, Completions(msgs, events, timeoutS, last), m);
    NoneBetween(msgs, events, timeoutS, from, last, m);
    CompletedKeyIsFree(msgs, events, timeoutS, last);
  }

  lemma {:induction false} NoneBetween(msgs: seq<Msg>, events: seq<Event>, timeoutS: nat, from: nat, until: nat, m: nat)
    requires AllSendable(msgs) && InRange(msgs, events) && from <= until <= |events|
    requires forall j :: from <= j < until && events[j].m == m ==> !CompletesAt(msgs, events, timeoutS, j)
    ensures Times(Completions(msgs, events, timeoutS, until), m) == Times(Completions(msgs, events, timeoutS, from), m)
    decreases until
  {
    hide Completions, CompletesAt, Times;
    if from < until {
      NoneBetween(msgs, events, timeoutS, from, until - 1, m);
      CompletionsStep(msgs, events, timeoutS, until - 1);
      TimesAppend(Completions(msgs, events, timeoutS, until - 1), events[until - 1].m, m);
    }
  }

  // Once delivered, a packet leaves nothing in the store.
  lemma CompletedKeyIsFree(msgs: seq<Msg>, events: seq<Event>, timeoutS: nat, j: nat)
    requires AllSendable(msgs) && InRange(msgs, events) && WellBehaved(msgs, events, timeoutS)
    requires j < |events| && CompletesAt(msgs, events, timeoutS, j)
    ensures msgs[events[j].m].key !in Run(msgs, events, timeoutS, j + 1).st.store
  {
    hide Inv, At, Completes, Run, Accepting;
    var t, e := At(msgs, events, timeoutS, j), events[j];
    AtStep(msgs, events, timeoutS, j);
    AcceptedShape(msgs, t, e);
    AcceptKeepsInv(msgs, t, e, Run(msgs, events, timeoutS, j).st);
    OthersApart(msgs, t, e);
    KeyIsFree(msgs, t, e, timeoutS, e.m);
    StoreFollows(msgs, At(msgs, events, timeoutS, j + 1), Run(msgs, events, timeoutS, j + 1).st.store, msgs[e.m].key);
  }

  // When a packet has been given up its key is out of the store, nothing counts as held of it, and the key is
  // free for any other packet.
  lemma CollectedKeyIsFree(msgs: seq<Msg>, events: seq<Event>, timeoutS: nat, j: nat, m: nat)
    requires AllSendable(msgs) && InRange(msgs, events) && WellBehaved(msgs, events, timeoutS)
    requires j < |events| && m < |msgs| && CollectedAt(msgs, events, timeoutS, j, m)
    ensures msgs[m].key !in Run(msgs, events, timeoutS, j + 1).st.store
    ensures At(msgs, events, timeoutS, j + 1).got[m] == {}
    ensures forall e: Event :: e.m < |msgs| && msgs[e.m].key == msgs[m].key ==>
      KeyFree(msgs, At(msgs, events, timeoutS, j + 1), e)
  {
    hide Inv, At, Completes, Run, Accepting, Accepted;
    var t, e := At(msgs, events, timeoutS, j), events[j];
    AtStep(msgs, events, timeoutS, j);
    GoneWhenCollected(msgs, events, timeoutS, j, m);
    AcceptKeepsInv(msgs, t, e, Run(msgs, events, timeoutS, j).st);
    InvKeysApart(msgs, Accepted(msgs, t, e), Accepting(Run(msgs, events, timeoutS, j).st, FragmentOf(msgs[e.m], e.i),
                                                       e.now, AllMallocs).st.store, m);
    KeyIsFree(msgs, t, e, timeoutS, m);
    StoreFollows(msgs, At(msgs, events, timeoutS, j + 1), Run(msgs, events, timeoutS, j + 1).st.store, msgs[m].key);
  }

  // No other active packet has the key of packet m.
  predicate Alone(msgs: seq<Msg>, t: Tracker, m: nat)
    requires Shaped(msgs, t) && m < |msgs|
  {
    forall n :: 0 <= n < |msgs| && n != m && Active(t, n) ==> msgs[n].key != msgs[m].key
  }

  lemma InvKeysApart(msgs: seq<Msg>, t: Tracker, store: Store, m: nat)
    requires AllSendable(msgs) && Shaped(msgs, t) && Inv(msgs, t, store) && m < |msgs| && Active(t, m)
    ensures Alone(msgs, t, m)
  {
    hide Entry, Owned;
  }

  lemma OthersApart(msgs: seq<Msg>, t: Tracker, e: Event)
    requires AllSendable(msgs) && Shaped(msgs, t) && Admissible(msgs, t, e)
    ensures Alone(msgs, Accepted(msgs, t, e), e.m)
  {
    hide Completes, Accepted, ClockPast;
    forall n | 0 <= n < |msgs| && n != e.m && Active(Accepted(msgs, t, e), n)
      ensures msgs[n].key != msgs[e.m].key
    {
      assert Active(t, n);
    }
  }

  lemma KeyIsFree(msgs: seq<Msg>, t: Tracker, e: Event, timeoutS: nat, m: nat)
    requires AllSendable(msgs) && Shaped(msgs, t) && e.m < |msgs| && m < |msgs|
    requires Alone(msgs, Accepted(msgs, t, e), m) && After(msgs, t, e, timeoutS).got[m] == {}
    ensures forall n :: 0 <= n < |msgs| && Active(After(msgs, t, e, timeoutS), n) ==> msgs[n].key != msgs[m].key
  {
    hide Accepted;
    var a, s := Accepted(msgs, t, e), After(msgs, t, e, timeoutS);
    forall n | 0 <= n < |msgs| && Active(s, n)
      ensures msgs[n].key != msgs[m].key
    {
      assert n != m && Active(a, n);
    }
  }

  lemma StoreFollows(msgs: seq<Msg>, t: Tracker, store: Store, key: Key)
    requires AllSendable(msgs) && Shaped(msgs, t) && Inv(msgs, t, store)
    requires forall n :: 0 <= n < |msgs| && Active(t, n) ==> msgs[n].key != key
    ensures key !in store
  {
    hide Entry;
    assert key in store ==> Owned(msgs, t, key);
  }

  /* ---------- Packet ids of the sender ---------- */

  // The index-th fragmented send of one source
  datatype Send = Send(srcAdd: nat, index: nat, payload: seq<byte>, mtu: nat)

  function MsgOf(s: Send): Msg {
    Msg(Key(s.srcAdd, PacketId(s.index)), s.payload, s.mtu)
  }

  function MsgsOf(sends: seq<Send>): (msgs: seq<Msg>)
    ensures |msgs| == |sends| && forall m :: 0 <= m < |sends| ==> msgs[m] == MsgOf(sends[m])
  {
    if sends == [] then [] else MsgsOf(sends[..|sends| - 1]) + [MsgOf(sends[|sends| - 1])]
  }

  // A packet of which the receiver still holds something is fewer than 4096 sends of its source away
  // from the one that arrives.
  predicate Spaced(sends: seq<Send>, t: Tracker, e: Event)
    requires |t.got| == |sends| && e.m < |sends|
  {
    forall m :: 0 <= m < |sends| && m != e.m && Active(t, m) && sends[m].srcAdd == sends[e.m].srcAdd ==>
      sends[m].index != sends[e.m].index && -4096 < sends[m].index - sends[e.m].index < 4096
  }

  predicate WellSpaced(sends: seq<Send>, events: seq<Event>, timeoutS: nat)
    requires AllSendable(MsgsOf(sends)) && InRange(MsgsOf(sends), events)
  {
    forall j :: 0 <= j < |events| ==>
      var t := At(MsgsOf(sends), events, timeoutS, j);
      events[j].i < Size(MsgsOf(sends)[events[j].m]) && Spaced(sends, t, events[j]) && ClockPast(t, events[j].now)
  }

  lemma SpacedKeysDiffer(a: Send, b: Send)
    requires a.srcAdd == b.srcAdd ==> a.index != b.index && -4096 < a.index - b.index < 4096
    ensures MsgOf(a).key != MsgOf(b).key
  {
    hide PacketId;
    if a.srcAdd == b.srcAdd {
      if a.index < b.index { SharedIdIff(a.index, b.index); } else { SharedIdIff(b.index, a.index); }
    }
  }

  lemma WellSpacedIsWellBehaved(sends: seq<Send>, events: seq<Event>, timeoutS: nat)
    requires AllSendable(MsgsOf(sends)) && InRange(MsgsOf(sends), events) && WellSpaced(sends, events, timeoutS)
    ensures WellBehaved(MsgsOf(sends), events, timeoutS)
  {
    hide At, MsgOf, ClockPast, Size;
    var msgs := MsgsOf(sends);
    forall j | 0 <= j < |events|
      ensures Admissible(msgs, At(msgs, events, timeoutS, j), events[j])
    {
      var t, e := At(msgs, events, timeoutS, j), events[j];
      forall m | 0 <= m < |sends| && m != e.m && Active(t, m)
        ensures msgs[m].key != msgs[e.m].key
      {
        SpacedKeysDiffer(sends[m], sends[e.m]);
      }
    }
  }

  // Over any run of any senders, through every wrap of their counters and whatever is lost: if the
  // packets the receiver still holds something of stay fewer than 4096 sends apart, what the
  // application gets is the payloads completed, and a packet that is never given up is among them once
  // if all its fragments arrive, and not otherwise.
  lemma SendsDeliveredOnce(sends: seq<Send>, events: seq<Event>, timeoutS: nat, m: nat)
    requires AllSendable(MsgsOf(sends)) && InRange(MsgsOf(sends), events) && WellSpaced(sends, events, timeoutS)
    requires m < |sends| && NoneLate(MsgsOf(sends), events, m)
    requires Kept(MsgsOf(sends), events, timeoutS, 0, |events|, m)
    ensures WellBehaved(MsgsOf(sends), events, timeoutS)
    ensures Run(MsgsOf(sends), events, timeoutS, |events|).delivered
      == DeliveriesOf(MsgsOf(sends), Completions(MsgsOf(sends), events, timeoutS, |events|))
    ensures Times(Completions(MsgsOf(sends), events, timeoutS, |events|), m)
      == if Complete(MsgsOf(sends)[m], Seen(events, 0, |events|, m)) then 1 else 0
  {
    hide WellSpaced, Kept, NoneLate, Inv, Seen;
    WellSpacedIsWellBehaved(sends, events, timeoutS);
    DeliversCompletions(MsgsOf(sends), events, timeoutS, |events|);
    CompletedOnceIffSeen(MsgsOf(sends), events, timeoutS, |events|, m);
  }
}
