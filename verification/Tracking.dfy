/**
 What a receiver may know of each packet, told from the arrivals alone: the fragments seen since the
 packet was last delivered or given up.  EndToEnd.dfy proves that the store holds exactly this.
 */
module Tracking {
  import opened DsapRx
  import opened Gathering

  // Fragment i of packet m arrives at time now (milliseconds of the monotonic clock).
  datatype Event = Event(m: nat, i: nat, now: nat)

  // got[m]: the fragments of packet m; stamps[m]: when the last new one of them came.
  datatype Tracker = Tracker(got: seq<set<nat>>, stamps: seq<nat>, lastGc: nat)

  predicate AllSendable(msgs: seq<Msg>) {
    forall m :: 0 <= m < |msgs| ==> Sendable(msgs[m])
  }

  predicate InRange(msgs: seq<Msg>, events: seq<Event>) {
    forall j :: 0 <= j < |events| ==> events[j].m < |msgs|
  }

  predicate Shaped(msgs: seq<Msg>, t: Tracker) { |t.got| == |t.stamps| == |msgs| }

  /* ---------- One arrival ---------- */

  function Start(msgs: seq<Msg>): (t: Tracker)
    ensures Shaped(msgs, t) && t.lastGc == 0 && forall m :: 0 <= m < |msgs| ==> t.got[m] == {}
  {
    Tracker(seq(|msgs|, (m: nat) => {}), seq(|msgs|, (m: nat) => 0), 0)
  }

  function Taken(t: Tracker, e: Event): Tracker
    requires e.m < |t.got| == |t.stamps|
  {
    t.(got := t.got[e.m := t.got[e.m] + {e.i}],
       stamps := if e.i in t.got[e.m] then t.stamps else t.stamps[e.m := e.now])
  }

  // The fragment is the last one missing.
  predicate Completes(msgs: seq<Msg>, t: Tracker, e: Event)
    requires AllSendable(msgs) && Shaped(msgs, t) && e.m < |msgs|
  {
    Complete(msgs[e.m], t.got[e.m] + {e.i})
  }

  function Accepted(msgs: seq<Msg>, t: Tracker, e: Event): (t': Tracker)
    requires AllSendable(msgs) && Shaped(msgs, t) && e.m < |msgs|
    ensures Shaped(msgs, t') && t'.lastGc == t.lastGc
    ensures forall m :: 0 <= m < |msgs| && m != e.m ==> t'.got[m] == t.got[m] && t'.stamps[m] == t.stamps[m]
  {
    var took := Taken(t, e);
    if Completes(msgs, t, e) then took.(got := took.got[e.m := {}]) else took
  }

  predicate Due(t: Tracker, now: nat, timeoutS: nat) {
    timeoutS > 0 && now - t.lastGc > MIN_GARBAGE_COLLECT_PERIOD_S * 1000
  }

  predicate Stale(t: Tracker, m: nat, now: nat, timeoutS: nat)
    requires m < |t.got| == |t.stamps|
  {
    t.got[m] != {} && now - t.stamps[m] >= (timeoutS + 1) * 1000
  }

  // Garbage collection gives up the stale packets.
  function Swept(t: Tracker, now: nat, timeoutS: nat): (t': Tracker)
    requires |t.got| == |t.stamps|
    ensures |t'.got| == |t.got| && t'.stamps == t.stamps && t'.lastGc == now
    ensures forall m :: 0 <= m < |t.got| ==> t'.got[m] == if Stale(t, m, now, timeoutS) then {} else t.got[m]
  {
    t.(got := seq(|t.got|, m requires 0 <= m < |t.got| => if Stale(t, m, now, timeoutS) then {} else t.got[m]),
       lastGc := now)
  }

  function After(msgs: seq<Msg>, t: Tracker, e: Event, timeoutS: nat): (t': Tracker)
    requires AllSendable(msgs) && Shaped(msgs, t) && e.m < |msgs|
    ensures Shaped(msgs, t')
  {
    var a := Accepted(msgs, t, e);
    if Due(a, e.now, timeoutS) then Swept(a, e.now, timeoutS) else a
  }

  /* ---------- A run ---------- */

  // The tracker after the first n arrivals
  function At(msgs: seq<Msg>, events: seq<Event>, timeoutS: nat, n: nat): (t: Tracker)
    requires AllSendable(msgs) && InRange(msgs, events) && n <= |events|
    ensures Shaped(msgs, t)
  {
    if n == 0 then Start(msgs) else After(msgs, At(msgs, events, timeoutS, n - 1), events[n - 1], timeoutS)
  }

  predicate CompletesAt(msgs: seq<Msg>, events: seq<Event>, timeoutS: nat, j: nat)
    requires AllSendable(msgs) && InRange(msgs, events) && j < |events|
  {
    Completes(msgs, At(msgs, events, timeoutS, j), events[j])
  }

  // Packet m is given up when arrival j has been handled.
  predicate CollectedAt(msgs: seq<Msg>, events: seq<Event>, timeoutS: nat, j: nat, m: nat)
    requires AllSendable(msgs) && InRange(msgs, events) && j < |events| && m < |msgs|
  {
    var a := Accepted(msgs, At(msgs, events, timeoutS, j), events[j]);
    Due(a, events[j].now, timeoutS) && Stale(a, m, events[j].now, timeoutS)
  }

  predicate Kept(msgs: seq<Msg>, events: seq<Event>, timeoutS: nat, from: nat, until: nat, m: nat)
    requires AllSendable(msgs) && InRange(msgs, events) && until <= |events| && m < |msgs|
  {
    forall j :: from <= j < until ==> !CollectedAt(msgs, events, timeoutS, j, m)
  }

  // The packets delivered in the first n arrivals, in order
  function Completions(msgs: seq<Msg>, events: seq<Event>, timeoutS: nat, n: nat): (done: seq<nat>)
    requires AllSendable(msgs) && InRange(msgs, events) && n <= |events|
    ensures forall k :: 0 <= k < |done| ==> done[k] < |msgs|
  {
    if n == 0 then []
    else Completions(msgs, events, timeoutS, n - 1)
         + if CompletesAt(msgs, events, timeoutS, n - 1) then [events[n - 1].m] else []
  }

  // The fragments of packet m among the arrivals from <= j < until
  function Seen(events: seq<Event>, from: nat, until: nat, m: nat): set<nat>
    requires until <= |events|
  {
    set j | from <= j < until && events[j].m == m :: events[j].i
  }

  lemma SeenStep(events: seq<Event>, from: nat, until: nat, m: nat)
    requires from <= until < |events|
    ensures Seen(events, from, from, m) == {}
    ensures Seen(events, from, until + 1, m)
      == if events[until].m == m then Seen(events, from, until, m) + {events[until].i} else Seen(events, from, until, m)
  {
    forall i
      ensures i in Seen(events, from, until + 1, m)
        <==> i in Seen(events, from, until, m) || (events[until].m == m && i == events[until].i)
    {
    }
  }

  lemma SeenGrows(events: seq<Event>, from: nat, mid: nat, until: nat, msg: Msg, m: nat)
    requires Sendable(msg) && mid <= until <= |events|
    ensures Seen(events, from, mid, m) <= Seen(events, from, until, m)
    ensures Complete(msg, Seen(events, from, mid, m)) ==> Complete(msg, Seen(events, from, until, m))
  {
  }

  // While packet m is neither complete nor given up, the tracker has what was seen of it.
  lemma {:induction false} GotIsSeen(msgs: seq<Msg>, events: seq<Event>, timeoutS: nat, from: nat, until: nat, m: nat)
    requires AllSendable(msgs) && InRange(msgs, events) && from <= until <= |events| && m < |msgs|
    requires At(msgs, events, timeoutS, from).got[m] == {}
    requires !Complete(msgs[m], Seen(events, from, until, m)) && Kept(msgs, events, timeoutS, from, until, m)
    ensures At(msgs, events, timeoutS, until).got[m] == Seen(events, from, until, m)
    decreases until
  {
    hide Complete, Accepted, Seen, CollectedAt, Due, Stale;
    if from == until {
      SeenEmpty(events, from, m);
    } else {
      var j := until - 1;
      SeenGrows(events, from, j, until, msgs[m], m);
      GotIsSeen(msgs, events, timeoutS, from, j, m);
      SeenStep(events, from, j, m);
      GotStep(msgs, events, timeoutS, j, m);
    }
  }

  lemma SeenEmpty(events: seq<Event>, from: nat, m: nat)
    requires from <= |events|
    ensures Seen(events, from, from, m) == {}
  {
  }

  lemma GotStep(msgs: seq<Msg>, events: seq<Event>, timeoutS: nat, j: nat, m: nat)
    requires AllSendable(msgs) && InRange(msgs, events) && j < |events| && m < |msgs|
    requires !CollectedAt(msgs, events, timeoutS, j, m)
    ensures var got := At(msgs, events, timeoutS, j).got[m]; var e := events[j];
      At(msgs, events, timeoutS, j + 1).got[m]
      == if e.m != m then got else if Complete(msgs[m], got + {e.i}) then {} else got + {e.i}
  {
    hide Complete, At;
    AtStep(msgs, events, timeoutS, j);
  }

  lemma AtStep(msgs: seq<Msg>, events: seq<Event>, timeoutS: nat, j: nat)
    requires AllSendable(msgs) && InRange(msgs, events) && j < |events|
    ensures At(msgs, events, timeoutS, j + 1) == After(msgs, At(msgs, events, timeoutS, j), events[j], timeoutS)
  {
    hide After;
  }

  // A packet nothing is held of, all of whose fragments arrive without it being given up in between, is
  // completed by the arrival that brings the last of them, and by none before: whatever other packets
  // there are, and whatever became of earlier attempts at this one.
  lemma CompletedWhenAllSeen(msgs: seq<Msg>, events: seq<Event>, timeoutS: nat, from: nat, last: nat, m: nat)
    requires AllSendable(msgs) && InRange(msgs, events) && from <= last < |events| && m < |msgs|
    requires At(msgs, events, timeoutS, from).got[m] == {}
    requires !Complete(msgs[m], Seen(events, from, last, m)) && Complete(msgs[m], Seen(events, from, last + 1, m))
    requires Kept(msgs, events, timeoutS, from, last, m)
    ensures events[last].m == m && CompletesAt(msgs, events, timeoutS, last)
    ensures At(msgs, events, timeoutS, last + 1).got[m] == {}
    ensures forall j :: from <= j < last && events[j].m == m ==> !CompletesAt(msgs, events, timeoutS, j)
  {
    hide Complete, At, Seen, CollectedAt, Accepted;
    GotIsSeen(msgs, events, timeoutS, from, last, m);
    SeenStep(events, from, last, m);
    GoneWhenComplete(msgs, events, timeoutS, last);
    forall j | from <= j < last && events[j].m == m
      ensures !CompletesAt(msgs, events, timeoutS, j)
    {
      SeenGrows(events, from, j, last, msgs[m], m);
      SeenGrows(events, from, j + 1, last, msgs[m], m);
      GotIsSeen(msgs, events, timeoutS, from, j, m);
      SeenStep(events, from, j, m);
    }
  }

  lemma GoneWhenComplete(msgs: seq<Msg>, events: seq<Event>, timeoutS: nat, j: nat)
    requires AllSendable(msgs) && InRange(msgs, events) && j < |events| && CompletesAt(msgs, events, timeoutS, j)
    ensures At(msgs, events, timeoutS, j + 1).got[events[j].m] == {}
  {
    hide Complete, At;
    AtStep(msgs, events, timeoutS, j);
  }

  // A packet given up starts anew.
  lemma GoneWhenCollected(msgs: seq<Msg>, events: seq<Event>, timeoutS: nat, j: nat, m: nat)
    requires AllSendable(msgs) && InRange(msgs, events) && j < |events| && m < |msgs|
    requires CollectedAt(msgs, events, timeoutS, j, m)
    ensures At(msgs, events, timeoutS, j + 1).got[m] == {}
  {
    hide Complete, At, Accepted;
    AtStep(msgs, events, timeoutS, j);
  }

  lemma CompletionsStep(msgs: seq<Msg>, events: seq<Event>, timeoutS: nat, j: nat)
    requires AllSendable(msgs) && InRange(msgs, events) && j < |events|
    ensures var done := Completions(msgs, events, timeoutS, j);
      Completions(msgs, events, timeoutS, j + 1)
      == if CompletesAt(msgs, events, timeoutS, j) then done + [events[j].m] else done
  {
  }

  // How often m occurs
  function Times(done: seq<nat>, m: nat): nat {
    if done == [] then 0 else Times(done[..|done| - 1], m) + if done[|done| - 1] == m then 1 else 0
  }

  lemma TimesAppend(done: seq<nat>, k: nat, m: nat)
    ensures Times(done + [], m) == Times(done, m)
    ensures Times(done + [k], m) == Times(done, m) + if k == m then 1 else 0
  {
    assert done + [] == done && (done + [k])[..|done|] == done;
  }

  // No fragment of packet m comes once all have come.
  predicate NoneLate(msgs: seq<Msg>, events: seq<Event>, m: nat)
    requires AllSendable(msgs) && m < |msgs|
  {
    forall j :: 0 <= j < |events| && events[j].m == m ==> !Complete(msgs[m], Seen(events, 0, j, m))
  }

  // Over a whole run a packet that is never given up is completed exactly if all its fragments arrive,
  // and then once.
  lemma {:induction false} CompletedOnceIffSeen(msgs: seq<Msg>, events: seq<Event>, timeoutS: nat, n: nat, m: nat)
    requires AllSendable(msgs) && InRange(msgs, events) && n <= |events| && m < |msgs|
    requires Kept(msgs, events, timeoutS, 0, |events|, m) && NoneLate(msgs, events, m)
    ensures Times(Completions(msgs, events, timeoutS, n), m)
      == if Complete(msgs[m], Seen(events, 0, n, m)) then 1 else 0
  {
    hide Complete, Seen, CollectedAt, At;
    if n == 0 {
      SeenEmpty(events, 0, m);
      NothingIncomplete(msgs[m]);
    } else {
      var j := n - 1;
      CompletedOnceIffSeen(msgs, events, timeoutS, j, m);
      SeenStep(events, 0, j, m);
      if events[j].m == m {
        assert !Complete(msgs[m], Seen(events, 0, j, m));
        NothingAtStart(msgs, events, timeoutS);
        GotIsSeen(msgs, events, timeoutS, 0, j, m);
      }
      TimesAppend(Completions(msgs, events, timeoutS, j), events[j].m, m);
    }
  }

  lemma NothingIncomplete(msg: Msg)
    requires Sendable(msg)
    ensures !Complete(msg, {})
  {
    LastTileEnds(msg);
    var none: set<nat> := {};
    assert 0 !in none;
  }

  lemma NothingAtStart(msgs: seq<Msg>, events: seq<Event>, timeoutS: nat)
    requires AllSendable(msgs) && InRange(msgs, events)
    ensures forall m :: 0 <= m < |msgs| ==> At(msgs, events, timeoutS, 0).got[m] == {}
  {
  }

  /* ---------- When a packet is given up ---------- */

  predicate Ordered(events: seq<Event>) {
    forall a, b :: 0 <= a < b < |events| ==> events[a].now <= events[b].now
  }

  // Arrival a brought a fragment of packet m not seen since from.
  predicate New(events: seq<Event>, from: nat, a: nat, m: nat)
    requires a < |events|
  {
    events[a].m == m && events[a].i !in Seen(events, from, a, m)
  }

  // The stamp is the time of the last new fragment.
  ghost predicate StampIsLast(events: seq<Event>, from: nat, until: nat, m: nat, stamp: nat)
    requires until <= |events|
  {
    && (exists a :: from <= a < until && New(events, from, a, m) && events[a].now == stamp)
    && forall a :: from <= a < until && New(events, from, a, m) ==> events[a].now <= stamp
  }

  lemma {:induction false} StampTold(msgs: seq<Msg>, events: seq<Event>, timeoutS: nat, from: nat, until: nat, m: nat)
    requires AllSendable(msgs) && InRange(msgs, events) && from <= until <= |events| && m < |msgs| && Ordered(events)
    requires At(msgs, events, timeoutS, from).got[m] == {} && Seen(events, from, until, m) != {}
    requires !Complete(msgs[m], Seen(events, from, until, m)) && Kept(msgs, events, timeoutS, from, until, m)
    ensures StampIsLast(events, from, until, m, At(msgs, events, timeoutS, until).stamps[m])
    decreases until
  {
    hide Complete, Seen, CollectedAt, New, At;
    if from == until {
      SeenEmpty(events, from, m);
    } else {
      var j := until - 1;
      SeenGrows(events, from, j, until, msgs[m], m);
      SeenStep(events, from, j, m);
      GotIsSeen(msgs, events, timeoutS, from, j, m);
      StampStep(msgs, events, timeoutS, j, m);
      NewMeans(events, from, j, m);
      if Seen(events, from, j, m) != {} { StampTold(msgs, events, timeoutS, from, j, m); }
      NoneNewBefore(events, from, j, m);
    }
  }

  lemma NewMeans(events: seq<Event>, from: nat, a: nat, m: nat)
    requires a < |events|
    ensures New(events, from, a, m) <==> events[a].m == m && events[a].i !in Seen(events, from, a, m)
  {
  }

  lemma NoneNewBefore(events: seq<Event>, from: nat, until: nat, m: nat)
    requires until <= |events|
    ensures Seen(events, from, until, m) == {} ==> forall a :: from <= a < until ==> !New(events, from, a, m)
  {
    forall a | from <= a < until
      ensures New(events, from, a, m) ==> events[a].i in Seen(events, from, until, m)
    {
    }
  }

  lemma StampStep(msgs: seq<Msg>, events: seq<Event>, timeoutS: nat, j: nat, m: nat)
    requires AllSendable(msgs) && InRange(msgs, events) && j < |events| && m < |msgs|
    ensures var t, e := At(msgs, events, timeoutS, j), events[j];
      At(msgs, events, timeoutS, j + 1).stamps[m] == if e.m == m && e.i !in t.got[m] then e.now else t.stamps[m]
  {
    hide Complete, At;
    AtStep(msgs, events, timeoutS, j);
  }

  // With collection enabled no arrival is handled without one in the last five seconds, and two are more than
  // five seconds apart; disabled it never runs.
  lemma CollectionTimes(msgs: seq<Msg>, events: seq<Event>, timeoutS: nat, j: nat)
    requires AllSendable(msgs) && InRange(msgs, events) && j < |events|
    ensures var last, next := At(msgs, events, timeoutS, j).lastGc, At(msgs, events, timeoutS, j + 1).lastGc;
      var now := events[j].now;
      && (timeoutS == 0 ==> next == last)
      && (timeoutS > 0 ==> now - next <= 5000 && (next != last ==> next == now && now - last > 5000))
  {
    hide At, Complete, Stale;
    AtStep(msgs, events, timeoutS, j);
  }

  // A packet is given up exactly when collection is due and its last new fragment came timeout + 1
  // seconds ago or earlier.
  lemma CollectedIffIdle(msgs: seq<Msg>, events: seq<Event>, timeoutS: nat, from: nat, j: nat, m: nat)
    requires AllSendable(msgs) && InRange(msgs, events) && from <= j < |events| && m < |msgs| && Ordered(events)
    requires At(msgs, events, timeoutS, from).got[m] == {} && Seen(events, from, j + 1, m) != {}
    requires !Complete(msgs[m], Seen(events, from, j + 1, m)) && Kept(msgs, events, timeoutS, from, j, m)
    ensures CollectedAt(msgs, events, timeoutS, j, m) <==>
      && timeoutS > 0 && events[j].now - At(msgs, events, timeoutS, j).lastGc > 5000
      && forall a :: from <= a <= j && New(events, from, a, m) ==>
           events[j].now - events[a].now >= (timeoutS + 1) * 1000
  {
    hide Complete, Seen, CollectedAt, New, At, Accepted;
    StampBeforeSweep(msgs, events, timeoutS, from, j, m);
    var a := Accepted(msgs, At(msgs, events, timeoutS, j), events[j]);
    CollectedMeans(msgs, events, timeoutS, j, m);
    var last :| from <= last < j + 1 && New(events, from, last, m) && events[last].now == a.stamps[m];
  }

  lemma CollectedMeans(msgs: seq<Msg>, events: seq<Event>, timeoutS: nat, j: nat, m: nat)
    requires AllSendable(msgs) && InRange(msgs, events) && j < |events| && m < |msgs|
    ensures var a := Accepted(msgs, At(msgs, events, timeoutS, j), events[j]);
      && (CollectedAt(msgs, events, timeoutS, j, m)
          <==> Due(a, events[j].now, timeoutS) && Stale(a, m, events[j].now, timeoutS))
      && Due(a, events[j].now, timeoutS) == Due(At(msgs, events, timeoutS, j), events[j].now, timeoutS)
  {
    hide At, Complete;
  }

  // The stamp collection looks at already counts arrival j.
  lemma StampBeforeSweep(msgs: seq<Msg>, events: seq<Event>, timeoutS: nat, from: nat, j: nat, m: nat)
    requires AllSendable(msgs) && InRange(msgs, events) && from <= j < |events| && m < |msgs| && Ordered(events)
    requires At(msgs, events, timeoutS, from).got[m] == {} && Seen(events, from, j + 1, m) != {}
    requires !Complete(msgs[m], Seen(events, from, j + 1, m)) && Kept(msgs, events, timeoutS, from, j, m)
    ensures var a := Accepted(msgs, At(msgs, events, timeoutS, j), events[j]);
      a.got[m] == Seen(events, from, j + 1, m) && StampIsLast(events, from, j + 1, m, a.stamps[m])
  {
    hide Complete, Seen, CollectedAt, New, At;
    SeenGrows(events, from, j, j + 1, msgs[m], m);
    SeenStep(events, from, j, m);
    GotIsSeen(msgs, events, timeoutS, from, j, m);
    NewMeans(events, from, j, m);
    if Seen(events, from, j, m) != {} { StampTold(msgs, events, timeoutS, from, j, m); }
    NoneNewBefore(events, from, j, m);
  }
}
