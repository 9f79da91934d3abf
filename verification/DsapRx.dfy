/** The receiving side of dsap.c: fragment indications go to the reassembly store, complete packets up. */
module DsapRx {
  import opened Bytes
  import opened Fragments
  import Spec = ReassemblySpec
  import opened ReassemblySpec
  import opened Reassembly
  import opened DsapTx

  const BUFFER_SIZE := 1500
  const MIN_GARBAGE_COLLECT_PERIOD_S := 5

  // The fields of dsap_data_rx_frag_ind_pl_t that reassembly depends on.
  datatype RxFrag = RxFrag(srcAdd: nat, fullPacketId: nat, offsetFlag: nat, apdu: seq<byte>)

  function Parsed(payload: RxFrag): Fragment {
    Fragment(Key(payload.srcAdd, payload.fullPacketId), payload.offsetFlag % FRAG_OFFSET_RANGE,
             (payload.offsetFlag / LAST_FLAG) % 2 == 1, payload.apdu)
  }

  // What is read of the sixteen bits of offset and flag, whatever the three bits between them hold
  lemma ParsedFields(srcAdd: nat, packetId: nat, offset: nat, between: nat, last: bool, apdu: seq<byte>)
    requires offset < 0x1000 && between < 8
    ensures Parsed(RxFrag(srcAdd, packetId, offset + between * 0x1000 + (if last then 0x8000 else 0), apdu))
      == Fragment(Key(srcAdd, packetId), offset, last, apdu)
  {
  }

  // One call of the application's data callback
  datatype Delivery = Delivery(srcAdd: nat, bytes: seq<byte>)

  datatype RxState = RxState(store: Store, lastGc: nat, buffer: seq<byte>)

  datatype Handled = Handled(st: RxState, delivered: seq<Delivery>)

  // If this fragment makes the handler copy a packet out, the copy stays inside the reassembly buffer.
  predicate Fits(store: Store, f: Fragment, now: nat, m: Mallocs) {
    var a := Spec.AddFragment(store, f, now, m);
    a.ok && a.fullSize != 0 && Retrievable(a.store, f.key, BUFFER_SIZE)
    ==> Within(a.store[f.key].frags, BUFFER_SIZE)
  }

  function Collected(st: RxState, maxDurationS: nat, now: nat): RxState
    requires NoLaterThan(st.store, now)
  {
    if maxDurationS > 0 && now - st.lastGc > MIN_GARBAGE_COLLECT_PERIOD_S * 1000
    then st.(store := Spec.GarbageCollect(st.store, maxDurationS, now), lastGc := now)
    else st
  }

  // A clock that has passed no stamp yet keeps passing them after one more addition.
  lemma StampsStayPast(store: Store, f: Fragment, now: nat, m: Mallocs)
    requires NoLaterThan(store, now)
    ensures NoLaterThan(Spec.AddFragment(store, f, now, m).store, now)
  {
  }

  // The part of the handler before garbage collection, with a data callback registered
  function Accepting(st: RxState, f: Fragment, now: nat, m: Mallocs): (h: Handled)
    requires |st.buffer| == BUFFER_SIZE
    requires Fits(st.store, f, now, m)
    ensures |h.st.buffer| == BUFFER_SIZE
  {
    var a := Spec.AddFragment(st.store, f, now, m);
    if a.ok && a.fullSize != 0 then
      var g := Spec.GetFullMessage(a.store, f.key, st.buffer, BUFFER_SIZE);
      GotSize(a.store, f.key, st.buffer);
      Handled(st.(store := g.store, buffer := g.buffer), [Delivery(f.key.srcAdd, g.buffer[..g.size])])
    else
      Handled(st.(store := a.store), [])
  }

  lemma AcceptedStamps(st: RxState, f: Fragment, now: nat, m: Mallocs)
    requires |st.buffer| == BUFFER_SIZE && NoLaterThan(st.store, now)
    requires Fits(st.store, f, now, m)
    ensures NoLaterThan(Accepting(st, f, now, m).st.store, now)
  {
    StampsStayPast(st.store, f, now, m);
    var a := Spec.AddFragment(st.store, f, now, m);
    if a.ok && a.fullSize != 0 { GotSize(a.store, f.key, st.buffer); }
  }

  // dsap_data_rx_frag_indication_handler
  function Handle(st: RxState, f: Fragment, maxDurationS: nat, now: nat, m: Mallocs): Handled
    requires |st.buffer| == BUFFER_SIZE && NoLaterThan(st.store, now)
    requires Fits(st.store, f, now, m)
  {
    AcceptedStamps(st, f, now, m);
    var h := Accepting(st, f, now, m);
    Handled(Collected(h.st, maxDurationS, now), h.delivered)
  }

  lemma GotSize(store: Store, key: Key, buffer: seq<byte>)
    requires Retrievable(store, key, BUFFER_SIZE) ==> Within(store[key].frags, |buffer|)
    requires |buffer| == BUFFER_SIZE
    ensures var g := Spec.GetFullMessage(store, key, buffer, BUFFER_SIZE);
      |g.buffer| == BUFFER_SIZE && g.size <= BUFFER_SIZE
    ensures forall k :: k in Spec.GetFullMessage(store, key, buffer, BUFFER_SIZE).store ==>
      k in store && store[k] == Spec.GetFullMessage(store, key, buffer, BUFFER_SIZE).store[k]
  {
  }

  /* ---------- Packets no sender of this library makes ---------- */

  // What a fragment brings about.  When its packet passes the sum test: up to the size of the buffer the
  // packet leaves the store and is delivered, its fragments copied over the buffer; a larger one stays, and
  // the application gets the buffer as it was.  Nothing is delivered otherwise.
  lemma DeliveredIffItFits(st: RxState, f: Fragment, now: nat, m: Mallocs)
    requires |st.buffer| == BUFFER_SIZE && Fits(st.store, f, now, m)
    ensures var a := Spec.AddFragment(st.store, f, now, m); var h := Accepting(st, f, now, m);
      if a.ok && 0 < a.fullSize <= BUFFER_SIZE then
        var buffer := CopiedAll(st.buffer, a.store[f.key].frags);
        h == Handled(st.(store := a.store - {f.key}, buffer := buffer), [Delivery(f.key.srcAdd, buffer[..a.fullSize])])
      else
        && (a.ok ==> f.key in h.st.store)
        && h == Handled(st.(store := a.store), if a.ok && a.fullSize > BUFFER_SIZE
                                               then [Delivery(f.key.srcAdd, st.buffer)] else [])
  {
    hide CopiedAll, Within, Checked;
    assert st.buffer[..BUFFER_SIZE] == st.buffer;
  }

  // This fragment has octet b for place i of the packet.
  predicate Brings(f: Stored, i: nat, b: byte) {
    f.offset <= i < f.offset + |f.bytes| && f.bytes[i - f.offset] == b
  }

  lemma CompleteStored(store: Store, f: Fragment, now: nat, m: Mallocs)
    requires var a := Spec.AddFragment(store, f, now, m); a.ok && 0 < a.fullSize <= BUFFER_SIZE
    ensures f.key in Spec.AddFragment(store, f, now, m).store
    ensures Retrievable(Spec.AddFragment(store, f, now, m).store, f.key, BUFFER_SIZE)
  {
    hide Checked;
  }

  // Octet i of a packet delivered is one that a fragment brought for that place, or the buffer's own
  // where no fragment has any.
  lemma OctetDelivered(st: RxState, f: Fragment, now: nat, m: Mallocs, i: nat)
    requires |st.buffer| == BUFFER_SIZE && Fits(st.store, f, now, m)
    requires var a := Spec.AddFragment(st.store, f, now, m); a.ok && i < a.fullSize <= BUFFER_SIZE
    ensures f.key in Spec.AddFragment(st.store, f, now, m).store
    ensures var frags := Spec.AddFragment(st.store, f, now, m).store[f.key].frags;
      var out := Accepting(st, f, now, m).delivered;
      && |out| == 1 && i < |out[0].bytes|
      && (Held(frags, i) ==> exists g :: g in frags && Brings(g, i, out[0].bytes[i]))
      && (!Held(frags, i) ==> out[0].bytes[i] == st.buffer[i])
  {
    hide Spec.AddFragment, CopiedAll, Held, Accepting, Within;
    CompleteStored(st.store, f, now, m);
    DeliveredIffItFits(st, f, now, m);
    var frags := Spec.AddFragment(st.store, f, now, m).store[f.key].frags;
    if Held(frags, i) {
      var k := CopiedHeld(st.buffer, frags, i);
      assert frags[k] in frags;
    } else {
      CopiedUntouched(st.buffer, frags, i);
    }
  }

  // Fragments handed to the handler one by one lead from st to st' with these deliveries.
  predicate Leads(st: RxState, fs: seq<Fragment>, now: nat, st': RxState, delivered: seq<Delivery>)
    requires |st.buffer| == BUFFER_SIZE
    decreases |fs|
  {
    if fs == [] then st' == st && delivered == []
    else
      && Fits(st.store, fs[0], now, AllMallocs)
      && var h := Accepting(st, fs[0], now, AllMallocs);
      h.delivered <= delivered && Leads(h.st, fs[1..], now, st', delivered[|h.delivered|..])
  }

  function Empty(buffer: seq<byte>): RxState { RxState(map[], 0, buffer) }

  // The store that holds one packet, as it was last touched at time now
  function Only(key: Key, fullSize: nat, frags: seq<Stored>, now: nat): Store {
    map[key := Packet(fullSize, SumSizes(frags) == fullSize && fullSize != 0, frags, now)]
  }

  // One more fragment of that packet
  lemma OneMore(key: Key, fullSize: nat, frags: seq<Stored>, f: Fragment, now: nat)
    requires f.key == key && !HasOffset(frags, f.offset) && !(SumSizes(frags) == fullSize && fullSize != 0)
    ensures var size := if f.last then f.offset + |f.bytes| else fullSize;
      var frags' := [Stored(f.offset, f.bytes)] + frags;
      var store' := Only(key, size, frags', now);
      Spec.AddFragment(Only(key, fullSize, frags, now), f, now, AllMallocs)
      == Added(store', true, if store'[key].isFull then size else 0)
  {
  }

  lemma FirstOne(f: Fragment, now: nat)
    ensures var size := if f.last then f.offset + |f.bytes| else 0;
      var frags' := [Stored(f.offset, f.bytes)];
      var store' := Only(f.key, size, frags', now);
      Spec.AddFragment(map[], f, now, AllMallocs) == Added(store', true, if store'[f.key].isFull then size else 0)
  {
    assert [Stored(f.offset, f.bytes)] + [] == [Stored(f.offset, f.bytes)];
  }

  // One step of such a run
  lemma LeadsStep(st: RxState, fs: seq<Fragment>, now: nat, mid: RxState, out: seq<Delivery>, st': RxState,
                  rest: seq<Delivery>)
    requires |st.buffer| == |mid.buffer| == BUFFER_SIZE && fs != [] && Fits(st.store, fs[0], now, AllMallocs)
    requires Accepting(st, fs[0], now, AllMallocs) == Handled(mid, out) && Leads(mid, fs[1..], now, st', rest)
    ensures Leads(st, fs, now, st', out + rest)
  {
    hide Accepting, Fits;
    assert (out + rest)[|out|..] == rest;
  }

  // A fragment that does not complete its packet delivers nothing.
  lemma Waits(st: RxState, f: Fragment, now: nat, store: Store)
    requires |st.buffer| == BUFFER_SIZE && Spec.AddFragment(st.store, f, now, AllMallocs) == Added(store, true, 0)
    ensures Fits(st.store, f, now, AllMallocs)
    ensures Accepting(st, f, now, AllMallocs) == Handled(st.(store := store), [])
  {
    hide Spec.AddFragment;
  }

  // The fragment that completes a lone packet inside the buffer delivers it.
  lemma Completing(st: RxState, f: Fragment, now: nat, size: nat, frags: seq<Stored>)
    requires |st.buffer| == BUFFER_SIZE && 0 < size <= BUFFER_SIZE && SumSizes(frags) == size
    requires Spec.AddFragment(st.store, f, now, AllMallocs) == Added(Only(f.key, size, frags, now), true, size)
    requires Within(frags, BUFFER_SIZE)
    ensures Fits(st.store, f, now, AllMallocs)
    ensures var buffer := CopiedAll(st.buffer, frags);
      Accepting(st, f, now, AllMallocs)
      == Handled(st.(store := map[], buffer := buffer), [Delivery(f.key.srcAdd, buffer[..size])])
  {
    hide Spec.AddFragment, CopiedAll, Within, SumSizes;
    assert Only(f.key, size, frags, now) - {f.key} == map[];
  }

  /* ---------- A fragment behind the end ---------- */

  function LastAtTwo(key: Key): Fragment { Fragment(key, 2, true, [1, 1]) }

  function Beyond(key: Key, offset: nat): Fragment { Fragment(key, offset, false, [2, 2]) }

  function Both(offset: nat): (r: seq<Stored>)
    ensures |r| == 2 && r[0] == Stored(offset, [2, 2]) && r[1] == Stored(2, [1, 1])
  {
    [Stored(offset, [2, 2]), Stored(2, [1, 1])]
  }

  lemma BothTaken(key: Key, offset: nat, now: nat)
    requires offset >= 4
    ensures var one := Only(key, 4, [Stored(2, [1, 1])], now);
      && Spec.AddFragment(map[], LastAtTwo(key), now, AllMallocs) == Added(one, true, 0)
      && Spec.AddFragment(one, Beyond(key, offset), now, AllMallocs)
         == Added(Only(key, 4, Both(offset), now), true, 4)
    ensures SumSizes(Both(offset)) == 4
  {
    hide Spec.AddFragment;
    var first := [Stored(2, [1, 1])];
    assert first[1..] == [] && Both(offset)[1..] == first;
    assert [Stored(offset, [2, 2])] + first == Both(offset);
    FirstOne(LastAtTwo(key), now);
    OneMore(key, 4, first, Beyond(key, offset), now);
  }

  lemma BothCopied(buffer: seq<byte>, offset: nat)
    requires 4 <= offset <= BUFFER_SIZE - 2 && |buffer| == BUFFER_SIZE
    ensures Within(Both(offset), BUFFER_SIZE)
    ensures CopiedAll(buffer, Both(offset))[..4] == [buffer[0], buffer[1], 1, 1]
  {
    hide CopiedAll, Disjoint, Both;
    var frags := Both(offset);
    assert forall f :: f in frags ==> f == frags[0] || f == frags[1];
    assert Cells(frags[0]) !! Cells(frags[1]);
    assert Disjoint(frags) by { DisjointPair(frags); }
    CopiedUntouched(buffer, frags, 0);
    CopiedUntouched(buffer, frags, 1);
    CopiedInPlace(buffer, frags, 1, 2);
    CopiedInPlace(buffer, frags, 1, 3);
  }

  lemma DisjointPair(frags: seq<Stored>)
    requires |frags| == 2 && Cells(frags[0]) !! Cells(frags[1])
    ensures Disjoint(frags)
  {
    hide Cells;
    forall i, j | 0 <= i < j < |frags|
      ensures Cells(frags[i]) !! Cells(frags[j])
    {
      assert i == 0 && j == 1;
    }
  }

  // The sum of sizes passes, and two octets the packet never contained are delivered with it.
  lemma OffsetFoolsHandler(key: Key, offset: nat, now: nat, buffer: seq<byte>)
    requires 4 <= offset <= BUFFER_SIZE - 2 && |buffer| == BUFFER_SIZE
    ensures Within(Both(offset), BUFFER_SIZE)
    ensures Leads(Empty(buffer), [LastAtTwo(key), Beyond(key, offset)], now, Empty(CopiedAll(buffer, Both(offset))),
                  [Delivery(key.srcAdd, [buffer[0], buffer[1], 1, 1])])
  {
    hide Spec.AddFragment, CopiedAll, Within, Accepting, Fits;
    var fs, one := [LastAtTwo(key), Beyond(key, offset)], Only(key, 4, [Stored(2, [1, 1])], now);
    BothTaken(key, offset, now);
    BothCopied(buffer, offset);
    Waits(Empty(buffer), fs[0], now, one);
    Completing(RxState(one, 0, buffer), fs[1], now, 4, Both(offset));
    EndsWith(RxState(one, 0, buffer), fs[1..], now);
    LeadsStep(Empty(buffer), fs, now, RxState(one, 0, buffer), [], Empty(CopiedAll(buffer, Both(offset))),
              [Delivery(key.srcAdd, [buffer[0], buffer[1], 1, 1])]);
  }

  lemma EndsWith(st: RxState, fs: seq<Fragment>, now: nat)
    requires |st.buffer| == BUFFER_SIZE && |fs| == 1 && Fits(st.store, fs[0], now, AllMallocs)
    ensures var h := Accepting(st, fs[0], now, AllMallocs); Leads(st, fs, now, h.st, h.delivered)
  {
    hide Accepting, Fits;
    assert fs[1..] == [];
  }

  // From 1499 on, which twelve bits hold, the copy leaves the buffer.
  lemma CopyLeavesBuffer(key: Key, offset: nat, now: nat)
    requires BUFFER_SIZE - 2 < offset < FRAG_OFFSET_RANGE
    ensures !Fits(Spec.AddFragment(map[], LastAtTwo(key), now, AllMallocs).store, Beyond(key, offset), now, AllMallocs)
  {
    hide Spec.AddFragment;
    BothTaken(key, offset, now);
    assert Both(offset)[0] in Both(offset);
  }

  /* ---------- Overlapping fragments ---------- */

  function OverlapArrivals(key: Key): seq<Fragment> {
    [Fragment(key, 0, false, [1, 1]), Fragment(key, 1, false, [2, 2]), Fragment(key, 4, true, [3])]
  }

  lemma OverlapTaken(key: Key, now: nat)
    ensures var fs := OverlapArrivals(key);
      var one, two := Only(key, 0, Overlapping()[2..], now), Only(key, 0, Overlapping()[1..], now);
      && Spec.AddFragment(map[], fs[0], now, AllMallocs) == Added(one, true, 0)
      && Spec.AddFragment(one, fs[1], now, AllMallocs) == Added(two, true, 0)
      && Spec.AddFragment(two, fs[2], now, AllMallocs) == Added(Only(key, 5, Overlapping(), now), true, 5)
  {
    hide Spec.AddFragment;
    var fs, frags := OverlapArrivals(key), Overlapping();
    SumTestFooledByOverlap();
    assert frags[2..] == [Stored(0, [1, 1])] && frags[1..] == [Stored(1, [2, 2])] + frags[2..];
    assert frags == [Stored(4, [3])] + frags[1..];
    FirstOne(fs[0], now);
    OneMore(key, 0, frags[2..], fs[1], now);
    OneMore(key, 0, frags[1..], fs[2], now);
  }

  // What arrived, with this octet where nothing did
  function OverlapOctets(unheld: byte): (r: seq<byte>)
    ensures |r| == 5
  {
    [1, 1, 2, unheld, 3]
  }

  lemma OverlapOctet(buffer: seq<byte>, i: nat)
    requires |buffer| == BUFFER_SIZE && i < 5
    ensures Within(Overlapping(), BUFFER_SIZE)
    ensures CopiedAll(buffer, Overlapping())[i] == OverlapOctets(buffer[3])[i]
  {
    hide CopiedAll, Copied, Overlapping;
    var frags := Overlapping();
    assert forall f :: f in frags ==> f == frags[0] || f == frags[1] || f == frags[2];
    CopiedFirst(buffer, frags, i);
    var b1 := Copied(buffer, frags[0]);
    CopiedFirst(b1, frags[1..], i);
    var b2 := Copied(b1, frags[1..][0]);
    CopiedFirst(b2, frags[1..][1..], i);
    assert frags[1..][1..][1..] == [];
    CopiedNone(Copied(b2, frags[1..][1..][0]));
  }

  lemma OverlapCopied(buffer: seq<byte>)
    requires |buffer| == BUFFER_SIZE
    ensures Within(Overlapping(), BUFFER_SIZE)
    ensures CopiedAll(buffer, Overlapping())[..5] == OverlapOctets(buffer[3])
  {
    hide CopiedAll, Overlapping, Within, OverlapOctets;
    OverlapOctet(buffer, 0);
    forall i: nat | i < 5
      ensures CopiedAll(buffer, Overlapping())[i] == OverlapOctets(buffer[3])[i]
    {
      OverlapOctet(buffer, i);
    }
  }

  // The sum of sizes passes, and an octet the packet never contained is delivered in its middle.
  lemma OverlapFoolsHandler(key: Key, now: nat, buffer: seq<byte>)
    requires |buffer| == BUFFER_SIZE
    ensures Within(Overlapping(), BUFFER_SIZE)
    ensures Leads(Empty(buffer), OverlapArrivals(key), now, Empty(CopiedAll(buffer, Overlapping())),
                  [Delivery(key.srcAdd, OverlapOctets(buffer[3]))])
  {
    hide Spec.AddFragment, CopiedAll, Within, Accepting, Fits;
    var fs, end := OverlapArrivals(key), [Delivery(key.srcAdd, OverlapOctets(buffer[3]))];
    var one := RxState(Only(key, 0, Overlapping()[2..], now), 0, buffer);
    var two := RxState(Only(key, 0, Overlapping()[1..], now), 0, buffer);
    OverlapTaken(key, now);
    OverlapCopied(buffer);
    SumTestFooledByOverlap();
    Waits(Empty(buffer), fs[0], now, one.store);
    Waits(one, fs[1], now, two.store);
    Completing(two, fs[2], now, 5, Overlapping());
    EndsWith(two, fs[1..][1..], now);
    LeadsStep(one, fs[1..], now, two, [], Empty(CopiedAll(buffer, Overlapping())), end);
    LeadsStep(Empty(buffer), fs, now, one, [], Empty(CopiedAll(buffer, Overlapping())), end);
  }

  /* ---------- A packet larger than the buffer ---------- */

  const OVERSIZE := 9 * MAX_APDU_DSAP_SIZE

  // The i-th of nine fragments of full length, and what is stored of them after the first n
  function Ninth(key: Key, payload: seq<byte>, i: nat): (f: Fragment)
    requires |payload| == OVERSIZE && i < 9
    ensures f == Parsed(RxFrag(key.srcAdd, key.packetId, f.offset + (if f.last then LAST_FLAG else 0), f.bytes))
  {
    Fragment(key, i * MAX_APDU_DSAP_SIZE, i == 8, payload[i * MAX_APDU_DSAP_SIZE..(i + 1) * MAX_APDU_DSAP_SIZE])
  }

  function Ninths(key: Key, payload: seq<byte>): (fs: seq<Fragment>)
    requires |payload| == OVERSIZE
    ensures |fs| == 9 && forall i :: 0 <= i < 9 ==> fs[i] == Ninth(key, payload, i)
  {
    seq(9, (i: nat) requires i < 9 => Ninth(key, payload, i))
  }

  function StoredNinths(key: Key, payload: seq<byte>, n: nat): (frags: seq<Stored>)
    requires |payload| == OVERSIZE && n <= 9
    ensures SumSizes(frags) == n * MAX_APDU_DSAP_SIZE
    ensures forall f :: f in frags ==> f.offset < n * MAX_APDU_DSAP_SIZE
  {
    if n == 0 then [] else
      var f := Ninth(key, payload, n - 1);
      [Stored(f.offset, f.bytes)] + StoredNinths(key, payload, n - 1)
  }

  function NinthsState(key: Key, payload: seq<byte>, n: nat, now: nat, buffer: seq<byte>): (st: RxState)
    requires |payload| == OVERSIZE && n <= 9
    ensures st.buffer == buffer
  {
    RxState(if n == 0 then map[]
            else Only(key, if n == 9 then OVERSIZE else 0, StoredNinths(key, payload, n), now), 0, buffer)
  }

  lemma NinthTaken(key: Key, payload: seq<byte>, n: nat, now: nat, buffer: seq<byte>)
    requires |payload| == OVERSIZE && n < 9
    ensures Spec.AddFragment(NinthsState(key, payload, n, now, buffer).store, Ninth(key, payload, n), now, AllMallocs)
      == Added(NinthsState(key, payload, n + 1, now, buffer).store, true, if n == 8 then OVERSIZE else 0)
  {
    hide Spec.AddFragment, SumSizes;
    var f, frags := Ninth(key, payload, n), StoredNinths(key, payload, n);
    assert StoredNinths(key, payload, n + 1) == [Stored(f.offset, f.bytes)] + frags;
    assert f.offset + |f.bytes| == (n + 1) * MAX_APDU_DSAP_SIZE;
    if n == 0 {
      assert StoredNinths(key, payload, 1) == [Stored(f.offset, f.bytes)];
      FirstOne(f, now);
    } else {
      OneMore(key, 0, frags, f, now);
    }
  }

  lemma NinthAccepted(key: Key, payload: seq<byte>, n: nat, now: nat, buffer: seq<byte>)
    requires |payload| == OVERSIZE && n < 9 && |buffer| == BUFFER_SIZE
    ensures var st := NinthsState(key, payload, n, now, buffer); var f := Ninth(key, payload, n);
      && Fits(st.store, f, now, AllMallocs)
      && Accepting(st, f, now, AllMallocs)
         == Handled(NinthsState(key, payload, n + 1, now, buffer),
                    if n == 8 then [Delivery(key.srcAdd, buffer)] else [])
  {
    hide Spec.AddFragment, SumSizes, StoredNinths;
    NinthTaken(key, payload, n, now, buffer);
    var st, f := NinthsState(key, payload, n, now, buffer), Ninth(key, payload, n);
    if n < 8 {
      Waits(st, f, now, NinthsState(key, payload, n + 1, now, buffer).store);
    } else {
      DeliveredIffItFits(st, f, now, AllMallocs);
    }
  }

  lemma {:induction false} NinthsLead(key: Key, payload: seq<byte>, n: nat, now: nat, buffer: seq<byte>)
    requires |payload| == OVERSIZE && n <= 9 && |buffer| == BUFFER_SIZE
    ensures Leads(NinthsState(key, payload, n, now, buffer), Ninths(key, payload)[n..], now,
                  NinthsState(key, payload, 9, now, buffer), if n < 9 then [Delivery(key.srcAdd, buffer)] else [])
    decreases 9 - n
  {
    hide Accepting, Fits, Ninths, NinthsState;
    var fs := Ninths(key, payload);
    if n < 9 {
      NinthAccepted(key, payload, n, now, buffer);
      NinthsLead(key, payload, n + 1, now, buffer);
      assert fs[n..][1..] == fs[n + 1..];
      LeadsStep(NinthsState(key, payload, n, now, buffer), fs[n..], now, NinthsState(key, payload, n + 1, now, buffer),
                if n == 8 then [Delivery(key.srcAdd, buffer)] else [], NinthsState(key, payload, 9, now, buffer),
                if n < 8 then [Delivery(key.srcAdd, buffer)] else []);
    }
  }

  // Nine fragments of full length, in order, from an empty store: whatever their 1620 octets are, the
  // application gets the buffer as it was, and the packet stays in the store.
  lemma OversizeDeliversOldBuffer(key: Key, payload: seq<byte>, now: nat, buffer: seq<byte>)
    requires |payload| == OVERSIZE && |buffer| == BUFFER_SIZE
    ensures Leads(Empty(buffer), Ninths(key, payload), now,
                  RxState(Only(key, OVERSIZE, StoredNinths(key, payload, 9), now), 0, buffer),
                  [Delivery(key.srcAdd, buffer)])
  {
    hide Leads;
    assert Ninths(key, payload)[0..] == Ninths(key, payload);
    NinthsLead(key, payload, 0, now, buffer);
  }

  class Handler {
    const reassembler: Reassembler
    const buffer: array<byte>           // static uint8_t reassembly_buffer[1500]
    const maxDurationS: nat             // m_fragment_max_duration_s
    var lastGc: nat                     // last_gc_ts_ms
    var delivered: seq<Delivery>        // calls of the data callback so far

    ghost predicate Valid()
      reads this, buffer, reassembler, reassembler.packets, reassembler.packets.buckets,
            reassembler.packets.order, reassembler.packets.contents.Values
    {
      reassembler.Valid() && buffer.Length == BUFFER_SIZE && buffer as object != reassembler.packets.buckets
    }

    ghost function State(): RxState
      reads this, buffer, reassembler, reassembler.packets, reassembler.packets.contents.Values
    {
      RxState(reassembler.Store(), lastGc, buffer[..])
    }

    constructor (hash: Key -> nat, maxDurationS: nat)
      ensures Valid() && State().store == map[] && lastGc == 0 && delivered == []
      ensures this.maxDurationS == maxDurationS
    {
      hide Reassembler.Valid;
      reassembler := new Reassembler(hash);
      buffer := new byte[BUFFER_SIZE](_ => 0);
      this.maxDurationS := maxDurationS;
      lastGc, delivered := 0, [];
    }

    // A fragment arrives; if it completes its packet, the packet goes to the application.  The model stops
    // with outside at a copy that would leave the buffer.
    method Accept(f: Fragment, now: nat, m: Mallocs) returns (outside: bool)
      requires Valid() && NoLaterThan(State().store, now)
      modifies this`delivered, buffer
      modifies reassembler`live, reassembler.packets, reassembler.packets.buckets, reassembler.packets.order
      modifies reassembler.packets.contents.Values
      ensures outside <==> !Fits(old(State()).store, f, now, m)
      ensures !outside ==> Valid() && reassembler.OwnsOldOrFresh()
      ensures !outside ==>
        Accepting(old(State()), f, now, m) == Handled(State(), Since(delivered, old(delivered)))
      ensures old(delivered) <= delivered
    {
      hide Reassembler.Valid, StoreOf, Spec.AddFragment, Spec.GetFullMessage, NoLaterThan, Within;
      var ok, fullSize := reassembler.AddFragment(f, now, m);
      outside := false;
      if ok && fullSize != 0 {
        var got, size;
        ghost var store, was := reassembler.Store(), buffer[..];
        got, size, outside := reassembler.GetFullMessage(f.key, buffer, BUFFER_SIZE);
        if outside { return; }
        GotSize(store, f.key, was);
        delivered := delivered + [Delivery(f.key.srcAdd, buffer[..size])];
      }
    }

    // dsap_data_rx_frag_indication_handler
    method FragIndication(payload: RxFrag, now: nat, m: Mallocs) returns (outside: bool)
      requires Valid() && NoLaterThan(State().store, now)
      modifies this`lastGc, this`delivered, buffer
      modifies reassembler`live, reassembler.packets, reassembler.packets.buckets, reassembler.packets.order
      modifies reassembler.packets.contents.Values
      ensures outside <==> !Fits(old(State()).store, Parsed(payload), now, m)
      ensures !outside ==> Valid()
      ensures !outside ==>
        Handle(old(State()), Parsed(payload), maxDurationS, now, m)
        == Handled(State(), Since(delivered, old(delivered)))
      ensures old(delivered) <= delivered
    {
      hide Reassembler.Valid, StoreOf, Accepting, NoLaterThan, Fits;
      hide Spec.AddFragment, Spec.GetFullMessage, Spec.GarbageCollect;
      var f := Parsed(payload);
      ghost var st := State();
      outside := Accept(f, now, m);
      if outside { return; }
      AcceptedStamps(st, f, now, m);
      if maxDurationS > 0 && now - lastGc > MIN_GARBAGE_COLLECT_PERIOD_S * 1000 {
        ghost var store := reassembler.Store();
        ghost var read := reassembler.GarbageCollect(maxDurationS, (i: nat) => now);
        SameReading(store, maxDurationS, read, now);
        lastGc := now;
      }
    }
  }

  function Since<T>(log: seq<T>, before: seq<T>): seq<T> {
    if |before| <= |log| then log[|before|..] else []
  }
}
