/**
 What the reassembly store is: a map from (source, packet id) to the fragments received so far.
 Each operation of reassembly.c is a function on that map; Reassembly.dfy proves the code equal to it.
 */
module ReassemblySpec {
  import opened Bytes
  import opened Fragments

  // packet_key_t
  datatype Key = Key(srcAdd: nat, packetId: nat)

  // reassembly_fragment_t
  datatype Fragment = Fragment(key: Key, offset: nat, last: bool, bytes: seq<byte>)

  // full_packet_t without its key; fullSize is 0 until the last fragment is known
  datatype Packet = Packet(fullSize: nat, isFull: bool, frags: seq<Stored>, stamp: nat)

  type Store = map<Key, Packet>

  // Which of the three allocations of one reassembly_add_fragment call would succeed.
  datatype Mallocs = Mallocs(packet: bool, header: bool, data: bool)

  const AllMallocs := Mallocs(true, true, true)

  /* ---------- reassembly_add_fragment ---------- */

  const NewPacket := Packet(0, false, [], 0)

  predicate HasOffset(frags: seq<Stored>, offset: nat) {
    exists f :: f in frags && f.offset == offset
  }

  function WithFragment(p: Packet, f: Fragment, now: nat): Packet {
    p.(frags := [Stored(f.offset, f.bytes)] + p.frags,
       fullSize := if f.last then f.offset + |f.bytes| else p.fullSize,
       stamp := now)
  }

  // is_packet_full caches its answer.
  function Checked(p: Packet): Packet {
    if !p.isFull && p.fullSize != 0 && SumSizes(p.frags) == p.fullSize then p.(isFull := true) else p
  }

  datatype Added = Added(store: Store, ok: bool, fullSize: nat)

  function FoundOrNew(store: Store, key: Key): Packet {
    if key in store then store[key] else NewPacket
  }

  function AddFragment(store: Store, f: Fragment, now: nat, m: Mallocs): Added {
    if f.key !in store && !m.packet then Added(store, false, 0)
    else
      var p := FoundOrNew(store, f.key);
      if HasOffset(p.frags, f.offset) || !m.header || !m.data then Added(store[f.key := p], false, 0)
      else
        var q := Checked(WithFragment(p, f, now));
        Added(store[f.key := q], true, if q.isFull then q.fullSize else 0)
  }

  /* ---------- reassembly_get_full_message ---------- */

  datatype Got = Got(store: Store, ok: bool, size: nat, buffer: seq<byte>)

  // The copy happens: the packet is complete and the caller's size is large enough.
  predicate Retrievable(store: Store, key: Key, size: nat) {
    key in store && store[key].isFull && size >= store[key].fullSize
  }

  function GetFullMessage(store: Store, key: Key, buffer: seq<byte>, size: nat): Got
    requires Retrievable(store, key, size) ==> Within(store[key].frags, |buffer|)
  {
    if key !in store then Got(store, false, size, buffer)
    else if !store[key].isFull then Got(store, false, 0, buffer)
    else if size < store[key].fullSize then Got(store, false, size, buffer)
    else Got(store - {key}, true, store[key].fullSize, CopiedAll(buffer, store[key].frags))
  }

  // A call takes the packet out, and reports its size, exactly when it is complete and the caller's size
  // suffices; otherwise nothing changes, and the size is 0 for an incomplete packet and left alone else.
  lemma RetrievedIff(store: Store, key: Key, buffer: seq<byte>, size: nat)
    requires Retrievable(store, key, size) ==> Within(store[key].frags, |buffer|)
    ensures var g := GetFullMessage(store, key, buffer, size);
      && (g.ok <==> key in store && store[key].isFull && store[key].fullSize <= size)
      && (g.ok ==> key !in g.store && g.size == store[key].fullSize && g.buffer == CopiedAll(buffer, store[key].frags))
      && (!g.ok ==> g.store == store && g.buffer == buffer)
      && (!g.ok ==> g.size == if key in store && !store[key].isFull then 0 else size)
  {
  }

  // A fragment is taken exactly when its packet exists or can be allocated, its offset is new, and both its
  // blocks can be allocated.  A refused one is without effect, but for the empty packet of an absent key.
  lemma TakenIff(store: Store, f: Fragment, now: nat, m: Mallocs)
    ensures var a, known := AddFragment(store, f, now, m), f.key in store;
      && (a.ok <==> (known || m.packet) && !(known && HasOffset(store[f.key].frags, f.offset)) && m.header && m.data)
      && (f.key in a.store <==> known || m.packet) && a.store.Keys == store.Keys + (if m.packet then {f.key} else {})
      && (a.ok ==>
            var p, q := FoundOrNew(store, f.key), a.store[f.key];
            && q.frags == [Stored(f.offset, f.bytes)] + p.frags && q.stamp == now
            && q.fullSize == (if f.last then f.offset + |f.bytes| else p.fullSize)
            && (q.isFull <==> p.isFull || (q.fullSize > 0 && SumSizes(q.frags) == q.fullSize))
            && a.fullSize == if q.isFull then q.fullSize else 0)
      && (!a.ok ==> a.fullSize == 0 && (f.key in a.store ==> a.store[f.key] == FoundOrNew(store, f.key)))
  {
    hide SumSizes;
  }

  /* ---------- reassembly_garbage_collect ---------- */

  // last_activity is computed in milliseconds and stored in 32 bits.
  predicate Expired(p: Packet, timeoutS: nat, now: nat)
    requires p.stamp <= now
  {
    ((now - p.stamp) / 1000) % 0x1_0000_0000 > timeoutS
  }

  predicate NoLaterThan(store: Store, now: nat) {
    forall k :: k in store ==> store[k].stamp <= now
  }

  function GarbageCollect(store: Store, timeoutS: nat, now: nat): Store
    requires NoLaterThan(store, now)
  {
    map k | k in store && !Expired(store[k], timeoutS, now) :: store[k]
  }

  // The clock is read anew for every packet: read[k] is what it shows for packet k.
  predicate AllRead(store: Store, read: map<Key, nat>) {
    forall k :: k in store ==> k in read && store[k].stamp <= read[k]
  }

  function GarbageCollectAt(store: Store, timeoutS: nat, read: map<Key, nat>): Store
    requires AllRead(store, read)
  {
    map k | k in store && !Expired(store[k], timeoutS, read[k]) :: store[k]
  }

  lemma SameReading(store: Store, timeoutS: nat, read: map<Key, nat>, now: nat)
    requires AllRead(store, read) && forall k :: k in store ==> read[k] == now
    ensures NoLaterThan(store, now) && GarbageCollectAt(store, timeoutS, read) == GarbageCollect(store, timeoutS, now)
  {
  }

  // A packet is collected exactly when it has been idle for timeout + 1 seconds or more, as long
  // as the idle time in seconds fits 32 bits.
  lemma ExpiredIffIdle(p: Packet, timeoutS: nat, now: nat)
    requires p.stamp <= now < p.stamp + 1000 * 0x1_0000_0000
    ensures Expired(p, timeoutS, now) <==> now - p.stamp >= (timeoutS + 1) * 1000
  {
  }

  lemma CollectedIffIdle(store: Store, timeoutS: nat, read: map<Key, nat>, key: Key)
    requires AllRead(store, read) && key in store && read[key] < 1000 * 0x1_0000_0000
    ensures var after := GarbageCollectAt(store, timeoutS, read);
      && (key !in after <==> read[key] - store[key].stamp >= (timeoutS + 1) * 1000)
      && (key in after ==> after[key] == store[key])
  {
    ExpiredIffIdle(store[key], timeoutS, read[key]);
  }

  /* ---------- Every call touches only its own key ---------- */

  function Lookup(store: Store, key: Key): seq<Packet> {
    if key in store then [store[key]] else []
  }

  // Neither adding for one key nor retrieving it affects any other, and what an addition does
  // depends on nothing but its own entry.
  lemma OwnKeyOnly(store: Store, f: Fragment, now: nat, m: Mallocs, other: Key, buffer: seq<byte>, size: nat)
    requires other != f.key
    requires Retrievable(store, f.key, size) ==> Within(store[f.key].frags, |buffer|)
    ensures Lookup(AddFragment(store, f, now, m).store, other) == Lookup(store, other)
    ensures Lookup(GetFullMessage(store, f.key, buffer, size).store, other) == Lookup(store, other)
  {
  }

  lemma OwnEntryDecides(store: Store, store': Store, f: Fragment, now: nat, m: Mallocs)
    requires Lookup(store, f.key) == Lookup(store', f.key)
    ensures var a := AddFragment(store, f, now, m); var b := AddFragment(store', f, now, m);
      a.ok == b.ok && a.fullSize == b.fullSize && Lookup(a.store, f.key) == Lookup(b.store, f.key)
  {
    assert f.key in store ==> Lookup(store, f.key)[0] == store[f.key];
    assert f.key in store' ==> Lookup(store', f.key)[0] == store'[f.key];
    assert f.key in store <==> |Lookup(store, f.key)| == 1;
    assert f.key in store' <==> |Lookup(store', f.key)| == 1;
  }

  /* ---------- Allocations ---------- */

  // The fragments of the store, named by packet and position.
  ghost function Pieces(store: Store): set<(Key, int)> {
    set k, i | k in store && 0 <= i < |store[k].frags| :: (k, i)
  }

  // One block per packet, two per stored fragment.
  ghost function Allocations(store: Store): nat {
    |store| + 2 * |Pieces(store)|
  }

  ghost function PiecesOf(key: Key, n: nat): (r: set<(Key, int)>)
    ensures forall k, i :: (k, i) in r <==> k == key && 0 <= i < n
    ensures |r| == n
  {
    if n == 0 then {} else PiecesOf(key, n - 1) + {(key, n - 1)}
  }

  // Replacing or adding one entry changes the count by what that entry holds.
  lemma AllocationsUpdate(store: Store, key: Key, p: Packet)
    requires key in store
    ensures Allocations(store[key := p]) == Allocations(store) - 2 * |store[key].frags| + 2 * |p.frags|
  {
    AllocationsRemove(store, key);
    AllocationsInsert(store - {key}, key, p);
    assert (store - {key})[key := p] == store[key := p];
  }

  lemma AllocationsInsert(store: Store, key: Key, p: Packet)
    requires key !in store
    ensures Allocations(store[key := p]) == Allocations(store) + 1 + 2 * |p.frags|
  {
    var own := PiecesOf(key, |p.frags|);
    forall x: (Key, int)
      ensures x in Pieces(store[key := p]) <==> x in Pieces(store) || x in own
      ensures !(x in Pieces(store) && x in own)
    {
      var (k, i) := x;
      assert (k, i) in own <==> k == key && 0 <= i < |p.frags|;
    }
    assert Pieces(store[key := p]) == Pieces(store) + own;
  }

  lemma AllocationsRemove(store: Store, key: Key)
    requires key in store
    ensures Allocations(store) == Allocations(store - {key}) + 1 + 2 * |store[key].frags|
  {
    AllocationsInsert(store - {key}, key, store[key]);
    assert (store - {key})[key := store[key]] == store;
  }
}
