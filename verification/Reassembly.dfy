/**
 reassembly.c: partial packets in a uthash table, fragments in a list per packet, and a count of the
 blocks allocated and not yet freed.  Every method is proved equal to its function in ReassemblySpec.
 */
module Reassembly {
  import opened Bytes
  import opened Fragments
  import opened UtHash
  import Spec = ReassemblySpec
  import opened ReassemblySpec

  // full_packet_t
  class FullPacket {
    const key: Key
    var fullSize: nat
    var isFull: bool
    var head: seq<Stored>
    var stamp: nat

    constructor (key: Key)
      ensures this.key == key && Value() == NewPacket
    {
      this.key := key;
      fullSize, isFull, head, stamp := 0, false, [], 0;
    }

    function Value(): Packet
      reads this
    {
      Packet(fullSize, isFull, head, stamp)
    }
  }

  type Index = map<Key, FullPacket>

  ghost predicate Keyed(contents: Index) {
    forall k :: k in contents ==> contents[k].key == k
  }

  ghost function StoreOf(contents: Index): Store
    reads contents.Values
  {
    map k | k in contents :: contents[k].Value()
  }

  class Reassembler {
    const packets: Table<Key, FullPacket>
    var live: int   // blocks obtained from Platform_malloc and not yet freed

    ghost predicate Valid()
      reads this, packets, packets.buckets, packets.order, packets.contents.Values
    {
      packets.Valid() && Keyed(packets.contents) && live == Allocations(Store())
    }

    // The abstract value
    ghost function Store(): Store
      reads packets, packets.contents.Values
    {
      StoreOf(packets.contents)
    }

    constructor (hash: Key -> nat)
      ensures Valid() && Store() == map[]
      ensures fresh(packets) && fresh(packets.buckets)
    {
      packets := new Table(hash);
      live := 0;
      new;
      assert Pieces(Store()) == {};
    }

    // The store owns what it owned before, and otherwise only what it has allocated since.
    twostate predicate OwnsOldOrFresh()
      reads this, packets
    {
      && (packets.buckets == old(packets.buckets) || fresh(packets.buckets))
      && (forall j :: 0 <= j < |packets.order| ==> packets.order[j] in old(packets.order) || fresh(packets.order[j]))
      && (forall k :: k in packets.contents ==>
            packets.contents[k] in old(packets.contents.Values) || fresh(packets.contents[k]))
    }

    method CreatePacketInHash(key: Key, malloc: bool) returns (p: FullPacket?)
      requires packets.Valid() && key !in packets.contents
      modifies this`live, packets, packets.buckets, packets.order
      ensures packets.Valid()
      ensures !malloc ==> p == null && packets.contents == old(packets.contents) && live == old(live)
      ensures malloc ==> p != null && fresh(p) && p.key == key && p.Value() == NewPacket
      ensures malloc ==> packets.contents == old(packets.contents)[key := p] && live == old(live) + 1
      ensures OwnsOldOrFresh()
    {
      hide Table.Valid;
      if !malloc { return null; }
      p := new FullPacket(key);
      live := live + 1;
      var h := packets.Add(key, p);
    }

    method AddFragmentToFullPacket(p: FullPacket, f: Fragment, now: nat, m: Mallocs) returns (ok: bool)
      modifies p, this`live
      ensures ok <==> !HasOffset(old(p.head), f.offset) && m.header && m.data
      ensures p.Value() == if ok then WithFragment(old(p.Value()), f, now) else old(p.Value())
      ensures live == old(live) + (if ok then 2 else 0)
    {
      var i := 0;
      while i < |p.head| && p.head[i].offset != f.offset
        invariant 0 <= i <= |p.head|
        invariant forall j :: 0 <= j < i ==> p.head[j].offset != f.offset
      {
        i := i + 1;
      }
      if i < |p.head| {
        assert p.head[i] in p.head;
        return false;
      }
      live := live + (if m.header then 1 else 0) + (if m.data then 1 else 0);
      if !m.header || !m.data {
        live := live - (if m.header then 1 else 0) - (if m.data then 1 else 0);
        return false;
      }
      p.head := [Stored(f.offset, f.bytes)] + p.head;
      if f.last {
        p.fullSize := f.offset + |f.bytes|;
      }
      p.stamp := now;
      ok := true;
    }

    method IsPacketFull(p: FullPacket) returns (full: bool)
      modifies p`isFull
      ensures p.Value() == Checked(old(p.Value())) && full == p.isFull
    {
      if p.isFull { return true; }
      if p.fullSize == 0 { return false; }
      var rxSize := 0;
      assert p.head[0..] == p.head;
      for i := 0 to |p.head|
        invariant rxSize + SumSizes(p.head[i..]) == SumSizes(p.head)
      {
        assert p.head[i..][1..] == p.head[i + 1..];
        rxSize := rxSize + |p.head[i].bytes|;
      }
      if rxSize == p.fullSize {
        p.isFull := true;
      }
      full := p.isFull;
    }

    // The first half of reassembly_add_fragment: the packet of a key, created when absent.
    method FindOrCreate(key: Key, malloc: bool) returns (p: FullPacket?)
      requires Valid()
      modifies this`live, packets, packets.buckets, packets.order
      ensures Valid()
      ensures p == null <==> key !in old(Store()) && !malloc
      ensures p == null ==> Store() == old(Store())
      ensures p != null ==> key in packets.contents && packets.contents[key] == p
      ensures p != null ==> p.Value() == FoundOrNew(old(Store()), key)
      ensures p != null ==> Store() == old(Store())[key := FoundOrNew(old(Store()), key)]
      ensures OwnsOldOrFresh()
    {
      hide Allocations, Table.Valid;
      var h := packets.Find(key);
      if h != null { return h.value; }
      p := CreateStored(key, malloc);
    }

    // The packet of an absent key, created in the hash.
    method CreateStored(key: Key, malloc: bool) returns (p: FullPacket?)
      requires Valid() && key !in packets.contents
      modifies this`live, packets, packets.buckets, packets.order
      ensures Valid() && OwnsOldOrFresh()
      ensures !malloc ==> p == null && Store() == old(Store())
      ensures malloc ==> p != null && key in packets.contents && packets.contents[key] == p && p.Value() == NewPacket
      ensures malloc ==> Store() == old(Store())[key := NewPacket]
    {
      hide Allocations, Table.Valid, OwnsOldOrFresh;
      ghost var store := Store();
      p := CreatePacketInHash(key, malloc);
      if malloc {
        assert forall k :: k in store ==> packets.contents[k] == old(packets.contents)[k];
        assert Store() == store[key := NewPacket];
        AllocationsInsert(store, key, NewPacket);
      }
    }

    // The second half: the fragment goes to its packet, which may become full.
    method AddToPacket(p: FullPacket, f: Fragment, now: nat, m: Mallocs) returns (ok: bool, fullSize: nat)
      requires Valid() && f.key in packets.contents && packets.contents[f.key] == p
      modifies this`live, p
      ensures Valid()
      ensures ok <==> !HasOffset(old(p.head), f.offset) && m.header && m.data
      ensures var q := if ok then Checked(WithFragment(old(p.Value()), f, now)) else old(p.Value());
        && Store() == old(Store())[f.key := q]
        && fullSize == if ok && q.isFull then q.fullSize else 0
    {
      hide Allocations, HasOffset, WithFragment, Checked, Table.Valid;
      fullSize := 0;
      ok := AddFragmentToFullPacket(p, f, now, m);
      if ok {
        var full := IsPacketFull(p);
        if full {
          fullSize := p.fullSize;
        }
      }
      FragmentCount(old(p.Value()), f, now);
      AllocationsUpdate(old(Store()), f.key, p.Value());
      assert forall k :: k in packets.contents && k != f.key ==> packets.contents[k] != p;
      assert Store() == old(Store())[f.key := p.Value()];
    }

    // reassembly_add_fragment
    method AddFragment(f: Fragment, now: nat, m: Mallocs) returns (ok: bool, fullSize: nat)
      requires Valid()
      modifies this`live, packets, packets.buckets, packets.order, packets.contents.Values
      ensures Valid()
      ensures Spec.AddFragment(old(Store()), f, now, m) == Added(Store(), ok, fullSize)
      ensures OwnsOldOrFresh()
    {
      hide Valid, HasOffset, WithFragment, Checked, StoreOf, Table.Valid;
      ghost var store := Store();
      var p := FindOrCreate(f.key, m.packet);
      if p == null { return false, 0; }
      ok, fullSize := AddToPacket(p, f, now, m);
      PutTwice(store, f.key, FoundOrNew(store, f.key), Store()[f.key]);
    }

    // memcpy of one fragment into the caller's buffer
    method CopyOut(buffer: array<byte>, f: Stored)
      requires f.offset + |f.bytes| <= buffer.Length
      modifies buffer
      ensures buffer[..] == Copied(old(buffer[..]), f)
    {
      forall i | 0 <= i < |f.bytes| {
        buffer[f.offset + i] := f.bytes[i];
      }
    }

    // The loop of reassemble_full_packet: every fragment is copied out and its two blocks freed.  The
    // model stops with outside at the first copy that would leave the buffer.
    method CopyAndFree(p: FullPacket, buffer: array<byte>) returns (outside: bool)
      modifies this`live, p`head, buffer
      ensures outside <==> !Within(old(p.head), buffer.Length)
      ensures !outside ==> p.head == [] && live == old(live) - 2 * |old(p.head)|
      ensures !outside ==> buffer[..] == CopiedAll(old(buffer[..]), old(p.head))
    {
      hide Within, CopiedAll;
      while p.head != []
        invariant Within(p.head, buffer.Length) <==> Within(old(p.head), buffer.Length)
        invariant Within(p.head, buffer.Length) ==>
          CopiedAll(buffer[..], p.head) == CopiedAll(old(buffer[..]), old(p.head))
        invariant live == old(live) - 2 * (|old(p.head)| - |p.head|)
        decreases |p.head|
      {
        var f := p.head[0];
        WithinSplit(p.head, buffer.Length);
        if f.offset + |f.bytes| > buffer.Length { return true; }
        ghost var before := buffer[..];
        CopyOut(buffer, f);
        CopiesStep(before, p.head);
        live := live - 1;
        p.head := p.head[1..];
        live := live - 1;
      }
      CopiedNone(buffer[..]);
      outside := false;
    }

    // HASH_DEL and the release of the packet itself, its fragments having been freed.
    method DropPacket(h: Handle<Key, FullPacket>, ghost p: Packet)
      requires packets.Valid() && Keyed(packets.contents) && h in packets.order && h.key in packets.contents
      requires live == Allocations(Store()[h.key := p]) - 2 * |p.frags|
      modifies this`live, packets, packets.buckets, packets.order
      ensures Valid() && packets.contents == old(packets.contents) - {h.key}
      ensures Store() == old(Store()) - {h.key}
      ensures exists k ::
        0 <= k < |old(packets.order)| && old(packets.order)[k] == h && packets.order == Without(old(packets.order), k)
      ensures packets.buckets == old(packets.buckets)
    {
      hide Allocations, Table.Valid;
      AllocationsRemove(Store()[h.key := p], h.key);
      assert Store()[h.key := p] - {h.key} == Store() - {h.key};
      packets.Delete(h);
      live := live - 1;
      assert Store() == old(Store()) - {h.key};
    }

    // The copying half of reassemble_full_packet: the packet of h leaves through the buffer.
    method Retrieve(h: Handle<Key, FullPacket>, buffer: array<byte>) returns (outside: bool)
      requires Valid() && buffer as object != packets.buckets
      requires h in packets.order && h.key in packets.contents && packets.contents[h.key] == h.value
      modifies this`live, packets, packets.buckets, packets.order, h.value, buffer
      ensures outside <==> !Within(old(h.value.head), buffer.Length)
      ensures !outside ==> Valid() && OwnsOldOrFresh()
      ensures !outside ==> Store() == old(Store()) - {h.key}
      ensures !outside ==> buffer[..] == CopiedAll(old(buffer[..]), old(h.value.head))
    {
      hide Allocations, Table.Valid, CopiedAll, Within;
      ghost var store := Store();
      ghost var p := h.value.Value();
      outside := CopyAndFree(h.value, buffer);
      if outside { return; }
      assert packets.Valid();
      assert forall k :: k in packets.contents && k != h.key ==> packets.contents[k] != h.value;
      assert Store()[h.key := p] == store;
      DropPacket(h, p);
      assert Store() == store - {h.key};
    }

    // reassembly_get_full_message
    method GetFullMessage(key: Key, buffer: array<byte>, size: nat) returns (ok: bool, size': nat, outside: bool)
      requires Valid() && buffer as object != packets.buckets
      modifies this`live, packets, packets.buckets, packets.order, packets.contents.Values, buffer
      ensures outside <==> Retrievable(old(Store()), key, size) && !Within(old(Store())[key].frags, buffer.Length)
      ensures !outside ==> Valid() && OwnsOldOrFresh()
      ensures !outside ==>
        Spec.GetFullMessage(old(Store()), key, old(buffer[..]), size) == Got(Store(), ok, size', buffer[..])
    {
      hide Allocations, Table.Valid, CopiedAll, Within;
      ghost var store := Store();
      var h := packets.Find(key);
      if h == null { return false, size, false; }
      var p := h.value;
      assert p.Value() == store[key];
      if !p.isFull { return false, 0, false; }
      if size < p.fullSize { return false, size, false; }
      ok, size' := true, p.fullSize;
      outside := Retrieve(h, buffer);
    }

    // The inner loop of reassembly_garbage_collect
    method FreeFragments(p: FullPacket)
      modifies this`live, p`head
      ensures p.head == [] && live == old(live) - 2 * |old(p.head)|
    {
      while p.head != []
        invariant live == old(live) - 2 * (|old(p.head)| - |p.head|)
        decreases |p.head|
      {
        live := live - 1;
        p.head := p.head[1..];
        live := live - 1;
      }
    }

    method Discard(h: Handle<Key, FullPacket>)
      requires Valid()
      requires h in packets.order && h.key in packets.contents && packets.contents[h.key] == h.value
      modifies this`live, packets, packets.buckets, packets.order, h.value
      ensures Valid() && packets.contents == old(packets.contents) - {h.key}
      ensures Store() == old(Store()) - {h.key}
      ensures exists k ::
        0 <= k < |old(packets.order)| && old(packets.order)[k] == h && packets.order == Without(old(packets.order), k)
      ensures packets.buckets == old(packets.buckets)
    {
      hide Allocations, Table.Valid, Without;
      ghost var store := Store();
      ghost var p := h.value.Value();
      FreeFragments(h.value);
      assert packets.Valid();
      assert forall k :: k in packets.contents && k != h.key ==> packets.contents[k] != h.value;
      assert Store()[h.key := p] == store;
      DropPacket(h, p);
      assert Store() == store - {h.key};
    }

    // What the list says of the handle at which a pass has arrived.
    lemma InPlace(kept: seq<Handle<Key, FullPacket>>, was: seq<Handle<Key, FullPacket>>, i: nat)
      requires Valid() && i < |was| && packets.order == kept + was[i..]
      ensures was[i] in packets.order && Distinct(packets.order)
      ensures was[i].key in packets.contents && packets.contents[was[i].key] == was[i].value
      ensures was[i].next == At(was, i + 1)
    {
      hide Placed, Filled, Allocations;
      assert packets.order[|kept|] == was[i];
      AtIs(packets.order, |kept| + 1);
    }

    lemma AllListed()
      requires Valid()
      ensures packets.head == At(packets.order, 0)
      ensures forall k :: k in Store() ==> k in Keys(packets.order)
      ensures DistinctKeys(packets.order)
    {
    }

    // One round of the collecting pass.
    method Examine(fp: Handle<Key, FullPacket>, timeoutS: nat, now: nat,
                   ghost kept: seq<Handle<Key, FullPacket>>, ghost was: seq<Handle<Key, FullPacket>>, ghost i: nat)
      returns (ghost kept': seq<Handle<Key, FullPacket>>)
      requires Valid() && NoLaterThan(Store(), now)
      requires i < |was| && fp == was[i] && packets.order == kept + was[i..]
      modifies this`live, packets, packets.buckets, packets.order, packets.contents.Values
      ensures Valid() && packets.order == kept' + was[i + 1..]
      ensures forall j :: 0 <= j < |packets.order| ==> packets.order[j] in old(packets.order)
      ensures fp.key in old(Store())
      ensures Store() == if Expired(old(Store())[fp.key], timeoutS, now) then old(Store()) - {fp.key} else old(Store())
      ensures packets.contents.Values <= old(packets.contents.Values)
      ensures packets.buckets == old(packets.buckets)
    {
      hide Table.Valid, Allocations, Without, Distinct;
      InPlace(kept, was, i);
      assert Store()[fp.key] == fp.value.Value();
      assert was[i..] == [fp] + was[i + 1..];
      var lastActivity := ((now - fp.value.stamp) / 1000) % 0x1_0000_0000;
      if lastActivity > timeoutS {
        ghost var order := packets.order;
        Discard(fp);
        ghost var k: nat :| k < |order| && order[k] == fp && packets.order == Without(order, k);
        CutAt(kept, was, i, k);
        kept' := kept;
      } else {
        kept' := kept + [fp];
      }
    }

    // Where a pass stands: it has kept these, is at fp, the i-th of the original list, and has
    // already fetched the one after it.
    ghost predicate Pass(kept: seq<Handle<Key, FullPacket>>, was: seq<Handle<Key, FullPacket>>, i: nat,
                         fp: Handle?<Key, FullPacket>, tmp: Handle?<Key, FullPacket>)
      reads packets
    {
      && i <= |was| && packets.order == kept + was[i..]
      && (forall j :: 0 <= j < |packets.order| ==> packets.order[j] in was)
      && fp == At(was, i) && tmp == At(was, i + 1)
    }

    // One turn of the loop, with the advance of HASH_ITER.
    method Turn(fp: Handle<Key, FullPacket>, tmp: Handle?<Key, FullPacket>, timeoutS: nat, now: nat,
                ghost kept: seq<Handle<Key, FullPacket>>, ghost was: seq<Handle<Key, FullPacket>>, ghost i: nat)
      returns (after: Handle?<Key, FullPacket>, ghost kept': seq<Handle<Key, FullPacket>>)
      requires Valid() && NoLaterThan(Store(), now) && Pass(kept, was, i, fp, tmp)
      modifies this`live, packets, packets.buckets, packets.order, packets.contents.Values
      ensures Valid() && i < |was| && was[i] == fp && Pass(kept', was, i + 1, tmp, after)
      ensures fp.key in old(Store())
      ensures Store() == if Expired(old(Store())[fp.key], timeoutS, now) then old(Store()) - {fp.key} else old(Store())
      ensures packets.contents.Values <= old(packets.contents.Values)
      ensures packets.buckets == old(packets.buckets)
    {
      hide Valid, NoLaterThan, At;
      AtIs(was, i);
      AtIs(was, i + 1);
      AtIs(was, i + 2);
      kept' := Examine(fp, timeoutS, now, kept, was, i);
      if i + 1 < |was| { InPlace(kept', was, i + 1); }
      after := if tmp != null then tmp.next else null;
    }

    // reassembly_garbage_collect: one pass over the application-order list, deleting on the way.
    method GarbageCollect(timeoutS: nat, clock: nat -> nat) returns (ghost read: map<Key, nat>)
      requires Valid() && NoLaterThan(Store(), clock(0)) && Monotonic(clock)
      modifies this`live, packets, packets.buckets, packets.order, packets.contents.Values
      ensures Valid()
      ensures forall i :: 0 <= i < |old(packets.order)| ==>
        old(packets.order)[i].key in read && read[old(packets.order)[i].key] == clock(i)
      ensures forall k :: k in read ==> Shown(clock, read[k])
      ensures AllRead(old(Store()), read) && Store() == Spec.GarbageCollectAt(old(Store()), timeoutS, read)
      ensures packets.buckets == old(packets.buckets)
    {
      hide Valid, StoreOf, Surviving, Keys, NoLaterThan, Spec.GarbageCollectAt, AllRead, At, Pass, Monotonic;
      hide DistinctKeys, ReadPast, Shown;
      ghost var was, store := packets.order, Store();
      ghost var kept := [];
      var i: nat := 0;   // clock readings so far
      read := map[];
      assert was[..0] == [];
      SurvivingStarts(store, timeoutS);
      var fp := packets.head;
      var tmp := if fp != null then fp.next else null;
      PassStarts();
      while fp != null
        invariant Valid() && Pass(kept, was, i, fp, tmp)
        invariant packets.buckets == old(packets.buckets)
        invariant packets.contents.Values <= old(packets.contents.Values)
        invariant i <= |was| && read.Keys == Keys(was[..i])
        invariant forall j :: 0 <= j < i ==> was[j].key in read && read[was[j].key] == clock(j)
        invariant forall k :: k in read ==> Shown(clock, read[k])
        invariant ReadPast(store, read) && Store() == Surviving(store, read, timeoutS)
        decreases |was| - i
      {
        ClockStaysLater(store, clock, i);
        SurvivingPast(store, read, timeoutS, clock(i));
        ListUnchanged(kept, was, i, fp, tmp);
        var after: Handle?<Key, FullPacket>;
        after, kept := Turn(fp, tmp, timeoutS, clock(i), kept, was, i);
        KeysDiffer(was, i);
        SurvivingStep(store, read, fp.key, timeoutS, clock(i));
        KeysStep(was, i);
        read := read[fp.key := clock(i)];
        i := i + 1;
        fp, tmp := tmp, after;
      }
      PassEnds(kept, was, i, tmp);
      assert was[..i] == was;
      SurvivingEnds(store, read, timeoutS);
    }

    lemma PassStarts()
      requires Valid()
      ensures var fp := packets.head; Pass([], packets.order, 0, fp, if fp != null then fp.next else null)
      ensures forall k :: k in Store() ==> k in Keys(packets.order)
      ensures DistinctKeys(packets.order)
    {
      hide StoreOf, At, Valid, DistinctKeys, Keys;
      var was := packets.order;
      assert was[0..] == was;
      AllListed();
      AtIs(was, 0);
      AtIs(was, 1);
      if was != [] { InPlace([], was, 0); }
    }

    lemma PassEnds(kept: seq<Handle<Key, FullPacket>>, was: seq<Handle<Key, FullPacket>>, i: nat,
                   tmp: Handle?<Key, FullPacket>)
      requires Pass(kept, was, i, null, tmp)
      ensures i == |was|
    {
    }

    lemma ListUnchanged(kept: seq<Handle<Key, FullPacket>>, was: seq<Handle<Key, FullPacket>>, i: nat,
                        fp: Handle?<Key, FullPacket>, tmp: Handle?<Key, FullPacket>)
      requires Pass(kept, was, i, fp, tmp)
      ensures forall j :: 0 <= j < |packets.order| ==> packets.order[j] in was
    {
    }
  }

  ghost predicate DistinctKeys(was: seq<Handle<Key, FullPacket>>) {
    forall a, b :: 0 <= a < b < |was| ==> was[a].key != was[b].key
  }

  lemma KeysDiffer(was: seq<Handle<Key, FullPacket>>, i: nat)
    requires DistinctKeys(was) && i < |was|
    ensures was[i].key !in Keys(was[..i])
  {
  }

  lemma KeysStep(was: seq<Handle<Key, FullPacket>>, i: nat)
    requires i < |was|
    ensures Keys(was[..i + 1]) == Keys(was[..i]) + {was[i].key}
  {
    assert was[..i + 1] == was[..i] + [was[i]];
  }

  // A clock that does not run backwards; clock(i) is its i-th reading.
  ghost predicate Monotonic(clock: nat -> nat) {
    forall i, j :: 0 <= i <= j ==> clock(i) <= clock(j)
  }

  ghost predicate Shown(clock: nat -> nat, t: nat) { exists i: nat :: clock(i) == t }

  lemma ClockStaysLater(store: Store, clock: nat -> nat, i: nat)
    requires NoLaterThan(store, clock(0)) && Monotonic(clock)
    ensures NoLaterThan(store, clock(i)) && Shown(clock, clock(i))
  {
  }

  predicate ReadPast(store: Store, read: map<Key, nat>) {
    forall k :: k in store && k in read ==> store[k].stamp <= read[k]
  }

  lemma SurvivingStarts(store: Store, timeoutS: nat)
    ensures ReadPast(store, map[]) && Surviving(store, map[], timeoutS) == store && Keys([]) == {}
  {
  }

  lemma SurvivingEnds(store: Store, read: map<Key, nat>, timeoutS: nat)
    requires ReadPast(store, read) && store.Keys <= read.Keys
    ensures AllRead(store, read) && Surviving(store, read, timeoutS) == Spec.GarbageCollectAt(store, timeoutS, read)
  {
  }

  lemma SurvivingPast(store: Store, read: map<Key, nat>, timeoutS: nat, now: nat)
    requires ReadPast(store, read) && NoLaterThan(store, now)
    ensures NoLaterThan(Surviving(store, read, timeoutS), now)
  {
  }

  lemma SurvivingStep(store: Store, read: map<Key, nat>, key: Key, timeoutS: nat, now: nat)
    requires ReadPast(store, read) && NoLaterThan(store, now) && key !in read
    ensures ReadPast(store, read[key := now])
    ensures var before := Surviving(store, read, timeoutS);
      key in before ==>
        before[key].stamp <= now
        && Surviving(store, read[key := now], timeoutS)
           == if Expired(before[key], timeoutS, now) then before - {key} else before
  {
  }

  ghost function Keys(s: seq<Handle<Key, FullPacket>>): set<Key> {
    set h | h in s :: h.key
  }

  // The store after the packets in read have been examined.
  ghost function Surviving(store: Store, read: map<Key, nat>, timeoutS: nat): Store
    requires ReadPast(store, read)
  {
    map k | k in store && !(k in read && Expired(store[k], timeoutS, read[k])) :: store[k]
  }

  lemma CutAt<T>(kept: seq<T>, was: seq<T>, i: nat, k: nat)
    requires i < |was| && Distinct(kept + was[i..]) && k < |kept| + |was| - i && (kept + was[i..])[k] == was[i]
    ensures Without(kept + was[i..], k) == kept + was[i + 1..]
  {
    var s := kept + was[i..];
    assert s[|kept|] == was[i];
    assert k == |kept|;
  }

  lemma CopiesStep(buffer: seq<byte>, frags: seq<Stored>)
    requires frags != [] && frags[0].offset + |frags[0].bytes| <= |buffer|
    ensures Within(frags, |buffer|) <==> Within(frags[1..], |buffer|)
    ensures Within(frags, |buffer|) ==> CopiedAll(buffer, frags) == CopiedAll(Copied(buffer, frags[0]), frags[1..])
  {
    WithinSplit(frags, |buffer|);
  }

  lemma PutTwice(store: Store, key: Key, p: Packet, q: Packet)
    ensures store[key := p][key := q] == store[key := q]
  {
  }

  lemma FragmentCount(p: Packet, f: Fragment, now: nat)
    ensures |Checked(WithFragment(p, f, now)).frags| == |p.frags| + 1
  {
  }
}
