/** The table of dsap.c that remembers which callback to call when the stack reports a packet as sent. */
module CallbackTable {
  const MAX_SENT_PACKET_WITH_INDICATION := 16

  type Callback = nat

  datatype Slot = Slot(cb: Callback, pduId: nat, busy: bool)

  datatype Found = NoCallback | Registered(cb: Callback)

  /* ---------- Both operations as functions of the table ---------- */

  function FirstFree(table: seq<Slot>, i: nat): (k: nat)
    requires i <= |table|
    ensures i <= k <= |table|
    ensures forall j :: i <= j < k ==> table[j].busy
    ensures k < |table| ==> !table[k].busy
    decreases |table| - i
  {
    if i == |table| || !table[i].busy then i else FirstFree(table, i + 1)
  }

  lemma {:induction false} FirstFreeIs(table: seq<Slot>, i: nat, k: nat)
    requires i <= k <= |table| && (forall j :: i <= j < k ==> table[j].busy)
    requires k < |table| ==> !table[k].busy
    ensures FirstFree(table, i) == k
    decreases k - i
  {
    if i < k { FirstFreeIs(table, i + 1, k); }
  }

  function Register(table: seq<Slot>, cb: Callback, pduId: nat): seq<Slot> {
    var k := FirstFree(table, 0);
    if k < |table| then table[k := Slot(cb, pduId, true)] else table
  }

  predicate Holds(slot: Slot, pduId: nat) { slot.busy && slot.pduId == pduId }

  function Released(slot: Slot, pduId: nat): Slot {
    if Holds(slot, pduId) then slot.(busy := false) else slot
  }

  // Every entry with this id is released, not only the first.
  function Release(table: seq<Slot>, pduId: nat): (r: seq<Slot>)
    ensures |r| == |table|
    ensures forall i :: 0 <= i < |table| ==> r[i] == Released(table[i], pduId)
  {
    seq(|table|, i requires 0 <= i < |table| => Released(table[i], pduId))
  }

  // The callback of the last entry with this id, among the first n
  function CallbackOf(table: seq<Slot>, pduId: nat, n: nat): (r: Found)
    requires n <= |table|
    ensures r.NoCallback? <==> forall i :: 0 <= i < n ==> !Holds(table[i], pduId)
    ensures r.Registered? ==> exists i ::
      && 0 <= i < n && Holds(table[i], pduId) && table[i].cb == r.cb
      && forall j :: i < j < n ==> !Holds(table[j], pduId)
  {
    if n == 0 then NoCallback
    else if Holds(table[n - 1], pduId) then Registered(table[n - 1].cb)
    else CallbackOf(table, pduId, n - 1)
  }

  /* ---------- The loops ---------- */

  class IndicationTable {
    const entries: array<Slot>

    constructor ()
      ensures fresh(entries) && entries.Length == MAX_SENT_PACKET_WITH_INDICATION
      ensures forall i :: 0 <= i < entries.Length ==> !entries[i].busy
    {
      entries := new Slot[MAX_SENT_PACKET_WITH_INDICATION](_ => Slot(0, 0, false));
    }

    method SetIndicationCb(cb: Callback, pduId: nat) returns (ok: bool)
      modifies entries
      ensures ok <==> exists i :: 0 <= i < entries.Length && !old(entries[i].busy)
      ensures entries[..] == Register(old(entries[..]), cb, pduId)
    {
      var i := 0;
      while i < entries.Length
        invariant 0 <= i <= entries.Length
        invariant entries[..] == old(entries[..])
        invariant FirstFree(entries[..], 0) == FirstFree(entries[..], i)
        invariant forall j :: 0 <= j < i ==> entries[j].busy
      {
        if !entries[i].busy {
          entries[i] := Slot(cb, pduId, true);
          break;
        }
        i := i + 1;
      }
      ok := i < entries.Length;
    }

    method GetIndicationCb(pduId: nat) returns (cb: Found)
      modifies entries
      ensures cb == CallbackOf(old(entries[..]), pduId, entries.Length)
      ensures entries[..] == Release(old(entries[..]), pduId)
    {
      cb := NoCallback;
      for i := 0 to entries.Length
        invariant cb == CallbackOf(old(entries[..]), pduId, i)
        invariant forall j :: 0 <= j < i ==> entries[j] == Released(old(entries[j]), pduId)
        invariant forall j :: i <= j < entries.Length ==> entries[j] == old(entries[j])
      {
        if entries[i].busy && entries[i].pduId == pduId {
          cb := Registered(entries[i].cb);
          entries[i] := entries[i].(busy := false);
        }
      }
    }
  }

  /* ---------- What the table holds in all ---------- */

  function Weight(slot: Slot): nat { if slot.busy then slot.pduId / 0x100 else 0 }

  // The high bytes of the ids of the busy entries among the first n, summed
  function Total(table: seq<Slot>, n: nat): nat
    requires n <= |table|
  {
    if n == 0 then 0 else Total(table, n - 1) + Weight(table[n - 1])
  }

  function Matches(table: seq<Slot>, pduId: nat, n: nat): nat
    requires n <= |table|
  {
    if n == 0 then 0 else Matches(table, pduId, n - 1) + if Holds(table[n - 1], pduId) then 1 else 0
  }

  lemma {:induction false} TotalAfterUpdate(table: seq<Slot>, k: nat, slot: Slot, n: nat)
    requires k < |table| && n <= |table|
    ensures Total(table[k := slot], n)
      == Total(table, n) + if k < n then Weight(slot) - Weight(table[k]) else 0
  {
    if n > 0 { TotalAfterUpdate(table, k, slot, n - 1); }
  }

  // A free entry takes the whole weight of the new id.
  lemma TotalAfterRegister(table: seq<Slot>, cb: Callback, pduId: nat)
    ensures var k := FirstFree(table, 0);
      Total(Register(table, cb, pduId), |table|)
      == Total(table, |table|) + if k < |table| then pduId / 0x100 else 0
  {
    var k := FirstFree(table, 0);
    if k < |table| { TotalAfterUpdate(table, k, Slot(cb, pduId, true), |table|); }
  }

  lemma Distribute(w: nat, m: nat)
    ensures w * (m + 1) == w * m + w
  {
  }

  // Releasing an id takes its weight out once for every entry that carries it.
  lemma {:induction false} TotalAfterRelease(table: seq<Slot>, pduId: nat, n: nat)
    requires n <= |table|
    ensures Total(Release(table, pduId), n) + (pduId / 0x100) * Matches(table, pduId, n) == Total(table, n)
  {
    if n > 0 {
      TotalAfterRelease(table, pduId, n - 1);
      Distribute(pduId / 0x100, Matches(table, pduId, n - 1));
    }
  }

  // A busy entry with at least weight one counts, so a full table holds at least its length.
  lemma {:induction false} FullTableTotal(table: seq<Slot>, n: nat)
    requires n <= |table|
    requires forall i :: 0 <= i < n ==> table[i].busy && table[i].pduId >= 0x100
    ensures Total(table, n) >= n
  {
    if n > 0 { FullTableTotal(table, n - 1); }
  }

  predicate DistinctIds(table: seq<Slot>) {
    forall i, j :: 0 <= i < j < |table| && table[i].busy && table[j].busy ==> table[i].pduId != table[j].pduId
  }

  lemma {:induction false} MatchesWhenDistinct(table: seq<Slot>, pduId: nat, n: nat)
    requires n <= |table| && DistinctIds(table)
    ensures Matches(table, pduId, n) == if CallbackOf(table, pduId, n).Registered? then 1 else 0
  {
    if n > 0 {
      MatchesWhenDistinct(table, pduId, n - 1);
      if Holds(table[n - 1], pduId) {
        assert forall i :: 0 <= i < n - 1 ==> !Holds(table[i], pduId);
      }
    }
  }

  lemma {:induction false} NoneWhenNoMatch(table: seq<Slot>, pduId: nat, n: nat)
    requires n <= |table|
    ensures Matches(table, pduId, n) == 0 <==> CallbackOf(table, pduId, n).NoCallback?
  {
    if n > 0 { NoneWhenNoMatch(table, pduId, n - 1); }
  }

  lemma {:induction false} EmptyTable(table: seq<Slot>, n: nat)
    requires n <= |table| && forall i :: 0 <= i < n ==> !table[i].busy
    ensures Total(table, n) == 0
  {
    if n > 0 { EmptyTable(table, n - 1); }
  }

  predicate SameOutstanding(a: seq<Slot>, b: seq<Slot>) {
    && |a| == |b|
    && forall i :: 0 <= i < |a| ==> a[i].busy == b[i].busy && (b[i].busy ==> a[i] == b[i])
  }

  // What was registered is found again and released: the table holds what it held before.
  lemma RegisterThenRelease(table: seq<Slot>, cb: Callback, pduId: nat)
    requires FirstFree(table, 0) < |table|
    requires forall i :: 0 <= i < |table| ==> !Holds(table[i], pduId)
    ensures var registered := Register(table, cb, pduId);
      && CallbackOf(registered, pduId, |table|) == Registered(cb)
      && SameOutstanding(Release(registered, pduId), table)
  {
    var k := FirstFree(table, 0);
    assert Holds(Register(table, cb, pduId)[k], pduId);
  }
}
