/**
 Fragments of one packet as reassembly.c stores them: when is the packet complete, and what does
 copying the fragments into a buffer produce?
 */
module Fragments {
  import opened Bytes

  // internal_fragment_t
  datatype Stored = Stored(offset: nat, bytes: seq<byte>)

  /* ---------- Completeness is a sum ---------- */

  // The sum is_packet_full compares with the full size.
  function SumSizes(frags: seq<Stored>): nat {
    if frags == [] then 0 else |frags[0].bytes| + SumSizes(frags[1..])
  }

  // The positions first <= i < end.
  function Range(first: nat, end: nat): (r: set<int>)
    requires first <= end
    ensures forall i :: i in r <==> first <= i < end
    ensures |r| == end - first
    decreases end
  {
    if first == end then {} else Range(first, end - 1) + {end - 1}
  }

  // The packet octets a fragment holds.
  function Cells(f: Stored): set<int> {
    Range(f.offset, f.offset + |f.bytes|)
  }

  predicate Disjoint(frags: seq<Stored>) {
    forall i, j :: 0 <= i < j < |frags| ==> Cells(frags[i]) !! Cells(frags[j])
  }

  predicate Within(frags: seq<Stored>, size: nat) {
    forall f :: f in frags ==> f.offset + |f.bytes| <= size
  }

  // Some fragment holds octet i of the packet.
  predicate Held(frags: seq<Stored>, i: int) {
    exists f :: f in frags && f.offset <= i < f.offset + |f.bytes|
  }

  predicate Covers(frags: seq<Stored>, size: nat) {
    forall i :: 0 <= i < size ==> Held(frags, i)
  }

  ghost function AllCells(frags: seq<Stored>): set<int> {
    if frags == [] then {} else Cells(frags[0]) + AllCells(frags[1..])
  }

  lemma {:induction false} AllCellsIff(frags: seq<Stored>, i: int)
    ensures i in AllCells(frags) <==> Held(frags, i)
  {
    if frags != [] {
      AllCellsIff(frags[1..], i);
      if Held(frags, i) {
        var f :| f in frags && f.offset <= i < f.offset + |f.bytes|;
        assert f == frags[0] || f in frags[1..];
      }
      if i in Cells(frags[0]) { assert frags[0] in frags; }
    }
  }

  lemma UnionSize(a: set<int>, b: set<int>)
    ensures |a + b| <= |a| + |b|
    ensures |a + b| == |a| + |b| <==> a !! b
  {
    assert |a + b| == |a| + |b| - |a * b|;
  }

  lemma DisjointTail(frags: seq<Stored>)
    requires frags != [] && Disjoint(frags)
    ensures Disjoint(frags[1..])
  {
    hide Cells;
    var rest := frags[1..];
    forall i, j | 0 <= i < j < |rest|
      ensures Cells(rest[i]) !! Cells(rest[j])
    {
      assert rest[i] == frags[i + 1] && rest[j] == frags[j + 1];
    }
  }

  lemma DisjointParts(frags: seq<Stored>)
    requires frags != [] && Disjoint(frags)
    ensures Disjoint(frags[1..]) && Cells(frags[0]) !! AllCells(frags[1..])
  {
    hide AllCells;
    DisjointTail(frags);
    var rest := frags[1..];
    forall i | i in AllCells(rest)
      ensures i !in Cells(frags[0])
    {
      AllCellsIff(rest, i);
      var k :| 0 <= k < |rest| && rest[k].offset <= i < rest[k].offset + |rest[k].bytes|;
      assert frags[k + 1] == rest[k] && i in Cells(frags[k + 1]);
    }
  }

  lemma DisjointWhole(frags: seq<Stored>)
    requires frags != [] && Disjoint(frags[1..]) && Cells(frags[0]) !! AllCells(frags[1..])
    ensures Disjoint(frags)
  {
    var rest := frags[1..];
    forall i, j | 0 <= i < j < |frags|
      ensures Cells(frags[i]) !! Cells(frags[j])
    {
      assert frags[j] == rest[j - 1];
      if i > 0 {
        assert frags[i] == rest[i - 1];
      } else {
        forall c | c in Cells(frags[j])
          ensures c in AllCells(rest)
        {
          AllCellsIff(rest, c);
        }
      }
    }
  }

  // The sizes add up to the number of octets held exactly when no octet is held twice.
  lemma {:induction false} SumCountsCells(frags: seq<Stored>)
    ensures |AllCells(frags)| <= SumSizes(frags)
    ensures |AllCells(frags)| == SumSizes(frags) <==> Disjoint(frags)
  {
    if frags != [] {
      SumCountsCells(frags[1..]);
      UnionSize(Cells(frags[0]), AllCells(frags[1..]));
      if Disjoint(frags) { DisjointParts(frags); }
      if Disjoint(frags[1..]) && Cells(frags[0]) !! AllCells(frags[1..]) { DisjointWhole(frags); }
    }
  }

  lemma SubsetSize(a: set<int>, b: set<int>)
    requires a <= b
    ensures |a| <= |b|
    ensures |a| == |b| ==> a == b
  {
    assert b == a + (b - a);
    assert |b| == |a| + |b - a|;
  }

  lemma CoversIff(frags: seq<Stored>, size: nat)
    requires Within(frags, size)
    ensures AllCells(frags) <= Range(0, size)
    ensures Covers(frags, size) <==> AllCells(frags) == Range(0, size)
  {
    forall i | i in AllCells(frags)
      ensures i in Range(0, size)
    {
      AllCellsIff(frags, i);
    }
    forall i | 0 <= i < size
      ensures i in AllCells(frags) <==> Held(frags, i)
    {
      AllCellsIff(frags, i);
    }
  }

  // For pairwise disjoint fragments inside the packet, the sum test is the right one.
  lemma SumTestIffCovered(frags: seq<Stored>, size: nat)
    requires Within(frags, size) && Disjoint(frags)
    ensures SumSizes(frags) <= size
    ensures SumSizes(frags) == size <==> Covers(frags, size)
  {
    SumCountsCells(frags);
    CoversIff(frags, size);
    SubsetSize(AllCells(frags), Range(0, size));
  }

  // No octet lies beyond the packet; a fragment without octets may claim any offset.
  predicate Inside(frags: seq<Stored>, size: nat) {
    forall f :: f in frags && f.bytes != [] ==> f.offset + |f.bytes| <= size
  }

  lemma InsideIff(frags: seq<Stored>, size: nat)
    ensures Inside(frags, size) <==> AllCells(frags) <= Range(0, size)
  {
    if Inside(frags, size) {
      forall i | i in AllCells(frags)
        ensures i in Range(0, size)
      {
        AllCellsIff(frags, i);
      }
    }
    if AllCells(frags) <= Range(0, size) {
      forall f | f in frags && f.bytes != []
        ensures f.offset + |f.bytes| <= size
      {
        AllCellsIff(frags, f.offset + |f.bytes| - 1);
      }
    }
  }

  lemma CoversMeans(frags: seq<Stored>, size: nat)
    ensures Covers(frags, size) <==> Range(0, size) <= AllCells(frags)
  {
    forall i | 0 <= i < size
      ensures i in AllCells(frags) <==> Held(frags, i)
    {
      AllCellsIff(frags, i);
    }
  }

  // What the sum test says of any fragments: when it passes, the packet is covered exactly if no
  // octet comes twice and none lies beyond the packet.
  lemma SumTestMeaning(frags: seq<Stored>, size: nat)
    requires SumSizes(frags) == size
    ensures Covers(frags, size) <==> Disjoint(frags) && Inside(frags, size)
  {
    hide Covers, Inside, Disjoint, AllCells, SumSizes;
    SumCountsCells(frags);
    CoversMeans(frags, size);
    InsideIff(frags, size);
    if Range(0, size) <= AllCells(frags) { SubsetSize(Range(0, size), AllCells(frags)); }
    if AllCells(frags) <= Range(0, size) { SubsetSize(AllCells(frags), Range(0, size)); }
  }

  // Three fragments that hold [0..2), [1..3) and the end of a packet of five octets
  function Overlapping(): (r: seq<Stored>)
    ensures |r| == 3 && r[0] == Stored(4, [3]) && r[1] == Stored(1, [2, 2]) && r[2] == Stored(0, [1, 1])
  {
    [Stored(4, [3]), Stored(1, [2, 2]), Stored(0, [1, 1])]
  }

  // They lie inside the packet at different offsets and pass the sum test, and octet 3 is left out.
  lemma SumTestFooledByOverlap()
    ensures var frags := Overlapping();
      Inside(frags, 5) && SumSizes(frags) == 5 && !Covers(frags, 5) && !Held(frags, 3)
  {
    var frags := Overlapping();
    assert frags[1..] == [Stored(1, [2, 2]), Stored(0, [1, 1])] && frags[1..][1..] == [Stored(0, [1, 1])];
    assert frags[1..][1..][1..] == [];
    assert !Held(frags, 3);
  }

  // Two disjoint fragments, one of them beyond the packet, pass it and leave octet 0 out.
  lemma SumTestFooledByOffset()
    ensures var frags := [Stored(2, [1, 1]), Stored(100, [2, 2])];
      Disjoint(frags) && SumSizes(frags) == 4 && !Covers(frags, 4)
  {
    var frags := [Stored(2, [1, 1]), Stored(100, [2, 2])];
    assert frags[1..] == [Stored(100, [2, 2])] && frags[1..][1..] == [];
    assert !Held(frags, 0);
  }

  /* ---------- Copying the fragments out ---------- */

  // memcpy of one fragment into the buffer
  function Copied(buffer: seq<byte>, f: Stored): (r: seq<byte>)
    requires f.offset + |f.bytes| <= |buffer|
    ensures |r| == |buffer|
  {
    buffer[..f.offset] + f.bytes + buffer[f.offset + |f.bytes|..]
  }

  // All fragments copied, in list order.
  function CopiedAll(buffer: seq<byte>, frags: seq<Stored>): (r: seq<byte>)
    requires Within(frags, |buffer|)
    ensures |r| == |buffer|
    decreases |frags|
  {
    if frags == [] then buffer
    else
      assert frags[0] in frags;
      CopiedAll(Copied(buffer, frags[0]), frags[1..])
  }

  lemma CopiedAt(buffer: seq<byte>, f: Stored, i: int)
    requires f.offset + |f.bytes| <= |buffer| && 0 <= i < |buffer|
    ensures Copied(buffer, f)[i]
      == if f.offset <= i < f.offset + |f.bytes| then f.bytes[i - f.offset] else buffer[i]
  {
  }

  lemma CopiedNone(buffer: seq<byte>)
    ensures Within([], |buffer|) && CopiedAll(buffer, []) == buffer
  {
  }

  lemma WithinSplit(frags: seq<Stored>, size: nat)
    requires frags != []
    ensures Within(frags, size) <==> frags[0].offset + |frags[0].bytes| <= size && Within(frags[1..], size)
  {
    assert forall f :: f in frags <==> f == frags[0] || f in frags[1..];
  }

  lemma CopiedUnfolded(buffer: seq<byte>, frags: seq<Stored>)
    requires frags != [] && Within(frags, |buffer|) && Within(frags[1..], |buffer|)
    requires frags[0].offset + |frags[0].bytes| <= |buffer|
    ensures CopiedAll(buffer, frags) == CopiedAll(Copied(buffer, frags[0]), frags[1..])
  {
    hide Copied, Within;
  }

  // The first fragment is copied first.
  lemma CopiedFirst(buffer: seq<byte>, frags: seq<Stored>, i: int)
    requires frags != [] && Within(frags, |buffer|)
    ensures frags[0].offset + |frags[0].bytes| <= |buffer| && Within(frags[1..], |buffer|)
    ensures CopiedAll(buffer, frags) == CopiedAll(Copied(buffer, frags[0]), frags[1..])
    ensures 0 <= i < |buffer| ==>
      Copied(buffer, frags[0])[i]
      == if frags[0].offset <= i < frags[0].offset + |frags[0].bytes| then frags[0].bytes[i - frags[0].offset]
         else buffer[i]
  {
    hide Copied, CopiedAll, Within;
    WithinSplit(frags, |buffer|);
    CopiedUnfolded(buffer, frags);
    if 0 <= i < |buffer| { CopiedAt(buffer, frags[0], i); }
  }

  // Octets no fragment holds keep their old value; octets of a fragment disjoint from all others
  // end up in their place.
  lemma {:induction false} CopiedUntouched(buffer: seq<byte>, frags: seq<Stored>, i: int)
    requires Within(frags, |buffer|) && 0 <= i < |buffer| && !Held(frags, i)
    ensures CopiedAll(buffer, frags)[i] == buffer[i]
    decreases |frags|
  {
    if frags != [] {
      assert frags[0] in frags;
      assert forall f :: f in frags[1..] ==> f in frags;
      CopiedUntouched(Copied(buffer, frags[0]), frags[1..], i);
    }
  }

  // An octet some fragment holds ends up as one of the octets held for that place.
  lemma {:induction false} CopiedHeld(buffer: seq<byte>, frags: seq<Stored>, i: int) returns (k: nat)
    requires Within(frags, |buffer|) && Held(frags, i)
    ensures k < |frags| && frags[k].offset <= i < frags[k].offset + |frags[k].bytes| <= |buffer|
    ensures CopiedAll(buffer, frags)[i] == frags[k].bytes[i - frags[k].offset]
    decreases |frags|
  {
    hide Copied, CopiedAll;
    CopiedFirst(buffer, frags, i);
    var next := Copied(buffer, frags[0]);
    if Held(frags[1..], i) {
      var j := CopiedHeld(next, frags[1..], i);
      k := j + 1;
    } else {
      assert forall f :: f in frags ==> f == frags[0] || f in frags[1..];
      CopiedUntouched(next, frags[1..], i);
      k := 0;
    }
  }

  // The rest leave the octets of the first fragment alone.
  lemma FirstStays(buffer: seq<byte>, frags: seq<Stored>, i: int)
    requires frags != [] && Within(frags, |buffer|) && Disjoint(frags)
    requires frags[0].offset <= i < frags[0].offset + |frags[0].bytes|
    ensures i < |buffer| && CopiedAll(buffer, frags)[i] == frags[0].bytes[i - frags[0].offset]
  {
    hide Disjoint, Held, AllCells, Copied, CopiedAll, Within;
    CopiedFirst(buffer, frags, i);
    DisjointParts(frags);
    AllCellsIff(frags[1..], i);
    assert i in Cells(frags[0]);
    CopiedUntouched(Copied(buffer, frags[0]), frags[1..], i);
  }

  lemma {:induction false} CopiedInPlace(buffer: seq<byte>, frags: seq<Stored>, k: nat, i: int)
    requires Within(frags, |buffer|) && Disjoint(frags)
    requires k < |frags| && frags[k].offset <= i < frags[k].offset + |frags[k].bytes|
    ensures frags[k] in frags && i < |buffer|
    ensures CopiedAll(buffer, frags)[i] == frags[k].bytes[i - frags[k].offset]
    decreases |frags|
  {
    hide CopiedAll, Disjoint, Cells, Within;
    CopiedFirst(buffer, frags, i);
    DisjointTail(frags);
    assert frags[k] in frags;
    if k == 0 {
      FirstStays(buffer, frags, i);
    } else {
      assert frags[k] == frags[1..][k - 1];
      CopiedInPlace(Copied(buffer, frags[0]), frags[1..], k - 1, i);
    }
  }
}
