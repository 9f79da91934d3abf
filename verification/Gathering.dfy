/**
 One packet from the sender's tiles to the receiver's buffer: while a set S of tiles has arrived the
 packet holds exactly those, it becomes full when S is complete, and it then copies out the payload.
 */
module Gathering {
  import opened Bytes
  import opened Fragments
  import opened Tiles
  import opened ReassemblySpec
  import opened DsapTx
  import opened DsapRx

  // One fragmented packet: what the sender was given, and the key the receiver files it under.
  datatype Msg = Msg(key: Key, payload: seq<byte>, mtu: nat)

  predicate Sendable(msg: Msg) {
    1 <= msg.mtu <= MAX_APDU_DSAP_SIZE && msg.mtu < |msg.payload| <= MAX_FULL_PACKET_SIZE
  }

  function Size(msg: Msg): nat
    requires Sendable(msg)
  {
    Count(|msg.payload|, msg.mtu)
  }

  function TileAt(msg: Msg, i: nat): (t: Stored)
    requires Sendable(msg) && i < Size(msg)
    ensures t.offset == i * msg.mtu && t.offset + |t.bytes| <= |msg.payload|
    ensures t.bytes == msg.payload[t.offset..t.offset + |t.bytes|]
  {
    Tile(msg.payload, msg.mtu, i)
  }

  function FragmentOf(msg: Msg, i: nat): Fragment
    requires Sendable(msg) && i < Size(msg)
  {
    Fragment(msg.key, TileAt(msg, i).offset, i + 1 == Size(msg), TileAt(msg, i).bytes)
  }

  /* ---------- Over the air ---------- */

  // The network hands the receiver's sink what the sender's sink was given.
  function OverTheAir(srcAdd: nat, r: Request): RxFrag
    requires r.TxFrag?
  {
    RxFrag(srcAdd, r.fullPacketId, r.offsetFlag, r.apdu)
  }

  // Packing offset and flag into sixteen bits loses nothing: the receiver reads back the tile.
  lemma WireRoundTrip(srcAdd: nat, payload: seq<byte>, mtu: nat, pduId: nat, options: bv8, id: nat, i: nat)
    requires var msg := Msg(Key(srcAdd, id), payload, mtu); Sendable(msg) && i < Size(msg)
    ensures var msg := Msg(Key(srcAdd, id), payload, mtu);
      Parsed(OverTheAir(srcAdd, FragRequest(payload, mtu, pduId, options, id, i))) == FragmentOf(msg, i)
  {
    hide OffsetFlag, Count;
    TileBounds(|payload|, mtu, i);
    OffsetFlagReadsBack(Tile(payload, mtu, i).offset, i + 1 == Count(|payload|, mtu));
  }

  lemma OffsetFlagReadsBack(offset: nat, last: bool)
    requires offset < FRAG_OFFSET_RANGE
    ensures OffsetFlag(offset, last) % FRAG_OFFSET_RANGE == offset
    ensures (OffsetFlag(offset, last) / LAST_FLAG) % 2 == 1 <==> last
  {
  }

  /* ---------- A set of tiles ---------- */

  predicate Complete(msg: Msg, arrived: set<nat>)
    requires Sendable(msg)
  {
    forall i :: 0 <= i < Size(msg) ==> i in arrived
  }

  // frags are the tiles whose numbers have arrived, each once.
  ghost predicate Gathered(frags: seq<Stored>, msg: Msg, arrived: set<nat>)
    requires Sendable(msg)
  {
    && (forall k :: 0 <= k < |frags| ==> exists i :: i in arrived && i < Size(msg) && frags[k] == TileAt(msg, i))
    && (forall i :: i in arrived ==> i < Size(msg) && TileAt(msg, i) in frags)
    && (forall a, b :: 0 <= a < b < |frags| ==> frags[a].offset != frags[b].offset)
  }

  lemma OffsetDecides(msg: Msg, i: nat, j: nat)
    requires Sendable(msg) && i < Size(msg) && j < Size(msg) && i * msg.mtu == j * msg.mtu
    ensures i == j
  {
    if i < j { OffsetsDiffer(msg.mtu, i, j); }
    if j < i { OffsetsDiffer(msg.mtu, j, i); }
  }

  lemma OffsetKnownIff(frags: seq<Stored>, msg: Msg, arrived: set<nat>, i: nat)
    requires Sendable(msg) && Gathered(frags, msg, arrived) && i < Size(msg)
    ensures HasOffset(frags, TileAt(msg, i).offset) <==> i in arrived
  {
    if HasOffset(frags, TileAt(msg, i).offset) {
      var k :| 0 <= k < |frags| && frags[k].offset == TileAt(msg, i).offset;
      var j :| j in arrived && j < Size(msg) && frags[k] == TileAt(msg, j);
      OffsetDecides(msg, i, j);
    }
  }

  lemma GatheredMore(frags: seq<Stored>, msg: Msg, arrived: set<nat>, i: nat)
    requires Sendable(msg) && Gathered(frags, msg, arrived) && i < Size(msg) && i !in arrived
    ensures Gathered([TileAt(msg, i)] + frags, msg, arrived + {i})
  {
    hide TileAt;
    var more := [TileAt(msg, i)] + frags;
    OffsetKnownIff(frags, msg, arrived, i);
    forall k | 0 <= k < |more|
      ensures exists j :: j in arrived + {i} && j < Size(msg) && more[k] == TileAt(msg, j)
    {
      if k > 0 {
        assert more[k] == frags[k - 1];
        var j :| j in arrived && j < Size(msg) && frags[k - 1] == TileAt(msg, j);
        assert j in arrived + {i};
      } else {
        assert i in arrived + {i};
      }
    }
    forall j | j in arrived + {i}
      ensures j < Size(msg) && TileAt(msg, j) in more
    {
      assert j != i ==> TileAt(msg, j) in frags;
    }
    forall a, b | 0 <= a < b < |more|
      ensures more[a].offset != more[b].offset
    {
      assert more[b] == frags[b - 1] && frags[b - 1] in frags;
      assert a > 0 ==> more[a] == frags[a - 1];
    }
  }

  lemma GatheredInside(frags: seq<Stored>, msg: Msg, arrived: set<nat>)
    requires Sendable(msg) && Gathered(frags, msg, arrived)
    ensures Within(frags, |msg.payload|) && Disjoint(frags)
  {
    forall a, b | 0 <= a < b < |frags|
      ensures Cells(frags[a]) !! Cells(frags[b])
    {
      assert frags[a] in frags && frags[b] in frags;
      var i :| i in arrived && i < Size(msg) && frags[a] == TileAt(msg, i);
      var j :| j in arrived && j < Size(msg) && frags[b] == TileAt(msg, j);
      TilesDisjoint(msg.payload, msg.mtu, i, j);
    }
  }

  // The payload is covered exactly when every tile has arrived.
  lemma GatheredCoversIff(frags: seq<Stored>, msg: Msg, arrived: set<nat>)
    requires Sendable(msg) && Gathered(frags, msg, arrived)
    ensures Covers(frags, |msg.payload|) <==> Complete(msg, arrived)
  {
    if Covers(frags, |msg.payload|) {
      forall i | 0 <= i < Size(msg)
        ensures i in arrived
      {
        FirstOctetNeeds(frags, msg, arrived, i);
      }
    }
    if Complete(msg, arrived) {
      forall k | 0 <= k < |msg.payload|
        ensures Held(frags, k)
      {
        var i := TileOf(msg.payload, msg.mtu, k);
        assert TileAt(msg, i) in frags;
      }
    }
  }

  // The tile that holds an octet held by the fragments
  lemma HolderOf(frags: seq<Stored>, msg: Msg, arrived: set<nat>, octet: nat) returns (j: nat)
    requires Sendable(msg) && Gathered(frags, msg, arrived) && Held(frags, octet)
    ensures j in arrived && j < Size(msg) && octet in Cells(TileAt(msg, j))
  {
    hide TileAt, Size, Sendable;
    var k :| 0 <= k < |frags| && frags[k].offset <= octet < frags[k].offset + |frags[k].bytes|;
    j :| j in arrived && j < Size(msg) && frags[k] == TileAt(msg, j);
  }

  lemma FirstOctetNeeds(frags: seq<Stored>, msg: Msg, arrived: set<nat>, i: nat)
    requires Sendable(msg) && Gathered(frags, msg, arrived) && i < Size(msg)
    requires Covers(frags, |msg.payload|)
    ensures i in arrived
  {
    hide Gathered, Held, Cells, Count;
    TileBounds(|msg.payload|, msg.mtu, i);
    var octet := TileAt(msg, i).offset;
    FirstCell(TileAt(msg, i));
    assert Held(frags, octet);
    var j := HolderOf(frags, msg, arrived, octet);
    if j != i { TilesDisjoint(msg.payload, msg.mtu, i, j); }
  }

  lemma FirstCell(f: Stored)
    requires f.bytes != []
    ensures f.offset in Cells(f)
  {
  }

  // The sum of sizes reaches the payload's length exactly when every tile has arrived.
  lemma SumReachesIff(frags: seq<Stored>, msg: Msg, arrived: set<nat>)
    requires Sendable(msg) && Gathered(frags, msg, arrived)
    ensures SumSizes(frags) == |msg.payload| <==> Complete(msg, arrived)
  {
    GatheredInside(frags, msg, arrived);
    SumTestIffCovered(frags, |msg.payload|);
    GatheredCoversIff(frags, msg, arrived);
  }

  lemma PlaceOf(frags: seq<Stored>, msg: Msg, arrived: set<nat>, i: nat) returns (at: nat)
    requires Sendable(msg) && Gathered(frags, msg, arrived) && Complete(msg, arrived) && i < Size(msg)
    ensures at < |frags| && frags[at] == TileAt(msg, i)
  {
    hide TileAt, Size, Sendable;
    assert TileAt(msg, i) in frags;
    at :| 0 <= at < |frags| && frags[at] == TileAt(msg, i);
  }

  lemma OctetInPlace(buffer: seq<byte>, frags: seq<Stored>, msg: Msg, arrived: set<nat>, k: nat)
    requires Sendable(msg) && Gathered(frags, msg, arrived) && Complete(msg, arrived)
    requires Within(frags, |buffer|) && Disjoint(frags) && k < |msg.payload| <= |buffer|
    ensures CopiedAll(buffer, frags)[k] == msg.payload[k]
  {
    hide CopiedAll, Within, Disjoint, Count;
    var i := TileOf(msg.payload, msg.mtu, k);
    var at := PlaceOf(frags, msg, arrived, i);
    CopiedInPlace(buffer, frags, at, k);
  }

  // Copying out all tiles, in whatever order they are listed, yields the payload.
  lemma CopyYieldsPayload(buffer: seq<byte>, frags: seq<Stored>, msg: Msg, arrived: set<nat>)
    requires Sendable(msg) && Gathered(frags, msg, arrived) && Complete(msg, arrived)
    requires |msg.payload| <= |buffer|
    ensures Within(frags, |buffer|) && CopiedAll(buffer, frags)[..|msg.payload|] == msg.payload
  {
    hide CopiedAll, Disjoint, Gathered, Complete, Sendable;
    GatheredInside(frags, msg, arrived);
    forall k | 0 <= k < |msg.payload|
      ensures CopiedAll(buffer, frags)[k] == msg.payload[k]
    {
      OctetInPlace(buffer, frags, msg, arrived, k);
    }
  }

  /* ---------- One packet of the store ---------- */

  // p is what the store keeps of msg while the tiles in arrived have come and others have not.
  ghost predicate Holding(p: Packet, msg: Msg, arrived: set<nat>)
    requires Sendable(msg)
  {
    && !p.isFull && Gathered(p.frags, msg, arrived)
    && p.fullSize == if Size(msg) - 1 in arrived then |msg.payload| else 0
  }

  lemma NewHoldsNothing(msg: Msg)
    requires Sendable(msg)
    ensures Holding(NewPacket, msg, {})
  {
  }

  lemma LastTileEnds(msg: Msg)
    requires Sendable(msg)
    ensures Size(msg) >= 1 && TileAt(msg, Size(msg) - 1).offset + |TileAt(msg, Size(msg) - 1).bytes| == |msg.payload|
  {
    CountBounds(|msg.payload|, msg.mtu);
    TileBounds(|msg.payload|, msg.mtu, Size(msg) - 1);
  }

  // A tile that has not come before is kept; the packet is full exactly when it was the last missing.
  lemma HoldingMore(p: Packet, msg: Msg, arrived: set<nat>, i: nat, now: nat)
    requires Sendable(msg) && Holding(p, msg, arrived) && i < Size(msg) && i !in arrived
    ensures var q := Checked(WithFragment(p, FragmentOf(msg, i), now));
      && q.stamp == now
      && Gathered(q.frags, msg, arrived + {i})
      && (q.isFull <==> Complete(msg, arrived + {i}))
      && (q.isFull ==> q.fullSize == |msg.payload|)
      && (!q.isFull ==> Holding(q, msg, arrived + {i}))
  {
    hide Gathered, TileAt, SumSizes, Count;
    GatheredMore(p.frags, msg, arrived, i);
    SumReachesIff([TileAt(msg, i)] + p.frags, msg, arrived + {i});
    LastTileEnds(msg);
  }
}
