/** The sending side of dsap.c: one request for a short payload, a run of fragment requests otherwise. */
module DsapTx {
  import opened Bytes
  import opened Tiles

  const MAX_FULL_PACKET_SIZE := 1500
  const MAX_APDU_DSAP_SIZE := 180
  const FRAG_OFFSET_RANGE := 0x1000   // DSAP_FRAG_LENGTH_MASK + 1
  const LAST_FLAG := 0x8000           // DSAP_FRAG_LAST_FLAG_MASK

  // The fields of the two transmission requests that depend on the payload and its fragments.
  datatype Request =
    | TxTt(pduId: nat, txOptions: bv8, apdu: seq<byte>)
    | TxFrag(pduId: nat, txOptions: bv8, fullPacketId: nat, offsetFlag: nat, apdu: seq<byte>)

  // What WPC_Int_send_request reports: its return value and the result field of the confirm.
  datatype Reply = Reply(res: int, confirm: nat)

  function ReplyAt(replies: seq<Reply>, k: nat): Reply {
    if k < |replies| then replies[k] else Reply(-2, 0)
  }

  predicate Refused(r: Reply) { r.res < 0 || r.confirm != 0 }

  function Code(r: Reply): int { if r.res < 0 then r.res else r.confirm }

  function TxOptions(hasCb: bool, unack: bool, hopLimit: bv8): bv8 {
    (if hasCb then 1 else 0) | (if unack then 2 else 0) | ((hopLimit & 0xf) << 2)
  }

  /* ---------- One fragment request ---------- */

  // fill_tx_frag_request packs the offset into twelve bits and the last flag into the top bit.
  function OffsetFlag(offset: nat, last: bool): nat {
    offset % FRAG_OFFSET_RANGE + (if last then LAST_FLAG else 0)
  }

  function FragRequest(payload: seq<byte>, mtu: nat, pduId: nat, options: bv8, id: nat, i: nat): Request
    requires 0 < mtu && payload != [] && i < Count(|payload|, mtu)
  {
    var last := i + 1 == Count(|payload|, mtu);
    var tile := Tile(payload, mtu, i);
    TxFrag(pduId, if last then options else options & 0xFE, id, OffsetFlag(tile.offset, last), tile.bytes)
  }

  function FragRequests(payload: seq<byte>, mtu: nat, pduId: nat, options: bv8, id: nat, k: nat): (r: seq<Request>)
    requires 0 < mtu && payload != [] && k <= Count(|payload|, mtu)
    ensures |r| == k
    ensures forall i :: 0 <= i < k ==> r[i] == FragRequest(payload, mtu, pduId, options, id, i)
  {
    if k == 0 then []
    else FragRequests(payload, mtu, pduId, options, id, k - 1) + [FragRequest(payload, mtu, pduId, options, id, k - 1)]
  }

  // Of n requests, how many are made: all of them, or up to the first one refused.
  function Tried(replies: seq<Reply>, i: nat, n: nat): (k: nat)
    requires i < n
    ensures i < k <= n
    ensures forall j :: i <= j < k - 1 ==> !Refused(ReplyAt(replies, j))
    ensures k < n ==> Refused(ReplyAt(replies, k - 1))
    decreases n - i
  {
    if Refused(ReplyAt(replies, i)) || i + 1 == n then i + 1 else Tried(replies, i + 1, n)
  }

  // How many requests one call makes
  function Made(len: nat, mtu: nat, replies: seq<Reply>): nat
    requires 0 < mtu
  {
    if len > MAX_FULL_PACKET_SIZE then 0
    else if len <= mtu then 1
    else
      Fragmented(len, mtu);
      Tried(replies, 0, Count(len, mtu))
  }

  lemma Fragmented(len: nat, mtu: nat)
    requires 0 < mtu < len
    ensures Count(len, mtu) > 1
  {
    hide Count;
    CountBounds(len, mtu);
  }

  lemma CountIs(len: nat, mtu: nat)
    requires 0 < mtu
    ensures Count(len, mtu) == (len + mtu - 1) / mtu
    ensures LastSize(len, mtu) == if len % mtu == 0 then mtu else len % mtu
  {
  }

  // A payload none of whose requests is refused takes the least number of requests of at most mtu octets that
  // hold it, and one if it is empty.
  lemma MadeWhenNoneRefused(len: nat, mtu: nat, replies: seq<Reply>)
    requires 0 < mtu && len <= MAX_FULL_PACKET_SIZE
    requires forall k :: 0 <= k < Made(len, mtu, replies) ==> !Refused(ReplyAt(replies, k))
    ensures var n := Made(len, mtu, replies); n >= 1 && (n == 1 || (n - 1) * mtu < len) && len <= n * mtu
  {
    hide Count, LastSize, Refused;
    if len > mtu {
      Fragmented(len, mtu);
      CountBounds(len, mtu);
      MulMono(Count(len, mtu) - 1, Count(len, mtu), mtu);
      var n := Made(len, mtu, replies);
      assert !Refused(ReplyAt(replies, n - 1));
    }
  }

  // A fragmented payload is sent on only while the link reports no error and the node's confirm is 0.
  lemma StopsAtRefusal(len: nat, mtu: nat, replies: seq<Reply>)
    requires 0 < mtu < len <= MAX_FULL_PACKET_SIZE
    ensures var n := Made(len, mtu, replies);
      && 1 <= n <= Count(len, mtu)
      && (forall k :: 0 <= k < n - 1 ==> ReplyAt(replies, k).res >= 0 && ReplyAt(replies, k).confirm == 0)
      && (n < Count(len, mtu) ==> ReplyAt(replies, n - 1).res < 0 || ReplyAt(replies, n - 1).confirm != 0)
  {
    hide Count, ReplyAt;
    Fragmented(len, mtu);
  }

  // The sixteen bits of a fragment's offset field: the offset in the low twelve, the flag in the top one,
  // nothing between.
  lemma OffsetBits(offset: nat, last: bool)
    requires offset < 0x1000
    ensures var w := OffsetFlag(offset, last);
      && w < 0x10000 && w % 0x1000 == offset && (w / 0x8000 == 1 <==> last) && (w % 0x8000) / 0x1000 == 0
  {
  }

  // The confirmation of a packet is asked for once: on its last fragment, if at all.
  lemma OnlyLastFragmentTracked(payload: seq<byte>, mtu: nat, pduId: nat, hasCb: bool, unack: bool, hopLimit: bv8,
                                id: nat, i: nat)
    requires 0 < mtu && payload != [] && i < Count(|payload|, mtu)
    ensures var options := FragRequest(payload, mtu, pduId, TxOptions(hasCb, unack, hopLimit), id, i).txOptions;
      && (options & 1 == 1 <==> hasCb && i + 1 == Count(|payload|, mtu))
      && (options & 2 == 2 <==> unack) && options >> 2 == hopLimit & 0x0F
  {
    OptionBits(hasCb, unack, hopLimit);
    ClearedBits(TxOptions(hasCb, unack, hopLimit));
  }

  lemma OptionBits(hasCb: bool, unack: bool, hopLimit: bv8)
    ensures TxOptions(hasCb, unack, hopLimit) & 1 == 1 <==> hasCb
    ensures TxOptions(hasCb, unack, hopLimit) & 2 == 2 <==> unack
    ensures TxOptions(hasCb, unack, hopLimit) >> 2 == hopLimit & 0x0F
  {
  }

  lemma ClearedBits(options: bv8)
    ensures (options & 0xFE) & 1 == 0 && (options & 0xFE) & 2 == options & 2 && (options & 0xFE) >> 2 == options >> 2
  {
  }

  /* ---------- dsap_data_tx_request ---------- */

  class Sender {
    var packetId: nat            // static uint16_t packet_id
    var sent: seq<Request>       // requests handed to the stack so far

    constructor ()
      ensures packetId == 0 && sent == []
    {
      packetId, sent := 0, [];
    }

    // registered tells whether set_indication_cb is called with pduId.
    method DataTxRequest(buffer: array<byte>, len: nat, mtu: nat, pduId: nat, hasCb: bool, unack: bool,
                         hopLimit: bv8, replies: seq<Reply>)
      returns (res: int, registered: bool)
      requires len <= buffer.Length && 1 <= mtu <= MAX_APDU_DSAP_SIZE && packetId < 0x10000
      modifies this
      ensures registered <==> hasCb && len <= MAX_FULL_PACKET_SIZE && res == 0
      ensures |sent| == |old(sent)| + Made(len, mtu, replies)
      ensures len <= MAX_FULL_PACKET_SIZE ==>
        var last := ReplyAt(replies, |sent| - |old(sent)| - 1); res == if last.res < 0 then last.res else last.confirm
      ensures len > MAX_FULL_PACKET_SIZE ==> res == 6 && sent == old(sent) && packetId == old(packetId)
      ensures len <= mtu ==>
        && packetId == old(packetId) && res == Code(ReplyAt(replies, 0))
        && sent == old(sent) + [TxTt(pduId, TxOptions(hasCb, unack, hopLimit), buffer[..len])]
      ensures mtu < len <= MAX_FULL_PACKET_SIZE ==>
        && packetId == (old(packetId) + 1) % 0x10000
        && var k := Tried(replies, 0, Count(len, mtu));
        && res == Code(ReplyAt(replies, k - 1))
        && sent == old(sent) + FragRequests(buffer[..len], mtu, pduId, TxOptions(hasCb, unack, hopLimit),
                                            old(packetId) % FRAG_OFFSET_RANGE, k)
    {
      hide TxOptions, Count, LastSize, Tried, ReplyAt, FragRequests;
      CountIs(len, mtu);
      var fragments, lastFragmentSize := 0, 0;
      if len > MAX_FULL_PACKET_SIZE { return 6, false; }
      if len > mtu {
        fragments := (len + mtu - 1) / mtu;
        lastFragmentSize := len % mtu;
        if lastFragmentSize == 0 { lastFragmentSize := mtu; }
        Fragmented(len, mtu);
      }
      var options := TxOptions(hasCb, unack, hopLimit);
      var reply: Reply;
      if fragments == 0 {
        sent := sent + [TxTt(pduId, options, buffer[..len])];
        reply := ReplyAt(replies, 0);
      } else {
        var pId := packetId % FRAG_OFFSET_RANGE;
        packetId := (packetId + 1) % 0x10000;
        reply := SendFragments(buffer, len, mtu, fragments, lastFragmentSize, pduId, options, pId, replies);
      }
      registered := !Refused(reply) && hasCb;
      res := Code(reply);
    }

    // The fragment loop; it stops at the first refusal.
    method SendFragments(buffer: array<byte>, len: nat, mtu: nat, fragments: nat, lastFragmentSize: nat, pduId: nat,
                         options: bv8, pId: nat, replies: seq<Reply>)
      returns (reply: Reply)
      requires 0 < len <= buffer.Length && len <= MAX_FULL_PACKET_SIZE && 0 < mtu
      requires fragments == Count(len, mtu) > 0 && lastFragmentSize == LastSize(len, mtu)
      modifies this`sent
      ensures var k := Tried(replies, 0, fragments);
        && reply == ReplyAt(replies, k - 1)
        && sent == old(sent) + FragRequests(buffer[..len], mtu, pduId, options, pId, k)
    {
      hide Count, LastSize, FragRequest, FragRequests, OffsetFlag, Refused, Tried;
      ghost var payload := buffer[..len];
      ghost var before := sent;
      reply := Reply(0, 0);
      NoRequests(payload, mtu, pduId, options, pId);
      for i := 0 to fragments
        invariant sent == before + FragRequests(payload, mtu, pduId, options, pId, i)
        invariant i < fragments ==> Tried(replies, 0, fragments) == Tried(replies, i, fragments)
        invariant i == fragments ==> Tried(replies, 0, fragments) == i && reply == ReplyAt(replies, i - 1)
      {
        FragmentFields(payload, mtu, pduId, options, pId, i);
        TriedStep(replies, i, fragments);
        HandFragment(buffer, len, mtu, fragments, lastFragmentSize, pduId, options, pId, i);
        reply := ReplyAt(replies, i);
        if Refused(reply) { return; }
      }
    }

    // The request for fragment i: fill_tx_frag_request and the call that sends it
    method HandFragment(buffer: array<byte>, len: nat, mtu: nat, fragments: nat, lastFragmentSize: nat, pduId: nat,
                        options: bv8, pId: nat, i: nat)
      requires 0 < len <= buffer.Length && len <= MAX_FULL_PACKET_SIZE && 0 < mtu
      requires i < fragments == Count(len, mtu) && lastFragmentSize == LastSize(len, mtu)
      modifies this`sent
      ensures sent == old(sent) + [FragRequest(buffer[..len], mtu, pduId, options, pId, i)]
    {
      hide Count, LastSize, FragRequest, OffsetFlag;
      FragmentFields(buffer[..len], mtu, pduId, options, pId, i);
      var offset := (i * mtu) % 0x10000;
      var last := false;
      var fragLen := mtu;
      if i == fragments - 1 {
        last := true;
        fragLen := lastFragmentSize;
      }
      var apdu := buffer[offset..offset + fragLen];
      assert apdu == buffer[..len][offset..offset + fragLen];
      sent := sent + [TxFrag(pduId, if last then options else options & 0xFE, pId, OffsetFlag(offset, last), apdu)];
    }
  }

  lemma NoRequests(payload: seq<byte>, mtu: nat, pduId: nat, options: bv8, id: nat)
    requires 0 < mtu && payload != []
    ensures FragRequests(payload, mtu, pduId, options, id, 0) == []
  {
  }

  lemma TriedStep(replies: seq<Reply>, i: nat, n: nat)
    requires i < n
    ensures Tried(replies, i, n)
      == if Refused(ReplyAt(replies, i)) || i + 1 == n then i + 1 else Tried(replies, i + 1, n)
  {
  }

  // The quantities the loop computes for fragment i are those of its tile.
  lemma FragmentFields(payload: seq<byte>, mtu: nat, pduId: nat, options: bv8, id: nat, i: nat)
    requires 0 < mtu && payload != [] && |payload| <= MAX_FULL_PACKET_SIZE && i < Count(|payload|, mtu)
    ensures var offset := (i * mtu) % 0x10000;
      var last := i == Count(|payload|, mtu) - 1;
      var fragLen := if last then LastSize(|payload|, mtu) else mtu;
      && offset + fragLen <= |payload|
      && FragRequest(payload, mtu, pduId, options, id, i)
         == TxFrag(pduId, if last then options else options & 0xFE, id, OffsetFlag(offset, last),
                   payload[offset..offset + fragLen])
    ensures FragRequests(payload, mtu, pduId, options, id, i + 1)
      == FragRequests(payload, mtu, pduId, options, id, i) + [FragRequest(payload, mtu, pduId, options, id, i)]
  {
    hide Count, LastSize, OffsetFlag;
    TileBounds(|payload|, mtu, i);
    assert (i * mtu) % 0x10000 == i * mtu;
  }

  /* ---------- Packet ids over a whole run ---------- */

  // The counter after n fragmented sends, and the id the n-th of them carries.
  function Counter(n: nat): nat {
    if n == 0 then 0 else (Counter(n - 1) + 1) % 0x10000
  }

  function PacketId(n: nat): nat { Counter(n) % FRAG_OFFSET_RANGE }

  lemma NextRemainder(n: nat)
    ensures (n % 0x10000 + 1) % 0x10000 == (n + 1) % 0x10000
  {
    assert n + 1 == 0x10000 * (n / 0x10000) + (n % 0x10000 + 1);
  }

  lemma {:induction false} CounterIsIndex(n: nat)
    ensures Counter(n) == n % 0x10000
  {
    if n > 0 {
      CounterIsIndex(n - 1);
      NextRemainder(n - 1);
    }
  }

  lemma WrapKeepsLowBits(n: nat)
    ensures (n % 0x10000) % 0x1000 == n % 0x1000
  {
    var q, r := n / 0x10000, n % 0x10000;
    assert n == 0x1000 * (16 * q + r / 0x1000) + r % 0x1000;
  }

  lemma SameRemainderIff(m: nat, n: nat)
    requires m <= n
    ensures m % 0x1000 == n % 0x1000 <==> (n - m) % 0x1000 == 0
  {
    var a, b := m / 0x1000, n / 0x1000;
    assert n - m == 0x1000 * (b - a) + (n % 0x1000 - m % 0x1000);
  }

  // Across every wrap of the counter, two sends share an id only a multiple of 4096 sends apart.
  lemma SharedIdIff(m: nat, n: nat)
    requires m <= n
    ensures PacketId(m) == PacketId(n) <==> (n - m) % FRAG_OFFSET_RANGE == 0
  {
    CounterIsIndex(m);
    CounterIsIndex(n);
    WrapKeepsLowBits(m);
    WrapKeepsLowBits(n);
    SameRemainderIff(m, n);
  }
}
