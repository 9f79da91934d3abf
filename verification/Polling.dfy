/**
 The indication poll of wpc_internal.c: one poll request, then indications one by one, each
 acknowledged with a flag that asks for the next one or ends the burst.
 */
module Polling {
  import opened Bytes

  const WRONG_PARAM_ERROR := -4
  const TIMEOUT_ERROR := -2

  // An indication frame; status is its indication_status, positive when more are pending.
  datatype Indication = Indication(frame: seq<byte>, status: nat)

  // What handle_indication gets from the link
  datatype Reception = Arrived(ind: Indication) | Missing

  /* ---------- The burst as a function of what arrives ---------- */

  // read: indications given to the callback; acks: the "more" flags sent back; waits: receptions waited
  // for; result: the return value of get_indication_locked.
  datatype Burst = Burst(read: seq<Indication>, acks: seq<bool>, waits: nat, result: int)

  // The loop with max more indications allowed; arrivals(k) is what the k-th wait yields.
  function BurstFrom(max: nat, arrivals: nat -> Reception, k: nat): Burst
    requires max > 0
    decreases max
  {
    match arrivals(k)
    case Missing => Burst([], [], 1, TIMEOUT_ERROR)
    case Arrived(ind) =>
      var more := ind.status > 0 && max > 1;
      if more then
        var rest := BurstFrom(max - 1, arrivals, k + 1);
        Burst([ind] + rest.read, [true] + rest.acks, 1 + rest.waits, rest.result)
      else Burst([ind], [false], 1, if ind.status > 0 then 1 else 0)
  }

  // What is left of the burst at the head of the loop
  function Rest(left: nat, remaining: nat, arrivals: nat -> Reception, k: nat): Burst {
    if left == 0 || remaining == 0 then Burst([], [], 0, if remaining > 0 then 1 else 0)
    else BurstFrom(left, arrivals, k)
  }

  lemma Unfolded(left: nat, arrivals: nat -> Reception, k: nat)
    ensures var b := BurstFrom(left + 1, arrivals, k);
      match arrivals(k)
      case Missing => b == Burst([], [], 1, TIMEOUT_ERROR)
      case Arrived(ind) =>
        var rest := Rest(left, ind.status, arrivals, k + 1);
        b == Burst([ind] + rest.read, [ind.status > 0 && left > 0] + rest.acks, 1 + rest.waits, rest.result)
  {
  }

  // get_indication_locked after a poll request that returned pollRes, with the confirm's result field;
  // its first wait is the k-th.
  function Poll(max: nat, pollRes: int, confirmResult: nat, arrivals: nat -> Reception, k: nat): Burst {
    if max == 0 then Burst([], [], 0, WRONG_PARAM_ERROR)
    else if pollRes < 0 then Burst([], [], 0, pollRes)
    else if confirmResult == 0 then Burst([], [], 0, 0)
    else BurstFrom(max, arrivals, k)
  }

  class Host {
    const arrivals: nat -> Reception
    var waits: nat                     // receptions so far
    var read: seq<Indication>          // calls of the callback so far
    var acks: seq<bool>                // acknowledgements sent so far

    constructor (arrivals: nat -> Reception)
      ensures this.arrivals == arrivals && waits == 0 && read == [] && acks == []
    {
      this.arrivals := arrivals;
      waits, read, acks := 0, [], [];
    }

    // handle_indication: the remaining count, or a negative error
    method HandleIndication(lastOne: bool) returns (remaining: int)
      modifies this
      ensures waits == old(waits) + 1
      ensures match arrivals(old(waits))
        case Missing => remaining == TIMEOUT_ERROR && read == old(read) && acks == old(acks)
        case Arrived(ind) =>
          && remaining == ind.status && read == old(read) + [ind]
          && acks == old(acks) + [ind.status > 0 && !lastOne]
    {
      var r := arrivals(waits);
      waits := waits + 1;
      if r.Missing? { return TIMEOUT_ERROR; }
      remaining := r.ind.status;
      acks := acks + [remaining > 0 && !lastOne];
      read := read + [r.ind];
    }

    // The state of the loop: what was read so far, continued by Rest, is the whole burst.
    ghost predicate ToCome(whole: Burst, left: nat, remaining: nat, read0: seq<Indication>, acks0: seq<bool>,
                           waits0: nat)
      reads this
    {
      var rest := Rest(left, remaining, arrivals, waits);
      && read0 + whole.read == read + rest.read
      && acks0 + whole.acks == acks + rest.acks
      && waits0 + whole.waits == waits + rest.waits && whole.result == rest.result
    }

    // get_indication_locked; the loop counter is decremented even when the loop ends.
    method GetIndicationLocked(maxInd: nat, pollRes: int, confirmResult: nat) returns (ret: int)
      modifies this
      ensures var b := Poll(maxInd, pollRes, confirmResult, arrivals, old(waits));
        && read == old(read) + b.read && acks == old(acks) + b.acks
        && waits == old(waits) + b.waits && ret == b.result
    {
      if maxInd == 0 { return WRONG_PARAM_ERROR; }
      if pollRes < 0 { return pollRes; }
      if confirmResult == 0 { return 0; }
      var left, remaining := maxInd, 1;
      ghost var whole := BurstFrom(maxInd, arrivals, waits);
      while left > 0 && remaining > 0
        invariant 0 <= left <= maxInd && remaining >= 0
        invariant ToCome(whole, left, remaining, old(read), old(acks), old(waits))
        decreases left
      {
        ghost var k := waits;
        left := left - 1;
        remaining := HandleIndication(left == 0);
        Unfolded(left, arrivals, k);
        if remaining < 0 { return remaining; }
      }
      ret := if remaining > 0 then 1 else 0;
    }
  }

  /* ---------- The handshake ---------- */

  // However the link behaves, at most max indications reach the callback.
  lemma {:induction false} AtMostMax(max: nat, arrivals: nat -> Reception, k: nat)
    requires max > 0
    ensures |BurstFrom(max, arrivals, k).read| == |BurstFrom(max, arrivals, k).acks| <= max
    decreases max
  {
    if arrivals(k).Arrived? && arrivals(k).ind.status > 0 && max > 1 { AtMostMax(max - 1, arrivals, k + 1); }
  }

  lemma PollAtMostMax(max: nat, pollRes: int, confirmResult: nat, arrivals: nat -> Reception, k: nat)
    ensures |Poll(max, pollRes, confirmResult, arrivals, k).read| <= max
  {
    if max > 0 { AtMostMax(max, arrivals, k); }
  }

  // What a burst does whatever arrives: it reads on while more are pending and wanted; it ends with what
  // its last indication says, or with a timeout at the first one that does not come.
  predicate Exact(b: Burst, max: nat, arrivals: nat -> Reception, k: nat)
    requires max > 0
  {
    var n := |b.read|;
    && n <= max && |b.acks| == n
    && (forall i :: 0 <= i < n ==> arrivals(k + i) == Arrived(b.read[i]))
    && (forall i :: 0 <= i < n - 1 ==> b.read[i].status > 0)
    && if n < max && (n == 0 || b.read[n - 1].status > 0)
       then arrivals(k + n).Missing? && b.waits == n + 1 && b.result == -2 && forall i :: 0 <= i < n ==> b.acks[i]
       else b.waits == n && b.result == (if b.read[n - 1].status > 0 then 1 else 0)
            && forall i :: 0 <= i < n ==> (b.acks[i] <==> i < n - 1)
  }

  lemma ExactLonger(b: Burst, ind: Indication, rest: Burst, max: nat, arrivals: nat -> Reception, k: nat)
    requires max > 1 && Exact(rest, max - 1, arrivals, k + 1) && arrivals(k) == Arrived(ind) && ind.status > 0
    requires b == Burst([ind] + rest.read, [true] + rest.acks, 1 + rest.waits, rest.result)
    ensures Exact(b, max, arrivals, k)
  {
    forall i | 0 <= i < |b.read|
      ensures arrivals(k + i) == Arrived(b.read[i])
    {
      if i > 0 { assert arrivals((k + 1) + (i - 1)) == Arrived(rest.read[i - 1]); }
    }
    assert k + |b.read| == (k + 1) + |rest.read|;
  }

  lemma {:induction false} BurstIsExact(max: nat, arrivals: nat -> Reception, k: nat)
    requires max > 0
    ensures Exact(BurstFrom(max, arrivals, k), max, arrivals, k)
    decreases max
  {
    if arrivals(k).Arrived? && arrivals(k).ind.status > 0 && max > 1 {
      hide Exact;
      BurstIsExact(max - 1, arrivals, k + 1);
      ExactLonger(BurstFrom(max, arrivals, k), arrivals(k).ind, BurstFrom(max - 1, arrivals, k + 1), max, arrivals, k);
    }
  }

  // A whole poll whatever arrives: nothing after a confirm that says nothing is pending, a burst otherwise.
  lemma PollIsExact(max: nat, pollRes: int, confirmResult: nat, arrivals: nat -> Reception, k: nat)
    requires max > 0 && pollRes >= 0
    ensures var b := Poll(max, pollRes, confirmResult, arrivals, k);
      && (confirmResult == 0 ==> b.read == [] && b.acks == [] && b.waits == 0 && b.result == 0)
      && (confirmResult != 0 ==> Exact(b, max, arrivals, k))
  {
    hide Exact;
    BurstIsExact(max, arrivals, k);
  }

  // Nothing is lost on the link while the host waits.
  predicate Reliable(arrivals: nat -> Reception, k: nat, n: nat) {
    forall j :: k <= j < k + n ==> arrivals(j).Arrived?
  }

  // The host reads on exactly when its last acknowledgement asked for more; the final one asks for none,
  // because the node had no more or because the host has room for no more.
  predicate Agreed(b: Burst, max: nat, arrivals: nat -> Reception, k: nat) {
    var n := |b.read|;
    && 1 <= n <= max && |b.acks| == n
    && (forall i :: 0 <= i < n ==> arrivals(k + i) == Arrived(b.read[i]))
    && (forall i :: 0 <= i < n ==> (b.acks[i] <==> i + 1 < n))
    && (forall i :: 0 <= i < n - 1 ==> b.read[i].status > 0)
    && (n < max ==> b.read[n - 1].status == 0)
    && b.result == if b.read[n - 1].status > 0 then 1 else 0
  }

  // Without link errors host and node agree, one acknowledgement at a time, on when the burst ends.
  lemma AcknowledgementsAgree(max: nat, arrivals: nat -> Reception, k: nat)
    requires max > 0 && Reliable(arrivals, k, max)
    ensures Agreed(BurstFrom(max, arrivals, k), max, arrivals, k)
  {
    BurstIsExact(max, arrivals, k);
    var n := |BurstFrom(max, arrivals, k).read|;
    assert n < max ==> arrivals(k + n).Arrived?;
  }

  /* ---------- Against a node that reacts ---------- */

  // A node with indications to send; sending: it has been polled or asked for more, and has not been
  // told to stop.
  datatype Node = Node(queue: seq<seq<byte>>, sending: bool)

  // What the host's next wait meets: the oldest indication, with the number left behind it.
  function Answer(node: Node): Reception {
    if node.sending && node.queue != [] then Arrived(Indication(node.queue[0], |node.queue| - 1)) else Missing
  }

  // The acknowledgement of an indication takes it off the queue, and lets the node go on or stops it.
  function Acked(node: Node, more: bool): Node {
    if node.sending && node.queue != [] then Node(node.queue[1..], more) else node
  }

  function NodeAfter(node: Node, acks: seq<bool>): Node
    decreases |acks|
  {
    if acks == [] then node else NodeAfter(Acked(node, acks[0]), acks[1..])
  }

  // Every wait meets what the node does after the acknowledgements sent before it.
  predicate Reacts(arrivals: nat -> Reception, k: nat, node: Node, acks: seq<bool>) {
    forall j :: 0 <= j <= |acks| ==> arrivals(k + j) == Answer(NodeAfter(node, acks[..j]))
  }

  lemma ReactsNext(arrivals: nat -> Reception, k: nat, node: Node, acks: seq<bool>)
    requires acks != [] && Reacts(arrivals, k, node, acks)
    ensures arrivals(k) == Answer(node)
    ensures Reacts(arrivals, k + 1, Acked(node, acks[0]), acks[1..])
  {
    hide Answer, Acked;
    assert acks[..0] == [] && arrivals(k + 0) == Answer(NodeAfter(node, acks[..0]));
    forall j | 0 <= j <= |acks[1..]|
      ensures arrivals(k + 1 + j) == Answer(NodeAfter(Acked(node, acks[0]), acks[1..][..j]))
    {
      assert acks[..j + 1] == [acks[0]] + acks[1..][..j];
      assert arrivals(k + (j + 1)) == Answer(NodeAfter(node, acks[..j + 1]));
    }
  }

  function Min(a: nat, b: nat): nat { if a < b then a else b }

  // Host and node end the burst together: the host takes as many indications as there are or as it has
  // room for, in order; none of its waits is in vain; and its last acknowledgement leaves the node
  // stopped, with exactly the rest in its queue.
  lemma {:induction false} BurstDrains(max: nat, arrivals: nat -> Reception, k: nat, node: Node)
    requires max > 0 && node.sending && node.queue != []
    requires Reacts(arrivals, k, node, BurstFrom(max, arrivals, k).acks)
    ensures var b := BurstFrom(max, arrivals, k); var n := Min(|node.queue|, max);
      && |b.read| == n == b.waits && (forall i :: 0 <= i < n ==> b.read[i].frame == node.queue[i])
      && b.result == (if |node.queue| > max then 1 else 0)
      && NodeAfter(node, b.acks) == Node(node.queue[n..], false)
    decreases max
  {
    hide NodeAfter, Reacts;
    var b := BurstFrom(max, arrivals, k);
    if b.acks == [] { ReactsFirst(arrivals, k, node, b.acks); } else { ReactsNext(arrivals, k, node, b.acks); }
    AckedOnce(node, b.acks);
    if |node.queue| > 1 && max > 1 {
      var rest := BurstFrom(max - 1, arrivals, k + 1);
      assert b.acks == [true] + rest.acks && b.acks[1..] == rest.acks;
      BurstDrains(max - 1, arrivals, k + 1, Acked(node, true));
    }
  }

  // A whole poll.  The node's confirm says whether it has anything queued, and if so it goes on sending.
  // The host reads the first indications, as many as there are or as it has room for, in order; it waits
  // for nothing else; it returns 1 exactly when some are left, and those are what the node keeps.
  lemma PollDrains(max: nat, pollRes: int, confirmResult: nat, arrivals: nat -> Reception, k: nat, node: Node)
    requires max > 0 && pollRes >= 0
    requires (confirmResult != 0 <==> node.queue != []) && (node.sending <==> node.queue != [])
    requires Reacts(arrivals, k, node, Poll(max, pollRes, confirmResult, arrivals, k).acks)
    ensures var b := Poll(max, pollRes, confirmResult, arrivals, k); var n := Min(|node.queue|, max);
      && |b.read| == n == b.waits && (forall i :: 0 <= i < n ==> b.read[i].frame == node.queue[i])
      && b.result == (if |node.queue| > max then 1 else 0)
      && NodeAfter(node, b.acks) == Node(node.queue[n..], false)
  {
    hide Reacts;
    if node.queue != [] {
      BurstDrains(max, arrivals, k, node);
    }
  }

  // There is such a node to every host.
  lemma PollReactionExists(max: nat, pollRes: int, confirmResult: nat, node: Node) returns (arrivals: nat -> Reception)
    requires max > 0 && pollRes >= 0 && (confirmResult != 0 <==> node.queue != [])
    ensures Reacts(arrivals, 0, node, Poll(max, pollRes, confirmResult, arrivals, 0).acks)
  {
    arrivals := ReactionExists(max, node);
    assert NodeAfter(node, []) == node;
    ReactsFirst(arrivals, 0, node, BurstFrom(max, arrivals, 0).acks);
  }

  // A poll that may read nothing, or whose request failed, waits for nothing: -4, or the request's code.
  lemma PollFails(max: nat, pollRes: int, confirmResult: nat, arrivals: nat -> Reception, k: nat)
    requires max == 0 || pollRes < 0
    ensures var b := Poll(max, pollRes, confirmResult, arrivals, k);
      b.read == [] && b.acks == [] && b.waits == 0 && b.result == if max == 0 then -4 else pollRes
  {
  }

  lemma ReactsFirst(arrivals: nat -> Reception, k: nat, node: Node, acks: seq<bool>)
    requires Reacts(arrivals, k, node, acks)
    ensures arrivals(k) == Answer(node)
  {
    assert acks[..0] == [] && arrivals(k + 0) == Answer(NodeAfter(node, acks[..0]));
  }

  lemma AckedOnce(node: Node, acks: seq<bool>)
    ensures acks != [] ==> NodeAfter(node, acks) == NodeAfter(Acked(node, acks[0]), acks[1..])
    ensures |acks| == 1 ==> NodeAfter(node, acks) == Acked(node, acks[0])
  {
  }

  // There is such a reaction to every host.
  lemma {:induction false} ReactionExists(max: nat, node: Node) returns (arrivals: nat -> Reception)
    requires max > 0
    ensures Reacts(arrivals, 0, node, BurstFrom(max, arrivals, 0).acks)
    decreases max
  {
    var first := Answer(node);
    if first.Arrived? && first.ind.status > 0 && max > 1 {
      var later := ReactionExists(max - 1, Acked(node, true));
      arrivals := (k: nat) => if k == 0 then first else later(k - 1);
      SameBurst(max - 1, arrivals, 1, later, 0);
      ReactsPut(arrivals, later, node, BurstFrom(max, arrivals, 0).acks);
    } else {
      var stopped := if first.Arrived? then Answer(Acked(node, false)) else Missing;
      arrivals := (k: nat) => if k == 0 then first else stopped;
      LastReaction(max, arrivals, node, stopped);
    }
  }

  lemma {:induction false} SameBurst(max: nat, a: nat -> Reception, k: nat, b: nat -> Reception, i: nat)
    requires max > 0 && i <= k && forall m: nat :: k <= m ==> a(m) == b(m - k + i)
    ensures BurstFrom(max, a, k) == BurstFrom(max, b, i)
    decreases max
  {
    assert a(k) == b(i);
    if max > 1 { SameBurst(max - 1, a, k + 1, b, i + 1); }
  }

  lemma ReactsPut(arrivals: nat -> Reception, later: nat -> Reception, node: Node, acks: seq<bool>)
    requires acks != [] && arrivals(0) == Answer(node) && forall k: nat :: arrivals(k + 1) == later(k)
    requires Reacts(later, 0, Acked(node, acks[0]), acks[1..])
    ensures Reacts(arrivals, 0, node, acks)
  {
    hide Answer, Acked;
    forall j | 0 <= j <= |acks|
      ensures arrivals(0 + j) == Answer(NodeAfter(node, acks[..j]))
    {
      if j > 0 {
        assert acks[..j] == [acks[0]] + acks[1..][..j - 1];
        assert arrivals((j - 1) + 1) == later(0 + (j - 1));
      }
    }
  }

  lemma LastReaction(max: nat, arrivals: nat -> Reception, node: Node, stopped: Reception)
    requires max > 0 && arrivals(0) == Answer(node) && arrivals(1) == stopped
    requires Answer(node).Arrived? ==> Answer(node).ind.status == 0 || max == 1
    requires Answer(node).Arrived? ==> stopped == Answer(Acked(node, false))
    ensures Reacts(arrivals, 0, node, BurstFrom(max, arrivals, 0).acks)
  {
    hide Answer, Acked;
    var acks := BurstFrom(max, arrivals, 0).acks;
    forall j | 0 <= j <= |acks|
      ensures arrivals(0 + j) == Answer(NodeAfter(node, acks[..j]))
    {
      AckedOnce(node, acks);
      assert acks[..j] == if j == 0 then [] else acks;
    }
  }
}
