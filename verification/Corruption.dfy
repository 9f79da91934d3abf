/**
 What a damaged answer does to an exchange: the code Slip_decode returns for it decides whether the request
 is sent again.
 */
module Corruption {
  import opened Bytes
  import opened Requests
  import Crc
  import Slip

  // What send_request_locked makes of the value returned by Slip_get_buffer and the frame in its buffer
  function ReceptionFor(r: int, frame: Frame): Reception { if r < 0 then Failed(r) else Got(frame) }

  // The exchange may still send its request again.
  predicate MayRepeat(link: Link, tx: nat, attempt: nat, retries: nat) {
    attempt < 50 && retries < 3 && link.accepts(tx)
  }

  // A confirm hit by a burst that does not pass the check: the request is sent again exactly when the hit
  // left FF FF in the checksum field; otherwise the exchange ends with -5, the request having been sent no
  // more often than before.
  lemma DamagedConfirm(p: seq<byte>, d: seq<byte>, k: nat, tail: byte, request: Frame, received: Frame, link: Link,
                       rx: nat, tx: nat, attempt: nat, retries: nat)
    requires |p| <= 253 && Slip.WithinTwo(Slip.Framed(p), d, k) && d != Slip.Framed(p)
    requires |d| == |p| + 2 && !Slip.SeamHit(p, d) && Slip.Decodable(Slip.Escape(d))
    requires link.receptions(rx) == ReceptionFor(Slip.Decoded(Slip.Escape(d), tail), received)
    requires MayRepeat(link, tx, attempt, retries)
    ensures var x := Await(request, link, rx, tx, attempt, retries);
      if d[|p|] == 0xFF && d[|p| + 1] == 0xFF
      then x == Await(request, link, rx + 1, tx + 1, attempt, retries + 1) && x.tx > tx
      else x == Error(-5, rx + 1, tx)
  {
    hide Slip.Escape, Slip.Decoded, Slip.SeamHit, Slip.Framed, Slip.WithinTwo;
    Slip.BurstReported(p, d, k, tail);
    if d[|p|] == 0xFF && d[|p| + 1] == 0xFF { AwaitBounded(request, link, rx + 1, tx + 1, attempt, retries + 1); }
  }

  // The dummy confirm, its checksum field set to FF FF by the node, makes the request go out again.
  lemma DummyConfirm(p: seq<byte>, tail: byte, request: Frame, received: Frame, link: Link, rx: nat, tx: nat,
                     attempt: nat, retries: nat)
    requires |p| <= 253 && Crc.Checksum(p) != 0xFFFF && Slip.Decodable(Slip.Escape(p + [0xFF, 0xFF]))
    requires link.receptions(rx) == ReceptionFor(Slip.Decoded(Slip.Escape(p + [0xFF, 0xFF]), tail), received)
    requires MayRepeat(link, tx, attempt, retries)
    ensures Await(request, link, rx, tx, attempt, retries)
      == Await(request, link, rx + 1, tx + 1, attempt, retries + 1)
  {
    hide Slip.Escape, Slip.Decoded, Crc.Checksum;
    Slip.DummyDecodes(p, tail);
  }
}
