/**
 The request/confirm exchange of wpc_internal.c: one request at a time, eight-bit frame ids, stale
 confirms flushed, requests repeated when the node reports that it received them corrupted.
 */
module Requests {
  import opened Bytes

  const SAP_CONFIRM_OFFSET := 0x80
  const MAX_CONFIRM_ATTEMPT := 50
  const MAX_CRC_REQUEST_ERROR_RETRIES := 3

  const GEN_ERROR: Error := -1
  const TIMEOUT_ERROR: Error := -2
  const SYNC_ERROR: Error := -3
  const WRONG_CRC: Error := -5
  const WRONG_CRC_FROM_HOST: Error := -7

  type Error = e: int | e < 0 witness -1

  // The header of wpc_frame_t, and its payload
  datatype Frame = Frame(primitiveId: nat, frameId: nat, payload: seq<byte>)

  // What one call of Slip_get_buffer yields
  datatype Reception = Got(frame: Frame) | Failed(error: Error)

  // Everything the link will do: its k-th reception, and whether its k-th transmission succeeds.
  datatype Link = Link(receptions: nat -> Reception, accepts: nat -> bool)

  predicate Answers(confirm: Frame, request: Frame) {
    confirm.primitiveId == request.primitiveId + SAP_CONFIRM_OFFSET && confirm.frameId == request.frameId
  }

  /* ---------- The exchange as a function of the link ---------- */

  // rx and tx: how far the link has been consumed.
  datatype Exchange =
    | Confirmed(confirm: Frame, rx: nat, tx: nat)
    | Error(error: Error, rx: nat, tx: nat)

  // The waiting loop of send_request_locked.  It ends whatever the link does: every round uses up an
  // attempt or a retry.
  function Await(request: Frame, link: Link, rx: nat, tx: nat, attempt: nat, retries: nat): Exchange
    requires attempt <= MAX_CONFIRM_ATTEMPT && retries <= MAX_CRC_REQUEST_ERROR_RETRIES
    decreases MAX_CONFIRM_ATTEMPT - attempt + MAX_CRC_REQUEST_ERROR_RETRIES - retries
  {
    if attempt == MAX_CONFIRM_ATTEMPT then Error(SYNC_ERROR, rx, tx)
    else
      match link.receptions(rx)
      case Failed(e) =>
        if e == WRONG_CRC_FROM_HOST && retries < MAX_CRC_REQUEST_ERROR_RETRIES then
          if link.accepts(tx) then Await(request, link, rx + 1, tx + 1, attempt, retries + 1)
          else Error(GEN_ERROR, rx + 1, tx + 1)
        else Error(e, rx + 1, tx)
      case Got(f) =>
        if Answers(f, request) then Confirmed(f, rx + 1, tx)
        else Await(request, link, rx + 1, tx, attempt + 1, retries)
  }

  function SendRequest(request: Frame, link: Link, rx: nat, tx: nat): Exchange {
    if link.accepts(tx) then Await(request, link, rx, tx + 1, 0, 0) else Error(GEN_ERROR, rx, tx + 1)
  }

  /* ---------- send_request_locked ---------- */

  class Requester {
    const link: Link
    var frameId: nat   // static uint8_t frame_id
    var rx: nat
    var tx: nat

    constructor (link: Link)
      ensures this.link == link && frameId == 0 && rx == 0 && tx == 0
    {
      this.link := link;
      frameId, rx, tx := 0, 0, 0;
    }

    method SlipSendBuffer() returns (res: int)
      modifies this`tx
      ensures tx == old(tx) + 1 && res == if link.accepts(old(tx)) then 0 else GEN_ERROR
    {
      res := if link.accepts(tx) then 0 else GEN_ERROR;
      tx := tx + 1;
    }

    method SlipGetBuffer() returns (r: Reception)
      modifies this`rx
      ensures rx == old(rx) + 1 && r == link.receptions(old(rx))
    {
      r := link.receptions(rx);
      rx := rx + 1;
    }

    // res is 0 with the confirm, or a negative error.
    method SendRequestLocked(primitiveId: nat, payload: seq<byte>) returns (res: int, confirm: Frame)
      requires frameId < 0x100
      modifies this`frameId, this`rx, this`tx
      ensures frameId == (old(frameId) + 1) % 0x100
      ensures var x := SendRequest(Frame(primitiveId, old(frameId), payload), link, old(rx), old(tx));
        && rx == x.rx && tx == x.tx
        && (x.Confirmed? ==> res == 0 && confirm == x.confirm)
        && (x.Error? ==> res == x.error)
    {
      var request := Frame(primitiveId, frameId, payload);
      confirm := request;
      frameId := (frameId + 1) % 0x100;
      var sent := SlipSendBuffer();
      if sent < 0 { return GEN_ERROR, confirm; }
      res, confirm := WaitForConfirm(request);
    }

    // The waiting loop
    method WaitForConfirm(request: Frame) returns (res: int, confirm: Frame)
      modifies this`rx, this`tx
      ensures var x := Await(request, link, old(rx), old(tx), 0, 0);
        && rx == x.rx && tx == x.tx
        && (x.Confirmed? ==> res == 0 && confirm == x.confirm)
        && (x.Error? ==> res == x.error)
    {
      confirm := request;
      var attempt, crcRequestRetries := 0, 0;
      ghost var x := Await(request, link, rx, tx, 0, 0);
      while attempt < MAX_CONFIRM_ATTEMPT
        invariant attempt <= MAX_CONFIRM_ATTEMPT && crcRequestRetries <= MAX_CRC_REQUEST_ERROR_RETRIES
        invariant x == Await(request, link, rx, tx, attempt, crcRequestRetries)
        decreases MAX_CONFIRM_ATTEMPT - attempt + MAX_CRC_REQUEST_ERROR_RETRIES - crcRequestRetries
      {
        var reception := SlipGetBuffer();
        if reception.Failed? {
          if reception.error == WRONG_CRC_FROM_HOST {
            crcRequestRetries := crcRequestRetries + 1;
            if crcRequestRetries - 1 < MAX_CRC_REQUEST_ERROR_RETRIES {
              var sent := SlipSendBuffer();
              if sent < 0 { return GEN_ERROR, confirm; }
              continue;
            }
          }
          return reception.error, confirm;
        }
        var received := reception.frame;
        if received.primitiveId != request.primitiveId + SAP_CONFIRM_OFFSET {
          attempt := attempt + 1;
          continue;
        } else if received.frameId != request.frameId {
          attempt := attempt + 1;
          continue;
        }
        confirm := received;
        break;
      }
      if attempt == MAX_CONFIRM_ATTEMPT { return SYNC_ERROR, confirm; }
      res := 0;
    }
  }

  /* ---------- What every exchange keeps ---------- */

  // However the link behaves: at most 53 receptions and 4 transmissions; success means that the last
  // reception was the first answer among them.
  lemma {:induction false} AwaitBounded(request: Frame, link: Link, rx: nat, tx: nat, attempt: nat, retries: nat)
    requires attempt <= MAX_CONFIRM_ATTEMPT && retries <= MAX_CRC_REQUEST_ERROR_RETRIES
    ensures var x := Await(request, link, rx, tx, attempt, retries);
      && rx <= x.rx <= rx + (MAX_CONFIRM_ATTEMPT - attempt) + (MAX_CRC_REQUEST_ERROR_RETRIES - retries)
      && tx <= x.tx <= tx + (MAX_CRC_REQUEST_ERROR_RETRIES - retries)
      && (x.Confirmed? ==>
            && rx < x.rx && link.receptions(x.rx - 1) == Got(x.confirm) && Answers(x.confirm, request)
            && forall k :: rx <= k < x.rx - 1 && link.receptions(k).Got? ==>
                 !Answers(link.receptions(k).frame, request))
    decreases MAX_CONFIRM_ATTEMPT - attempt + MAX_CRC_REQUEST_ERROR_RETRIES - retries
  {
    if attempt < MAX_CONFIRM_ATTEMPT {
      match link.receptions(rx)
      case Failed(e) =>
        if e == WRONG_CRC_FROM_HOST && retries < MAX_CRC_REQUEST_ERROR_RETRIES && link.accepts(tx) {
          AwaitBounded(request, link, rx + 1, tx + 1, attempt, retries + 1);
        }
      case Got(f) =>
        if !Answers(f, request) { AwaitBounded(request, link, rx + 1, tx, attempt + 1, retries); }
    }
  }

  lemma ExchangeBounded(request: Frame, link: Link, rx: nat, tx: nat)
    ensures var x := SendRequest(request, link, rx, tx);
      && x.rx - rx <= 53 && 1 <= x.tx - tx <= 4
      && (x.Confirmed? ==> x.confirm.primitiveId == request.primitiveId + 0x80
                           && x.confirm.frameId == request.frameId)
  {
    if link.accepts(tx) { AwaitBounded(request, link, rx, tx + 1, 0, 0); }
  }

  /* ---------- Exactly when an exchange succeeds ---------- */

  // A frame that is not the confirm; the node's report that the request came in damaged
  predicate Foreign(link: Link, k: nat, request: Frame) {
    link.receptions(k).Got? && !Answers(link.receptions(k).frame, request)
  }

  predicate AsksAgain(link: Link, k: nat) { link.receptions(k) == Failed(-7) }

  // Of the n receptions from rx on, how many are foreign, and how many ask for the request again
  function Foreigns(request: Frame, link: Link, rx: nat, n: nat): (c: nat)
    ensures c <= n
  {
    if n == 0 then 0 else Foreigns(request, link, rx, n - 1) + if Foreign(link, rx + n - 1, request) then 1 else 0
  }

  function Again(link: Link, rx: nat, n: nat): (c: nat)
    ensures c <= n
  {
    if n == 0 then 0 else Again(link, rx, n - 1) + if AsksAgain(link, rx + n - 1) then 1 else 0
  }

  // The first n receptions leave the wait going: each is foreign, forty-nine at most, or asks for the
  // request again, three at most, and every repetition is accepted for sending.  tx is the first of those.
  predicate Through(request: Frame, link: Link, rx: nat, tx: nat, n: nat) {
    && (forall k :: rx <= k < rx + n ==> Foreign(link, k, request) || AsksAgain(link, k))
    && Foreigns(request, link, rx, n) <= 49 && Again(link, rx, n) <= 3
    && forall t :: tx <= t < tx + Again(link, rx, n) ==> link.accepts(t)
  }

  lemma ThroughShorter(request: Frame, link: Link, rx: nat, tx: nat, n: nat)
    requires n > 0 && Through(request, link, rx, tx, n)
    ensures Through(request, link, rx, tx, n - 1)
    ensures Foreigns(request, link, rx, n)
      == Foreigns(request, link, rx, n - 1) + if Foreign(link, rx + n - 1, request) then 1 else 0
    ensures Again(link, rx, n) == Again(link, rx, n - 1) + if AsksAgain(link, rx + n - 1) then 1 else 0
    ensures Foreign(link, rx + n - 1, request) || AsksAgain(link, rx + n - 1)
    ensures AsksAgain(link, rx + n - 1) ==> link.accepts(tx + Again(link, rx, n - 1))
  {
  }

  lemma AwaitStep(request: Frame, link: Link, rx: nat, tx: nat, attempt: nat, retries: nat)
    requires attempt <= 49 && retries <= 3
    ensures Foreign(link, rx, request) ==>
      Await(request, link, rx, tx, attempt, retries) == Await(request, link, rx + 1, tx, attempt + 1, retries)
    ensures AsksAgain(link, rx) && retries < 3 && link.accepts(tx) ==>
      Await(request, link, rx, tx, attempt, retries) == Await(request, link, rx + 1, tx + 1, attempt, retries + 1)
  {
  }

  lemma {:induction false} ThroughAwaits(request: Frame, link: Link, rx: nat, tx: nat, n: nat)
    requires Through(request, link, rx, tx, n)
    ensures var f, r := Foreigns(request, link, rx, n), Again(link, rx, n);
      Await(request, link, rx, tx, 0, 0) == Await(request, link, rx + n, tx + r, f, r)
  {
    hide Through, Await, Foreign, AsksAgain;
    if n == 0 {
      NothingYet(request, link, rx);
    } else {
      ThroughShorter(request, link, rx, tx, n);
      ThroughCounts(request, link, rx, tx, n);
      ThroughAwaits(request, link, rx, tx, n - 1);
      OneKind(link, rx + n - 1, request);
      AwaitStep(request, link, rx + n - 1, tx + Again(link, rx, n - 1), Foreigns(request, link, rx, n - 1),
                Again(link, rx, n - 1));
    }
  }

  lemma NothingYet(request: Frame, link: Link, rx: nat)
    ensures Foreigns(request, link, rx, 0) == 0 && Again(link, rx, 0) == 0
  {
  }

  lemma OneKind(link: Link, k: nat, request: Frame)
    ensures !(Foreign(link, k, request) && AsksAgain(link, k))
  {
  }

  lemma ThroughCounts(request: Frame, link: Link, rx: nat, tx: nat, n: nat)
    requires Through(request, link, rx, tx, n)
    ensures Foreigns(request, link, rx, n) <= 49 && Again(link, rx, n) <= 3
  {
  }

  // What the wait comes to at reception n, all before it having left it going.
  lemma AwaitAt(request: Frame, link: Link, rx: nat, tx: nat, n: nat)
    requires Through(request, link, rx, tx, n)
    ensures var x := Await(request, link, rx, tx, 0, 0);
      var f, r, k := Foreigns(request, link, rx, n), Again(link, rx, n), rx + n;
      match link.receptions(k)
      case Got(frame) =>
        if frame.primitiveId == request.primitiveId + 0x80 && frame.frameId == request.frameId
        then x == Confirmed(frame, k + 1, tx + r)
        else if f == 49 then x == Error(-3, k + 1, tx + r)
        else Through(request, link, rx, tx, n + 1)
      case Failed(e) =>
        if e != -7 || r == 3 then x == Error(e, k + 1, tx + r)
        else if !link.accepts(tx + r) then x == Error(-1, k + 1, tx + r + 1)
        else Through(request, link, rx, tx, n + 1)
  {
    ThroughAwaits(request, link, rx, tx, n);
    ThroughLonger(request, link, rx, tx, n);
    var f, r := Foreigns(request, link, rx, n), Again(link, rx, n);
    hide Through, Foreigns, Again;
    ThroughCounts(request, link, rx, tx, n);
  }

  lemma ThroughLonger(request: Frame, link: Link, rx: nat, tx: nat, n: nat)
    requires Through(request, link, rx, tx, n)
    ensures Foreign(link, rx + n, request) && Foreigns(request, link, rx, n) < 49 ==>
      Through(request, link, rx, tx, n + 1)
    ensures AsksAgain(link, rx + n) && Again(link, rx, n) < 3 && link.accepts(tx + Again(link, rx, n)) ==>
      Through(request, link, rx, tx, n + 1)
  {
  }

  // Some reception ends the wait, after at most 52 that do not.
  lemma WaitEnds(request: Frame, link: Link, rx: nat, tx: nat) returns (n: nat)
    ensures n <= 52 && Through(request, link, rx, tx, n) && !Through(request, link, rx, tx, n + 1)
  {
    n := 0;
    while Through(request, link, rx, tx, n + 1)
      invariant Through(request, link, rx, tx, n) && n <= 52
      decreases 53 - n
    {
      ThroughIsShort(request, link, rx, tx, n + 1);
      n := n + 1;
    }
  }

  lemma ThroughIsShort(request: Frame, link: Link, rx: nat, tx: nat, n: nat)
    requires Through(request, link, rx, tx, n)
    ensures n == Foreigns(request, link, rx, n) + Again(link, rx, n) && n <= 52
  {
    hide Through, Foreign, AsksAgain;
    CountsCover(request, link, rx, tx, n);
    ThroughCounts(request, link, rx, tx, n);
  }

  lemma {:induction false} CountsCover(request: Frame, link: Link, rx: nat, tx: nat, n: nat)
    requires Through(request, link, rx, tx, n)
    ensures n == Foreigns(request, link, rx, n) + Again(link, rx, n)
  {
    hide Through, Foreign, AsksAgain;
    if n == 0 {
      NothingYet(request, link, rx);
    } else {
      ThroughShorter(request, link, rx, tx, n);
      OneKind(link, rx + n - 1, request);
      CountsCover(request, link, rx, tx, n - 1);
    }
  }

  // An exchange is confirmed by its n-th reception exactly when the request was accepted for sending, that
  // reception answers it, and all before it left the wait going.
  lemma ConfirmedIff(request: Frame, link: Link, rx: nat, tx: nat, n: nat)
    ensures var x := SendRequest(request, link, rx, tx);
      x.Confirmed? && x.rx == rx + n + 1
      <==> link.accepts(tx) && Through(request, link, rx, tx + 1, n)
           && link.receptions(rx + n).Got? && Answers(link.receptions(rx + n).frame, request)
    ensures var x := SendRequest(request, link, rx, tx);
      x.Confirmed? && x.rx == rx + n + 1 ==> link.receptions(rx + n) == Got(x.confirm)
  {
    hide Through, Await, Foreigns, Again;
    if link.accepts(tx) {
      if Through(request, link, rx, tx + 1, n) { AwaitAt(request, link, rx, tx + 1, n); }
      var m := WaitEnds(request, link, rx, tx + 1);
      AwaitAt(request, link, rx, tx + 1, m);
    }
  }

  // Otherwise its error is the code of the first reception that ends the wait, -1 after a refused
  // transmission, or -3 at the fiftieth foreign frame.
  lemma FailsWith(request: Frame, link: Link, rx: nat, tx: nat) returns (n: nat)
    requires SendRequest(request, link, rx, tx).Error?
    ensures link.accepts(tx) ==> Through(request, link, rx, tx + 1, n)
    ensures var x, r := SendRequest(request, link, rx, tx), Again(link, rx, n);
      if !link.accepts(tx) then x == Error(-1, rx, tx + 1)
      else match link.receptions(rx + n)
        case Got(_) =>
          && Foreign(link, rx + n, request) && Foreigns(request, link, rx, n) == 49
          && x == Error(-3, rx + n + 1, tx + 1 + r)
        case Failed(e) =>
          if e == -7 && r < 3
          then !link.accepts(tx + 1 + r) && x == Error(-1, rx + n + 1, tx + 2 + r)
          else x == Error(e, rx + n + 1, tx + 1 + r)
  {
    hide Through, Await, Foreigns, Again;
    n := 0;
    if link.accepts(tx) {
      n := WaitEnds(request, link, rx, tx + 1);
      AwaitAt(request, link, rx, tx + 1, n);
      ThroughCounts(request, link, rx, tx + 1, n);
    }
  }

  // The bounds are reached: three corrupted requests, then nothing but foreign confirms.
  lemma {:induction false} ForeignForever(request: Frame, link: Link, rx: nat, tx: nat, attempt: nat, retries: nat)
    requires attempt <= MAX_CONFIRM_ATTEMPT && retries <= MAX_CRC_REQUEST_ERROR_RETRIES
    requires forall k ::
      link.receptions(k) == if k < 3 then Failed(WRONG_CRC_FROM_HOST) else Got(Frame(request.primitiveId, 0, []))
    requires forall k :: link.accepts(k)
    requires if rx < 3 then retries == rx && attempt == 0 else retries == 3
    ensures Await(request, link, rx, tx, attempt, retries)
      == Error(SYNC_ERROR, rx + (50 - attempt) + (3 - retries), tx + (3 - retries))
    decreases MAX_CONFIRM_ATTEMPT - attempt + MAX_CRC_REQUEST_ERROR_RETRIES - retries
  {
    if attempt < MAX_CONFIRM_ATTEMPT {
      if rx < 3 {
        ForeignForever(request, link, rx + 1, tx + 1, attempt, retries + 1);
      } else {
        ForeignForever(request, link, rx + 1, tx, attempt + 1, retries);
      }
    }
  }

  lemma BoundsReached(request: Frame)
    ensures exists link :: SendRequest(request, link, 0, 0) == Error(SYNC_ERROR, 53, 4)
  {
    var link := Link(k => if k < 3 then Failed(WRONG_CRC_FROM_HOST) else Got(Frame(request.primitiveId, 0, [])),
                     k => true);
    ForeignForever(request, link, 0, 1, 0, 0);
    assert SendRequest(request, link, 0, 0) == Error(SYNC_ERROR, 53, 4);
  }
}
