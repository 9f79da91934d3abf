/**
 Eight-bit frame ids over a FIFO link whose confirms may be late, damaged, lost or dummies that ask for a
 repetition: when can an old confirm be taken for the current one?
 */
module StaleConfirms {
  import opened Bytes
  import opened Requests

  // Requests are numbered as they are issued.  Item n is what the node sends about request n: its
  // confirm, intact or damaged on the way, or the dummy that asks to repeat the request.
  datatype Item = Intact(n: nat) | Damaged(n: nat) | Repeat(n: nat)

  // sent: requests issued; pending: what is on the link, oldest first; high: the request last answered;
  // waiting: send_request_locked waits for the confirm of the latest request.
  datatype State = State(sent: nat, pending: seq<Item>, high: int, waiting: bool)

  datatype Step = Send | Arrive(item: Item) | Collect

  // What is asked and answered: the primitive of request n, and what it and its confirm carry
  datatype Traffic = Traffic(primitive: nat -> nat, asked: nat -> seq<byte>, answered: nat -> seq<byte>)

  function RequestOf(traffic: Traffic, n: nat): Frame { Frame(traffic.primitive(n), n % 0x100, traffic.asked(n)) }

  function ConfirmOf(traffic: Traffic, n: nat): Frame {
    Frame(traffic.primitive(n) + SAP_CONFIRM_OFFSET, n % 0x100, traffic.answered(n))
  }

  function ReceptionOf(traffic: Traffic, pending: seq<Item>, k: nat): Reception {
    if k >= |pending| then Failed(TIMEOUT_ERROR)
    else
      match pending[k]
      case Intact(n) => Got(ConfirmOf(traffic, n))
      case Damaged(n) => Failed(WRONG_CRC)
      case Repeat(n) => Failed(WRONG_CRC_FROM_HOST)
  }

  // What the current request meets: the items on the link, then silence.  Whatever arrives while it
  // waits, answers to its own repetitions among it, counts as pending.
  function LinkOf(traffic: Traffic, pending: seq<Item>): Link {
    Link((k: nat) => ReceptionOf(traffic, pending, k), (k: nat) => true)
  }

  // The waiting of send_request_locked for the latest request
  function Outcome(traffic: Traffic, s: State): Exchange
    requires s.sent > 0
  {
    Await(RequestOf(traffic, s.sent - 1), LinkOf(traffic, s.pending), 0, 0, 0, 0)
  }

  function Left(pending: seq<Item>, consumed: nat): seq<Item> {
    if consumed <= |pending| then pending[consumed..] else []
  }

  // One request at a time; the node answers in the order of the requests, a repeated one again.
  predicate Enabled(s: State, step: Step) {
    match step
    case Send => !s.waiting
    case Arrive(item) => s.high <= item.n < s.sent
    case Collect => s.waiting && s.sent > 0
  }

  function Next(traffic: Traffic, s: State, step: Step): State
    requires Enabled(s, step)
  {
    match step
    case Send => s.(sent := s.sent + 1, waiting := true)
    case Arrive(item) => s.(pending := s.pending + [item], high := item.n)
    case Collect => s.(pending := Left(s.pending, Outcome(traffic, s).rx), waiting := false)
  }

  const Initial := State(0, [], -1, false)

  predicate Inv(s: State) {
    && s.high < s.sent && (s.waiting ==> s.sent > 0)
    && (forall i, j :: 0 <= i < j < |s.pending| ==> s.pending[i].n <= s.pending[j].n)
    && (forall i :: 0 <= i < |s.pending| ==> s.pending[i].n <= s.high)
  }

  lemma InitialInv()
    ensures Inv(Initial)
  {
  }

  lemma NextKeepsInv(traffic: Traffic, s: State, step: Step)
    requires Inv(s) && Enabled(s, step)
    ensures Inv(Next(traffic, s, step))
  {
    hide Await;
    if step.Collect? {
      var t := Next(traffic, s, step);
      var d := |s.pending| - |t.pending|;
      assert forall i :: 0 <= i < |t.pending| ==> t.pending[i] == s.pending[i + d];
    }
  }

  // Fewer than 256 requests lie between the oldest item on the link and the current request.
  predicate Window(s: State) {
    s.pending != [] ==> s.sent - 1 - s.pending[0].n < 0x100
  }

  lemma SameIdSameRequest(m: nat, n: nat)
    requires m <= n < m + 0x100 && m % 0x100 == n % 0x100
    ensures m == n
  {
  }

  // A wait takes what it receives off the front of the link and leaves the rest.
  lemma CollectTakesFront(traffic: Traffic, s: State)
    requires Inv(s) && s.waiting
    ensures var x, t := Outcome(traffic, s), Next(traffic, s, Collect);
      && s.pending == s.pending[..|s.pending| - |t.pending|] + t.pending
      && |s.pending| - |t.pending| == (if x.rx <= |s.pending| then x.rx else |s.pending|)
      && !t.waiting && t.sent == s.sent && t.high == s.high
  {
    hide Await;
  }

  // Inside the window an accepted confirm answers the current request, and nothing older is left.
  lemma AcceptedAnswersCurrent(traffic: Traffic, s: State)
    requires Inv(s) && s.waiting && Window(s)
    ensures var x := Outcome(traffic, s);
      x.Confirmed? ==>
        && 0 < x.rx <= |s.pending| && s.pending[x.rx - 1] == Intact(s.sent - 1)
        && x.confirm == ConfirmOf(traffic, s.sent - 1)
        && forall item :: item in Next(traffic, s, Collect).pending ==> item.n == s.sent - 1
  {
    hide Await;
    var n := s.sent - 1;
    var request, link := RequestOf(traffic, n), LinkOf(traffic, s.pending);
    AwaitBounded(request, link, 0, 0, 0, 0);
    var x := Outcome(traffic, s);
    if x.Confirmed? {
      var k := x.rx - 1;
      assert link.receptions(k) == ReceptionOf(traffic, s.pending, k);
      assert k < |s.pending|;
      SameIdSameRequest(s.pending[k].n, n);
      LaterAreCurrent(s, k);
    }
  }

  lemma LaterAreCurrent(s: State, k: nat)
    requires Inv(s) && k < |s.pending| && s.pending[k].n == s.sent - 1
    ensures forall item :: item in s.pending[k + 1..] ==> item.n == s.sent - 1
  {
    forall j | k < j < |s.pending|
      ensures s.pending[j].n == s.sent - 1
    {
      assert s.pending[k].n <= s.pending[j].n;
    }
  }

  /* ---------- Whole runs ---------- */

  ghost predicate IsRun(traffic: Traffic, states: seq<State>, steps: seq<Step>) {
    && |states| == |steps| + 1 && states[0] == Initial
    && forall i {:trigger steps[i]} :: 0 <= i < |steps| ==>
         Enabled(states[i], steps[i]) && states[i + 1] == Next(traffic, states[i], steps[i])
  }

  lemma {:induction false} RunInv(traffic: Traffic, states: seq<State>, steps: seq<Step>, i: nat)
    requires IsRun(traffic, states, steps) && i < |states|
    ensures Inv(states[i])
  {
    hide Await, Outcome, Inv;
    if i == 0 {
      InitialInv();
    } else {
      RunInv(traffic, states, steps, i - 1);
      assert states[i] == Next(traffic, states[i - 1], steps[i - 1]);
      NextKeepsInv(traffic, states[i - 1], steps[i - 1]);
    }
  }

  // At every point of every run where the window holds, no stale confirm is accepted, and a
  // successful request leaves nothing older than itself behind.
  lemma NoStaleConfirmAccepted(traffic: Traffic, states: seq<State>, steps: seq<Step>, i: nat)
    requires IsRun(traffic, states, steps) && i < |steps| && steps[i] == Collect && Window(states[i])
    ensures states[i].sent > 0
    ensures Outcome(traffic, states[i]).Confirmed? ==>
      && Outcome(traffic, states[i]).confirm == ConfirmOf(traffic, states[i].sent - 1)
      && Intact(states[i].sent - 1) in states[i].pending
      && forall item :: item in states[i + 1].pending ==> item.n == states[i].sent - 1
  {
    hide Await, Inv, Window;
    RunInv(traffic, states, steps, i);
    assert states[i + 1] == Next(traffic, states[i], steps[i]);
    AcceptedAnswersCurrent(traffic, states[i]);
  }

  /* ---------- Exactly when ---------- */

  function Intacts(pending: seq<Item>, k: nat): nat
    requires k <= |pending|
  {
    if k == 0 then 0 else Intacts(pending, k - 1) + if pending[k - 1].Intact? then 1 else 0
  }

  function Repeats(pending: seq<Item>, k: nat): nat
    requires k <= |pending|
  {
    if k == 0 then 0 else Repeats(pending, k - 1) + if pending[k - 1].Repeat? then 1 else 0
  }

  // The wait can get from item i to item k: no damaged confirm ends it, and the attempts and retries
  // already used leave enough for the items in between.
  predicate Passes(pending: seq<Item>, i: nat, k: nat, attempt: nat, retries: nat)
    requires i <= k < |pending|
  {
    && (forall j :: i <= j < k ==> !pending[j].Damaged?)
    && attempt + Intacts(pending, k) - Intacts(pending, i) < MAX_CONFIRM_ATTEMPT
    && retries + Repeats(pending, k) - Repeats(pending, i) <= MAX_CRC_REQUEST_ERROR_RETRIES
  }

  predicate Reachable(s: State, k: nat)
    requires k < |s.pending|
  {
    Passes(s.pending, 0, k, 0, 0)
  }

  predicate SameId(item: Item, n: nat) { item.Intact? && item.n % 0x100 == n % 0x100 }

  // An accepted confirm was reachable.
  lemma {:induction false} AcceptedPasses(traffic: Traffic, pending: seq<Item>, n: nat, i: nat, tx: nat,
                                          attempt: nat, retries: nat)
    requires i <= |pending| && attempt <= MAX_CONFIRM_ATTEMPT && retries <= MAX_CRC_REQUEST_ERROR_RETRIES
    ensures var x := Await(RequestOf(traffic, n), LinkOf(traffic, pending), i, tx, attempt, retries);
      x.Confirmed? ==>
        && i < x.rx <= |pending| && SameId(pending[x.rx - 1], n)
        && Passes(pending, i, x.rx - 1, attempt, retries)
    decreases |pending| - i
  {
    var link := LinkOf(traffic, pending);
    if i < |pending| && attempt < MAX_CONFIRM_ATTEMPT {
      assert link.receptions(i) == ReceptionOf(traffic, pending, i);
      CountsGrow(pending, i);
      match pending[i]
      case Damaged(_) =>
      case Intact(m) => AcceptedPasses(traffic, pending, n, i + 1, tx, attempt + 1, retries);
      case Repeat(_) =>
        if retries < MAX_CRC_REQUEST_ERROR_RETRIES {
          AcceptedPasses(traffic, pending, n, i + 1, tx + 1, attempt, retries + 1);
        }
    }
  }

  lemma CountsGrow(pending: seq<Item>, i: nat)
    requires i < |pending|
    ensures Intacts(pending, i + 1) == Intacts(pending, i) + if pending[i].Intact? then 1 else 0
    ensures Repeats(pending, i + 1) == Repeats(pending, i) + if pending[i].Repeat? then 1 else 0
  {
  }

  lemma {:induction false} CountsMonotonic(pending: seq<Item>, i: nat, k: nat)
    requires i <= k <= |pending|
    ensures Intacts(pending, i) <= Intacts(pending, k) && Repeats(pending, i) <= Repeats(pending, k)
    decreases k
  {
    if i < k { CountsMonotonic(pending, i, k - 1); }
  }

  // With one primitive for all requests, the first reachable confirm with the current id is accepted.
  lemma {:induction false} FirstSameIdAccepted(traffic: Traffic, pending: seq<Item>, n: nat, i: nat, k: nat, tx: nat,
                                               attempt: nat, retries: nat)
    requires i <= k < |pending| && attempt <= MAX_CONFIRM_ATTEMPT && retries <= MAX_CRC_REQUEST_ERROR_RETRIES
    requires Passes(pending, i, k, attempt, retries) && SameId(pending[k], n)
    requires forall j :: i <= j < k ==> !SameId(pending[j], n)
    requires forall m: nat :: traffic.primitive(m) == traffic.primitive(0)
    ensures var x := Await(RequestOf(traffic, n), LinkOf(traffic, pending), i, tx, attempt, retries);
      x.Confirmed? && x.rx == k + 1
    decreases k - i
  {
    var link := LinkOf(traffic, pending);
    assert link.receptions(i) == ReceptionOf(traffic, pending, i);
    CountsMonotonic(pending, i, k);
    if i < k {
      CountsGrow(pending, i);
      CountsMonotonic(pending, i + 1, k);
      if pending[i].Intact? {
        FirstSameIdAccepted(traffic, pending, n, i + 1, k, tx, attempt + 1, retries);
      } else {
        FirstSameIdAccepted(traffic, pending, n, i + 1, k, tx + 1, attempt, retries + 1);
      }
    }
  }

  predicate AcceptsOnlyCurrent(traffic: Traffic, s: State)
    requires s.sent > 0
  {
    var x := Outcome(traffic, s);
    x.Confirmed? ==> 0 < x.rx <= |s.pending| && s.pending[x.rx - 1] == Intact(s.sent - 1)
  }

  // Some confirm the wait can reach has the current id without being the current confirm.
  predicate StaleReachable(s: State)
    requires s.sent > 0
  {
    exists k ::
      && 0 <= k < |s.pending| && Reachable(s, k)
      && SameId(s.pending[k], s.sent - 1) && s.pending[k].n != s.sent - 1
  }

  // One primitive, and nothing carried
  function Silent(): Traffic { Traffic((m: nat) => 0, (m: nat) => [], (m: nat) => []) }

  // No stale confirm is accepted, whatever the traffic, exactly when none is reachable.
  lemma SafeIff(s: State)
    requires Inv(s) && s.waiting
    ensures (forall traffic: Traffic :: AcceptsOnlyCurrent(traffic, s)) <==> !StaleReachable(s)
  {
    hide Await, Passes;
    if !StaleReachable(s) {
      forall traffic: Traffic
        ensures AcceptsOnlyCurrent(traffic, s)
      {
        AcceptedPasses(traffic, s.pending, s.sent - 1, 0, 0, 0, 0);
      }
    } else {
      var k :| && 0 <= k < |s.pending| && Reachable(s, k)
               && SameId(s.pending[k], s.sent - 1) && s.pending[k].n != s.sent - 1;
      StaleAccepted(s, k);
      assert !AcceptsOnlyCurrent(Silent(), s);
    }
  }

  lemma StaleAccepted(s: State, k: nat)
    requires Inv(s) && s.waiting && k < |s.pending| && Reachable(s, k)
    requires SameId(s.pending[k], s.sent - 1) && s.pending[k].n != s.sent - 1
    ensures !AcceptsOnlyCurrent(Silent(), s)
  {
    hide Await, SameId, Passes;
    var f := FirstSameId(s.pending, s.sent - 1, k);
    PassesEarlier(s.pending, f, k);
    FirstSameIdAccepted(Silent(), s.pending, s.sent - 1, 0, f, 0, 0, 0);
    assert s.pending[f].n <= s.pending[k].n;
  }

  lemma {:induction false} FirstSameId(pending: seq<Item>, n: nat, k: nat) returns (f: nat)
    requires k < |pending| && SameId(pending[k], n)
    ensures f <= k && SameId(pending[f], n) && forall j :: 0 <= j < f ==> !SameId(pending[j], n)
  {
    if j :| 0 <= j < k && SameId(pending[j], n) {
      f := FirstSameId(pending, n, j);
    } else {
      f := k;
    }
  }

  lemma PassesEarlier(pending: seq<Item>, f: nat, k: nat)
    requires f <= k < |pending| && Passes(pending, 0, k, 0, 0)
    ensures Passes(pending, 0, f, 0, 0)
  {
    CountsMonotonic(pending, f, k);
  }

  /* ---------- A run outside the window ---------- */

  lemma Extend(traffic: Traffic, states: seq<State>, steps: seq<Step>, step: Step)
    requires IsRun(traffic, states, steps) && Enabled(states[|steps|], step)
    ensures IsRun(traffic, states + [Next(traffic, states[|steps|], step)], steps + [step])
  {
    hide Next, Enabled;
    var states', steps' := states + [Next(traffic, states[|steps|], step)], steps + [step];
    forall i {:trigger steps'[i]} | 0 <= i < |steps'|
      ensures Enabled(states'[i], steps'[i]) && states'[i + 1] == Next(traffic, states'[i], steps'[i])
    {
      if i < |steps| {
        assert steps'[i] == steps[i] && states'[i] == states[i] && states'[i + 1] == states[i + 1];
      }
    }
  }

  lemma NothingArrives(traffic: Traffic, k: nat)
    ensures Next(traffic, State(k + 1, [], -1, true), Collect) == State(k + 1, [], -1, false)
  {
    var link := LinkOf(traffic, []);
    assert link.receptions(0) == Failed(TIMEOUT_ERROR);
  }

  // k requests that nothing answers
  lemma {:induction false} Unanswered(traffic: Traffic, k: nat) returns (states: seq<State>, steps: seq<Step>)
    ensures IsRun(traffic, states, steps) && states[|steps|] == State(k, [], -1, false)
  {
    hide Outcome;
    if k == 0 {
      states, steps := [Initial], [];
    } else {
      states, steps := Unanswered(traffic, k - 1);
      Extend(traffic, states, steps, Send);
      states, steps := states + [Next(traffic, states[|steps|], Send)], steps + [Send];
      NothingArrives(traffic, k - 1);
      Extend(traffic, states, steps, Collect);
      states, steps := states + [Next(traffic, states[|steps|], Collect)], steps + [Collect];
    }
  }

  // The node asks r times for the request again and then answers it.
  function Asked(n: nat, r: nat): (items: seq<Item>)
    ensures |items| == r && forall i :: 0 <= i < r ==> items[i] == Repeat(n)
  {
    if r == 0 then [] else Asked(n, r - 1) + [Repeat(n)]
  }

  lemma {:induction false} AskedThenAnswered(traffic: Traffic, n: nat, r: nat, i: nat)
    requires i <= r <= 3
    ensures Await(RequestOf(traffic, n), LinkOf(traffic, Asked(n, r) + [Intact(n)]), i, i, 0, i)
      == Confirmed(ConfirmOf(traffic, n), r + 1, r)
    decreases r - i
  {
    var link := LinkOf(traffic, Asked(n, r) + [Intact(n)]);
    assert link.receptions(i) == if i < r then Failed(WRONG_CRC_FROM_HOST) else Got(ConfirmOf(traffic, n));
    assert link.accepts(i);
    if i < r { AskedThenAnswered(traffic, n, r, i + 1); }
  }

  // Some run brings up to three dummies and then the confirm for any request, and the confirm is accepted with
  // whatever it carries; the link is empty afterwards.
  lemma AnsweredAfterRepeats(traffic: Traffic, n: nat, r: nat) returns (states: seq<State>, steps: seq<Step>)
    requires r <= 3
    ensures IsRun(traffic, states, steps)
    ensures var s := states[|steps|];
      && s == State(n + 1, Asked(n, r) + [Intact(n)], n, true)
      && Outcome(traffic, s) == Confirmed(ConfirmOf(traffic, n), r + 1, r)
      && Next(traffic, s, Collect) == State(n + 1, [], n, false)
  {
    hide Outcome;
    states, steps := Unanswered(traffic, n);
    Extend(traffic, states, steps, Send);
    states, steps := states + [Next(traffic, states[|steps|], Send)], steps + [Send];
    for i := 0 to r
      invariant IsRun(traffic, states, steps) && |states| == |steps| + 1
      invariant states[|steps|] == State(n + 1, Asked(n, i), if i == 0 then -1 else n, true)
    {
      Extend(traffic, states, steps, Arrive(Repeat(n)));
      states, steps := states + [Next(traffic, states[|steps|], Arrive(Repeat(n)))], steps + [Arrive(Repeat(n))];
    }
    Extend(traffic, states, steps, Arrive(Intact(n)));
    states, steps := states + [Next(traffic, states[|steps|], Arrive(Intact(n)))], steps + [Arrive(Intact(n))];
    RepeatsOutcome(traffic, states[|steps|], n, r);
  }

  lemma RepeatsOutcome(traffic: Traffic, s: State, n: nat, r: nat)
    requires r <= 3 && s == State(n + 1, Asked(n, r) + [Intact(n)], n, true)
    ensures Outcome(traffic, s) == Confirmed(ConfirmOf(traffic, n), r + 1, r)
  {
    hide Await;
    AskedThenAnswered(traffic, n, r, 0);
  }

  // The window cannot be widened: some run delivers a confirm exactly 256 requests old, and if it has
  // the same primitive it passes for the current one.
  lemma OneMoreAccepted(traffic: Traffic, n: nat) returns (states: seq<State>, steps: seq<Step>)
    requires n >= 0x100 && traffic.primitive(n) == traffic.primitive(n - 0x100)
    ensures IsRun(traffic, states, steps)
    ensures var s := states[|steps|];
      && s == State(n + 1, [Intact(n - 0x100)], n - 0x100, true)
      && Outcome(traffic, s) == Confirmed(ConfirmOf(traffic, n - 0x100), 1, 0)
  {
    states, steps := Unanswered(traffic, n);
    Extend(traffic, states, steps, Send);
    states, steps := states + [Next(traffic, states[|steps|], Send)], steps + [Send];
    var late := Arrive(Intact(n - 0x100));
    Extend(traffic, states, steps, late);
    states, steps := states + [Next(traffic, states[|steps|], late)], steps + [late];
    OldAccepted(traffic, n);
  }

  lemma OldAccepted(traffic: Traffic, n: nat)
    requires n >= 0x100 && traffic.primitive(n) == traffic.primitive(n - 0x100)
    ensures Outcome(traffic, State(n + 1, [Intact(n - 0x100)], n - 0x100, true))
      == Confirmed(ConfirmOf(traffic, n - 0x100), 1, 0)
  {
    assert (n - 0x100) % 0x100 == n % 0x100;
    var link := LinkOf(traffic, [Intact(n - 0x100)]);
    assert link.receptions(0) == Got(ConfirmOf(traffic, n - 0x100));
  }
}
