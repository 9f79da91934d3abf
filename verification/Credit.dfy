/**
 The downlink limit of the sink service: data.c counts the weight of what it has handed to the sink,
 dsap.c remembers the packets whose transmission is still to be reported.  The message handler and the
 report of a transmission run in different threads; a send is taken in three steps between which
 reports may come.
 */
module Credit {
  import opened CallbackTable
  import DsapTx
  import Tiles

  const MAX_DOWNLINK_LIMIT := 16
  const MAX_FULL_PACKET_SIZE := 1500
  const ON_DATA_SENT: Callback := 1
  const NO_CALLBACK: Callback := 0

  // m_downlink_limit and m_max_mtu
  datatype Config = Config(limit: nat, mtu: nat) {
    // What main.c accepts as a limit
    predicate Valid() { limit <= MAX_DOWNLINK_LIMIT && mtu > 0 }
  }

  // Where send_message stands: Sending before its message is handed over, Counting after the message
  // was accepted and before its weight is added.
  datatype Phase = Idle | Sending(len: nat, weight: nat, pduId: nat) | Counting(weight: nat)

  // births[i]: how many ids had been issued before the one in entry i; not part of the program.
  datatype State = State(table: seq<Slot>, births: seq<int>, queued: nat, issued: nat, phase: Phase)

  datatype Step = Begin(len: nat) | Sent(accepted: bool) | Count | Indicate(pduId: nat)

  // The weight of a message: its number of fragments, in eight bits
  function WeightOf(len: nat, mtu: nat): nat
    requires mtu > 0
  {
    Tiles.Count(len, mtu) % 0x100
  }

  predicate Refuses(c: Config, s: State, len: nat)
    requires c.mtu > 0
  {
    c.limit > 0 && s.queued + WeightOf(len, c.mtu) > c.limit
  }

  function BeginSend(c: Config, s: State, len: nat): State
    requires c.mtu > 0
  {
    if Refuses(c, s, len) then s
    else if c.limit == 0 then s.(phase := Sending(len, 0, 0))
    else
      var w := WeightOf(len, c.mtu);
      s.(phase := Sending(len, w, w * 0x100 + s.issued % 0x100), issued := s.issued + 1)
  }

  // dsap.c registers the callback of an accepted message.
  function Handed(c: Config, s: State, accepted: bool): State
    requires s.phase.Sending? && |s.births| == |s.table|
  {
    if !accepted || c.limit == 0 then s.(phase := Idle)
    else
      var k := FirstFree(s.table, 0);
      s.(table := Register(s.table, ON_DATA_SENT, s.phase.pduId),
         births := if k < |s.table| then s.births[k := s.issued - 1] else s.births,
         phase := Counting(s.phase.weight))
  }

  function Counted(s: State): State
    requires s.phase.Counting?
  {
    s.(queued := (s.queued + s.phase.weight) % 0x100, phase := Idle)
  }

  // on_data_sent_cb gives back the weight in the high byte of the id.
  function Minus(queued: nat, weight: nat): nat { (queued - weight) % 0x100 }

  function Indicated(s: State, pduId: nat): State {
    s.(table := Release(s.table, pduId),
       queued := if CallbackOf(s.table, pduId, |s.table|) == Registered(ON_DATA_SENT)
                 then Minus(s.queued, pduId / 0x100) else s.queued)
  }

  // Messages may have any length; the stack accepts none above its maximum.  A transmission may be
  // reported at any time, for any id, any number of times.
  predicate Enabled(s: State, step: Step) {
    && |s.births| == |s.table|
    && match step
       case Begin(len) => s.phase.Idle?
       case Sent(accepted) => s.phase.Sending? && (accepted ==> s.phase.len <= MAX_FULL_PACKET_SIZE)
       case Count => s.phase.Counting?
       case Indicate(pduId) => true
  }

  function Next(c: Config, s: State, step: Step): State
    requires c.mtu > 0 && Enabled(s, step)
  {
    match step
    case Begin(len) => BeginSend(c, s, len)
    case Sent(accepted) => Handed(c, s, accepted)
    case Count => Counted(s)
    case Indicate(pduId) => Indicated(s, pduId)
  }

  // The three steps of a send in a row
  function SendDone(c: Config, s: State, len: nat, accepted: bool): State
    requires c.mtu > 0 && s.phase.Idle? && |s.births| == |s.table|
  {
    if Refuses(c, s, len) then s
    else
      var t := Handed(c, BeginSend(c, s, len), accepted);
      if t.phase.Counting? then Counted(t) else t
  }

  lemma SendDoneFields(c: Config, s: State, len: nat, accepted: bool)
    requires c.mtu > 0 && s.phase.Idle? && |s.births| == |s.table| && !Refuses(c, s, len)
    ensures var t, w := SendDone(c, s, len, accepted), WeightOf(len, c.mtu);
      && t.phase.Idle? && |t.births| == |t.table|
      && t.issued == (if c.limit > 0 then s.issued + 1 else s.issued)
      && (if c.limit > 0 && accepted
          then t.table == Register(s.table, ON_DATA_SENT, w * 0x100 + s.issued % 0x100)
               && t.queued == (s.queued + w) % 0x100
          else t.table == s.table && t.queued == s.queued)
  {
    hide WeightOf, FirstFree;
  }

  lemma RefusedSend(c: Config, s: State, len: nat, accepted: bool)
    requires c.mtu > 0 && s.phase.Idle? && |s.births| == |s.table| && Refuses(c, s, len)
    ensures SendDone(c, s, len, accepted) == s
  {
  }

  lemma NextId(issued: nat)
    ensures (issued % 0x100 + 1) % 0x100 == (issued + 1) % 0x100
  {
  }

  predicate IsInitial(s: State) {
    && |s.table| == |s.births| == MAX_SENT_PACKET_WITH_INDICATION
    && (forall i :: 0 <= i < |s.table| ==> !s.table[i].busy)
    && s.queued == 0 && s.issued == 0 && s.phase == Idle
  }

  /* ---------- The program ---------- */

  class Sink {
    const c: Config
    const indications: IndicationTable
    var queued: nat            // uint8_t m_message_queued_in_sink
    var pduId: nat             // static uint8_t m_pdu_id

    constructor (c: Config)
      ensures this.c == c && queued == 0 && pduId == 0 && fresh(indications) && fresh(indications.entries)
      ensures indications.entries.Length == MAX_SENT_PACKET_WITH_INDICATION
      ensures forall i :: 0 <= i < indications.entries.Length ==> !indications.entries[i].busy
    {
      this.c := c;
      queued, pduId := 0, 0;
      indications := new IndicationTable();
    }

    ghost predicate Represents(s: State)
      reads this, indications.entries
    {
      && s.table == indications.entries[..] && |s.births| == |s.table|
      && s.queued == queued && s.issued % 0x100 == pduId && s.phase == Idle
    }

    method WeightIn(len: nat) returns (weight: nat)
      requires c.mtu > 0
      ensures weight == WeightOf(len, c.mtu)
    {
      weight := ((len + c.mtu - 1) / c.mtu) % 0x100;
    }

    // send_message for a message of len octets; accepted says what the stack answers when it is asked.
    // The new state is the one of the three steps in a row, or the old one after a refusal.
    method SendMessage(len: nat, accepted: bool, ghost s: State) returns (outOfMemory: bool)
      requires c.mtu > 0 && Represents(s)
      modifies this, indications.entries
      ensures outOfMemory <==> Refuses(c, s, len)
      ensures Represents(SendDone(c, s, len, accepted))
    {
      hide FirstFree, Register, WeightOf, SendDone;
      var weight, id := 0, 0;
      outOfMemory := false;
      if c.limit > 0 {
        weight := WeightIn(len);
        if queued + weight > c.limit {
          RefusedSend(c, s, len, accepted);
          return true;
        }
        id := weight * 0x100 + pduId;
        pduId := (pduId + 1) % 0x100;
      }
      SendDoneFields(c, s, len, accepted);
      NextId(s.issued);
      if accepted {
        if c.limit > 0 {
          var _ := indications.SetIndicationCb(ON_DATA_SENT, id);
          queued := (queued + weight) % 0x100;
        }
      }
    }

    // dsap_data_tx_indication_handler
    method TxIndication(id: nat, ghost s: State)
      requires Represents(s)
      modifies this`queued, indications.entries
      ensures Represents(Indicated(s, id))
    {
      hide FirstFree, Register;
      var cb := indications.GetIndicationCb(id);
      if cb == Registered(ON_DATA_SENT) {
        queued := (queued - id / 0x100) % 0x100;
      }
    }
  }

  /* ---------- The invariant ---------- */

  predicate Outstanding(s: State, i: nat)
    requires |s.births| == |s.table| && i < |s.table|
  {
    && s.table[i].cb == ON_DATA_SENT && 0x100 <= s.table[i].pduId < 0x10000
    && s.table[i].pduId % 0x100 == s.births[i] % 0x100
    && 0 <= s.births[i] < s.issued
  }

  // Entries carry the ids of different sends, with their weights.
  predicate EntriesOk(s: State) {
    && |s.births| == |s.table| == MAX_SENT_PACKET_WITH_INDICATION
    && (forall i :: 0 <= i < |s.table| && s.table[i].busy ==> Outstanding(s, i))
    && forall i, j :: 0 <= i < j < |s.table| && s.table[i].busy && s.table[j].busy ==> s.births[i] != s.births[j]
  }

  function Sum(s: State): nat { Total(s.table, |s.table|) }

  // Outside the short time in which an accepted message is not yet counted, the counter is the sum of
  // the weights in the table; in that time it may be behind, even below zero modulo 256.
  predicate Balanced(c: Config, s: State) {
    && s.queued < 0x100 && Sum(s) <= c.limit
    && match s.phase
       case Idle => s.queued == Sum(s)
       case Sending(_, w, _) => s.queued == Sum(s) && Sum(s) + w <= c.limit
       case Counting(w) => (s.queued + w) % 0x100 == Sum(s)
  }

  predicate PhaseOk(c: Config, s: State)
    requires c.mtu > 0 && |s.births| == |s.table|
  {
    s.phase.Sending? && c.limit > 0 ==>
      && s.phase.weight == WeightOf(s.phase.len, c.mtu)
      && s.issued > 0 && s.phase.pduId == s.phase.weight * 0x100 + (s.issued - 1) % 0x100
      && forall i :: 0 <= i < |s.table| && s.table[i].busy ==> s.births[i] < s.issued - 1
  }

  predicate Inv(c: Config, s: State) {
    c.Valid() && EntriesOk(s) && Balanced(c, s) && PhaseOk(c, s)
  }

  // Fewer than 256 ids have been issued since that of any outstanding message.
  predicate Window(s: State)
    requires |s.births| == |s.table|
  {
    forall i :: 0 <= i < |s.table| && s.table[i].busy ==> s.issued - 1 - s.births[i] < 0x100
  }

  // What is sent can be told from nothing: its weight does not vanish in eight bits.
  predicate Weighty(c: Config, len: nat)
    requires c.mtu > 0
  {
    len > MAX_FULL_PACKET_SIZE || WeightOf(len, c.mtu) > 0
  }

  predicate StepWeighty(c: Config, step: Step)
    requires c.mtu > 0
  {
    step.Begin? ==> Weighty(c, step.len)
  }

  predicate PhaseWeighty(c: Config, s: State)
    requires c.mtu > 0
  {
    s.phase.Sending? ==> Weighty(c, s.phase.len)
  }

  lemma SameByteSameBirth(m: int, n: int)
    requires m <= n < m + 0x100 && m % 0x100 == n % 0x100
    ensures m == n
  {
  }

  lemma WindowGivesDistinctIds(s: State)
    requires EntriesOk(s) && Window(s)
    ensures DistinctIds(s.table)
  {
    forall i, j | 0 <= i < j < |s.table| && s.table[i].busy && s.table[j].busy
      ensures s.table[i].pduId != s.table[j].pduId
    {
      assert Outstanding(s, i) && Outstanding(s, j);
      if s.table[i].pduId == s.table[j].pduId {
        if s.births[i] <= s.births[j] {
          SameByteSameBirth(s.births[i], s.births[j]);
        } else {
          SameByteSameBirth(s.births[j], s.births[i]);
        }
      }
    }
  }

  lemma HighByte(w: nat, r: nat)
    requires r < 0x100
    ensures (w * 0x100 + r) / 0x100 == w && (w * 0x100 + r) % 0x100 == r
  {
  }

  lemma BeginKeepsInv(c: Config, s: State, len: nat)
    requires Inv(c, s) && s.phase.Idle?
    ensures Inv(c, BeginSend(c, s, len))
  {
    hide WeightOf, Total;
    var t := BeginSend(c, s, len);
    assert forall i :: 0 <= i < |s.table| && s.table[i].busy ==> Outstanding(s, i) ==> Outstanding(t, i);
  }

  // There is room: every busy entry weighs at least one, and the new message fits under the limit.
  lemma FreeEntry(c: Config, s: State)
    requires Inv(c, s) && s.phase.Sending? && s.phase.weight > 0
    ensures FirstFree(s.table, 0) < |s.table|
  {
    hide WeightOf;
    if FirstFree(s.table, 0) == |s.table| {
      forall i | 0 <= i < |s.table| ensures s.table[i].busy && s.table[i].pduId >= 0x100 {
        assert Outstanding(s, i);
      }
      FullTableTotal(s.table, |s.table|);
    }
  }

  lemma AcceptedKeepsEntries(c: Config, s: State)
    requires Inv(c, s) && c.limit > 0 && s.phase.Sending? && 0 < s.phase.weight < 0x100
    ensures EntriesOk(Handed(c, s, true))
  {
    hide WeightOf, Total;
    FreeEntry(c, s);
    var k, t := FirstFree(s.table, 0), Handed(c, s, true);
    HighByte(s.phase.weight, (s.issued - 1) % 0x100);
    assert Outstanding(t, k);
    forall i | 0 <= i < |t.table| && t.table[i].busy ensures Outstanding(t, i) {
      if i != k { assert Outstanding(s, i); }
    }
  }

  lemma AcceptedKeepsBalance(c: Config, s: State)
    requires Inv(c, s) && c.limit > 0 && s.phase.Sending? && 0 < s.phase.weight
    ensures Balanced(c, Handed(c, s, true))
  {
    hide WeightOf, Total;
    FreeEntry(c, s);
    TotalAfterRegister(s.table, ON_DATA_SENT, s.phase.pduId);
    HighByte(s.phase.weight, (s.issued - 1) % 0x100);
  }

  lemma SentKeepsInv(c: Config, s: State, accepted: bool)
    requires Inv(c, s) && s.phase.Sending? && PhaseWeighty(c, s) && Enabled(s, Sent(accepted))
    ensures Inv(c, Handed(c, s, accepted))
    ensures accepted && c.limit > 0 ==> FirstFree(s.table, 0) < |s.table|
  {
    hide Total;
    if accepted && c.limit > 0 {
      FreeEntry(c, s);
      AcceptedKeepsEntries(c, s);
      AcceptedKeepsBalance(c, s);
    } else {
      var t := Handed(c, s, accepted);
      assert forall i :: 0 <= i < |s.table| && s.table[i].busy ==> Outstanding(s, i) ==> Outstanding(t, i);
    }
  }

  lemma CountKeepsInv(c: Config, s: State)
    requires Inv(c, s) && s.phase.Counting?
    ensures Inv(c, Counted(s))
  {
    hide WeightOf, Total;
    var t := Counted(s);
    assert forall i :: 0 <= i < |s.table| && s.table[i].busy ==> Outstanding(s, i) ==> Outstanding(t, i);
  }

  lemma IndicateKeepsEntries(s: State, pduId: nat)
    requires EntriesOk(s)
    ensures EntriesOk(Indicated(s, pduId))
  {
    var t := Indicated(s, pduId);
    forall i | 0 <= i < |t.table| && t.table[i].busy ensures Outstanding(t, i) {
      assert t.table[i] == s.table[i] && Outstanding(s, i);
    }
  }

  lemma CallbackIsOurs(s: State, pduId: nat)
    requires EntriesOk(s)
    ensures var f := CallbackOf(s.table, pduId, |s.table|);
      f.Registered? ==> f.cb == ON_DATA_SENT && pduId / 0x100 < 0x100
  {
    var f := CallbackOf(s.table, pduId, |s.table|);
    if f.Registered? {
      var i :| 0 <= i < |s.table| && Holds(s.table[i], pduId) && s.table[i].cb == f.cb;
      assert Outstanding(s, i);
    }
  }

  lemma MinusPlus(q: nat, v: nat, w: nat, t: nat)
    requires (q + w) % 0x100 == t && v <= t
    ensures (Minus(q, v) + w) % 0x100 == t - v
  {
    var d := (q - v) / 0x100;
    assert Minus(q, v) + w == (q + w) - v - 0x100 * d;
    var e := (q + w) / 0x100;
    assert Minus(q, v) + w == 0x100 * (e - d) + (t - v);
  }

  // A report takes out of the sum what it takes off the counter.
  lemma IndicateKeepsBalance(c: Config, s: State, pduId: nat)
    requires Inv(c, s) && Window(s)
    ensures Balanced(c, Indicated(s, pduId))
  {
    hide WeightOf, Total, Matches, Minus, CallbackOf;
    var n, v := |s.table|, pduId / 0x100;
    TotalAfterRelease(s.table, pduId, n);
    WindowGivesDistinctIds(s);
    MatchesWhenDistinct(s.table, pduId, n);
    CallbackIsOurs(s, pduId);
    if CallbackOf(s.table, pduId, n).Registered? {
      MinusPlus(s.queued, v, if s.phase.Counting? then s.phase.weight else 0, Sum(s));
      MinusInRange(s.queued, v);
    }
  }

  lemma MinusInRange(q: nat, v: nat)
    ensures Minus(q, v) < 0x100 && Minus(q, v) % 0x100 == Minus(q, v)
  {
  }

  lemma IndicateKeepsInv(c: Config, s: State, pduId: nat)
    requires Inv(c, s) && Window(s)
    ensures Inv(c, Indicated(s, pduId))
  {
    IndicateKeepsEntries(s, pduId);
    IndicateKeepsBalance(c, s, pduId);
  }

  lemma NextKeepsInv(c: Config, s: State, step: Step)
    requires Inv(c, s) && Enabled(s, step) && Window(s) && PhaseWeighty(c, s)
    ensures Inv(c, Next(c, s, step))
  {
    hide EntriesOk, Balanced, PhaseOk, WeightOf;
    match step
    case Begin(len) => BeginKeepsInv(c, s, len);
    case Sent(accepted) => SentKeepsInv(c, s, accepted);
    case Count => CountKeepsInv(c, s);
    case Indicate(pduId) => IndicateKeepsInv(c, s, pduId);
  }

  /* ---------- Whole runs ---------- */

  ghost predicate IsRun(c: Config, states: seq<State>, steps: seq<Step>)
    requires c.mtu > 0
  {
    && |states| == |steps| + 1 && IsInitial(states[0])
    && forall i {:trigger steps[i]} :: 0 <= i < |steps| ==>
         Enabled(states[i], steps[i]) && states[i + 1] == Next(c, states[i], steps[i])
  }

  // The two conditions of the accounting: ids are not reused too early, weights do not vanish.
  ghost predicate WellUsed(c: Config, states: seq<State>, steps: seq<Step>)
    requires c.mtu > 0
  {
    && (forall i :: 0 <= i < |states| ==> |states[i].births| == |states[i].table| && Window(states[i]))
    && forall i :: 0 <= i < |steps| ==> StepWeighty(c, steps[i])
  }

  lemma InitialInv(c: Config, s: State)
    requires c.Valid() && IsInitial(s)
    ensures Inv(c, s)
  {
    EmptyTable(s.table, |s.table|);
  }

  lemma {:induction false} RunInv(c: Config, states: seq<State>, steps: seq<Step>, i: nat)
    requires c.Valid() && IsRun(c, states, steps) && WellUsed(c, states, steps) && i < |states|
    ensures Inv(c, states[i]) && PhaseWeighty(c, states[i])
  {
    hide Inv, WeightOf, Window, Weighty;
    if i == 0 {
      InitialInv(c, states[0]);
    } else {
      RunInv(c, states, steps, i - 1);
      assert states[i] == Next(c, states[i - 1], steps[i - 1]);
      NextKeepsInv(c, states[i - 1], steps[i - 1]);
      assert StepWeighty(c, steps[i - 1]);
    }
  }

  // In every run, with reports of transmissions falling between any two steps of a send: the weight of
  // the outstanding messages never exceeds the limit; whenever a message is checked against the limit
  // the counter is that weight; and it is zero when nothing is outstanding.
  lemma CounterIsOutstandingWeight(c: Config, states: seq<State>, steps: seq<Step>, i: nat)
    requires c.Valid() && IsRun(c, states, steps) && WellUsed(c, states, steps) && i < |states|
    ensures var s := states[i];
      && Sum(s) <= c.limit
      && (!s.phase.Counting? ==> s.queued == Sum(s))
      && (s.phase.Idle? && (forall k :: 0 <= k < |s.table| ==> !s.table[k].busy) ==> s.queued == 0)
      && forall len :: Refuses(c, s, len) && s.phase.Idle? <==>
           s.phase.Idle? && c.limit > 0 && Sum(s) + WeightOf(len, c.mtu) > c.limit
  {
    hide EntriesOk, WeightOf;
    RunInv(c, states, steps, i);
    var s := states[i];
    if forall k :: 0 <= k < |s.table| ==> !s.table[k].busy { EmptyTable(s.table, |s.table|); }
  }

  // Over whole runs the outstanding weight grows by the number of requests made for a message when the stack
  // accepts it, so the limit is one on fragments; a message is refused exactly when these exceed it.
  lemma OutstandingFragments(c: Config, states: seq<State>, steps: seq<Step>, i: nat, replies: seq<DsapTx.Reply>)
    requires c.Valid() && c.mtu >= 6 && c.limit > 0 && IsRun(c, states, steps) && WellUsed(c, states, steps)
    requires i < |steps| && (steps[i] == Sent(true) || steps[i].Begin?)
    requires states[i].phase.Sending? || steps[i].Begin?
    requires var len := if steps[i].Begin? then steps[i].len else states[i].phase.len;
      && 0 < len <= MAX_FULL_PACKET_SIZE
      && forall k :: 0 <= k < DsapTx.Made(len, c.mtu, replies) ==> !DsapTx.Refused(DsapTx.ReplyAt(replies, k))
    ensures var s, t := states[i], states[i + 1];
      && (steps[i].Begin? ==>
            (t == s <==> Sum(s) + DsapTx.Made(steps[i].len, c.mtu, replies) > c.limit) && Sum(t) == Sum(s))
      && (steps[i].Sent? ==> Sum(t) == Sum(s) + DsapTx.Made(s.phase.len, c.mtu, replies) <= c.limit)
  {
    hide EntriesOk, WeightOf, Tiles.Count, DsapTx.Made, DsapTx.Refused, DsapTx.ReplyAt, Total;
    RunInv(c, states, steps, i);
    RunInv(c, states, steps, i + 1);
    var s := states[i];
    assert states[i + 1] == Next(c, s, steps[i]);
    WeightIsRequests(if steps[i].Begin? then steps[i].len else s.phase.len, c.mtu, replies);
    if steps[i].Sent? {
      SentKeepsInv(c, s, true);
      TotalAfterRegister(s.table, ON_DATA_SENT, s.phase.pduId);
      HighByte(s.phase.weight, (s.issued - 1) % 0x100);
    }
  }

  // Every accepted message finds a free entry for its callback.
  lemma CallbackAlwaysRegistered(c: Config, states: seq<State>, steps: seq<Step>, i: nat)
    requires c.Valid() && IsRun(c, states, steps) && WellUsed(c, states, steps)
    requires i < |steps| && steps[i] == Sent(true) && c.limit > 0
    ensures FirstFree(states[i].table, 0) < |states[i].table|
    ensures Slot(ON_DATA_SENT, states[i].phase.pduId, true) in states[i + 1].table
  {
    hide EntriesOk, Balanced, PhaseOk, Window, Weighty, WeightOf;
    RunInv(c, states, steps, i);
    var s := states[i];
    assert states[i + 1] == Next(c, s, steps[i]) == Handed(c, s, true);
    SentKeepsInv(c, s, true);
    assert states[i + 1].table[FirstFree(s.table, 0)] == Slot(ON_DATA_SENT, s.phase.pduId, true);
  }

  /* ---------- The conditions are needed ---------- */

  // A report of an outstanding id returns the right credit exactly when one entry carries that id.
  lemma CreditReturnedIff(c: Config, s: State, pduId: nat)
    requires s.phase.Idle? && s.queued == Sum(s) < 0x100 && 0x100 <= pduId < 0x10000
    requires CallbackOf(s.table, pduId, |s.table|) == Registered(ON_DATA_SENT)
    ensures Indicated(s, pduId).queued == Sum(Indicated(s, pduId)) <==> Matches(s.table, pduId, |s.table|) == 1
  {
    hide Total, CallbackOf, Matches, Release;
    var n, v := |s.table|, pduId / 0x100;
    TotalAfterRelease(s.table, pduId, n);
    NoneWhenNoMatch(s.table, pduId, n);
    var m := Matches(s.table, pduId, n);
    assert v * m >= v by { Distribute(v, m - 1); }
    if m > 1 { assert v * m > v by { Distribute(v, m - 1); TimesAtLeast(v, m - 1); } }
    assert Minus(s.queued, v) == s.queued - v;
  }

  lemma TimesAtLeast(v: nat, m: nat)
    requires v > 0 && m > 0
    ensures v * m >= v
  {
    Distribute(v, m - 1);
  }

  // The weight of every non-empty message the stack can accept survives in eight bits exactly when
  // the mtu is at least six octets.
  lemma WeightsSurviveIff(mtu: nat)
    requires mtu > 0
    ensures (forall len :: 0 < len <= MAX_FULL_PACKET_SIZE ==> WeightOf(len, mtu) > 0) <==> mtu >= 6
  {
    if mtu >= 6 {
      forall len | 0 < len <= MAX_FULL_PACKET_SIZE ensures WeightOf(len, mtu) > 0 {
        CountRange(len, mtu);
      }
    } else {
      assert WeightOf(0x100 * mtu, mtu) == 0 by { CountOfMultiple(0x100, mtu); }
    }
  }

  // The weight of any message is the least number of pieces of at most mtu octets that hold it, modulo 256.
  lemma WeightExactly(len: nat, mtu: nat, n: nat)
    requires mtu > 0 && len <= n * mtu && (n > 0 ==> (n - 1) * mtu < len)
    ensures WeightOf(len, mtu) == n % 0x100
  {
    if n == 0 {
      Tiles.QuotientUnique(mtu - 1, mtu, 0, mtu - 1);
    } else {
      Tiles.MulMono(n - 1, n, mtu);
      Tiles.QuotientUnique(len + mtu - 1, mtu, n, len + mtu - 1 - n * mtu);
    }
  }

  // A message of the stack's sizes weighs that number itself when the mtu is at least six.
  lemma WeightIsFragments(len: nat, mtu: nat)
    requires 6 <= mtu && 0 < len <= MAX_FULL_PACKET_SIZE
    ensures (WeightOf(len, mtu) - 1) * mtu < len <= WeightOf(len, mtu) * mtu
  {
    hide Tiles.Count, Tiles.LastSize;
    CountRange(len, mtu);
    Tiles.CountBounds(len, mtu);
    Tiles.MulMono(Tiles.Count(len, mtu) - 1, Tiles.Count(len, mtu), mtu);
  }

  lemma SamePieces(len: nat, mtu: nat, a: nat, b: nat)
    requires a >= 1 && b >= 1 && (a - 1) * mtu < len <= a * mtu && (b - 1) * mtu < len <= b * mtu
    ensures a == b
  {
    if a < b { Tiles.MulMono(a, b - 1, mtu); }
    if b < a { Tiles.MulMono(b, a - 1, mtu); }
  }

  // That is the number of requests dsap_data_tx_request makes for it when none is refused.
  lemma WeightIsRequests(len: nat, mtu: nat, replies: seq<DsapTx.Reply>)
    requires 6 <= mtu && 0 < len <= MAX_FULL_PACKET_SIZE
    requires forall k :: 0 <= k < DsapTx.Made(len, mtu, replies) ==> !DsapTx.Refused(DsapTx.ReplyAt(replies, k))
    ensures WeightOf(len, mtu) == DsapTx.Made(len, mtu, replies)
  {
    hide WeightOf, DsapTx.Made, DsapTx.Refused, DsapTx.ReplyAt;
    WeightIsFragments(len, mtu);
    DsapTx.MadeWhenNoneRefused(len, mtu, replies);
    SamePieces(len, mtu, WeightOf(len, mtu), DsapTx.Made(len, mtu, replies));
  }

  lemma CountRange(len: nat, mtu: nat)
    requires 0 < len <= MAX_FULL_PACKET_SIZE && mtu >= 6
    ensures 1 <= Tiles.Count(len, mtu) < 0x100
  {
    hide Tiles.Count, Tiles.LastSize;
    Tiles.CountBounds(len, mtu);
    Tiles.MulMono(6, mtu, Tiles.Count(len, mtu) - 1);
  }

  lemma CountOfMultiple(q: nat, mtu: nat)
    requires mtu > 0
    ensures Tiles.Count(q * mtu, mtu) == q
  {
    Tiles.QuotientUnique(q * mtu + mtu - 1, mtu, q, mtu - 1);
  }

  lemma Extend(c: Config, states: seq<State>, steps: seq<Step>, step: Step)
    requires c.mtu > 0 && IsRun(c, states, steps) && Enabled(states[|steps|], step)
    ensures IsRun(c, states + [Next(c, states[|steps|], step)], steps + [step])
  {
    hide Next, Enabled, IsInitial;
    var states', steps' := states + [Next(c, states[|steps|], step)], steps + [step];
    forall i {:trigger steps'[i]} | 0 <= i < |steps'|
      ensures Enabled(states'[i], steps'[i]) && states'[i + 1] == Next(c, states'[i], steps'[i])
    {
      if i < |steps| {
        assert steps'[i] == steps[i] && states'[i] == states[i] && states'[i + 1] == states[i + 1];
      }
    }
  }

  lemma ReportKeepsWindow(s: State, pduId: nat)
    requires |s.births| == |s.table| && Window(s)
    ensures var t := Indicated(s, pduId);
      && |t.births| == |t.table| == |s.table| && Window(t) && t.phase == s.phase
      && forall i :: 0 <= i < |s.table| ==>
           (t.table[i].busy ==> s.table[i].busy) && (s.table[i].pduId == pduId ==> !t.table[i].busy)
  {
    hide CallbackOf, Minus;
  }

  // A report may come at any moment; it keeps the run one of well-used ids.
  lemma ReportNext(c: Config, states: seq<State>, steps: seq<Step>, pduId: nat)
    returns (states': seq<State>, steps': seq<Step>)
    requires c.Valid() && IsRun(c, states, steps) && WellUsed(c, states, steps) && |states| == |steps| + 1
    ensures IsRun(c, states', steps') && WellUsed(c, states', steps') && |states'| == |steps'| + 1
    ensures states <= states' && steps' == steps + [Indicate(pduId)]
    ensures states'[|steps'|] == Indicated(states[|steps|], pduId)
  {
    hide Release, CallbackOf, Minus, WeightOf;
    var s, t := states[|steps|], Indicated(states[|steps|], pduId);
    assert |s.births| == |s.table| && Window(s);
    Extend(c, states, steps, Indicate(pduId));
    states', steps' := states + [t], steps + [Indicate(pduId)];
    ReportKeepsWindow(s, pduId);
  }

  lemma LastState(c: Config, states: seq<State>, steps: seq<Step>)
    requires c.Valid() && IsRun(c, states, steps) && WellUsed(c, states, steps)
    ensures |states| == |steps| + 1
    ensures var s := states[|steps|]; |s.births| == |s.table| && Window(s)
  {
  }

  // From every point between two sends: once all outstanding messages have been reported the counter is zero
  // and the table free again, so nothing is lost for good.
  lemma AllReported(c: Config, states: seq<State>, steps: seq<Step>)
    returns (states': seq<State>, steps': seq<Step>)
    requires c.Valid() && IsRun(c, states, steps) && WellUsed(c, states, steps) && states[|steps|].phase.Idle?
    ensures IsRun(c, states', steps') && states <= states' && steps <= steps'
    ensures forall j :: |steps| <= j < |steps'| ==> steps'[j].Indicate?
    ensures var t := states'[|steps'|]; t.queued == 0 && forall i :: 0 <= i < |t.table| ==> !t.table[i].busy
  {
    hide IsRun, WellUsed, Indicated, Window;
    states', steps' := states, steps;
    LastState(c, states, steps);
    var n := |states[|steps|].table|;
    for i := 0 to n
      invariant IsRun(c, states', steps') && WellUsed(c, states', steps') && states <= states' && steps <= steps'
      invariant |states'| == |steps'| + 1
      invariant forall j :: |steps| <= j < |steps'| ==> steps'[j].Indicate?
      invariant var t := states'[|steps'|];
        && |t.births| == |t.table| == n && Window(t) && t.phase.Idle?
        && forall j :: 0 <= j < i ==> !t.table[j].busy
    {
      var s := states'[|steps'|];
      ReportKeepsWindow(s, s.table[i].pduId);
      states', steps' := ReportNext(c, states', steps', s.table[i].pduId);
    }
    CounterIsOutstandingWeight(c, states', steps', |steps'|);
  }

  // A message of one octet is tried; the stack accepts it or refuses it.
  lemma TryOne(c: Config, states: seq<State>, steps: seq<Step>, accepted: bool)
    returns (states': seq<State>, steps': seq<Step>)
    requires c.mtu > 0 && c.limit > 0 && IsRun(c, states, steps)
    requires var s := states[|steps|]; s.phase.Idle? && s.queued + 1 <= c.limit && |s.births| == |s.table|
    ensures IsRun(c, states', steps')
    ensures var s, t := states[|steps|], states'[|steps'|];
      t == if accepted then Accept(c, s, 1) else s.(issued := s.issued + 1)
  {
    hide IsRun, FirstFree, Tiles.Count;
    RunLength(c, states, steps);
    OneOctet(c.mtu);
    Extend(c, states, steps, Begin(1));
    states', steps' := states + [Next(c, states[|steps|], Begin(1))], steps + [Begin(1)];
    Extend(c, states', steps', Sent(accepted));
    states', steps' := states' + [Next(c, states'[|steps'|], Sent(accepted))], steps' + [Sent(accepted)];
    if accepted {
      Extend(c, states', steps', Count);
      states', steps' := states' + [Next(c, states'[|steps'|], Count)], steps' + [Count];
    }
  }

  lemma RunLength(c: Config, states: seq<State>, steps: seq<Step>)
    requires c.mtu > 0 && IsRun(c, states, steps)
    ensures |states| == |steps| + 1
  {
  }

  lemma OneOctet(mtu: nat)
    requires mtu > 0
    ensures WeightOf(1, mtu) == 1
  {
    Tiles.QuotientUnique(mtu, mtu, 1, 0);
  }

  // n messages refused one after the other use up n ids.
  lemma {:induction false} RefuseMany(c: Config, states: seq<State>, steps: seq<Step>, n: nat)
    returns (states': seq<State>, steps': seq<Step>)
    requires c.mtu > 0 && c.limit > 0 && IsRun(c, states, steps)
    requires var s := states[|steps|]; s.phase.Idle? && s.queued + 1 <= c.limit && |s.births| == |s.table|
    ensures IsRun(c, states', steps') && states'[|steps'|] == states[|steps|].(issued := states[|steps|].issued + n)
  {
    hide IsRun, Accept;
    RunLength(c, states, steps);
    if n == 0 {
      states', steps' := states, steps;
    } else {
      states', steps' := RefuseMany(c, states, steps, n - 1);
      RunLength(c, states', steps');
      states', steps' := TryOne(c, states', steps', false);
    }
  }

  // What two accepted messages with 255 refused ones between them leave behind
  predicate TwiceTheSameId(s: State) {
    && |s.table| == |s.births| == MAX_SENT_PACKET_WITH_INDICATION
    && s.table[0] == s.table[1] == Slot(ON_DATA_SENT, 0x100, true) && s.births[0] == 0 && s.births[1] == 0x100
    && (forall i :: 2 <= i < |s.table| ==> !s.table[i].busy)
    && s.queued == 2 && s.issued == 0x101 && s.phase.Idle?
  }

  lemma AcceptFirst(c: Config, s: State)
    requires c.mtu > 0 && c.limit >= 2 && IsInitial(s)
    ensures var t := Accept(c, s, 1);
      && t.table == s.table[0 := Slot(ON_DATA_SENT, 0x100, true)] && t.births == s.births[0 := 0]
      && t.queued == 1 && t.issued == 1 && t.phase.Idle?
  {
    hide FirstFree;
    OneOctet(c.mtu);
    FirstFreeIs(s.table, 0, 0);
  }

  lemma AcceptSecond(c: Config, s: State, t: State)
    requires c.mtu > 0 && c.limit >= 2 && IsInitial(s)
    requires t == State(s.table[0 := Slot(ON_DATA_SENT, 0x100, true)], s.births[0 := 0], 1, 0x100, Idle)
    ensures TwiceTheSameId(Accept(c, t, 1))
  {
    hide FirstFree;
    OneOctet(c.mtu);
    FirstFreeIs(t.table, 0, 1);
  }

  // An id issued 256 sends later equals that of a message still outstanding.  Some run comes to that:
  // both are released by the first report, and the counter keeps the weight of one of them.
  lemma ReusedIdLeaksCredit(c: Config, s: State) returns (states: seq<State>, steps: seq<Step>)
    requires c.Valid() && c.limit >= 2 && IsInitial(s)
    ensures IsRun(c, states, steps) && TwiceTheSameId(states[|steps|])
    ensures var t := Indicated(states[|steps|], 0x100);
      t.queued == 1 && Sum(t) == 0 && forall i :: 0 <= i < |t.table| ==> !t.table[i].busy
  {
    hide IsRun, Accept, Indicated, Sum;
    states, steps := [s], [];
    OneStateRun(c, s);
    states, steps := TryOne(c, states, steps, true);
    RunLength(c, states, steps);
    AcceptFirst(c, s);
    states, steps := RefuseMany(c, states, steps, 255);
    RunLength(c, states, steps);
    AcceptSecond(c, s, states[|steps|]);
    states, steps := TryOne(c, states, steps, true);
    RunLength(c, states, steps);
    BothReleased(states[|steps|]);
  }

  lemma OneStateRun(c: Config, s: State)
    requires c.mtu > 0 && IsInitial(s)
    ensures IsRun(c, [s], [])
  {
  }

  lemma BothReleased(s: State)
    requires TwiceTheSameId(s)
    ensures var t := Indicated(s, 0x100);
      t.queued == 1 && Sum(t) == 0 && forall i :: 0 <= i < |t.table| ==> !t.table[i].busy
  {
    hide CallbackOf, Total;
    var t := Indicated(s, 0x100);
    EmptyTable(t.table, |t.table|);
    assert Holds(s.table[0], 0x100);
    LastHolder(s.table);
  }

  lemma LastHolder(table: seq<Slot>)
    requires |table| >= 2 && table[0] == table[1] == Slot(ON_DATA_SENT, 0x100, true)
    requires forall i :: 2 <= i < |table| ==> !table[i].busy
    ensures CallbackOf(table, 0x100, |table|) == Registered(ON_DATA_SENT)
  {
    var f := CallbackOf(table, 0x100, |table|);
    assert Holds(table[0], 0x100);
  }

  // A message accepted with no report falling in between
  function Accept(c: Config, s: State, len: nat): State
    requires c.mtu > 0 && s.phase.Idle? && |s.births| == |s.table| && !Refuses(c, s, len) && c.limit > 0
  {
    Counted(Handed(c, BeginSend(c, s, len), true))
  }

  // The first k entries taken by ids without weight, the others free
  predicate TakenForNothing(s: State, k: nat) {
    && |s.births| == |s.table| == MAX_SENT_PACKET_WITH_INDICATION && k <= |s.table|
    && (forall i :: 0 <= i < k ==> s.table[i].busy && s.table[i].pduId < 0x100)
    && (forall i :: k <= i < |s.table| ==> !s.table[i].busy)
    && s.phase.Idle? && s.queued == 0
  }

  lemma {:induction false} WeightlessTotal(table: seq<Slot>, n: nat)
    requires n <= |table| && forall i :: 0 <= i < n ==> table[i].pduId < 0x100
    ensures Total(table, n) == 0
  {
    if n > 0 { WeightlessTotal(table, n - 1); }
  }

  lemma EmptyMessageTakesEntry(c: Config, s: State, k: nat)
    requires c.mtu > 0 && c.limit > 0 && TakenForNothing(s, k) && k < |s.table|
    ensures !Refuses(c, s, 0) && TakenForNothing(Accept(c, s, 0), k + 1)
  {
    Tiles.QuotientUnique(c.mtu - 1, c.mtu, 0, c.mtu - 1);
    FirstFreeIs(s.table, 0, k);
  }

  ghost predicate AfterEmptyMessages(c: Config, s: State, t: State, n: nat)
    requires c.mtu > 0 && c.limit > 0
    decreases n
  {
    if n == 0 then t == s else exists u :: AfterEmptyMessages(c, s, u, n - 1) && AcceptsEmpty(c, u, t)
  }

  predicate AcceptsEmpty(c: Config, u: State, t: State)
    requires c.mtu > 0 && c.limit > 0
  {
    u.phase.Idle? && |u.births| == |u.table| && !Refuses(c, u, 0) && t == Accept(c, u, 0)
  }

  lemma {:induction false} EmptyMessagesTakeEntries(c: Config, s: State, n: nat) returns (t: State)
    requires c.mtu > 0 && c.limit > 0 && IsInitial(s) && n <= MAX_SENT_PACKET_WITH_INDICATION
    ensures AfterEmptyMessages(c, s, t, n) && TakenForNothing(t, n)
  {
    if n == 0 {
      t := s;
    } else {
      var u := EmptyMessagesTakeEntries(c, s, n - 1);
      EmptyMessageTakesEntry(c, u, n - 1);
      t := Accept(c, u, 0);
      assert AcceptsEmpty(c, u, t);
    }
  }

  lemma WeightlessGivesNothing(s: State, pduId: nat)
    requires s.queued == 1 && forall i :: 0 <= i < |s.table| ==> s.table[i].pduId < 0x100
    ensures Indicated(s, pduId).queued == 1
  {
    if pduId >= 0x100 {
      assert forall i :: 0 <= i < |s.table| ==> !Holds(s.table[i], pduId);
    }
  }

  lemma NoEntryLeft(c: Config, t: State)
    requires c.mtu > 0 && c.limit > 0 && TakenForNothing(t, MAX_SENT_PACKET_WITH_INDICATION)
    ensures !Refuses(c, t, 1) && Accept(c, t, 1).queued == 1 && Accept(c, t, 1).table == t.table
  {
    hide Tiles.Count;
    assert Tiles.Count(1, c.mtu) == 1 by { Tiles.QuotientUnique(c.mtu, c.mtu, 1, 0); CountUnfolded(c.mtu); }
    FirstFreeIs(t.table, 0, MAX_SENT_PACKET_WITH_INDICATION);
  }

  lemma CountUnfolded(mtu: nat)
    requires mtu > 0
    ensures Tiles.Count(1, mtu) == mtu / mtu
  {
  }

  // Sixteen empty messages, which the limit lets pass, take every entry.  The next message is accepted
  // and counted, but its callback is lost, and no report of any id gives its credit back.
  lemma EmptyMessagesLoseCredit(c: Config, s: State) returns (t: State, u: State)
    requires c.mtu > 0 && c.limit > 0 && IsInitial(s)
    ensures AfterEmptyMessages(c, s, t, 16) && t.phase.Idle? && |t.births| == |t.table| && !Refuses(c, t, 1)
    ensures u == Accept(c, t, 1) && u.queued == 1 && Sum(u) == 0
    ensures forall pduId :: Indicated(u, pduId).queued == 1
  {
    hide AfterEmptyMessages, WeightOf, Accept, Refuses, IsInitial;
    t := EmptyMessagesTakeEntries(c, s, 16);
    NoEntryLeft(c, t);
    u := Accept(c, t, 1);
    WeightlessTotal(u.table, |u.table|);
    forall pduId ensures Indicated(u, pduId).queued == 1 { WeightlessGivesNothing(u, pduId); }
  }
}
