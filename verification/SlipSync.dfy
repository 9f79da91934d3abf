/**
 When does the receiver of slip.c stay in step with a sender?  Frames are separated here by noise; read
 errors may strike anywhere.  First for the frames of any correct encoder, then for what Slip_send_buffer
 really puts on the wire.
 */
module SlipSync {
  import opened Bytes
  import opened Crc
  import opened Slip
  import opened SlipLink

  function Events(s: seq<byte>): (events: seq<ReadEvent>)
    ensures |events| == |s|
  {
    if s == [] then [] else [Octet(s[0])] + Events(s[1..])
  }

  lemma {:induction false} EventsAppend(s: seq<byte>, t: seq<byte>)
    ensures Events(s + t) == Events(s) + Events(t)
  {
    if s == [] {
      assert s + t == t;
    } else {
      assert (s + t)[1..] == s[1..] + t;
      EventsAppend(s[1..], t);
    }
  }

  /* ---------- Read errors are invisible ---------- */

  function Clean(wire: seq<ReadEvent>): seq<ReadEvent> {
    if wire == [] then []
    else (if wire[0].ReadError? then [] else [wire[0]]) + Clean(wire[1..])
  }

  lemma CleanStep(wire: seq<ReadEvent>)
    requires wire != []
    ensures Clean(wire) == if wire[0].ReadError? then Clean(wire[1..]) else [wire[0]] + Clean(wire[1..])
    ensures wire == [wire[0]] + wire[1..]
  {
    hide *;
    HeadAndTail(wire);
    CleanUnfolded(wire);
  }

  lemma HeadAndTail<T>(s: seq<T>)
    requires s != []
    ensures s == [s[0]] + s[1..]
  {
  }

  lemma CleanUnfolded(wire: seq<ReadEvent>)
    requires wire != []
    ensures Clean(wire) == if wire[0].ReadError? then Clean(wire[1..]) else [wire[0]] + Clean(wire[1..])
  {
  }

  lemma ScanOther(event: ReadEvent, rest: seq<ReadEvent>, started: bool, acc: seq<byte>, capacity: nat)
    requires !event.Octet?
    ensures Scan([event] + rest, started, acc, capacity)
      == if event.Silence? then Scanned(Timeout, rest) else Scan(rest, started, acc, capacity)
  {
    assert ([event] + rest)[1..] == rest;
  }

  // Failed reads change neither the frame a call returns nor what it leaves on the wire.
  lemma {:induction false} ReadErrorsIgnored(wire: seq<ReadEvent>, started: bool, acc: seq<byte>, capacity: nat)
    ensures Scan(Clean(wire), started, acc, capacity).outcome == Scan(wire, started, acc, capacity).outcome
    ensures Scan(Clean(wire), started, acc, capacity).rest == Clean(Scan(wire, started, acc, capacity).rest)
    decreases |wire|
  {
    if wire != [] {
      hide Scan, Clean;
      var rest := wire[1..];
      CleanStep(wire);
      match wire[0]
      case Silence =>
        ScanOther(Silence, rest, started, acc, capacity);
        ScanOther(Silence, Clean(rest), started, acc, capacity);
      case ReadError =>
        ScanOther(ReadError, rest, started, acc, capacity);
        ReadErrorsIgnored(rest, started, acc, capacity);
      case Octet(b) =>
        ScanOctet(b, rest, started, acc, capacity);
        ScanOctet(b, Clean(rest), started, acc, capacity);
        ReadErrorsIgnored(rest, started, acc, capacity);
        ReadErrorsIgnored(rest, true, acc, capacity);
        ReadErrorsIgnored(rest, true, [], capacity);
        ReadErrorsIgnored(rest, true, acc + [b], capacity);
    }
  }

  /* ---------- Noise ---------- */

  // After a delimiter, at most three octets pass before the next delimiter or the end.
  predicate Quiet(noise: seq<byte>) {
    forall i :: 0 <= i && i + 4 < |noise| && noise[i] == END ==> END in noise[i + 1..i + 5]
  }

  lemma ScanOctet(b: byte, rest: seq<ReadEvent>, started: bool, acc: seq<byte>, capacity: nat)
    ensures Scan([Octet(b)] + rest, started, acc, capacity) ==
      if b == END then
        if !started then Scan(rest, true, acc, capacity)
        else if |acc| < 4 then Scan(rest, true, [], capacity)
        else Scanned(Frame(acc), rest)
      else if !started then Scan(rest, false, acc, capacity)
      else if |acc| + 1 > capacity then Scanned(Overflow, rest)
      else Scan(rest, true, acc + [b], capacity)
  {
    assert ([Octet(b)] + rest)[1..] == rest;
  }

  lemma EventsUncons(s: seq<byte>, rest: seq<ReadEvent>)
    requires s != []
    ensures Events(s) + rest == [Octet(s[0])] + (Events(s[1..]) + rest)
  {
  }

  lemma QuietSuffix(noise: seq<byte>, k: nat)
    requires Quiet(noise) && k <= |noise|
    ensures Quiet(noise[k..])
  {
    var s := noise[k..];
    forall i | 0 <= i && i + 4 < |s| && s[i] == END
      ensures END in s[i + 1..i + 5]
    {
      assert noise[k + i] == END;
      assert s[i + 1..i + 5] == noise[k + i + 1..k + i + 5];
    }
  }

  lemma FourBreakQuiet(run: seq<byte>, more: seq<byte>)
    requires |run| == 4 && END !in run
    ensures !Quiet([END] + run + more)
  {
    var all := [END] + run + more;
    assert all[0] == END && all[1..5] == run;
  }

  // Inside a quiet stretch the receiver never has four octets when a delimiter comes.
  lemma {:induction false} QuietStarted(noise: seq<byte>, acc: seq<byte>, rest: seq<ReadEvent>, capacity: nat)
    requires Quiet([END] + acc + noise) && END !in acc && |acc| < 4 <= capacity
    ensures Scan(Events(noise) + ([Octet(END)] + rest), true, acc, capacity) == Scan(rest, true, [], capacity)
    decreases |noise|
  {
    hide Scan, Quiet, Events;
    var after := [Octet(END)] + rest;
    if noise == [] {
      assert Events([]) + after == after;
      ScanOctet(END, rest, true, acc, capacity);
    } else {
      var all := [END] + acc + noise;
      EventsUncons(noise, after);
      ScanOctet(noise[0], Events(noise[1..]) + after, true, acc, capacity);
      if noise[0] == END {
        QuietSuffix(all, 1 + |acc|);
        assert all[1 + |acc|..] == [END] + [] + noise[1..];
        QuietStarted(noise[1..], [], rest, capacity);
      } else {
        assert [END] + (acc + [noise[0]]) + noise[1..] == all;
        if |acc| == 3 { FourBreakQuiet(acc + [noise[0]], noise[1..]); }
        QuietStarted(noise[1..], acc + [noise[0]], rest, capacity);
      }
    }
  }

  lemma {:induction false} QuietIdle(noise: seq<byte>, rest: seq<ReadEvent>, capacity: nat)
    requires Quiet(noise) && 4 <= capacity
    ensures Scan(Events(noise) + ([Octet(END)] + rest), false, [], capacity) == Scan(rest, true, [], capacity)
    decreases |noise|
  {
    hide Scan;
    var after := [Octet(END)] + rest;
    if noise == [] {
      assert Events(noise) + after == after;
      ScanOctet(END, rest, false, [], capacity);
    } else {
      EventsUncons(noise, after);
      ScanOctet(noise[0], Events(noise[1..]) + after, false, [], capacity);
      if noise[0] == END {
        assert [END] + [] + noise[1..] == noise;
        QuietStarted(noise[1..], [], rest, capacity);
      } else {
        QuietSuffix(noise, 1);
        QuietIdle(noise[1..], rest, capacity);
      }
    }
  }

  /* ---------- One frame ---------- */

  lemma NoEvents(rest: seq<ReadEvent>)
    ensures Events([]) + rest == rest
  {
  }

  // A run of non-delimiters that fits is collected up to its delimiter.
  lemma {:induction false} RunCollected(run: seq<byte>, acc: seq<byte>, rest: seq<ReadEvent>, capacity: nat)
    requires END !in run && |acc| + |run| <= capacity
    ensures Scan(Events(run) + rest, true, acc, capacity) == Scan(rest, true, acc + run, capacity)
    decreases |run|
  {
    hide Scan, Events;
    if run == [] {
      NoEvents(rest);
      assert acc + run == acc;
    } else {
      EventsUncons(run, rest);
      ScanOctet(run[0], Events(run[1..]) + rest, true, acc, capacity);
      RunCollected(run[1..], acc + [run[0]], rest, capacity);
      assert acc + [run[0]] + run[1..] == acc + run;
    }
  }

  lemma DelimitedEvents(content: seq<byte>, rest: seq<ReadEvent>)
    ensures Events(Delimited(content)) + rest
      == [Octet(END)] + ([Octet(END)] + ([Octet(END)] + (Events(content) + ([Octet(END)] + rest))))
  {
    var end: seq<byte> := [END];
    assert Delimited(content) == end + (end + (end + (content + end)));
    EventsAppend(end, end + (end + (content + end)));
    EventsAppend(end, end + (content + end));
    EventsAppend(end, content + end);
    EventsAppend(content, end);
    assert Events(end) == [Octet(END)];
  }

  // What follows the leading delimiters: received when it has four octets or more and fits, dropped when
  // it has fewer.
  lemma ContentScanned(content: seq<byte>, rest: seq<ReadEvent>, capacity: nat)
    requires END !in content && 4 <= capacity
    ensures var s := Scan(Events(content) + ([Octet(END)] + rest), true, [], capacity);
      && (|content| < 4 ==> s == Scan(rest, true, [], capacity))
      && (4 <= |content| <= capacity ==> s == Scanned(Frame(content), rest))
      && (|content| > capacity ==> s.outcome == Overflow)
  {
    hide Scan;
    if |content| <= capacity {
      RunCollected(content, [], [Octet(END)] + rest, capacity);
      assert [] + content == content;
      ScanOctet(END, rest, true, content, capacity);
    } else {
      var tail := GarbageOverflows(content, [], [Octet(END)] + rest, capacity);
    }
  }

  // The same behind quiet noise and the leading delimiters
  lemma DelimitedScanned(noise: seq<byte>, content: seq<byte>, rest: seq<ReadEvent>, capacity: nat)
    requires Quiet(noise) && END !in content && 4 <= capacity
    ensures var s := Receive(Events(noise) + (Events(Delimited(content)) + rest), capacity);
      && (|content| < 4 ==> s == Scan(rest, true, [], capacity))
      && (4 <= |content| <= capacity ==> s == Scanned(Frame(content), rest))
      && (|content| > capacity ==> s.outcome == Overflow)
  {
    hide Scan, Delimited, Quiet;
    DelimitedEvents(content, rest);
    var afterEnds := Events(content) + ([Octet(END)] + rest);
    QuietIdle(noise, [Octet(END)] + ([Octet(END)] + afterEnds), capacity);
    ScanOctet(END, [Octet(END)] + afterEnds, true, [], capacity);
    ScanOctet(END, afterEnds, true, [], capacity);
    ContentScanned(content, rest, capacity);
  }

  lemma BodyPlain(p: seq<byte>)
    ensures END !in Body(p) && Complete(Body(p))
  {
    hide Framed;
    EscapeShape(Framed(p));
  }

  // A frame behind quiet noise is the next one received exactly when its escaped form has at
  // least four octets; a shorter one is skipped as a false start.
  lemma FrameReceivedIff(noise: seq<byte>, p: seq<byte>, rest: seq<ReadEvent>, capacity: nat)
    requires Quiet(noise) && |Body(p)| <= capacity && 4 <= capacity
    ensures Receive(Events(noise) + (Events(Laid(p)) + rest), capacity).outcome == Frame(Body(p))
      <==> |Body(p)| >= 4
    ensures |Body(p)| >= 4 ==> Receive(Events(noise) + (Events(Laid(p)) + rest), capacity).rest == rest
  {
    hide Scan, Body;
    BodyPlain(p);
    DelimitedScanned(noise, Body(p), rest, capacity);
    ScanFrameSize(rest, true, [], capacity);
  }

  /* ---------- Many frames ---------- */

  datatype Segment = Segment(noise: seq<byte>, payload: seq<byte>)

  function WireOf(segments: seq<Segment>): seq<byte> {
    if segments == [] then []
    else segments[0].noise + Laid(segments[0].payload) + WireOf(segments[1..])
  }

  // Quiet noise, and a frame of at least four octets that fits the receiver and its eight-bit index
  predicate Receivable(segment: Segment, capacity: nat) {
    Quiet(segment.noise) && 4 <= |Body(segment.payload)| <= capacity && |segment.payload| <= 253
  }

  datatype Session = Session(outcomes: seq<Outcome>, rest: seq<ReadEvent>)

  // n calls of Slip_get_buffer, one after the other.
  function Calls(wire: seq<ReadEvent>, n: nat, capacity: nat): (s: Session)
    ensures |s.outcomes| == n
    decreases n
  {
    if n == 0 then Session([], wire)
    else
      var first := Receive(wire, capacity);
      var more := Calls(first.rest, n - 1, capacity);
      Session([first.outcome] + more.outcomes, more.rest)
  }

  // The wire as call i finds it
  function WireAt(wire: seq<ReadEvent>, i: nat, capacity: nat): seq<ReadEvent>
    decreases i
  {
    if i == 0 then wire else WireAt(Receive(wire, capacity).rest, i - 1, capacity)
  }

  lemma {:induction false} OutcomeAt(wire: seq<ReadEvent>, n: nat, i: nat, capacity: nat)
    requires i < n
    ensures Receive(WireAt(wire, i, capacity), capacity).outcome == Calls(wire, n, capacity).outcomes[i]
    decreases i
  {
    hide Scan;
    if i > 0 { OutcomeAt(Receive(wire, capacity).rest, n - 1, i - 1, capacity); }
  }

  lemma FirstSegment(segments: seq<Segment>, after: seq<ReadEvent>)
    requires segments != []
    ensures Events(WireOf(segments)) + after
      == Events(segments[0].noise) + (Events(Laid(segments[0].payload)) + (Events(WireOf(segments[1..])) + after))
  {
    hide Events, Laid;
    var first, more := segments[0], segments[1..];
    EventsAppend(first.noise + Laid(first.payload), WireOf(more));
    EventsAppend(first.noise, Laid(first.payload));
  }

  lemma EmptyWire()
    ensures WireOf([]) == [] && Events([]) == []
  {
  }

  // As many calls as frames return exactly those frames, in order, and leave what follows.
  lemma {:induction false} FramesReceivedInOrder(segments: seq<Segment>, after: seq<ReadEvent>, capacity: nat)
    requires 4 <= capacity && forall s :: s in segments ==> Receivable(s, capacity)
    ensures var session := Calls(Events(WireOf(segments)) + after, |segments|, capacity);
      && session.rest == after
      && forall i :: 0 <= i < |segments| ==> session.outcomes[i] == Frame(Body(segments[i].payload))
    decreases |segments|
  {
    hide Receive, Body, Laid, Quiet, WireOf;
    if segments == [] {
      EmptyWire();
      assert Events(WireOf(segments)) + after == after;
    } else {
      var first, more := segments[0], segments[1..];
      assert Receivable(first, capacity);
      var rest := Events(WireOf(more)) + after;
      FirstSegment(segments, after);
      FrameReceivedIff(first.noise, first.payload, rest, capacity);
      FramesReceivedInOrder(more, after, capacity);
    }
  }

  lemma {:induction false} CallsIgnoreReadErrors(wire: seq<ReadEvent>, n: nat, capacity: nat)
    ensures Calls(wire, n, capacity).outcomes == Calls(Clean(wire), n, capacity).outcomes
    decreases n
  {
    hide Scan, Clean;
    if n > 0 {
      ReadErrorsIgnored(wire, false, [], capacity);
      CallsIgnoreReadErrors(Receive(wire, capacity).rest, n - 1, capacity);
    }
  }

  // A caller of Slip_get_buffer gets payload p, with everything read and written inside the buffers.
  ghost predicate Delivers(outcome: Outcome, p: seq<byte>, capacity: nat) {
    && Sound(outcome, capacity) && outcome.Frame?
    && forall tail :: Result(outcome, tail) == |p| && p <= Visible(Unescape(outcome.escaped, tail))
  }

  // A received frame delivers the payload it was made of exactly when that has at most 253 octets.
  lemma DeliversIff(p: seq<byte>, capacity: nat)
    ensures Delivers(Frame(Body(p)), p, capacity) <==> |p| <= 253
  {
    hide DecodeResult, Body, Wrapped;
    BodyDecodesIff(p, 0);
    EscapeShape(Framed(p));
    BodyIsEscaped(p);
    if |p| <= 253 {
      forall tail: byte
        ensures Result(Frame(Body(p)), tail) == |p| && p <= Visible(Unescape(Body(p), tail))
      {
        DecodeOfBody(p, tail);
        FrontVisible(Unescape(Body(p), tail), p);
      }
    } else {
      assert Sound(Frame(Body(p)), capacity) ==> Result(Frame(Body(p)), 0) != |p|;
    }
  }

  lemma BodyIsEscaped(p: seq<byte>)
    ensures Body(p) == Escape(Framed(p))
  {
  }

  lemma FrontVisible(d: seq<byte>, p: seq<byte>)
    requires |d| == |p| + 2 < 256 && Wrapped(d)[..|p|] == p
    ensures p <= Visible(d)
  {
    hide Wrapped, Visible;
    VisibleShort(d);
    WrappedShort(d);
  }

  // The receiver stays in step with a correct encoder: over any such frames, any quiet noise between them and
  // read errors anywhere, successive calls may be made and return exactly the payloads that were sent, in order.
  lemma ReceiverStaysInStep(wire: seq<ReadEvent>, segments: seq<Segment>, capacity: nat)
    requires 4 <= capacity && forall s :: s in segments ==> Receivable(s, capacity)
    requires Clean(wire) == Events(WireOf(segments))
    ensures var session := Calls(wire, |segments|, capacity);
      forall i :: 0 <= i < |segments| ==> Delivers(session.outcomes[i], segments[i].payload, capacity)
    ensures forall i :: 0 <= i < |segments| ==>
      var outcome := Receive(WireAt(wire, i, capacity), capacity).outcome;
      Sound(outcome, capacity) && Delivers(outcome, segments[i].payload, capacity)
  {
    hide Clean, Calls, WireAt, Receive, Events, Unescape, DecodeResult, Body, Quiet, Delivers;
    FramesReceivedInOrder(segments, [], capacity);
    assert Events(WireOf(segments)) + [] == Events(WireOf(segments));
    CallsIgnoreReadErrors(wire, |segments|, capacity);
    forall i | 0 <= i < |segments|
      ensures Delivers(Calls(wire, |segments|, capacity).outcomes[i], segments[i].payload, capacity)
      ensures var outcome := Receive(WireAt(wire, i, capacity), capacity).outcome;
        Sound(outcome, capacity) && Delivers(outcome, segments[i].payload, capacity)
    {
      assert Receivable(segments[i], capacity);
      DeliversIff(segments[i].payload, capacity);
      OutcomeAt(wire, |segments|, i, capacity);
      DeliveredSoundly(Calls(wire, |segments|, capacity).outcomes[i], segments[i].payload, capacity);
    }
  }

  lemma DeliveredSoundly(outcome: Outcome, p: seq<byte>, capacity: nat)
    requires Delivers(outcome, p, capacity)
    ensures Sound(outcome, capacity)
  {
  }

  /* ---------- One long run of garbage ---------- */

  lemma RunEvents(run: seq<byte>, last: byte, rest: seq<ReadEvent>)
    ensures Events([END] + (run + [last])) + rest == [Octet(END)] + (Events(run) + ([Octet(last)] + rest))
  {
    EventsAppend([END], run + [last]);
    EventsAppend(run, [last]);
    OneEvent(END);
    OneEvent(last);
  }

  lemma OneEvent(b: byte)
    ensures Events([b]) == [Octet(b)]
  {
  }

  lemma RunTooLong(run: seq<byte>, last: byte, rest: seq<ReadEvent>)
    requires END !in run && last != END
    ensures Scan([Octet(END)] + (Events(run) + ([Octet(last)] + rest)), false, [], |run|) == Scanned(Overflow, rest)
  {
    hide *;
    var more := [Octet(last)] + rest;
    ScanOctet(END, Events(run) + more, false, [], |run|);
    RunCollected(run, [], more, |run|);
    assert [] + run == run;
    ScanOctet(last, rest, true, run, |run|);
  }

  // An octet more than the receiving buffer holds makes Slip_get_buffer return -1.
  lemma TooLongReturned(run: seq<byte>, last: byte, rest: seq<ReadEvent>, tail: byte)
    requires END !in run && last != END
    ensures var s := Receive(Events([END] + (run + [last])) + rest, |run|);
      s.rest == rest && s.outcome.Overflow? && Result(s.outcome, tail) == -1
  {
    hide Scan, Events, Result, Decodable;
    RunEvents(run, last, rest);
    RunTooLong(run, last, rest);
    ErrorResults(tail);
  }

  lemma {:induction false} GarbageOverflows(g: seq<byte>, acc: seq<byte>, rest: seq<ReadEvent>, capacity: nat)
    returns (tail: seq<byte>)
    requires END !in g && |acc| <= capacity < |acc| + |g|
    ensures Scan(Events(g) + rest, true, acc, capacity) == Scanned(Overflow, Events(tail) + rest)
    ensures END !in tail
    decreases |g|
  {
    hide Scan;
    EventsUncons(g, rest);
    ScanOctet(g[0], Events(g[1..]) + rest, true, acc, capacity);
    if |acc| == capacity {
      tail := g[1..];
    } else {
      tail := GarbageOverflows(g[1..], acc + [g[0]], rest, capacity);
    }
  }

  lemma QuietWithoutEnd(tail: seq<byte>)
    requires END !in tail
    ensures Quiet(tail)
  {
  }

  lemma GarbageScanned(noise: seq<byte>, g: seq<byte>, after: seq<ReadEvent>, capacity: nat)
    requires Quiet(noise + [END]) && 4 <= capacity
    ensures Receive(Events(noise + [END]) + (Events(g) + after), capacity)
      == Scan(Events(g) + after, true, [], capacity)
  {
    hide Scan;
    var end: seq<byte> := [END];
    EventsAppend(noise, end);
    assert Events(end) == [Octet(END)];
    QuietSuffix2(noise, end);
    assert Events(noise + end) + (Events(g) + after) == Events(noise) + ([Octet(END)] + (Events(g) + after));
    QuietIdle(noise, Events(g) + after, capacity);
  }

  lemma QuietSuffix2(noise: seq<byte>, more: seq<byte>)
    requires Quiet(noise + more)
    ensures Quiet(noise)
  {
    var all := noise + more;
    forall i | 0 <= i && i + 4 < |noise| && noise[i] == END
      ensures END in noise[i + 1..i + 5]
    {
      assert all[i] == END && all[i + 1..i + 5] == noise[i + 1..i + 5];
    }
  }

  // Garbage from which the receive call comes back: it overflows the buffer, or it decodes.
  predicate Survivable(g: seq<byte>, capacity: nat) {
    |g| > capacity || ((|g| < capacity || Complete(g)) && |Unescape(g, 0)| % 256 >= 2)
  }

  // Apart from the octet stored on overflow, the call that meets garbage stays inside the buffers
  // exactly when the garbage is survivable.
  lemma GarbageSurvivedIff(noise: seq<byte>, g: seq<byte>, rest: seq<ReadEvent>, capacity: nat)
    requires Quiet(noise + [END]) && END !in g && 4 <= |g| && 4 <= capacity
    ensures var outcome := Receive(Events(noise + [END]) + (Events(g) + ([Octet(END)] + rest)), capacity).outcome;
      && outcome == (if |g| <= capacity then Frame(g) else Overflow)
      && (Sound(outcome, capacity) <==> Survivable(g, capacity))
  {
    hide Scan, Quiet;
    var after := [Octet(END)] + rest;
    GarbageScanned(noise, g, after, capacity);
    if |g| <= capacity {
      RunCollected(g, [], after, capacity);
      assert [] + g == g;
      ScanOctet(END, rest, true, g, capacity);
    } else {
      var tail := GarbageOverflows(g, [], after, capacity);
    }
  }

  // After a run of four or more octets of such garbage, one call is lost to it: it returns what the
  // garbage decodes to or the overflow error, and the next call returns the following frame.
  lemma ResynchronisesAfterGarbage(noise: seq<byte>, g: seq<byte>, p: seq<byte>, rest: seq<ReadEvent>, capacity: nat)
    requires Quiet(noise + [END]) && END !in g && 4 <= |g| && Survivable(g, capacity)
    requires 4 <= |Body(p)| <= capacity
    ensures var session := Calls(Events(noise + [END]) + (Events(g) + (Events(Laid(p)) + rest)), 2, capacity);
      && session.outcomes[0] == (if |g| <= capacity then Frame(g) else Overflow)
      && Sound(session.outcomes[0], capacity)
      && session.outcomes[1] == Frame(Body(p))
      && session.rest == rest
  {
    hide Scan, Body, Delimited, Quiet;
    var laid := Events(Laid(p)) + rest;
    GarbageScanned(noise, g, laid, capacity);
    var left: seq<ReadEvent>;
    if |g| <= capacity {
      BodyPlain(p);
      DelimitedEvents(Body(p), rest);
      var afterOne := [Octet(END)] + ([Octet(END)] + (Events(Body(p)) + ([Octet(END)] + rest)));
      RunCollected(g, [], laid, capacity);
      assert [] + g == g;
      ScanOctet(END, afterOne, true, g, capacity);
      left := afterOne;
      ScanOctet(END, [Octet(END)] + (Events(Body(p)) + ([Octet(END)] + rest)), false, [], capacity);
      ScanOctet(END, Events(Body(p)) + ([Octet(END)] + rest), true, [], capacity);
      ContentScanned(Body(p), rest, capacity);
    } else {
      var tail := GarbageOverflows(g, [], laid, capacity);
      left := Events(tail) + laid;
      QuietWithoutEnd(tail);
      FrameReceivedIff(tail, p, rest, capacity);
    }
    assert Receive(left, capacity) == Scanned(Frame(Body(p)), rest);
    TwoCalls(Events(noise + [END]) + (Events(g) + laid), capacity);
  }

  // Garbage without escapes that fits the buffer is survivable exactly when its length is neither 0 nor
  // 1 modulo 256: a run of 256 zeros is not.
  lemma PlainGarbageIff(g: seq<byte>, capacity: nat)
    requires ESC !in g && |g| <= capacity
    ensures Survivable(g, capacity) <==> |g| % 256 >= 2
  {
    PlainUnescaped(g);
  }

  lemma {:induction false} PlainUnescaped(g: seq<byte>)
    requires ESC !in g
    ensures Complete(g) && Unescape(g, 0) == g
  {
    if g != [] { PlainUnescaped(g[1..]); }
  }

  lemma TwoCalls(wire: seq<ReadEvent>, capacity: nat)
    ensures var one := Receive(wire, capacity); var two := Receive(one.rest, capacity);
      Calls(wire, 2, capacity) == Session([one.outcome, two.outcome], two.rest)
  {
    hide Scan;
    var one := Receive(wire, capacity);
    assert Calls(one.rest, 1, capacity).outcomes == [Receive(one.rest, capacity).outcome];
  }

  /* ---------- What Slip_send_buffer sends ---------- */

  lemma ContentPlain(p: seq<byte>)
    ensures END !in Content(p)
  {
    hide Escape, Checksum, EncodeLe16, EscapeByte, Wrapped, Visible;
    EscapeShape(p);
    VisibleIsEnd(Escape(p));
    var field := EncodeLe16(Checksum(p));
    EscapedPlain(field[0]);
    EscapedPlain(field[1]);
    assert END !in FirstPart(p) && END !in Emission(p);
    if |Emission(p)| > 2 * |p| + 3 { AllEscaped(p); }
  }

  lemma EscapedPlain(b: byte)
    ensures END !in EscapeByte(b)
  {
  }

  // What goes out decodes to the payload exactly when the encoder laid the frame and was not cut short.
  lemma ContentDecodesIff(p: seq<byte>, tail: byte)
    ensures Decodable(Content(p)) && Decoded(Content(p), tail) == |p|
      <==> |p| <= 253 && |Escape(p)| < 256 && |Emission(p)| <= 2 * |p| + 3
  {
    hide Emission, FirstPart, Escape, Unescape, DecodeResult, Visible;
    if |Emission(p)| <= 2 * |p| + 3 {
      DecodeOfEncodeIff(p, tail);
    } else {
      CutShort(p, tail);
      if Decodable(Content(p)) {
        TailKeepsLength(Content(p), tail, 0);
        DecodeResultRange(Visible(Unescape(Content(p), tail)));
      }
    }
  }

  lemma CutShort(p: seq<byte>, tail: byte)
    requires |Emission(p)| > 2 * |p| + 3
    ensures |Unescape(Content(p), tail)| <= |p|
  {
    hide Emission, Escape, EscapeByte, Unescape, Checksum, EncodeLe16, Wrapped;
    AllEscaped(p);
    VisibleShort(Escape(p));
    var cut, e := 2 * |p| - 4, Escape(p);
    assert Content(p) == e[..cut];
    assert e[..cut] + e[cut..] == e;
    UnescapeAppend(e[..cut], e[cut..], tail);
    EscapeRoundTrip(p, tail);
  }

  // A receiver that gets a frame has taken something off the wire.
  lemma {:induction false} ScanConsumes(wire: seq<ReadEvent>, started: bool, acc: seq<byte>, capacity: nat)
    ensures |Scan(wire, started, acc, capacity).rest| <= |wire|
    ensures Scan(wire, started, acc, capacity).outcome.Frame? ==> |Scan(wire, started, acc, capacity).rest| < |wire|
    decreases |wire|
  {
    if wire != [] && !wire[0].Silence? {
      var rest := wire[1..];
      ScanConsumes(rest, started, acc, capacity);
      ScanConsumes(rest, true, acc, capacity);
      ScanConsumes(rest, true, [], capacity);
      if wire[0].Octet? { ScanConsumes(rest, true, acc + [wire[0].b], capacity); }
    }
  }

  // Payloads that come through whole: short enough for the decoder's and for the encoder's eight-bit
  // index, and with an escaped frame that both buffers hold and the receiver does not drop.
  predicate ComesThrough(p: seq<byte>, capacity: nat) {
    |p| <= 253 && |Escape(p)| < 256 && 4 <= |Body(p)| <= capacity && |Body(p)| <= 2 * |p| + 2
  }

  lemma OnWireIsLaid(p: seq<byte>, capacity: nat)
    requires ComesThrough(p, capacity)
    ensures OnWire(p) == Laid(p) && Content(p) == Body(p) && |Emission(p)| != 2 * |p| + 3
  {
    hide Emission, Body, Escape, FirstPart;
    LaidIff(p);
    DelimitedInjective(Content(p), Body(p));
  }

  lemma NotLaid(p: seq<byte>, capacity: nat)
    requires |Emission(p)| != 2 * |p| + 3 && !ComesThrough(p, capacity) && 4 <= |Content(p)| <= capacity
    ensures !(|p| <= 253 && |Escape(p)| < 256 && |Emission(p)| <= 2 * |p| + 3)
  {
    hide Emission, Body, Escape, FirstPart;
    EmissionIsBodyIff(p);
  }

  // A payload sent by Slip_send_buffer behind quiet noise is the next one received exactly when it comes
  // through.  A payload whose closing delimiter goes past the sender's buffer is left aside.
  lemma SentDeliveredIff(noise: seq<byte>, p: seq<byte>, rest: seq<ReadEvent>, capacity: nat)
    requires Quiet(noise) && 4 <= capacity && |Emission(p)| != 2 * |p| + 3
    ensures var s := Receive(Events(noise) + (Events(OnWire(p)) + rest), capacity);
      s.rest == rest && Delivers(s.outcome, p, capacity) <==> ComesThrough(p, capacity)
  {
    hide Scan, Quiet, Delimited, Content, ComesThrough, Emission, Events;
    ContentPlain(p);
    DelimitedScanned(noise, Content(p), rest, capacity);
    if ComesThrough(p, capacity) {
      ThroughMeans(p, capacity);
      OnWireIsLaid(p, capacity);
      DeliversIff(p, capacity);
    } else if |Content(p)| < 4 {
      ScanConsumes(rest, true, [], capacity);
    } else if |Content(p)| <= capacity {
      NotDelivered(p, capacity);
    }
  }

  lemma ThroughMeans(p: seq<byte>, capacity: nat)
    requires ComesThrough(p, capacity)
    ensures |p| <= 253 && 4 <= |Body(p)| <= capacity
  {
  }

  lemma NotDelivered(p: seq<byte>, capacity: nat)
    requires |Emission(p)| != 2 * |p| + 3 && !ComesThrough(p, capacity) && 4 <= |Content(p)| <= capacity
    ensures !Delivers(Frame(Content(p)), p, capacity)
  {
    hide Emission, Body, Escape, FirstPart, Content, Decoded, ComesThrough, Unescape;
    NotLaid(p, capacity);
    ContentDecodesIff(p, 0);
    assert Sound(Frame(Content(p)), capacity) ==> Result(Frame(Content(p)), 0) == Decoded(Content(p), 0);
  }

  function SentWire(segments: seq<Segment>): seq<byte> {
    if segments == [] then []
    else segments[0].noise + OnWire(segments[0].payload) + SentWire(segments[1..])
  }

  predicate Sendable(segment: Segment, capacity: nat) {
    Quiet(segment.noise) && ComesThrough(segment.payload, capacity)
  }

  lemma {:induction false} SentWireIsLaid(segments: seq<Segment>, capacity: nat)
    requires forall s :: s in segments ==> Sendable(s, capacity)
    ensures SentWire(segments) == WireOf(segments) && forall s :: s in segments ==> Receivable(s, capacity)
    decreases |segments|
  {
    hide OnWire, Laid, Body, Quiet, Escape;
    if segments != [] {
      var first := segments[0];
      assert Sendable(first, capacity);
      OnWireIsLaid(first.payload, capacity);
      SentWireIsLaid(segments[1..], capacity);
      assert forall s :: s in segments ==> s == first || s in segments[1..];
    }
  }

  // Sender and receiver stay in step: over any payloads that come through, sent by Slip_send_buffer with
  // quiet noise between them and read errors anywhere, each call stays inside its buffers and returns
  // the next payload.
  lemma SenderAndReceiverInStep(wire: seq<ReadEvent>, segments: seq<Segment>, capacity: nat)
    requires 4 <= capacity && forall s :: s in segments ==> Sendable(s, capacity)
    requires Clean(wire) == Events(SentWire(segments))
    ensures forall i :: 0 <= i < |segments| ==>
      var outcome := Receive(WireAt(wire, i, capacity), capacity).outcome;
      Sound(outcome, capacity) && Delivers(outcome, segments[i].payload, capacity)
  {
    hide Clean, Events, WireAt, Receive, Delivers, Sendable, Receivable, SentWire, WireOf, Sound;
    SentWireIsLaid(segments, capacity);
    ReceiverStaysInStep(wire, segments, capacity);
  }
}
