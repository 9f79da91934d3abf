/**
 The serial side of slip.c: Slip_send_buffer lays a frame on the wire, Slip_get_buffer cuts the next
 frame out of whatever the wire delivers.  The main results say when the receiver stays in step.
 */
module SlipLink {
  import opened Bytes
  import opened Crc
  import opened Slip

  // What one call of the serial read function can report.
  datatype ReadEvent = Octet(b: byte) | ReadError | Silence

  datatype Outcome = Timeout | Overflow | Frame(escaped: seq<byte>)

  datatype Scanned = Scanned(outcome: Outcome, rest: seq<ReadEvent>)

  /* ---------- The receive loop as a function of the wire ---------- */

  // The loop of Slip_get_buffer: started is start_of_frame_detected, acc the receiving buffer.
  // A wire with nothing more to deliver is silent.
  function Scan(wire: seq<ReadEvent>, started: bool, acc: seq<byte>, capacity: nat): Scanned
    decreases |wire|
  {
    if wire == [] then Scanned(Timeout, [])
    else
      var rest := wire[1..];
      match wire[0]
      case Silence => Scanned(Timeout, rest)
      case ReadError => Scan(rest, started, acc, capacity)
      case Octet(b) =>
        if b == END then
          if !started then Scan(rest, true, acc, capacity)
          else if |acc| < 4 then Scan(rest, true, [], capacity)
          else Scanned(Frame(acc), rest)
        else if !started then Scan(rest, false, acc, capacity)
        else if |acc| + 1 > capacity then Scanned(Overflow, rest)
        else Scan(rest, true, acc + [b], capacity)
  }

  function Receive(wire: seq<ReadEvent>, capacity: nat): Scanned {
    Scan(wire, false, [], capacity)
  }

  // Size of the receiving buffer for a caller's buffer of len octets.
  function Capacity(len: nat): nat { 2 * len + 6 }

  class SerialPort {
    var wire: seq<ReadEvent>
    var sent: seq<byte>
    var writable: bool

    // Reads one octet: 1 with the octet, 0 on timeout, negative on error.
    method Read() returns (res: int, b: byte)
      modifies this`wire
      ensures wire == if old(wire) == [] then [] else old(wire)[1..]
      ensures old(wire) == [] || old(wire)[0] == Silence ==> res == 0
      ensures old(wire) != [] && old(wire)[0] == ReadError ==> res < 0
      ensures old(wire) != [] && old(wire)[0].Octet? ==> res == 1 && b == old(wire)[0].b
    {
      res, b := 0, 0;
      if wire != [] {
        match wire[0] {
          case Silence =>
          case ReadError => res := -1;
          case Octet(c) => res, b := 1, c;
        }
        wire := wire[1..];
      }
    }

    // Writes size octets, or reports an error and writes none.
    method Write(buffer: array<byte>, size: nat) returns (written: int)
      requires size <= buffer.Length
      modifies this`sent
      ensures writable ==> written == size && sent == old(sent) + buffer[..size]
      ensures !writable ==> written < 0 && sent == old(sent)
    {
      if writable {
        sent := sent + buffer[..size];
        written := size;
      } else {
        written := -1;
      }
    }
  }

  /* ---------- Sending ---------- */

  function Delimited(content: seq<byte>): seq<byte> { [END, END, END] + content + [END] }

  // A frame as it should be on the wire: three delimiters, the escaped frame, one delimiter.
  function Laid(payload: seq<byte>): seq<byte> { Delimited(Body(payload)) }

  // What goes out between the delimiters.  When the last checksum octet did not fit, the negative error
  // code added to the size cuts the frame short.
  function Content(payload: seq<byte>): seq<byte> {
    if |Emission(payload)| <= 2 * |payload| + 3 then Emission(payload)
    else
      AllEscaped(payload);
      FirstPart(payload)[..2 * |payload| - 4]
  }

  function OnWire(payload: seq<byte>): seq<byte> { Delimited(Content(payload)) }

  lemma AllEscaped(payload: seq<byte>)
    requires |Emission(payload)| > 2 * |payload| + 3
    ensures |payload| >= 2 && |FirstPart(payload)| == 2 * |payload| + 2 && |Emission(payload)| == 2 * |payload| + 4
    ensures |Escape(payload)| == 2 * |payload| < 256
  {
    hide Emission, FirstPart, Escape;
    EmissionLength(payload);
    VisibleWhole(payload);
    if payload == [] { EmptyEmission(); }
    if |payload| == 1 { SingleEmission(payload); }
  }

  lemma VisibleWhole(payload: seq<byte>)
    requires |FirstPart(payload)| == 2 * |payload| + 2
    ensures |Escape(payload)| == 2 * |payload| < 256
  {
    hide Escape, Checksum, EncodeLe16, Wrapped;
    EscapeShape(payload);
    EscapeByteShort(EncodeLe16(Checksum(payload))[0]);
  }

  lemma SingleEmission(payload: seq<byte>)
    requires |payload| == 1
    ensures |Emission(payload)| <= 5
  {
    hide Checksum, EncodeLe16;
    var b := payload[0];
    assert payload == [] + [b];
    EmptyChecksum();
    ChecksumPush([], b, 0xFFFF);
    SingleStep(b);
    SingleFields();
    EscapeOne(b);
    assert payload == [b];
    VisibleShort(Escape(payload));
    EscapeByteShort(EncodeLe16(Checksum(payload))[0]);
    EscapeByteShort(EncodeLe16(Checksum(payload))[1]);
  }

  lemma SingleStep(b: byte)
    ensures b == END ==> Shift8(Xor(0xFFFF, Word(b))) == 0x38BC
    ensures b == ESC ==> Shift8(Xor(0xFFFF, Word(b))) == 0x9BE6
  {
  }

  lemma SingleFields()
    ensures EncodeLe16(0x38BC) == [0xBC, 0x38] && EncodeLe16(0x9BE6) == [0xE6, 0x9B]
  {
  }

  lemma EmptyChecksum()
    ensures Checksum([]) == 0xFFFF
  {
  }

  lemma EmptyEmission()
    ensures |Emission([])| == 2
  {
    assert Checksum([]) == INITIAL && EncodeLe16(INITIAL) == [0xFF, 0xFF];
    assert Escape([]) == [] && Visible([]) == [];
  }

  // What is sent is the frame exactly when the escaped payload stays below 256 octets and the escaped
  // frame within twice the payload plus two.
  lemma LaidIff(payload: seq<byte>)
    ensures |Emission(payload)| != 2 * |payload| + 3 && OnWire(payload) == Laid(payload)
      <==> |Escape(payload)| < 256 && |Body(payload)| <= 2 * |payload| + 2
  {
    hide Emission, FirstPart, Body, Escape;
    EmissionLength(payload);
    EmissionIsBodyIff(payload);
    EmissionShorter(payload);
    DelimitedInjective(Content(payload), Body(payload));
    if |Emission(payload)| > 2 * |payload| + 3 { AllEscaped(payload); }
  }

  lemma DelimitedInjective(a: seq<byte>, b: seq<byte>)
    ensures Delimited(a) == Delimited(b) <==> a == b
  {
    assert a == Delimited(a)[3..3 + |a|] && b == Delimited(b)[3..3 + |b|];
    assert |Delimited(a)| == |a| + 4 && |Delimited(b)| == |b| + 4;
  }

  lemma EmissionShorter(payload: seq<byte>)
    ensures |Emission(payload)| <= |Body(payload)|
  {
    hide Checksum, EncodeLe16, Escape, EscapeByte, Wrapped;
    var field := EncodeLe16(Checksum(payload));
    EscapeTwo(payload, field[0], field[1]);
    assert field == [field[0], field[1]];
  }

  // encoded has one cell more than the source's buffer; overran tells that the closing delimiter went there.
  method SendBuffer(port: SerialPort, data: array<byte>, len: nat) returns (r: int, overran: bool)
    requires len <= data.Length
    modifies port`sent
    ensures overran <==> |Emission(data[..len])| == 2 * len + 3
    ensures port.writable ==> r == 0 && port.sent == old(port.sent) + OnWire(data[..len])
    ensures !port.writable ==> r == GEN_ERROR && port.sent == old(port.sent)
  {
    hide Body, Escape, Emission, FirstPart, EscapeByte, Checksum, EncodeLe16;
    ghost var p := data[..len];
    EscapeShape(p);
    EmissionLength(p);
    var encoded := new byte[Capacity(len) + 1];
    for i := 0 to 3
      modifies encoded
      invariant forall k :: 0 <= k < i ==> encoded[k] == END
    {
      encoded[i] := END;
    }
    var size, outside := Encode(data, len, encoded, 3, Capacity(len) - 3);
    if |Emission(p)| > 2 * len + 3 { AllEscaped(p); }
    ghost var laid := encoded[..];
    assert laid[..3] == [END, END, END];
    overran := size + 3 == Capacity(len);
    encoded[size + 3] := END;
    Closed(laid, encoded[..], size, p);
    var written := port.Write(encoded, size + 4);
    if written != size + 4 { return GEN_ERROR, overran; }
    r := 0;
  }

  // The buffer with the closing delimiter put in holds what goes out.
  lemma Closed(laid: seq<byte>, closed: seq<byte>, size: int, p: seq<byte>)
    requires |laid| == |closed| == Capacity(|p|) + 1 && laid[..3] == [END, END, END] && 0 <= size + 3 < |laid|
    requires closed == laid[size + 3 := END]
    requires if |Emission(p)| <= 2 * |p| + 3 then size == |Emission(p)| && laid[3..3 + size] == Emission(p)
             else |p| >= 2 && |FirstPart(p)| == 2 * |p| + 2 && size == |FirstPart(p)| + WRONG_BUFFER_SIZE
                  && laid[3..3 + |FirstPart(p)|] == FirstPart(p)
    ensures closed[..size + 4] == OnWire(p)
  {
    hide Emission, FirstPart;
    assert closed[..size + 4] == laid[..3] + laid[3..3 + size] + [END];
    if |Emission(p)| > 2 * |p| + 3 {
      assert laid[3..3 + size] == laid[3..3 + |FirstPart(p)|][..size];
    }
  }

  lemma ChecksumPush(s: seq<byte>, b: byte, crc: bv16)
    requires Checksum(s) == crc
    ensures Checksum(s + [b]) == Shift8(Xor(crc, Word(b)))
  {
    hide TableStep, Shift8, Xor, Word;
    assert (s + [b])[..|s|] == s;
    TableStepIsShift8(crc, b);
  }

  // Nine octets that all need escaping, with a checksum whose octets need it too: of the 22 octets of their
  // frame fourteen go out.
  lemma TruncatedExample()
    ensures var p: seq<byte> := [0xC0, 0xC0, 0xDB, 0xDB, 0xDB, 0xC0, 0xC0, 0xDB, 0xC0];
      Checksum(p) == 0xC0C0 && |Body(p)| == 2 * |p| + 4 && |OnWire(p)| == 14 + 4
  {
    var p: seq<byte> := [0xC0, 0xC0, 0xDB, 0xDB, 0xDB, 0xC0, 0xC0, 0xDB, 0xC0];
    hide Emission, FirstPart, Content, Checksum, Escape, EncodeLe16;
    ExampleChecksum(p);
    AllDoubled(p);
    EscapeTwo(p, 0xC0, 0xC0);
    ExampleField();
    CutLength(p);
  }

  lemma ExampleField()
    ensures EncodeLe16(0xC0C0) == [0xC0, 0xC0] && |EscapeByte(0xC0)| == 2
  {
  }

  lemma CutLength(p: seq<byte>)
    requires |Body(p)| == 2 * |p| + 4 && |Escape(p)| < 256
    ensures |OnWire(p)| == 2 * |p|
  {
    hide Emission, FirstPart, Body, Escape;
    EmissionIsBodyIff(p);
    AllEscaped(p);
  }

  // The check register before octet i of the example
  function Register(i: nat): bv16 {
    if i == 0 then 0xFFFF else if i == 1 then 0x38BC else if i == 2 then 0xD217 else if i == 3 then 0x8629
    else if i == 4 then 0xA258 else if i == 5 then 0xB7BE else if i == 6 then 0xB070 else if i == 7 then 0x0E97
    else if i == 8 then 0x0CD8 else 0xC0C0
  }

  lemma RegisterStep(i: nat)
    requires i < 9
    ensures var b := if i == 2 || i == 3 || i == 4 || i == 7 then 0xDB else 0xC0;
      Shift8(Xor(Register(i), Word(b))) == Register(i + 1)
  {
  }

  lemma ExampleChecksum(p: seq<byte>)
    requires |p| == 9
    requires forall i :: 0 <= i < 9 ==> p[i] == if i == 2 || i == 3 || i == 4 || i == 7 then 0xDB else 0xC0
    ensures Checksum(p) == Register(9)
  {
    hide Checksum, Register, Shift8, Xor, Word;
    FirstRegister();
    assert p[..0] == [];
    for i := 0 to 9
      invariant Checksum(p[..i]) == Register(i)
    {
      ChecksumPush(p[..i], p[i], Register(i));
      RegisterStep(i);
      assert p[..i + 1] == p[..i] + [p[i]];
    }
    assert p[..9] == p;
  }

  lemma FirstRegister()
    ensures Checksum([]) == Register(0)
  {
  }

  // Four octets whose closing delimiter goes past the buffer.
  lemma OverrunExample()
    ensures var p: seq<byte> := [0xDB, 0xC0, 0xC0, 0xC0];
      Checksum(p) == 0xDB33 && |Emission(p)| == 2 * |p| + 3
  {
    hide Checksum, EncodeLe16, Escape;
    var p: seq<byte> := [0xDB, 0xC0, 0xC0, 0xC0];
    ShortExampleChecksum(p);
    AllDoubled(p);
    ShortExampleField();
    VisibleShort(Escape(p));
  }

  lemma ShortExampleField()
    ensures EncodeLe16(0xDB33) == [0x33, 0xDB] && |EscapeByte(0x33)| == 1 && |EscapeByte(0xDB)| == 2
  {
  }

  lemma ShortExampleChecksum(p: seq<byte>)
    requires p == [0xDB, 0xC0, 0xC0, 0xC0]
    ensures Checksum(p) == 0xDB33
  {
    hide Checksum, Shift8, Xor, Word;
    FirstRegister();
    ShortExampleSteps();
    var one: seq<byte>, two: seq<byte>, three: seq<byte> := [0xDB], [0xDB, 0xC0], [0xDB, 0xC0, 0xC0];
    ChecksumPush([], 0xDB, 0xFFFF);
    assert [] + [0xDB] == one;
    ChecksumPush(one, 0xC0, 0x9BE6);
    assert one + [0xC0] == two;
    ChecksumPush(two, 0xC0, 0x0D9E);
    assert two + [0xC0] == three;
    ChecksumPush(three, 0xC0, 0x96E1);
    assert three + [0xC0] == p;
  }

  lemma ShortExampleSteps()
    ensures Shift8(Xor(0xFFFF, Word(0xDB))) == 0x9BE6 && Shift8(Xor(0x9BE6, Word(0xC0))) == 0x0D9E
    ensures Shift8(Xor(0x0D9E, Word(0xC0))) == 0x96E1 && Shift8(Xor(0x96E1, Word(0xC0))) == 0xDB33
  {
  }

  /* ---------- Receiving ---------- */

  // What Slip_get_buffer returns; tail is the octet a dangling escape would take.
  function Result(outcome: Outcome, tail: byte): int
    requires outcome.Frame? ==> Decodable(outcome.escaped)
  {
    match outcome
    case Timeout => TIMEOUT_ERROR
    case Overflow => GEN_ERROR
    case Frame(e) => Decoded(e, tail)
  }

  lemma ErrorResults(tail: byte)
    ensures Result(Timeout, tail) == -2 && Result(Overflow, tail) == -1
  {
  }

  // Frames handed to the decoder hold at least four and at most capacity octets.
  lemma {:induction false} ScanFrameSize(wire: seq<ReadEvent>, started: bool, acc: seq<byte>, capacity: nat)
    requires |acc| <= capacity
    ensures var o := Scan(wire, started, acc, capacity).outcome; o.Frame? ==> 4 <= |o.escaped| <= capacity
    decreases |wire|
  {
    if wire != [] && !wire[0].Silence? {
      var rest := wire[1..];
      ScanFrameSize(rest, started, acc, capacity);
      ScanFrameSize(rest, true, acc, capacity);
      ScanFrameSize(rest, true, [], capacity);
      if wire[0].Octet? && |acc| + 1 <= capacity {
        ScanFrameSize(rest, true, acc + [wire[0].b], capacity);
      }
    }
  }

  // A silence before the frame is complete ends the call at once, in the middle of a frame too; what comes
  // after it is left on the wire.
  lemma {:induction false} SilenceEnds(wire: seq<ReadEvent>, rest: seq<ReadEvent>, started: bool, acc: seq<byte>,
                                       capacity: nat)
    requires Silence !in wire && Scan(wire, started, acc, capacity).outcome == Timeout
    ensures Scan(wire + [Silence] + rest, started, acc, capacity) == Scanned(Timeout, rest)
    decreases |wire|
  {
    var all := wire + [Silence] + rest;
    if wire != [] {
      var started', acc' := started, acc;
      if wire[0] == Octet(END) {
        started' := true;
        if started { acc' := []; }
      } else if wire[0].Octet? && started {
        acc' := acc + [wire[0].b];
      }
      SilenceEnds(wire[1..], rest, started', acc', capacity);
      assert all[1..] == wire[1..] + [Silence] + rest;
    } else {
      assert all[1..] == rest;
    }
  }

  // Slip_get_buffer then returns -2.
  lemma SilenceReturned(wire: seq<ReadEvent>, rest: seq<ReadEvent>, capacity: nat, tail: byte)
    requires Silence !in wire && Receive(wire, capacity).outcome == Timeout
    ensures var s := Receive(wire + [Silence] + rest, capacity);
      s.rest == rest && s.outcome.Timeout? && Result(s.outcome, tail) == -2
  {
    hide Scan, Result, Decodable;
    ErrorResults(tail);
    SilenceEnds(wire, rest, false, [], capacity);
  }

  // The receive loop up to the delimiter that ends a frame.  overran: an octet is stored one past the
  // end of the receiving buffer, before the source notices that there is no room.
  method CollectFrame(port: SerialPort, receiving: array<byte>) returns (r: int, size: nat, overran: bool)
    modifies port`wire, receiving
    ensures var s := Scan(old(port.wire), false, [], receiving.Length);
      && port.wire == s.rest
      && (overran <==> s.outcome == Overflow)
      && (s.outcome == Timeout ==> r == TIMEOUT_ERROR)
      && (s.outcome == Overflow ==> r == GEN_ERROR)
      && (s.outcome.Frame? ==> r == 0 && size <= receiving.Length && receiving[..size] == s.outcome.escaped)
  {
    size, overran := 0, false;
    var started := false;
    ghost var target := Scan(port.wire, false, [], receiving.Length);
    while true
      invariant size <= receiving.Length
      invariant Scan(port.wire, started, receiving[..size], receiving.Length) == target
      invariant !started ==> size == 0
      decreases |port.wire|
    {
      var wasEmpty := port.wire == [];
      var res, read := port.Read();
      if res == 0 {
        return TIMEOUT_ERROR, size, false;
      } else if res < 0 || res > 1 {
      } else if read == END {
        if started {
          if size < 4 {
            size := 0;
            continue;
          }
          break;
        } else {
          started := true;
        }
      } else if started {
        if size == receiving.Length { return GEN_ERROR, size + 1, true; }
        ghost var acc := receiving[..size];
        receiving[size] := read;
        size := size + 1;
        assert receiving[..size] == acc + [read];
      }
    }
    r := 0;
  }

  // The next frame can be decoded inside the buffers: an escape at its very end needs one more octet of
  // receiving buffer, and its unescaped length must not be 0 or 1 modulo 256.
  predicate Sound(outcome: Outcome, capacity: nat) {
    outcome.Frame? ==> Decodable(outcome.escaped) && !ReadsPast(outcome.escaped, capacity)
  }

  // Receives one frame into buffer[..len]: the payload length, or a negative error.  outside: the source
  // stores or reads past its receiving buffer.
  method GetBuffer(port: SerialPort, buffer: array<byte>, len: nat) returns (r: int, outside: bool, ghost tail: byte)
    requires len <= buffer.Length
    modifies port`wire, buffer
    ensures var s := Receive(old(port.wire), Capacity(len));
      && port.wire == s.rest
      && (outside <==> s.outcome == Overflow || !Sound(s.outcome, Capacity(len)))
      && (Sound(s.outcome, Capacity(len)) ==>
            && r == Result(s.outcome, tail)
            && (0 < r <= len ==>
                  s.outcome.Frame? && var v := Visible(Unescape(s.outcome.escaped, tail));
                  r <= |v| && buffer[..r] == v[..r]))
      && (!(Sound(s.outcome, Capacity(len)) && 0 < r <= len) ==> buffer[..] == old(buffer[..]))
  {
    hide Unescape, Complete, Scan, DecodeResult, Wrapped, ReadsPast;
    ghost var s := Receive(port.wire, Capacity(len));
    ScanFrameSize(port.wire, false, [], Capacity(len));
    var receiving := new byte[Capacity(len)];
    var size: nat;
    tail := 0;
    r, size, outside := CollectFrame(port, receiving);
    if r < 0 { return; }
    ghost var e := receiving[..size];
    tail := After(receiving[..], size);
    ghost var d := Unescape(e, tail);
    TailKeepsLength(e, tail, 0);
    r, outside := Decode(receiving, size);
    if outside { return; }
    if r > 0 && r <= len {
      DecodeResultRange(Visible(d));
      forall i | 0 <= i < r { buffer[i] := receiving[i]; }
      assert receiving[..|Wrapped(d)|][..r] == receiving[..r];
    }
  }
}
