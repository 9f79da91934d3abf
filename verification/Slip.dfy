/**
 SLIP framing of slip.c: octet escaping (the "PROTOCOL" section of RFC 1055), the encoder into a
 caller's buffer, and the decoder that works in place.
 */
module Slip {
  import opened Bytes
  import opened Crc

  const END: byte := 0xC0
  const ESC: byte := 0xDB
  const END_SUBS: byte := 0xDC
  const ESC_SUBS: byte := 0xDD

  const GEN_ERROR := -1
  const TIMEOUT_ERROR := -2
  const WRONG_CRC := -5
  const WRONG_BUFFER_SIZE := -6
  const WRONG_CRC_FROM_HOST := -7

  /* ---------- Escaping ---------- */

  function EscapeByte(b: byte): seq<byte> {
    if b == END then [ESC, END_SUBS] else if b == ESC then [ESC, ESC_SUBS] else [b]
  }

  function Escape(s: seq<byte>): seq<byte> {
    if s == [] then [] else EscapeByte(s[0]) + Escape(s[1..])
  }

  function Substituted(b: byte): byte {
    if b == END_SUBS then END else ESC
  }

  // tail is the octet that follows e in memory: an escape at the very end of e consumes it.
  function Unescape(e: seq<byte>, tail: byte): seq<byte> {
    if e == [] then []
    else if e[0] != ESC then [e[0]] + Unescape(e[1..], tail)
    else if |e| == 1 then [Substituted(tail)]
    else [Substituted(e[1])] + Unescape(e[2..], tail)
  }

  // Every escape octet in e has its substitution octet in e.
  predicate Complete(e: seq<byte>) {
    e == [] || (if e[0] != ESC then Complete(e[1..]) else |e| > 1 && Complete(e[2..]))
  }

  lemma {:induction false} EscapeAppend(s: seq<byte>, t: seq<byte>)
    ensures Escape(s + t) == Escape(s) + Escape(t)
  {
    if s == [] {
      assert s + t == t;
    } else {
      assert (s + t)[1..] == s[1..] + t;
      EscapeAppend(s[1..], t);
    }
  }

  // The escaped form never contains the frame delimiter, and at most doubles the length.
  lemma {:induction false} EscapeShape(s: seq<byte>)
    ensures END !in Escape(s) && Complete(Escape(s))
    ensures |s| <= |Escape(s)| <= 2 * |s|
  {
    if s != [] {
      EscapeShape(s[1..]);
      assert Escape(s)[|EscapeByte(s[0])|..] == Escape(s[1..]);
    }
  }

  // Unescaping undoes escaping, whatever follows in memory.
  lemma {:induction false} EscapeRoundTrip(s: seq<byte>, tail: byte)
    ensures Unescape(Escape(s), tail) == s
  {
    if s != [] {
      EscapeRoundTrip(s[1..], tail);
      assert Escape(s)[|EscapeByte(s[0])|..] == Escape(s[1..]);
    }
  }

  lemma {:induction false} CompleteIgnoresTail(e: seq<byte>, tail: byte, tail': byte)
    requires Complete(e)
    ensures Unescape(e, tail) == Unescape(e, tail')
  {
    if e != [] {
      CompleteIgnoresTail(e[if e[0] != ESC then 1 else 2..], tail, tail');
    }
  }

  lemma {:induction false} UnescapeLength(e: seq<byte>, tail: byte)
    ensures |e| <= 2 * |Unescape(e, tail)| && |Unescape(e, tail)| <= |e|
  {
    if e != [] && (e[0] != ESC || |e| > 1) {
      UnescapeLength(e[if e[0] != ESC then 1 else 2..], tail);
    }
  }

  // The octets on the wire: those of RFC 1055, but for an escape followed by anything other than DC, which
  // always stands for DB.
  lemma EscapedOctets(b: byte)
    ensures Escape([b]) == if b == 0xC0 then [0xDB, 0xDC] else if b == 0xDB then [0xDB, 0xDD] else [b]
  {
    assert Escape([b]) == EscapeByte(b) + Escape([b][1..]);
  }

  lemma UnescapedOctets(b: byte, rest: seq<byte>, tail: byte)
    ensures b != 0xDB ==> Unescape([b] + rest, tail) == [b] + Unescape(rest, tail)
    ensures Unescape([0xDB, b] + rest, tail) == [if b == 0xDC then 0xC0 else 0xDB] + Unescape(rest, tail)
    ensures Unescape([0xDB], tail) == [if tail == 0xDC then 0xC0 else 0xDB]
  {
    assert ([b] + rest)[1..] == rest && ([0xDB, b] + rest)[2..] == rest;
  }

  /* ---------- Eight-bit write indices ---------- */

  // What a loop leaves in an array when it writes the octets of s through an index of eight bits.
  function Wrapped(s: seq<byte>): (w: seq<byte>)
    ensures |w| == if |s| < 256 then |s| else 256
    decreases |s|
  {
    if s == [] then []
    else
      var last := |s| - 1;
      var w := Wrapped(s[..last]);
      if last < 256 then w + [s[last]] else w[last % 256 := s[last]]
  }

  lemma WrappedPush(s: seq<byte>, b: byte)
    ensures Wrapped(s + [b]) == if |s| < 256 then Wrapped(s) + [b] else Wrapped(s)[|s| % 256 := b]
  {
    assert (s + [b])[..|s|] == s;
  }

  lemma {:induction false} WrappedShort(s: seq<byte>)
    requires |s| <= 256
    ensures Wrapped(s) == s
    decreases |s|
  {
    if s != [] {
      WrappedShort(s[..|s| - 1]);
      assert s == s[..|s| - 1] + [s[|s| - 1]];
    }
  }

  // The cell at i holds the last octet whose number is i modulo 256.
  lemma {:induction false} WrappedAt(s: seq<byte>, i: nat)
    requires i < |Wrapped(s)|
    ensures var j := |s| - 1 - (|s| - 1 - i) % 256; 0 <= j < |s| && j % 256 == i && Wrapped(s)[i] == s[j]
    decreases |s|
  {
    var last := |s| - 1;
    var init := s[..last];
    if last % 256 != i {
      WrappedAt(init, i);
      SameResidue(last, i);
    } else {
      SameCell(last, i);
    }
  }

  lemma SameCell(last: nat, i: nat)
    requires i <= last && last % 256 == i
    ensures (last - i) % 256 == 0
  {
  }

  lemma SameResidue(last: nat, i: nat)
    requires i < last && i < 256 && last % 256 != i
    ensures last - (last - i) % 256 == last - 1 - (last - 1 - i) % 256
  {
  }

  // The octets the returned index covers: all of s while there are fewer than 256.
  function Visible(s: seq<byte>): (v: seq<byte>)
    ensures |v| == |s| % 256 && v <= Wrapped(s)
  {
    Wrapped(s)[..|s| % 256]
  }

  lemma VisibleShort(s: seq<byte>)
    requires |s| < 256
    ensures Visible(s) == s
  {
    WrappedShort(s);
  }

  /* ---------- Frames ---------- */

  function Framed(payload: seq<byte>): seq<byte> {
    payload + EncodeLe16(Checksum(payload))
  }

  // The escaped frame.  Slip_encode lays it for payloads of fewer than 256 escaped octets: see Emission.
  function Body(payload: seq<byte>): seq<byte> {
    Escape(Framed(payload))
  }

  function ChecksumField(d: seq<byte>): bv16
    requires |d| >= 2
  {
    DecodeLe16(d[|d| - 2], d[|d| - 1])
  }

  // The return value of Slip_decode for unescaped octets d.
  function DecodeResult(d: seq<byte>): (r: int)
    requires |d| >= 2
    ensures r >= 0 <==> Checksum(d[..|d| - 2]) == ChecksumField(d)
    ensures r < 0 ==> r == WRONG_CRC || r == WRONG_CRC_FROM_HOST
  {
    if Checksum(d[..|d| - 2]) == ChecksumField(d) then |d| - 2
    else if ChecksumField(d) == 0xFFFF then WRONG_CRC_FROM_HOST
    else WRONG_CRC
  }

  lemma FramedDecodes(payload: seq<byte>)
    ensures |Framed(payload)| == |payload| + 2
    ensures DecodeResult(Framed(payload)) == |payload| && Framed(payload)[..|payload|] == payload
  {
    hide Checksum, EncodeLe16, DecodeLe16;
    Le16RoundTrip(Checksum(payload));
    assert Framed(payload)[..|payload|] == payload;
  }

  // What Slip_decode returns for an escaped frame, when the unescaped length modulo 256 is at least two;
  // below that it would compute the checksum of almost 2^32 octets.
  predicate Decodable(e: seq<byte>) { |Unescape(e, 0)| % 256 >= 2 }

  function Decoded(e: seq<byte>, tail: byte): int
    requires Decodable(e)
  {
    TailKeepsLength(e, tail, 0);
    DecodeResult(Visible(Unescape(e, tail)))
  }

  lemma {:induction false} TailKeepsLength(e: seq<byte>, tail: byte, tail': byte)
    ensures |Unescape(e, tail)| == |Unescape(e, tail')|
  {
    if e != [] && (e[0] != ESC || |e| > 1) { TailKeepsLength(e[if e[0] != ESC then 1 else 2..], tail, tail'); }
  }

  // Decoding the escaped frame gives back the payload's length, with the payload in front.
  lemma DecodeOfBody(payload: seq<byte>, tail: byte)
    requires |payload| <= 253
    ensures Decodable(Body(payload)) && Decoded(Body(payload), tail) == |payload|
    ensures |Unescape(Body(payload), tail)| == |payload| + 2
    ensures Wrapped(Unescape(Body(payload), tail))[..|payload|] == payload
  {
    hide Wrapped, Checksum;
    EscapeRoundTrip(Framed(payload), tail);
    EscapeRoundTrip(Framed(payload), 0);
    FramedDecodes(payload);
    VisibleShort(Framed(payload));
    WrappedShort(Framed(payload));
  }

  // Longer payloads do not come back: the length is lost in eight bits.
  lemma BodyDecodesIff(payload: seq<byte>, tail: byte)
    ensures Decodable(Body(payload)) && Decoded(Body(payload), tail) == |payload| <==> |payload| <= 253
    ensures |payload| == 254 ==> !Decodable(Body(payload))
  {
    hide Wrapped, Checksum;
    EscapeRoundTrip(Framed(payload), tail);
    EscapeRoundTrip(Framed(payload), 0);
    FramedDecodes(payload);
    if |payload| <= 253 { DecodeOfBody(payload, tail); }
    if Decodable(Body(payload)) { DecodeResultRange(Visible(Framed(payload))); }
  }

  lemma DecodeResultRange(d: seq<byte>)
    requires |d| >= 2
    ensures DecodeResult(d) >= 0 ==> DecodeResult(d) == |d| - 2
  {
  }

  /* ---------- Bursts ---------- */

  predicate WithinTwo(a: seq<byte>, b: seq<byte>, k: nat) {
    |a| == |b| && forall i :: 0 <= i < |a| && i != k && i != k + 1 ==> a[i] == b[i]
  }

  // The hit turns the last payload octet by 0x89 and the low checksum octet by 0xA1.
  predicate SeamHit(p: seq<byte>, d: seq<byte>)
    requires |d| == |Framed(p)| == |p| + 2
  {
    p != [] && d[|p| - 1] ^ p[|p| - 1] == 0x89 && d[|p|] ^ Framed(p)[|p|] == 0xA1
  }

  // A frame of up to 253 payload octets, hit by a burst within two adjacent octets anywhere, is accepted
  // exactly for that hit.
  lemma BurstPassesIff(p: seq<byte>, d: seq<byte>, k: nat, tail: byte)
    requires |p| <= 253 && WithinTwo(Framed(p), d, k) && d != Framed(p)
    ensures |d| == |Framed(p)| == |p| + 2
    ensures Decodable(Escape(d)) && (Decoded(Escape(d), tail) >= 0 <==> SeamHit(p, d))
  {
    hide Checksum, DecodeResult, SeamHit, Wrapped, Framed;
    BurstCheckedIff(p, d, k);
    EscapeRoundTrip(d, tail);
    EscapeRoundTrip(d, 0);
    VisibleShort(d);
  }

  lemma FieldReadsFFFF(a: byte, b: byte)
    ensures DecodeLe16(a, b) == 0xFFFF <==> a == 0xFF && b == 0xFF
  {
  }

  lemma ResultExactly(v: seq<byte>)
    requires |v| >= 2
    ensures var n := |v| - 2;
      DecodeResult(v) == if DecodeLe16(v[n], v[n + 1]) == Checksum(v[..n]) then n
                         else if v[n] == 0xFF && v[n + 1] == 0xFF then -7 else -5
  {
    hide Checksum, DecodeLe16;
    FieldReadsFFFF(v[|v| - 2], v[|v| - 1]);
  }

  // What Slip_decode returns for any frame it can decode: the number of octets its index covers less two when
  // the last two of them are the checksum of the others; else -7 when these two read FF FF, and -5 if not.
  lemma DecodedExactly(e: seq<byte>, tail: byte)
    requires Decodable(e)
    ensures var v := Visible(Unescape(e, tail)); var n := |v| - 2;
      && n >= 0
      && Decoded(e, tail) == if DecodeLe16(v[n], v[n + 1]) == Checksum(v[..n]) then n
                             else if v[n] == 0xFF && v[n + 1] == 0xFF then -7 else -5
  {
    hide Checksum, Wrapped, DecodeLe16, Unescape, Visible, DecodeResult;
    TailKeepsLength(e, tail, 0);
    ResultExactly(Visible(Unescape(e, tail)));
  }

  // The same for octets that do not exceed the index, escaped
  lemma EscapedDecodes(d: seq<byte>, tail: byte)
    requires 2 <= |d| < 256
    ensures Decodable(Escape(d))
    ensures var n := |d| - 2;
      Decoded(Escape(d), tail) == if DecodeLe16(d[n], d[n + 1]) == Checksum(d[..n]) then n
                                  else if d[n] == 0xFF && d[n + 1] == 0xFF then -7 else -5
  {
    hide Checksum, Wrapped, DecodeLe16, Escape, Decoded, Visible;
    EscapeRoundTrip(d, tail);
    EscapeRoundTrip(d, 0);
    VisibleShort(d);
    DecodedExactly(Escape(d), tail);
  }

  // The dummy by which the node says that a request came in damaged: a frame whose checksum field reads FF FF.
  lemma DummyDecodes(p: seq<byte>, tail: byte)
    requires |p| <= 253
    ensures Decodable(Escape(p + [0xFF, 0xFF]))
    ensures Decoded(Escape(p + [0xFF, 0xFF]), tail) == if Checksum(p) != 0xFFFF then -7 else |p|
  {
    hide Checksum, Escape, Decoded, DecodeLe16;
    var d := p + [0xFF, 0xFF];
    EscapedDecodes(d, tail);
    assert d[..|p|] == p;
    FieldReadsFFFF(0xFF, 0xFF);
  }

  // A burst that does not pass is reported as -7 exactly when it leaves FF FF in the checksum field.
  lemma BurstReported(p: seq<byte>, d: seq<byte>, k: nat, tail: byte)
    requires |p| <= 253 && WithinTwo(Framed(p), d, k) && d != Framed(p) && (|d| == |p| + 2 ==> !SeamHit(p, d))
    ensures |d| == |Framed(p)| == |p| + 2 && Decodable(Escape(d))
    ensures Decoded(Escape(d), tail) == if d[|p|] == 0xFF && d[|p| + 1] == 0xFF then -7 else -5
  {
    hide Checksum, Escape, Decoded, SeamHit, Framed, DecodeLe16, WithinTwo;
    SameLength(Framed(p), d, k);
    FrameParts(p);
    BurstPassesIff(p, d, k, tail);
    EscapedDecodes(d, tail);
  }

  lemma BurstCheckedIff(p: seq<byte>, d: seq<byte>, k: nat)
    requires WithinTwo(Framed(p), d, k) && d != Framed(p)
    ensures |d| == |Framed(p)| == |p| + 2
    ensures DecodeResult(d) >= 0 <==> SeamHit(p, d)
  {
    hide WithinTwo, Checksum, EncodeLe16, DecodeLe16, DecodeResult, SeamHit, Framed;
    FrameParts(p);
    SameLength(Framed(p), d, k);
    if d[..|p|] == p {
      FieldHit(p, d);
    } else if d[|p|] == Framed(p)[|p|] && d[|p| + 1] == Framed(p)[|p| + 1] {
      PayloadHit(p, d[..|p|], d, k);
    } else {
      SeamOnly(p, d[..|p|], d, k);
      SeamDecides(p, d[..|p|], d);
    }
  }

  lemma SameLength(a: seq<byte>, b: seq<byte>, k: nat)
    requires WithinTwo(a, b, k)
    ensures |a| == |b|
  {
  }

  lemma FrameParts(p: seq<byte>)
    ensures var f, n := Framed(p), |p|;
      |f| == n + 2 && f[..n] == p && (forall i :: 0 <= i < n ==> f[i] == p[i])
      && DecodeLe16(f[n], f[n + 1]) == Checksum(p)
  {
    hide Checksum, EncodeLe16, DecodeLe16;
    Le16RoundTrip(Checksum(p));
  }

  lemma ResultDecided(d: seq<byte>, q: seq<byte>, low: byte, high: byte)
    requires |d| >= 2 && q == d[..|d| - 2] && low == d[|d| - 2] && high == d[|d| - 1]
    ensures DecodeResult(d) >= 0 <==> Checksum(q) == DecodeLe16(low, high)
  {
    hide Checksum, DecodeLe16;
  }

  // Only the checksum field is hit.
  lemma FieldHit(p: seq<byte>, d: seq<byte>)
    requires |d| == |Framed(p)| == |p| + 2 && d[..|p|] == p && d != Framed(p)
    ensures DecodeResult(d) < 0 && !SeamHit(p, d)
  {
    hide Checksum, DecodeLe16, DecodeResult, Framed;
    FrameParts(p);
    var f, n := Framed(p), |p|;
    assert d == p + [d[n], d[n + 1]] && f == p + [f[n], f[n + 1]];
    FieldDecides(d[n], d[n + 1], f[n], f[n + 1]);
    ResultDecided(d, p, d[n], d[n + 1]);
    if n > 0 { Unturned(d[n - 1], p[n - 1]); }
  }

  lemma Unturned(a: byte, b: byte)
    ensures a ^ b == 0 <==> a == b
  {
  }

  // Only the payload is hit.
  lemma PayloadHit(p: seq<byte>, q: seq<byte>, d: seq<byte>, k: nat)
    requires WithinTwo(Framed(p), d, k) && |Framed(p)| == |p| + 2 && q == d[..|p|] && q != p
    requires d[|p|] == Framed(p)[|p|] && d[|p| + 1] == Framed(p)[|p| + 1]
    ensures DecodeResult(d) < 0 && !SeamHit(p, d)
  {
    hide Checksum, DecodeLe16, DecodeResult, Framed;
    FrameParts(p);
    forall i | 0 <= i < |p| && i != k && i != k + 1
      ensures p[i] == q[i]
    {
      assert q[i] == d[i] && p[i] == Framed(p)[i];
    }
    TwoByteBurstChangesChecksum(p, q, k);
    ResultDecided(d, q, d[|p|], d[|p| + 1]);
    Unturned(d[|p|], Framed(p)[|p|]);
  }

  lemma SeamOnly(p: seq<byte>, q: seq<byte>, d: seq<byte>, k: nat)
    requires WithinTwo(Framed(p), d, k) && |Framed(p)| == |p| + 2 && q == d[..|p|] && q != p
    requires d[|p|] != Framed(p)[|p|] || d[|p| + 1] != Framed(p)[|p| + 1]
    ensures p != [] && d[|p| + 1] == Framed(p)[|p| + 1] && q[..|p| - 1] == p[..|p| - 1]
  {
    hide Framed;
    FrameParts(p);
    var i :| 0 <= i < |p| && q[i] != p[i];
    assert d[i] == q[i] && d[i] != Framed(p)[i];
    assert k == |p| - 1;
    forall j | 0 <= j < |p| - 1
      ensures q[j] == p[j]
    {
      assert d[j] == Framed(p)[j];
    }
  }

  lemma SeamDecides(p: seq<byte>, q: seq<byte>, d: seq<byte>)
    requires |d| == |Framed(p)| == |p| + 2 && q == d[..|p|] && q != p && p != []
    requires d[|p| + 1] == Framed(p)[|p| + 1] && q[..|p| - 1] == p[..|p| - 1]
    ensures DecodeResult(d) >= 0 <==> SeamHit(p, d)
  {
    hide Checksum, DecodeLe16, DecodeResult, Framed;
    FrameParts(p);
    SeamBurst(p, q, d[|p|], Framed(p)[|p|], d[|p| + 1]);
    ResultDecided(d, q, d[|p|], d[|p| + 1]);
    assert q[|p| - 1] == d[|p| - 1];
  }

  lemma FieldDecides(low: byte, high: byte, low': byte, high': byte)
    ensures DecodeLe16(low, high) == DecodeLe16(low', high') <==> low == low' && high == high'
  {
  }

  // The hit takes the last payload octet and the low checksum octet.
  lemma SeamBurst(p: seq<byte>, q: seq<byte>, low: byte, low': byte, high: byte)
    requires p != [] && |q| == |p| && q[..|p| - 1] == p[..|p| - 1] && q != p
    requires DecodeLe16(low', high) == Checksum(p)
    ensures Checksum(q) == DecodeLe16(low, high)
      <==> q[|p| - 1] ^ p[|p| - 1] == 0x89 && low ^ low' == 0xA1
  {
    hide Checksum, DecodeLe16, LastOctetDifference;
    var a, b := p[|p| - 1], q[|p| - 1];
    assert p == p[..|p| - 1] + [a] && q == p[..|p| - 1] + [b];
    Unturned(a, b);
    LastOctetChanges(p[..|p| - 1], a, b);
    LowOctetChanges(low, low', high);
    DifferenceIsLow(a ^ b, low ^ low');
    XorDecides(Checksum(p), Checksum(q), DecodeLe16(low, high), LastOctetDifference(a ^ b), (low ^ low') as bv16);
  }

  lemma LowOctetChanges(low: byte, low': byte, high: byte)
    ensures Xor(DecodeLe16(low, high), DecodeLe16(low', high)) == (low ^ low') as bv16
  {
  }

  lemma XorDecides(c: bv16, x: bv16, y: bv16, dx: bv16, dy: bv16)
    requires Xor(x, c) == dx && Xor(y, c) == dy
    ensures x == y <==> dx == dy
  {
  }

  // A payload hit within two adjacent octets no longer decodes under its old checksum.
  lemma CorruptedFrameRejected(p: seq<byte>, q: seq<byte>, k: nat, tail: byte)
    requires |p| <= 253 && WithinTwo(p, q, k) && p != q
    ensures var e := Escape(q + EncodeLe16(Checksum(p))); Decodable(e) && Decoded(e, tail) < 0
  {
    hide Checksum, EncodeLe16, DecodeLe16, Wrapped;
    var d := q + EncodeLe16(Checksum(p));
    EscapeRoundTrip(d, tail);
    EscapeRoundTrip(d, 0);
    VisibleShort(d);
    TwoByteBurstChangesChecksum(p, q, k);
    Le16RoundTrip(Checksum(p));
    assert d[..|q|] == q;
  }

  /* ---------- slip_decode_buffer, slip_encode_buffer ---------- */

  // Octet k of the buffer, or nothing known when the buffer ends there.
  function After(s: seq<byte>, k: nat): byte {
    if k < |s| then s[k] else 0
  }

  lemma UnescapeStep(e: seq<byte>, tail: byte)
    requires e != []
    ensures e[0] != ESC ==> Unescape(e, tail) == [e[0]] + Unescape(e[1..], tail)
    ensures e[0] == ESC && |e| > 1 ==> Unescape(e, tail) == [Substituted(e[1])] + Unescape(e[2..], tail)
    ensures e[0] == ESC && |e| == 1 ==> Unescape(e, tail) == [Substituted(tail)]
  {
  }

  lemma CompleteStep(e: seq<byte>)
    requires e != []
    ensures e[0] != ESC ==> (Complete(e) <==> Complete(e[1..]))
    ensures e[0] == ESC && |e| > 1 ==> (Complete(e) <==> Complete(e[2..]))
    ensures e[0] == ESC && |e| == 1 ==> !Complete(e)
  {
  }

  // The octets still to be read at position read; past an escape in the last place there are none.
  function Rest(was: seq<byte>, read: nat, len: nat): seq<byte>
    requires len <= |was|
  {
    if read <= len then was[read..len] else []
  }

  // The decoding loop: done has been unescaped into the front of now, the rest of was is unread.
  ghost predicate Decoding(was: seq<byte>, now: seq<byte>, done: seq<byte>, read: nat, len: nat, write: nat)
    requires len <= |was|
  {
    && |now| == |was| && (read <= len || (read == len + 1 && len < |was|))
    && (len == |was| ==> (Complete(was[..len]) <==> Complete(Rest(was, read, len))))
    && |done| <= read && |done| <= len && write == |done| % 256
    && now[..|Wrapped(done)|] == Wrapped(done)
    && (forall i :: |Wrapped(done)| <= i < |was| ==> now[i] == was[i])
  }

  lemma DecodeRound(was: seq<byte>, read: nat, len: nat)
    requires read < len <= |was| && (was[read] == ESC ==> read + 1 < |was|)
    ensures var next := if was[read] == ESC then read + 2 else read + 1;
      && (len == |was| ==> (Complete(Rest(was, read, len)) <==> Complete(Rest(was, next, len))))
      && Unescape(Rest(was, read, len), After(was, len))
         == [Taken(was, read)] + Unescape(Rest(was, next, len), After(was, len))
  {
    hide Unescape, Complete;
    var e := was[read..len];
    UnescapeStep(e, After(was, len));
    CompleteStep(e);
    if e[0] == ESC && |e| > 1 {
      assert e[2..] == Rest(was, read + 2, len);
    } else if e[0] != ESC {
      assert e[1..] == Rest(was, read + 1, len);
    } else {
      EmptyUnescape(After(was, len));
    }
  }

  // An escape in the last octet of the buffer
  lemma Dangling(was: seq<byte>, now: seq<byte>, done: seq<byte>, read: nat, len: nat, write: nat)
    requires read < len <= |was| && Decoding(was, now, done, read, len, write)
    ensures now[read] == was[read]
    ensures was[read] == ESC && read + 1 == |was| ==> len == |was| && !Complete(was[..len])
  {
    hide Wrapped, Complete;
    CompleteStep(was[read..len]);
  }

  // The octet one round of the decoding loop takes from position read.
  function Taken(was: seq<byte>, read: nat): byte
    requires read < |was| && (was[read] == ESC ==> read + 1 < |was|)
  {
    if was[read] == ESC then Substituted(was[read + 1]) else was[read]
  }

  lemma DecodingKept(was: seq<byte>, now: seq<byte>, done: seq<byte>, read: nat, len: nat, write: nat)
    requires read < len <= |was| && Decoding(was, now, done, read, len, write)
    requires was[read] == ESC ==> read + 1 < |was|
    ensures was[read] == ESC ==> now[read + 1] == was[read + 1]
    ensures var next := if was[read] == ESC then read + 2 else read + 1;
      Unescape(Rest(was, read, len), After(was, len))
      == [Taken(was, read)] + Unescape(Rest(was, next, len), After(was, len))
    ensures write < |now| == |was| && now[read] == was[read]
    ensures var next := if was[read] == ESC then read + 2 else read + 1;
      Decoding(was, now[write := Taken(was, read)], done + [Taken(was, read)], next, len, (write + 1) % 256)
  {
    hide Unescape, Complete, Rest, Wrapped;
    DecodeRound(was, read, len);
    WrappedPush(done, Taken(was, read));
    PushedInto(now, 0, |now|, Wrapped(done), |done|, Taken(was, read), Wrapped(done + [Taken(was, read)]));
  }

  lemma TakenCases(was: seq<byte>, read: nat)
    requires read < |was| && (was[read] == ESC ==> read + 1 < |was|)
    ensures was[read] != ESC ==> Taken(was, read) == was[read]
    ensures was[read] == ESC ==> Taken(was, read) == if was[read + 1] == END_SUBS then END else ESC
  {
  }

  method Store(buffer: array<byte>, at: nat, b: byte)
    requires at < buffer.Length
    modifies buffer
    ensures buffer[..] == old(buffer[..])[at := b]
  {
    buffer[at] := b;
  }

  lemma DecodingStarts(was: seq<byte>, len: nat)
    requires len <= |was|
    ensures Decoding(was, was, [], 0, len, 0)
    ensures Unescape(was[..len], After(was, len)) == [] + Unescape(Rest(was, 0, len), After(was, len))
  {
    hide Unescape, Complete;
    assert was[..len] == Rest(was, 0, len);
  }

  lemma DecodingEnds(was: seq<byte>, now: seq<byte>, done: seq<byte>, read: nat, len: nat, write: nat)
    requires len <= |was| && len <= read && Decoding(was, now, done, read, len, write)
    requires Unescape(was[..len], After(was, len)) == done + Unescape(Rest(was, read, len), After(was, len))
    ensures Unescape(was[..len], After(was, len)) == done && write == |done| % 256
    ensures |now| == |was| && |Wrapped(done)| <= len && now[..|Wrapped(done)|] == Wrapped(done)
    ensures forall i :: |Wrapped(done)| <= i < |was| ==> now[i] == was[i]
    ensures len == |was| ==> Complete(was[..len])
  {
    hide Unescape, Complete;
    EmptyUnescape(After(was, len));
    assert Complete([]) by { NothingComplete(); }
    assert Rest(was, read, len) == [] && done + [] == done;
  }

  lemma NothingComplete()
    ensures Complete([])
  {
  }

  // An escape at the very end of the buffer: the source would read the octet behind it.
  predicate ReadsPast(e: seq<byte>, capacity: nat) { |e| == capacity && !Complete(e) }

  // Unescapes the first len octets in place, through an eight-bit write index.
  method DecodeBuffer(buffer: array<byte>, len: nat) returns (n: nat, outside: bool)
    requires len <= buffer.Length
    modifies buffer
    ensures outside <==> ReadsPast(old(buffer[..len]), buffer.Length)
    ensures !outside ==>
      var d := Unescape(old(buffer[..len]), old(After(buffer[..], len)));
      && n == |d| % 256 && |Wrapped(d)| <= len && buffer[..|Wrapped(d)|] == Wrapped(d)
      && forall i :: |Wrapped(d)| <= i < buffer.Length ==> buffer[i] == old(buffer[i])
  {
    hide Unescape, Complete, Taken, After, Decoding, Rest, Wrapped;
    ghost var was := buffer[..];
    ghost var whole := Unescape(was[..len], After(was, len));
    ghost var done: seq<byte> := [];
    var write := 0;
    var read := 0;
    assert was[..len] == buffer[..len];
    DecodingStarts(was, len);
    while read < len
      invariant 0 <= read && 0 <= write && Decoding(was, buffer[..], done, read, len, write)
      invariant whole == done + Unescape(Rest(was, read, len), After(was, len))
    {
      Dangling(was, buffer[..], done, read, len, write);
      var current := buffer[read];
      if current == ESC && read + 1 == buffer.Length { return write, true; }
      DecodingKept(was, buffer[..], done, read, len, write);
      TakenCases(was, read);
      if current == ESC {
        read := read + 1;
        current := if buffer[read] == END_SUBS then END else ESC;
      }
      Store(buffer, write, current);
      write := (write + 1) % 256;
      done := done + [current];
      read := read + 1;
    }
    DecodingEnds(was, buffer[..], done, read, len, write);
    n, outside := write, false;
  }

  lemma EmptyUnescape(tail: byte)
    ensures Unescape([], tail) == [] && Escape([]) == []
  {
  }

  lemma EscapeStep(s: seq<byte>, k: nat)
    requires k < |s|
    ensures Escape(s[k..]) == EscapeByte(s[k]) + Escape(s[k + 1..])
  {
    assert s[k..][1..] == s[k + 1..];
  }

  // The octets an encoder must leave alone.
  twostate predicate Outside(out: array<byte>, from: nat, to: nat)
    reads out
  {
    forall i :: 0 <= i < out.Length && !(from <= i < to) ==> out[i] == old(out[i])
  }

  // done has been written to out[base..] through an eight-bit index, room octets being available.
  ghost predicate Emitted(out: array<byte>, base: nat, room: nat, done: seq<byte>)
    reads out
  {
    && base + room <= out.Length && |Wrapped(done)| <= room
    && out[base..base + |Wrapped(done)|] == Wrapped(done)
  }

  // k octets do not fit.  An index of eight bits never reaches 256, so that much room is always enough.
  predicate Overflows(k: nat, room: nat) { room < 256 && k > room }

  lemma SlicePush(s: seq<byte>, base: nat, w: seq<byte>, b: byte)
    requires base + |w| < |s| && s[base..base + |w|] == w
    ensures s[base + |w| := b][base..base + |w| + 1] == w + [b]
  {
  }

  lemma SliceSet(s: seq<byte>, base: nat, w: seq<byte>, k: nat, b: byte)
    requires base + |w| <= |s| && s[base..base + |w|] == w && k < |w|
    ensures s[base + k := b][base..base + |w|] == w[k := b]
  {
  }

  // Octet n is written through the index; w is what the n octets before it have left.
  lemma PushedInto(s: seq<byte>, base: nat, room: nat, w: seq<byte>, n: nat, b: byte, w': seq<byte>)
    requires base + room <= |s| && |w| <= room && n % 256 < room && s[base..base + |w|] == w
    requires |w| == if n < 256 then n else 256
    requires w' == if n < 256 then w + [b] else w[n % 256 := b]
    ensures |w'| <= room && s[base + n % 256 := b][base..base + |w'|] == w'
  {
    if n < 256 {
      SlicePush(s, base, w, b);
    } else {
      SliceSet(s, base, w, n % 256, b);
    }
  }

  lemma IndexStep(k: nat, room: nat)
    requires !Overflows(k, room)
    ensures k % 256 >= room <==> Overflows(k + 1, room)
    ensures (k % 256 + 1) % 256 == (k + 1) % 256
  {
  }

  lemma EmittedIff(out: array<byte>, base: nat, room: nat, done: seq<byte>)
    ensures Emitted(out, base, room, done)
      <==> base + room <= |out[..]| && |Wrapped(done)| <= room
           && out[..][base..base + |Wrapped(done)|] == Wrapped(done)
  {
    hide Wrapped;
  }

  // One octet, or the overflow error
  method PutOctet(out: array<byte>, base: nat, write: nat, room: nat, b: byte, ghost done: seq<byte>) returns (n: int)
    requires Emitted(out, base, room, done) && write == |done| % 256 && !Overflows(|done|, room)
    modifies out
    ensures n == if Overflows(|done| + 1, room) then WRONG_BUFFER_SIZE else (|done| + 1) % 256
    ensures n >= 0 ==> Emitted(out, base, room, done + [b])
    ensures Outside(out, base, base + room)
  {
    hide Wrapped, Overflows, Emitted;
    IndexStep(|done|, room);
    if write >= room { return WRONG_BUFFER_SIZE; }
    ghost var was := out[..];
    EmittedIff(out, base, room, done);
    out[base + write] := b;
    WrappedPush(done, b);
    PushedInto(was, base, room, Wrapped(done), |done|, b, Wrapped(done + [b]));
    assert out[..] == was[base + write := b];
    EmittedIff(out, base, room, done + [b]);
    n := (write + 1) % 256;
  }

  // One round of the encoding loop: the escaped form of b, or the overflow error.
  method PutEscaped(out: array<byte>, base: nat, write: nat, room: nat, b: byte, ghost done: seq<byte>) returns (n: int)
    requires Emitted(out, base, room, done) && write == |done| % 256 && !Overflows(|done|, room)
    modifies out
    ensures var k := |done| + |EscapeByte(b)|;
      n == if Overflows(k, room) then WRONG_BUFFER_SIZE else k % 256
    ensures n >= 0 ==> Emitted(out, base, room, done + EscapeByte(b))
    ensures Outside(out, base, base + room)
  {
    hide Emitted;
    var current := b;
    n := write;
    ghost var all := done;
    if current == END || current == ESC {
      n := PutOctet(out, base, n, room, ESC, all);
      if n < 0 { return; }
      all := all + [ESC];
      current := if current == END then END_SUBS else ESC_SUBS;
    }
    n := PutOctet(out, base, n, room, current, all);
    assert all + [current] == done + EscapeByte(b);
  }

  // Escapes the first len octets of data into out[base..], of which room octets may be used.
  method EncodeBuffer(data: array<byte>, len: nat, out: array<byte>, base: nat, room: nat) returns (n: int)
    requires len <= data.Length && base + room <= out.Length && data != out
    modifies out
    ensures var e := Escape(data[..len]);
      n == if room < 256 && |e| > room then -6 else |e| % 256
    ensures n >= 0 ==> Emitted(out, base, room, Escape(data[..len]))
    ensures Outside(out, base, base + room)
  {
    hide Escape, EscapeByte, Emitted;
    ghost var s := data[..len];
    ghost var done: seq<byte> := [];
    n := 0;
    assert s[0..] == s;
    NothingEmitted(out, base, room);
    for read := 0 to len
      invariant n == |done| % 256 && !Overflows(|done|, room)
      invariant Emitted(out, base, room, done) && Escape(s) == done + Escape(s[read..])
      invariant Outside(out, base, base + room)
    {
      EscapeStep(s, read);
      n := PutEscaped(out, base, n, room, data[read], done);
      done := done + EscapeByte(data[read]);
      if n < 0 { return; }
    }
    EmptyUnescape(0);
    assert s[len..] == [] && done + [] == done;
  }

  lemma NothingEmitted(out: array<byte>, base: nat, room: nat)
    requires base + room <= out.Length
    ensures Emitted(out, base, room, [])
  {
    assert out[base..base] == [];
  }

  /* ---------- Slip_decode, Slip_encode ---------- */

  // Unescapes a received frame in place, checks it, and returns the payload length or an error.
  // outside: the source would read behind the buffer, for a dangling escape or for the checksum.
  method Decode(buffer: array<byte>, len: nat) returns (r: int, outside: bool)
    requires len <= buffer.Length
    modifies buffer
    ensures outside <==> ReadsPast(old(buffer[..len]), buffer.Length) || !Decodable(old(buffer[..len]))
    ensures !outside ==>
      var e, tail := old(buffer[..len]), old(After(buffer[..], len));
      && r == Decoded(e, tail)
      && var w := Wrapped(Unescape(e, tail));
         |w| <= len && buffer[..|w|] == w && forall i :: |w| <= i < buffer.Length ==> buffer[i] == old(buffer[i])
  {
    hide Unescape, Complete, After, Checksum, BitCrcFrom, BitString, DecodeLe16, Wrapped, ReadsPast;
    ghost var d := Unescape(buffer[..len], After(buffer[..], len));
    TailKeepsLength(buffer[..len], After(buffer[..], len), 0);
    var decodedLen: nat;
    decodedLen, outside := DecodeBuffer(buffer, len);
    if outside { return GEN_ERROR, true; }
    if decodedLen < 2 { return GEN_ERROR, true; }
    ghost var v := Visible(d);
    assert buffer[..decodedLen] == v;
    assert buffer[..decodedLen - 2] == v[..decodedLen - 2];
    var crc := CrcFromBuffer(buffer, decodedLen - 2);
    var crcFromFrame := DecodeLe16(buffer[decodedLen - 2], buffer[decodedLen - 1]);
    assert crcFromFrame == ChecksumField(v);
    if crc != crcFromFrame {
      r := if crcFromFrame == 0xFFFF then WRONG_CRC_FROM_HOST else WRONG_CRC;
      return;
    }
    r := decodedLen - 2;
  }

  lemma EscapeOne(b: byte)
    ensures Escape([b]) == EscapeByte(b) && |EscapeByte(b)| <= 2
  {
    EscapeStep([b], 0);
    EmptyUnescape(0);
    assert [b][0..] == [b];
  }

  lemma EscapeTwo(p: seq<byte>, a: byte, b: byte)
    ensures Escape(p + [a, b]) == Escape(p) + EscapeByte(a) + EscapeByte(b)
  {
    hide Escape, EscapeByte;
    EscapeAppend(p, [a]);
    EscapeAppend(p + [a], [b]);
    assert p + [a, b] == p + [a] + [b];
    EscapeOne(a);
    EscapeOne(b);
  }

  // What Slip_encode lays: the payload through the eight-bit index, then the checksum, low octet first.
  function Emission(payload: seq<byte>): seq<byte> {
    var field := EncodeLe16(Checksum(payload));
    Visible(Escape(payload)) + EscapeByte(field[0]) + EscapeByte(field[1])
  }

  function FirstPart(payload: seq<byte>): seq<byte> {
    Visible(Escape(payload)) + EscapeByte(EncodeLe16(Checksum(payload))[0])
  }

  lemma EmissionParts(payload: seq<byte>)
    ensures var field := EncodeLe16(Checksum(payload));
      && FirstPart(payload) == Visible(Escape(payload)) + EscapeByte(field[0])
      && Emission(payload) == FirstPart(payload) + EscapeByte(field[1])
  {
    hide Checksum, EncodeLe16, Escape, EscapeByte, Visible;
  }

  lemma EmittedVisibly(out: array<byte>, base: nat, room: nat, done: seq<byte>)
    requires Emitted(out, base, room, done)
    ensures var n := |done| % 256; n <= room && out[base..base + n] == Visible(done)
  {
    hide Wrapped;
    assert out[base..base + |done| % 256] == out[base..base + |Wrapped(done)|][..|done| % 256];
  }

  lemma EmissionLength(payload: seq<byte>)
    ensures FirstPart(payload) <= Emission(payload)
    ensures |FirstPart(payload)| <= 2 * |payload| + 2 && |Emission(payload)| <= |FirstPart(payload)| + 2
    ensures |Emission(payload)| == 2 * |payload| + 4 ==> |FirstPart(payload)| == 2 * |payload| + 2
    ensures |Visible(Escape(payload))| <= 2 * |payload|
  {
    hide Checksum, EncodeLe16, Visible, Escape;
    EscapeShape(payload);
  }

  // Below 256 escaped octets that is the escaped frame, and never above.
  lemma EmissionIsBodyIff(payload: seq<byte>)
    ensures Emission(payload) == Body(payload) <==> |Escape(payload)| < 256
  {
    hide Checksum, EncodeLe16, Escape, EscapeByte, Wrapped;
    var field := EncodeLe16(Checksum(payload));
    EscapeTwo(payload, field[0], field[1]);
    assert field == [field[0], field[1]];
    if |Escape(payload)| < 256 { VisibleShort(Escape(payload)); }
  }

  // Appends the escaped form of one octet to out[base..base + size], or reports the overflow.
  method EncodeByte(b: byte, out: array<byte>, base: nat, size: nat, room: nat) returns (n: int)
    requires size <= room && base + room <= out.Length
    modifies out
    ensures n == if size + |EscapeByte(b)| <= room then |EscapeByte(b)| else WRONG_BUFFER_SIZE
    ensures n >= 0 ==> out[base..base + size + n] == old(out[base..base + size]) + EscapeByte(b)
    ensures out[base..base + size] == old(out[base..base + size]) && Outside(out, base, base + room)
  {
    hide Escape, EscapeByte, Wrapped;
    EscapeOne(b);
    WrappedShort(EscapeByte(b));
    var temp := new byte[1](_ => b);
    assert temp[..1] == [b];
    n := EncodeBuffer(temp, 1, out, base + size, room - size);
    assert out[base..base + size] == old(out[base..base + size]);
    if n >= 0 {
      assert out[base..base + size + n] == out[base..base + size] + out[base + size..base + size + n];
    }
  }

  // The error for the first checksum octet takes six octets off what is laid.
  function Shortened(p: seq<byte>): seq<byte>
    requires |Visible(Escape(p))| + WRONG_BUFFER_SIZE >= 0
  {
    Visible(Escape(p))[..|Visible(Escape(p))| + WRONG_BUFFER_SIZE]
  }

  // An unnoticed error has made the size negative: the next octet would go in front of the room given.
  predicate GoesInFront(p: seq<byte>, room: nat) {
    Overflows(|Escape(p)|, room) || (|FirstPart(p)| > room && |Visible(Escape(p))| + WRONG_BUFFER_SIZE < 0)
  }

  // That is when the payload does not fit, or its first checksum octet does not fit behind fewer than six
  // octets laid.
  lemma GoesInFrontIff(p: seq<byte>, room: nat)
    ensures GoesInFront(p, room)
      <==> (room < 256 && |Escape(p)| > room)
           || (|Escape(p)| % 256 + |EscapeByte(EncodeLe16(Checksum(p))[0])| > room && |Escape(p)| % 256 < 6)
  {
    hide Escape, EscapeByte, Checksum, EncodeLe16, Wrapped;
  }

  // What Slip_encode leaves in out[base..], and the size it returns: errors are added to it.
  ghost predicate Encoded(out: array<byte>, base: nat, room: nat, p: seq<byte>, size: int)
    requires base + room <= out.Length && !GoesInFront(p, room)
    reads out
  {
    if |FirstPart(p)| > room then
      var laid := Shortened(p) + EscapeByte(EncodeLe16(Checksum(p))[1]);
      size == |laid| <= room && out[base..base + size] == laid
    else if |Emission(p)| > room then
      size == |FirstPart(p)| + WRONG_BUFFER_SIZE && out[base..base + |FirstPart(p)|] == FirstPart(p)
    else size == |Emission(p)| && out[base..base + size] == Emission(p)
  }

  lemma EscapeByteShort(b: byte)
    ensures 1 <= |EscapeByte(b)| <= 2
  {
  }

  // What counts as laid once a checksum octet has been tried behind v
  function Grown(v: seq<byte>, b: byte, room: nat): (r: seq<byte>)
    requires |v| + |EscapeByte(b)| <= room || |v| + WRONG_BUFFER_SIZE >= 0
    ensures |r| == |v| + if |v| + |EscapeByte(b)| <= room then |EscapeByte(b)| else WRONG_BUFFER_SIZE
  {
    if |v| + |EscapeByte(b)| <= room then v + EscapeByte(b) else v[..|v| + WRONG_BUFFER_SIZE]
  }

  // out[base..] begins with v, within the room given.
  ghost predicate Begins(out: array<byte>, base: nat, room: nat, v: seq<byte>)
    reads out
  {
    |v| <= room && base + room <= out.Length && out[base..base + |v|] == v
  }

  lemma FrontOfSlice(s: seq<byte>, base: nat, n: nat, k: nat)
    requires k <= n && base + n <= |s|
    ensures s[base..base + n][..k] == s[base..base + k]
  {
  }

  // One round of the loop over the checksum octets
  method AddOctet(b: byte, out: array<byte>, base: nat, laid: nat, room: nat, ghost v: seq<byte>) returns (size: int)
    requires Begins(out, base, room, v) && laid == |v|
    modifies out
    ensures size == laid + (if laid + |EscapeByte(b)| <= room then |EscapeByte(b)| else WRONG_BUFFER_SIZE)
    ensures Begins(out, base, room, v) && (size >= 0 ==> Begins(out, base, room, Grown(v, b, room)))
    ensures Outside(out, base, base + room)
  {
    hide EscapeByte;
    EscapeByteShort(b);
    var tempSize := EncodeByte(b, out, base, laid, room);
    size := laid + tempSize;
    if 0 <= size < laid { FrontOfSlice(out[..], base, laid, size); }
  }

  // Both checksum octets have been tried behind v.
  ghost predicate FieldTried(out: array<byte>, base: nat, room: nat, v: seq<byte>, field: seq<byte>, size: int)
    requires |field| == 2 && (|v| + |EscapeByte(field[0])| <= room || |v| + WRONG_BUFFER_SIZE >= 0)
    reads out
  {
    var mid, l := Grown(v, field[0], room), |EscapeByte(field[1])|;
    && size == |mid| + (if |mid| + l <= room then l else WRONG_BUFFER_SIZE)
    && Begins(out, base, room, mid) && (size >= 0 ==> Begins(out, base, room, Grown(mid, field[1], room)))
  }

  // The loop of Slip_encode over the two checksum octets, v having been laid before
  method EncodeField(field: seq<byte>, out: array<byte>, base: nat, laid: nat, room: nat, ghost v: seq<byte>)
    returns (size: int, outside: bool)
    requires |field| == 2 && Begins(out, base, room, v) && laid == |v|
    modifies out
    ensures outside <==> laid + |EscapeByte(field[0])| > room && laid + WRONG_BUFFER_SIZE < 0
    ensures !outside ==> FieldTried(out, base, room, v, field, size)
    ensures Outside(out, base, base + room)
  {
    hide EscapeByte, Begins;
    EscapeByteShort(field[0]);
    EscapeByteShort(field[1]);
    size, outside := laid, false;
    ghost var mid := v;   // what is laid before the round
    for i := 0 to 2
      invariant i < 2 ==> size == |mid| && Begins(out, base, room, mid)
      invariant i == 0 ==> mid == v
      invariant i > 0 ==> |v| + |EscapeByte(field[0])| <= room || |v| + WRONG_BUFFER_SIZE >= 0
      invariant i == 1 ==> mid == Grown(v, field[0], room)
      invariant i == 2 ==> FieldTried(out, base, room, v, field, size)
      invariant Outside(out, base, base + room)
    {
      size := AddOctet(field[i], out, base, size, room, mid);
      if i == 0 {
        if size < 0 { return size, true; }
        mid := Grown(v, field[0], room);
      }
    }
  }

  lemma FieldEncoded(out: array<byte>, base: nat, room: nat, p: seq<byte>, size: int)
    requires base + room <= out.Length && !GoesInFront(p, room) && |Visible(Escape(p))| <= room
    requires FieldTried(out, base, room, Visible(Escape(p)), EncodeLe16(Checksum(p)), size)
    ensures Encoded(out, base, room, p, size)
  {
    hide Escape, EscapeByte, Checksum, EncodeLe16, Visible, Overflows, Emission, FirstPart;
    EmissionParts(p);
    var field := EncodeLe16(Checksum(p));
    EscapeByteShort(field[0]);
    EscapeByteShort(field[1]);
  }

  // Escapes the payload and its checksum into out[base..].
  method Encode(data: array<byte>, len: nat, out: array<byte>, base: nat, room: nat) returns (size: int, outside: bool)
    requires len <= data.Length && base + room <= out.Length && data != out
    modifies out
    ensures outside <==> GoesInFront(data[..len], room)
    ensures !outside ==> Encoded(out, base, room, data[..len], size)
    ensures Outside(out, base, base + room)
  {
    hide Escape, EscapeByte, BitCrcFrom, BitString, EncodeLe16, Checksum, Visible;
    hide Emission, FirstPart, Emitted;
    ghost var p := data[..len];
    EmissionParts(p);
    var crc := CrcFromBuffer(data, len);
    var field := EncodeLe16(crc);
    EscapeByteShort(field[0]);
    EscapeByteShort(field[1]);
    size := EncodeBuffer(data, len, out, base, room);
    if size < 0 { return size, true; }
    EmittedVisibly(out, base, room, Escape(p));
    size, outside := EncodeField(field, out, base, size, room, Visible(Escape(p)));
    if !outside { FieldEncoded(out, base, room, p, size); }
  }

  /* ---------- The round trip ---------- */

  lemma {:induction false} UnescapeAppend(a: seq<byte>, b: seq<byte>, tail: byte)
    ensures |Unescape(a, tail)| <= |Unescape(a + b, tail)| <= |Unescape(a, tail)| + |b|
    decreases |a|
  {
    if a == [] {
      assert a + b == b;
      UnescapeLength(b, tail);
    } else if a[0] != ESC {
      assert (a + b)[1..] == a[1..] + b;
      UnescapeAppend(a[1..], b, tail);
    } else if |a| > 1 {
      assert (a + b)[2..] == a[2..] + b;
      UnescapeAppend(a[2..], b, tail);
    } else if b != [] {
      assert (a + b)[2..] == b[1..];
      UnescapeLength(b[1..], tail);
    } else {
      assert a + b == a;
    }
  }

  // Every two octets cut off in front take an octet off what unescaping yields.
  lemma {:induction false} UnescapeCut(s: seq<byte>, j: nat, tail: byte)
    requires j <= |Escape(s)|
    ensures |Unescape(Escape(s)[j..], tail)| <= |s| - j / 2
    decreases |s|
  {
    if j == 0 {
      assert Escape(s)[0..] == Escape(s);
      EscapeRoundTrip(s, tail);
    } else if s != [] {
      var l := |EscapeByte(s[0])|;
      assert Escape(s) == EscapeByte(s[0]) + Escape(s[1..]);
      if j >= l {
        assert Escape(s)[j..] == Escape(s[1..])[j - l..];
        UnescapeCut(s[1..], j - l, tail);
      } else {
        assert Escape(s)[j..] == [EscapeByte(s[0])[1]] + Escape(s[1..]);
        assert Escape(s)[j..][1..] == Escape(s[1..]);
        EscapeRoundTrip(s[1..], tail);
      }
    }
  }

  // What is visible of a longer string is its end.
  lemma VisibleIsEnd(s: seq<byte>)
    ensures Visible(s) == s[|s| - |s| % 256..]
  {
    hide Wrapped;
    forall i | 0 <= i < |s| % 256
      ensures Visible(s)[i] == s[|s| - |s| % 256..][i]
    {
      WrappedAt(s, i);
      EndIndex(|s|, i);
    }
  }

  lemma EndIndex(n: nat, i: nat)
    requires i < n % 256
    ensures n - 1 - (n - 1 - i) % 256 == n - n % 256 + i
  {
    assert n - 1 - i == 256 * (n / 256) + (n % 256 - 1 - i);
  }

  // From 256 escaped octets on, what is laid decodes to fewer octets than a frame needs.
  lemma LongEmissionShrinks(payload: seq<byte>, tail: byte)
    requires |Escape(payload)| >= 256
    ensures |Unescape(Emission(payload), tail)| < |payload| + 2
  {
    hide Unescape, Escape, Checksum, EncodeLe16, EscapeByte, Visible;
    var e, field := Escape(payload), EncodeLe16(Checksum(payload));
    var j := |e| - |e| % 256;
    VisibleIsEnd(e);
    UnescapeCut(payload, j, tail);
    EscapeByteShort(field[0]);
    EscapeByteShort(field[1]);
    var b := EscapeByte(field[0]) + EscapeByte(field[1]);
    assert Emission(payload) == Visible(e) + b;
    UnescapeAppend(Visible(e), b, tail);
  }

  // Slip_decode applied to what Slip_encode lays returns the payload's length exactly for payloads of at
  // most 253 octets and fewer than 256 escaped ones.
  lemma DecodeOfEncodeIff(payload: seq<byte>, tail: byte)
    ensures Decodable(Emission(payload)) && Decoded(Emission(payload), tail) == |payload|
      <==> |payload| <= 253 && |Escape(payload)| < 256
  {
    hide Escape, Emission, Unescape, DecodeResult, Body, Wrapped, Visible;
    if |Escape(payload)| < 256 {
      EmissionIsBodyIff(payload);
      BodyDecodesIff(payload, tail);
    } else {
      LongEmissionShrinks(payload, tail);
      if Decodable(Emission(payload)) {
        TailKeepsLength(Emission(payload), tail, 0);
        DecodeResultRange(Visible(Unescape(Emission(payload), tail)));
      }
    }
  }

  // Then the payload is in front of the buffer.
  lemma DecodeOfEncode(payload: seq<byte>, tail: byte)
    requires |payload| <= 253 && |Escape(payload)| < 256
    ensures Decodable(Emission(payload)) && Decoded(Emission(payload), tail) == |payload|
    ensures |Unescape(Emission(payload), tail)| == |payload| + 2
    ensures Wrapped(Unescape(Emission(payload), tail))[..|payload|] == payload
  {
    hide Emission, Body;
    EmissionIsBodyIff(payload);
    DecodeOfBody(payload, tail);
  }

  lemma {:induction false} AllDoubled(p: seq<byte>)
    requires forall i :: 0 <= i < |p| ==> p[i] == END || p[i] == ESC
    ensures |Escape(p)| == 2 * |p|
  {
    if p != [] { AllDoubled(p[1..]); }
  }

  // A payload within the first bound that does not come back: 130 delimiters.
  lemma LostInEncoding(payload: seq<byte>, tail: byte)
    requires |payload| == 130 && forall i :: 0 <= i < 130 ==> payload[i] == END
    ensures Emission(payload) != Body(payload) && |Emission(payload)| <= 8
    ensures !(Decodable(Emission(payload)) && Decoded(Emission(payload), tail) == 130)
  {
    hide Escape, Body, Unescape, DecodeResult, Visible, Checksum, EncodeLe16, EscapeByte;
    AllDoubled(payload);
    EmissionIsBodyIff(payload);
    DecodeOfEncodeIff(payload, tail);
    var field := EncodeLe16(Checksum(payload));
    EscapeByteShort(field[0]);
    EscapeByteShort(field[1]);
  }
}
