/**
 The 16-bit frame check of slip.c: the table-driven loop, the bit-by-bit remainder by
 x^16 + x^12 + x^5 + 1 it stands for, and the bursts it is there to detect.

 Register words are bit-vectors.  Lemmas that chain several register steps hide the
 bit-level definitions and reason from the small word facts at the top.
 */
module Crc {
  import opened Bytes

  const POLYNOMIAL: bv16 := 0x1021
  const INITIAL: bv16 := 0xFFFF

  /* ---------- Words ---------- */

  predicate Top(c: bv16) { c & 0x8000 == 0x8000 }

  function Xor(a: bv16, b: bv16): bv16 { a ^ b }

  function Shl(a: bv16): bv16 { a << 1 }

  function Shl8(a: bv16): bv16 { a << 8 }

  function Word(b: byte): bv16 { (b as bv16) << 8 }

  // One step of the long division: shift out the top bit and reduce.
  function Shift1(c: bv16): bv16 {
    if Top(c) then Xor(Shl(c), POLYNOMIAL) else Shl(c)
  }

  function Shift4(c: bv16): bv16 { Shift1(Shift1(Shift1(Shift1(c)))) }

  function Shift8(c: bv16): bv16 { Shift4(Shift4(c)) }

  const LUT_0: seq<bv16> := [
    0x0000, 0x1021, 0x2042, 0x3063, 0x4084, 0x50a5, 0x60c6, 0x70e7,
    0x8108, 0x9129, 0xa14a, 0xb16b, 0xc18c, 0xd1ad, 0xe1ce, 0xf1ef,
    0x1231, 0x0210, 0x3273, 0x2252, 0x52b5, 0x4294, 0x72f7, 0x62d6,
    0x9339, 0x8318, 0xb37b, 0xa35a, 0xd3bd, 0xc39c, 0xf3ff, 0xe3de
  ]

  const LUT_1: seq<bv16> := [
    0x2462, 0x3443, 0x0420, 0x1401, 0x64e6, 0x74c7, 0x44a4, 0x5485,
    0xa56a, 0xb54b, 0x8528, 0x9509, 0xe5ee, 0xf5cf, 0xc5ac, 0xd58d,
    0x3653, 0x2672, 0x1611, 0x0630, 0x76d7, 0x66f6, 0x5695, 0x46b4,
    0xb75b, 0xa77a, 0x9719, 0x8738, 0xf7df, 0xe7fe, 0xd79d, 0xc7bc
  ]

  const LUT_2: seq<bv16> := [
    0x48c4, 0x58e5, 0x6886, 0x78a7, 0x0840, 0x1861, 0x2802, 0x3823,
    0xc9cc, 0xd9ed, 0xe98e, 0xf9af, 0x8948, 0x9969, 0xa90a, 0xb92b,
    0x5af5, 0x4ad4, 0x7ab7, 0x6a96, 0x1a71, 0x0a50, 0x3a33, 0x2a12,
    0xdbfd, 0xcbdc, 0xfbbf, 0xeb9e, 0x9b79, 0x8b58, 0xbb3b, 0xab1a
  ]

  const LUT_3: seq<bv16> := [
    0x6ca6, 0x7c87, 0x4ce4, 0x5cc5, 0x2c22, 0x3c03, 0x0c60, 0x1c41,
    0xedae, 0xfd8f, 0xcdec, 0xddcd, 0xad2a, 0xbd0b, 0x8d68, 0x9d49,
    0x7e97, 0x6eb6, 0x5ed5, 0x4ef4, 0x3e13, 0x2e32, 0x1e51, 0x0e70,
    0xff9f, 0xefbe, 0xdfdd, 0xcffc, 0xbf1b, 0xaf3a, 0x9f59, 0x8f78
  ]

  const LUT_4: seq<bv16> := [
    0x9188, 0x81a9, 0xb1ca, 0xa1eb, 0xd10c, 0xc12d, 0xf14e, 0xe16f,
    0x1080, 0x00a1, 0x30c2, 0x20e3, 0x5004, 0x4025, 0x7046, 0x6067,
    0x83b9, 0x9398, 0xa3fb, 0xb3da, 0xc33d, 0xd31c, 0xe37f, 0xf35e,
    0x02b1, 0x1290, 0x22f3, 0x32d2, 0x4235, 0x5214, 0x6277, 0x7256
  ]

  const LUT_5: seq<bv16> := [
    0xb5ea, 0xa5cb, 0x95a8, 0x8589, 0xf56e, 0xe54f, 0xd52c, 0xc50d,
    0x34e2, 0x24c3, 0x14a0, 0x0481, 0x7466, 0x6447, 0x5424, 0x4405,
    0xa7db, 0xb7fa, 0x8799, 0x97b8, 0xe75f, 0xf77e, 0xc71d, 0xd73c,
    0x26d3, 0x36f2, 0x0691, 0x16b0, 0x6657, 0x7676, 0x4615, 0x5634
  ]

  const LUT_6: seq<bv16> := [
    0xd94c, 0xc96d, 0xf90e, 0xe92f, 0x99c8, 0x89e9, 0xb98a, 0xa9ab,
    0x5844, 0x4865, 0x7806, 0x6827, 0x18c0, 0x08e1, 0x3882, 0x28a3,
    0xcb7d, 0xdb5c, 0xeb3f, 0xfb1e, 0x8bf9, 0x9bd8, 0xabbb, 0xbb9a,
    0x4a75, 0x5a54, 0x6a37, 0x7a16, 0x0af1, 0x1ad0, 0x2ab3, 0x3a92
  ]

  const LUT_7: seq<bv16> := [
    0xfd2e, 0xed0f, 0xdd6c, 0xcd4d, 0xbdaa, 0xad8b, 0x9de8, 0x8dc9,
    0x7c26, 0x6c07, 0x5c64, 0x4c45, 0x3ca2, 0x2c83, 0x1ce0, 0x0cc1,
    0xef1f, 0xff3e, 0xcf5d, 0xdf7c, 0xaf9b, 0xbfba, 0x8fd9, 0x9ff8,
    0x6e17, 0x7e36, 0x4e55, 0x5e74, 0x2e93, 0x3eb2, 0x0ed1, 0x1ef0
  ]

  // The 256-entry table of slip.c, in eight pieces of 32.
  const LUT: seq<bv16> := LUT_0 + LUT_1 + LUT_2 + LUT_3 + LUT_4 + LUT_5 + LUT_6 + LUT_7

  lemma Lut0(i: bv16)
    requires 0 <= i < 32
    ensures LUT_0[i as int - 0] == Shift8(i << 8)
  {
  }

  lemma Lut1(i: bv16)
    requires 32 <= i < 64
    ensures LUT_1[i as int - 32] == Shift8(i << 8)
  {
  }

  lemma Lut2(i: bv16)
    requires 64 <= i < 96
    ensures LUT_2[i as int - 64] == Shift8(i << 8)
  {
  }

  lemma Lut3(i: bv16)
    requires 96 <= i < 128
    ensures LUT_3[i as int - 96] == Shift8(i << 8)
  {
  }

  lemma Lut4(i: bv16)
    requires 128 <= i < 160
    ensures LUT_4[i as int - 128] == Shift8(i << 8)
  {
  }

  lemma Lut5(i: bv16)
    requires 160 <= i < 192
    ensures LUT_5[i as int - 160] == Shift8(i << 8)
  {
  }

  lemma Lut6(i: bv16)
    requires 192 <= i < 224
    ensures LUT_6[i as int - 192] == Shift8(i << 8)
  {
  }

  lemma Lut7(i: bv16)
    requires 224 <= i < 256
    ensures LUT_7[i as int - 224] == Shift8(i << 8)
  {
  }

  lemma EightPieces(a: seq<bv16>, b: seq<bv16>, c: seq<bv16>, d: seq<bv16>,
                    e: seq<bv16>, f: seq<bv16>, g: seq<bv16>, h: seq<bv16>, k: nat)
    requires |a| == |b| == |c| == |d| == |e| == |f| == |g| == |h| == 32 && k < 256
    ensures (a + b + c + d + e + f + g + h)[k] ==
      if k < 32 then a[k] else if k < 64 then b[k - 32] else if k < 96 then c[k - 64]
      else if k < 128 then d[k - 96] else if k < 160 then e[k - 128] else if k < 192 then f[k - 160]
      else if k < 224 then g[k - 192] else h[k - 224]
  {
  }

  // Every table entry is its index shifted through eight division steps.
  lemma LutIsEightShifts(i: bv16)
    requires i < 256
    ensures |LUT| == 256 && LUT[i as int] == Shift8(i << 8)
  {
    hide Shift8;
    EightPieces(LUT_0, LUT_1, LUT_2, LUT_3, LUT_4, LUT_5, LUT_6, LUT_7, i as int);
    if i < 32 { Lut0(i); }
    else if i < 64 { Lut1(i); }
    else if i < 96 { Lut2(i); }
    else if i < 128 { Lut3(i); }
    else if i < 160 { Lut4(i); }
    else if i < 192 { Lut5(i); }
    else if i < 224 { Lut6(i); }
    else { Lut7(i); }
  }

  /* ---------- The loop of crc_fromBuffer ---------- */

  function TableIndex(crc: bv16, b: byte): (i: bv16)
    ensures i < 256
  {
    (b as bv16) ^ (crc >> 8)
  }

  function TableStep(crc: bv16, b: byte): bv16 {
    Xor(LUT[TableIndex(crc, b) as int], Shl8(crc))
  }

  function TableCrcFrom(crc: bv16, bytes: seq<byte>): bv16
    decreases |bytes|
  {
    if bytes == [] then crc
    else TableStep(TableCrcFrom(crc, bytes[..|bytes| - 1]), bytes[|bytes| - 1])
  }

  function Checksum(bytes: seq<byte>): bv16 { TableCrcFrom(INITIAL, bytes) }

  /* ---------- The remainder, one bit at a time ---------- */

  function BitStep(crc: bv16, bit: bool): bv16 {
    Shift1(Xor(crc, if bit then 0x8000 else 0))
  }

  function BitCrcFrom(crc: bv16, bits: seq<bool>): bv16
    decreases |bits|
  {
    if bits == [] then crc
    else BitStep(BitCrcFrom(crc, bits[..|bits| - 1]), bits[|bits| - 1])
  }

  // The bits of an octet, most significant first.
  function Bits(b: byte): (bits: seq<bool>)
    ensures |bits| == 8
  {
    [b & 0x80 != 0, b & 0x40 != 0, b & 0x20 != 0, b & 0x10 != 0,
     b & 0x08 != 0, b & 0x04 != 0, b & 0x02 != 0, b & 0x01 != 0]
  }

  function BitString(bytes: seq<byte>): (bits: seq<bool>)
    ensures |bits| == 8 * |bytes|
    decreases |bytes|
  {
    if bytes == [] then [] else BitString(bytes[..|bytes| - 1]) + Bits(bytes[|bytes| - 1])
  }

  /* ---------- Word facts ---------- */

  lemma SameTop(s: bv16, t: bv16)
    requires !Top(Xor(s, t))
    ensures Top(s) == Top(t)
  {
  }

  lemma ShlXor(s: bv16, t: bv16)
    ensures Xor(Shl(s), Shl(t)) == Shl(Xor(s, t))
  {
  }

  lemma CancelPolynomial(s: bv16, t: bv16)
    ensures Xor(Xor(s, POLYNOMIAL), Xor(t, POLYNOMIAL)) == Xor(s, t)
  {
  }

  lemma XorZero(s: bv16, t: bv16)
    ensures Xor(s, t) == 0 <==> s == t
  {
  }

  // Two registers that agree in their top bit keep their difference, shifted.
  lemma DifferenceShifts(s: bv16, t: bv16)
    requires !Top(Xor(s, t))
    ensures Xor(Shift1(s), Shift1(t)) == Shl(Xor(s, t))
  {
    hide Xor, Top, Shl;
    SameTop(s, t);
    ShlXor(s, t);
    CancelPolynomial(Shl(s), Shl(t));
  }

  predicate LowTops(d: bv16) {
    !Top(d) && !Top(Shl(d)) && !Top(Shl(Shl(d))) && !Top(Shl(Shl(Shl(d))))
  }

  lemma LowByteTops(d: bv16)
    requires d < 0x100
    ensures LowTops(d) && LowTops(Shl(Shl(Shl(Shl(d)))))
    ensures Shl(Shl(Shl(Shl(Shl(Shl(Shl(Shl(d)))))))) == Shl8(d)
  {
  }

  lemma DifferenceShifts4(s: bv16, t: bv16, d: bv16)
    requires Xor(s, t) == d && LowTops(d)
    ensures Xor(Shift4(s), Shift4(t)) == Shl(Shl(Shl(Shl(d))))
  {
    hide Xor, Top, Shl, Shift1;
    var s1, t1 := Shift1(s), Shift1(t);
    var s2, t2 := Shift1(s1), Shift1(t1);
    DifferenceShifts(s, t);
    DifferenceShifts(s1, t1);
    DifferenceShifts(s2, t2);
    DifferenceShifts(Shift1(s2), Shift1(t2));
  }

  lemma DifferenceShifts8(s: bv16, t: bv16, d: bv16)
    requires Xor(s, t) == d && d < 0x100
    ensures Xor(Shift8(s), Shift8(t)) == Shl8(d)
  {
    hide Xor, Top, Shl, Shl8, Shift4, LowTops;
    LowByteTops(d);
    DifferenceShifts4(s, t, d);
    DifferenceShifts4(Shift4(s), Shift4(t), Shl(Shl(Shl(Shl(d)))));
  }

  /* ---------- Table step == eight bit steps ---------- */

  lemma IndexDifference(crc: bv16, b: byte)
    ensures Xor(Xor(crc, Word(b)), TableIndex(crc, b) << 8) == crc & 0xFF
    ensures Shl8(crc & 0xFF) == Shl8(crc)
  {
  }

  lemma XorMoves(x: bv16, y: bv16, z: bv16)
    requires Xor(x, y) == z
    ensures Xor(y, z) == x
  {
  }

  lemma LowByteSmall(crc: bv16)
    ensures crc & 0xFF < 0x100
  {
  }

  lemma TableStepIsShift8(crc: bv16, b: byte)
    ensures TableStep(crc, b) == Shift8(Xor(crc, Word(b)))
  {
    hide Xor, Shl8, Shift8, Word, TableIndex;
    var i := TableIndex(crc, b);
    LutIsEightShifts(i);
    IndexDifference(crc, b);
    LowByteSmall(crc);
    var s, t := Xor(crc, Word(b)), i << 8;
    DifferenceShifts8(s, t, crc & 0xFF);
    XorMoves(Shift8(s), Shift8(t), Shl8(crc));
  }

  lemma RemoveTop(x: bv16, y: bv16, w: bv16, mask: bv16)
    requires Xor(x, y) == w && mask == if Top(w) then 0x8000 else 0
    ensures !Top(Xor(Xor(x, mask), y)) && Shl(Xor(Xor(x, mask), y)) == Shl(w)
  {
  }

  // x has consumed some bits of an octet, y was loaded with all of them: w is what x still lacks.
  lemma BitStepKeepsPending(x: bv16, y: bv16, w: bv16, bit: bool)
    requires Xor(x, y) == w && bit == Top(w)
    ensures Xor(BitStep(x, bit), Shift1(y)) == Shl(w)
  {
    hide Xor, Top, Shl, Shift1;
    var mask: bv16 := if bit then 0x8000 else 0;
    RemoveTop(x, y, w, mask);
    DifferenceShifts(Xor(x, mask), y);
  }

  function Half(b: bool, c: bool, d: bool, e: bool, crc: bv16): bv16 {
    BitStep(BitStep(BitStep(BitStep(crc, b), c), d), e)
  }

  lemma HalfKeepsPending(x: bv16, y: bv16, w: bv16)
    requires Xor(x, y) == w
    ensures Xor(Half(Top(w), Top(Shl(w)), Top(Shl(Shl(w))), Top(Shl(Shl(Shl(w)))), x), Shift4(y))
         == Shl(Shl(Shl(Shl(w))))
  {
    hide Xor, Top, Shl, Shift1, BitStep;
    var x1, y1 := BitStep(x, Top(w)), Shift1(y);
    var x2, y2 := BitStep(x1, Top(Shl(w))), Shift1(y1);
    var x3, y3 := BitStep(x2, Top(Shl(Shl(w)))), Shift1(y2);
    BitStepKeepsPending(x, y, w, Top(w));
    BitStepKeepsPending(x1, y1, Shl(w), Top(Shl(w)));
    BitStepKeepsPending(x2, y2, Shl(Shl(w)), Top(Shl(Shl(w))));
    BitStepKeepsPending(x3, y3, Shl(Shl(Shl(w))), Top(Shl(Shl(Shl(w)))));
  }

  lemma WordTops(b: byte)
    ensures var w := Word(b); var v := Shl(Shl(Shl(Shl(w))));
      && Bits(b) == [Top(w), Top(Shl(w)), Top(Shl(Shl(w))), Top(Shl(Shl(Shl(w)))),
                     Top(v), Top(Shl(v)), Top(Shl(Shl(v))), Top(Shl(Shl(Shl(v))))]
      && Shl(Shl(Shl(Shl(v)))) == 0
  {
  }

  lemma LoadDifference(crc: bv16, b: byte)
    ensures Xor(crc, Xor(crc, Word(b))) == Word(b)
  {
  }

  lemma BitCrcOfEight(crc: bv16, s: seq<bool>)
    requires |s| == 8
    ensures BitCrcFrom(crc, s) == Half(s[4], s[5], s[6], s[7], Half(s[0], s[1], s[2], s[3], crc))
  {
    hide BitStep;
    BitCrcAppend(crc, s[..4], s[4..]);
    assert s[..4] + s[4..] == s;
    BitCrcOfFour(crc, s[..4]);
    BitCrcOfFour(BitCrcFrom(crc, s[..4]), s[4..]);
  }

  lemma BitCrcOfFour(crc: bv16, s: seq<bool>)
    requires |s| == 4
    ensures BitCrcFrom(crc, s) == Half(s[0], s[1], s[2], s[3], crc)
  {
    hide BitStep;
    assert s[..3][..2] == s[..2] && s[..2][..1] == s[..1] && s[..1][..0] == [];
    assert BitCrcFrom(crc, s[..1]) == BitStep(crc, s[0]);
    assert BitCrcFrom(crc, s[..2]) == BitStep(BitCrcFrom(crc, s[..1]), s[1]);
  }

  lemma {:induction false} BitCrcAppend(crc: bv16, s: seq<bool>, t: seq<bool>)
    ensures BitCrcFrom(crc, s + t) == BitCrcFrom(BitCrcFrom(crc, s), t)
    decreases |t|
  {
    hide BitStep;
    if t == [] {
      assert s + t == s;
    } else {
      var last := |t| - 1;
      assert (s + t)[..|s + t| - 1] == s + t[..last];
      BitCrcAppend(crc, s, t[..last]);
    }
  }

  // One pass of the table loop consumes exactly the eight bits of its octet.
  lemma TableStepIsEightBitSteps(crc: bv16, b: byte)
    ensures TableStep(crc, b) == BitCrcFrom(crc, Bits(b))
  {
    hide Xor, Top, Shl, Half, Shift4, Word, TableStep, Bits, BitCrcFrom;
    TableStepIsShift8(crc, b);
    WordTops(b);
    LoadDifference(crc, b);
    BitCrcOfEight(crc, Bits(b));
    var w, y := Word(b), Xor(crc, Word(b));
    var v := Shl(Shl(Shl(Shl(w))));
    HalfKeepsPending(crc, y, w);
    var x := Half(Top(w), Top(Shl(w)), Top(Shl(Shl(w))), Top(Shl(Shl(Shl(w)))), crc);
    HalfKeepsPending(x, Shift4(y), v);
    XorZero(BitCrcFrom(crc, Bits(b)), Shift8(y));
  }

  // The table-driven loop computes the bit-by-bit remainder, on every buffer and register.
  lemma {:induction false} TableEqualsBitwise(crc: bv16, bytes: seq<byte>)
    ensures TableCrcFrom(crc, bytes) == BitCrcFrom(crc, BitString(bytes))
    decreases |bytes|
  {
    hide TableStep, BitStep, Bits;
    if bytes != [] {
      var init, b := bytes[..|bytes| - 1], bytes[|bytes| - 1];
      TableEqualsBitwise(crc, init);
      TableStepIsEightBitSteps(TableCrcFrom(crc, init), b);
      BitCrcAppend(crc, BitString(init), Bits(b));
    }
  }

  // The loop of crc_fromBuffer.
  method CrcFromBuffer(buf: array<byte>, len: nat) returns (crc: bv16)
    requires len <= buf.Length
    ensures crc == Checksum(buf[..len])
    ensures crc == BitCrcFrom(INITIAL, BitString(buf[..len]))
  {
    hide Xor, Shl8, TableIndex;
    crc := INITIAL;
    for i := 0 to len
      invariant crc == TableCrcFrom(INITIAL, buf[..i])
    {
      var index := TableIndex(crc, buf[i]);
      LutIsEightShifts(index);
      crc := Xor(LUT[index as int], Shl8(crc));
      assert buf[..i + 1][..i] == buf[..i];
    }
    TableEqualsBitwise(INITIAL, buf[..len]);
  }

  /* ---------- Burst detection ---------- */

  // MASKS[k]: the bits in which two registers must already agree k steps before they become equal.
  const MASKS: seq<bv16> := [0xFFFF, 0x7FFF, 0x3FFF, 0x1FFF, 0x0FFF, 0x07FF, 0x03FF, 0x01FF,
                             0x00FF, 0x007F, 0x003F, 0x001F, 0x000F, 0x0007, 0x0003, 0x0001]

  lemma MasksHalve(k: nat)
    requires 0 < k < 16
    ensures MASKS[k] == MASKS[k - 1] >> 1 && MASKS[k] & 1 == 1 && MASKS[k - 1] & 1 == 1
  {
  }

  lemma LowBitIsTop(a: bv16)
    ensures Shift1(a) & 1 == if Top(a) then 1 else 0
  {
  }

  lemma LowBitsAgree(x: bv16, y: bv16, m: bv16)
    requires m & 1 == 1 && Xor(x, y) & m == 0
    ensures x & 1 == y & 1
  {
  }

  lemma TopsCancel(s: bv16, t: bv16)
    requires Top(s) == Top(t)
    ensures !Top(Xor(s, t))
  {
  }

  lemma MaskShift(y: bv16, m: bv16)
    requires !Top(y) && Shl(y) & m == 0
    ensures y & (m >> 1) == 0
  {
  }

  lemma SameShiftSameTop(s: bv16, t: bv16, m: bv16)
    requires m & 1 == 1 && Xor(Shift1(s), Shift1(t)) & m == 0
    ensures !Top(Xor(s, t))
  {
    hide Shift1, Xor;
    LowBitsAgree(Shift1(s), Shift1(t), m);
    LowBitIsTop(s);
    LowBitIsTop(t);
    TopsCancel(s, t);
  }

  // Agreement after a division step under mask m is agreement before it under m >> 1.
  lemma ShiftBack(s: bv16, t: bv16, m: bv16)
    requires m & 1 == 1 && Xor(Shift1(s), Shift1(t)) & m == 0
    ensures Xor(s, t) & (m >> 1) == 0
  {
    hide Xor, Shift1;
    SameShiftSameTop(s, t, m);
    DifferenceShifts(s, t);
    MaskShift(Xor(s, t), m);
  }

  lemma IgnoreBit(s: bv16, t: bv16, a: bv16, b: bv16, m: bv16)
    requires (a == 0 || a == 0x8000) && (b == 0 || b == 0x8000)
    requires Xor(Xor(s, a), Xor(t, b)) & (m >> 1) == 0
    ensures Xor(s, t) & (m >> 1) == 0
  {
  }

  lemma BitStepBack(s: bv16, t: bv16, x: bool, y: bool, m: bv16)
    requires m & 1 == 1 && Xor(BitStep(s, x), BitStep(t, y)) & m == 0
    ensures Xor(s, t) & (m >> 1) == 0
  {
    hide Xor, Shift1;
    var a: bv16 := if x then 0x8000 else 0;
    var b: bv16 := if y then 0x8000 else 0;
    ShiftBack(Xor(s, a), Xor(t, b), m);
    IgnoreBit(s, t, a, b, m);
  }

  // Registers that end up equal after k <= 15 further bits already agree on MASKS[k].
  lemma {:induction false} AgreementBefore(s: bv16, t: bv16, u: seq<bool>, v: seq<bool>)
    requires |u| == |v| < 16 && BitCrcFrom(s, u) == BitCrcFrom(t, v)
    ensures Xor(s, t) & MASKS[|u|] == 0
    decreases |u|
  {
    hide Xor, BitStep;
    if u == [] {
      XorZero(s, t);
    } else {
      BitCrcUncons(s, u);
      BitCrcUncons(t, v);
      AgreementBefore(BitStep(s, u[0]), BitStep(t, v[0]), u[1..], v[1..]);
      MasksHalve(|u|);
      BitStepBack(s, t, u[0], v[0], MASKS[|u| - 1]);
    }
  }

  lemma BitCrcUncons(crc: bv16, s: seq<bool>)
    requires s != []
    ensures BitCrcFrom(crc, s) == BitCrcFrom(BitStep(crc, s[0]), s[1..])
  {
    hide BitStep;
    assert [s[0]] + s[1..] == s && [s[0]][..0] == [];
    BitCrcAppend(crc, [s[0]], s[1..]);
  }

  lemma ShlInjective(d: bv16)
    requires !Top(d) && Shl(d) == 0
    ensures d == 0
  {
  }

  lemma AndZero(m: bv16)
    ensures 0 & m == 0
  {
  }

  lemma Shift1Injective(s: bv16, t: bv16)
    requires Shift1(s) == Shift1(t)
    ensures s == t
  {
    hide Xor, Shift1, Top, Shl;
    XorZero(Shift1(s), Shift1(t));
    AndZero(1);
    SameShiftSameTop(s, t, 1);
    DifferenceShifts(s, t);
    ShlInjective(Xor(s, t));
    XorZero(s, t);
  }

  lemma XorSameMask(s: bv16, t: bv16, mask: bv16)
    requires Xor(s, mask) == Xor(t, mask)
    ensures s == t
  {
  }

  // A common tail of bits never merges two different registers.
  lemma {:induction false} CommonTailInjective(s: bv16, t: bv16, z: seq<bool>)
    requires BitCrcFrom(s, z) == BitCrcFrom(t, z)
    ensures s == t
    decreases |z|
  {
    hide Xor, Shift1;
    if z != [] {
      var last := |z| - 1;
      var mask: bv16 := if z[last] then 0x8000 else 0;
      var x, y := BitCrcFrom(s, z[..last]), BitCrcFrom(t, z[..last]);
      Shift1Injective(Xor(x, mask), Xor(y, mask));
      XorSameMask(x, y, mask);
      CommonTailInjective(s, t, z[..last]);
    }
  }

  lemma FlippedBit(c: bv16, x: bool)
    ensures Xor(BitStep(c, x), BitStep(c, !x)) & 1 == 1
  {
    hide Shift1, Top, BitStep, Xor;
    FlippedStep(c, x);
    var a, b := Xor(c, if x then 0x8000 else 0), Xor(c, if x then 0 else 0x8000);
    LowBitIsTop(a);
    LowBitIsTop(b);
    OppositeTops(c, x);
    OddDifference(Shift1(a), Shift1(b));
  }

  lemma FlippedStep(c: bv16, x: bool)
    ensures BitStep(c, x) == Shift1(Xor(c, if x then 0x8000 else 0))
    ensures BitStep(c, !x) == Shift1(Xor(c, if x then 0 else 0x8000))
  {
    hide Shift1, Xor;
  }

  lemma OppositeTops(c: bv16, x: bool)
    ensures Top(Xor(c, if x then 0x8000 else 0)) != Top(Xor(c, if x then 0 else 0x8000))
  {
  }

  lemma OddDifference(a: bv16, b: bv16)
    requires a & 1 != b & 1 && (a & 1 == 0 || a & 1 == 1) && (b & 1 == 0 || b & 1 == 1)
    ensures Xor(a, b) & 1 == 1
  {
  }

  lemma MasksKeepLowBit(d: bv16, k: nat)
    requires k < 16 && d & 1 == 1
    ensures d & MASKS[k] != 0
  {
  }

  // The first flipped bit is not undone by the at most fifteen bits that follow it in the burst.
  lemma FlipSurvives(crc: bv16, x: bool, u: seq<bool>, v: seq<bool>)
    requires |u| == |v| < 16
    ensures BitCrcFrom(BitStep(crc, x), u) != BitCrcFrom(BitStep(crc, !x), v)
  {
    hide Xor, BitStep, MASKS;
    FlippedBit(crc, x);
    MasksKeepLowBit(Xor(BitStep(crc, x), BitStep(crc, !x)), |u|);
    if BitCrcFrom(BitStep(crc, x), u) == BitCrcFrom(BitStep(crc, !x), v) {
      AgreementBefore(BitStep(crc, x), BitStep(crc, !x), u, v);
    }
  }

  lemma {:induction false} FirstDifference(a: seq<bool>, b: seq<bool>, from: nat) returns (p: nat)
    requires |a| == |b| && from <= |a| && a != b && a[..from] == b[..from]
    ensures from <= p < |a| && a[p] != b[p] && a[..p] == b[..p]
    decreases |a| - from
  {
    if from == |a| {
      assert false;
    } else if a[from] != b[from] {
      p := from;
    } else {
      assert a[..from + 1] == a[..from] + [a[from]] && b[..from + 1] == b[..from] + [b[from]];
      p := FirstDifference(a, b, from + 1);
    }
  }

  // Two different bit strings of one length that differ only inside a window of sixteen
  // consecutive bits leave different remainders.
  lemma BurstChangesRemainder(crc: bv16, a: seq<bool>, b: seq<bool>, window: nat)
    requires |a| == |b| && a != b
    requires forall i :: 0 <= i < |a| && !(window <= i < window + 16) ==> a[i] == b[i]
    ensures BitCrcFrom(crc, a) != BitCrcFrom(crc, b)
  {
    hide BitStep, BitCrcFrom;
    var p := FirstDifference(a, b, 0);
    var end := if window + 16 <= |a| then window + 16 else |a|;
    SplitAt(crc, a, p, end);
    SplitAt(crc, b, p, end);
    assert a[end..] == b[end..];
    FlipSurvives(BitCrcFrom(crc, a[..p]), a[p], a[p + 1..end], b[p + 1..end]);
    var s := BitCrcFrom(BitStep(BitCrcFrom(crc, a[..p]), a[p]), a[p + 1..end]);
    var t := BitCrcFrom(BitStep(BitCrcFrom(crc, b[..p]), b[p]), b[p + 1..end]);
    if BitCrcFrom(crc, a) == BitCrcFrom(crc, b) {
      CommonTailInjective(s, t, a[end..]);
    }
  }

  lemma SplitAt(crc: bv16, a: seq<bool>, p: nat, end: nat)
    requires p < end <= |a|
    ensures BitCrcFrom(crc, a)
         == BitCrcFrom(BitCrcFrom(BitStep(BitCrcFrom(crc, a[..p]), a[p]), a[p + 1..end]), a[end..])
  {
    hide BitStep;
    BitCrcAppend(crc, a[..p], a[p..]);
    assert a[..p] + a[p..] == a;
    BitCrcUncons(BitCrcFrom(crc, a[..p]), a[p..]);
    assert a[p..][1..] == a[p + 1..end] + a[end..];
    BitCrcAppend(BitStep(BitCrcFrom(crc, a[..p]), a[p]), a[p + 1..end], a[end..]);
  }

  lemma BitsInjective(a: byte, b: byte)
    requires Bits(a) == Bits(b)
    ensures a == b
  {
    assert forall i :: 0 <= i < 8 ==> Bits(a)[i] == Bits(b)[i];
    SameBits(a, b);
  }

  lemma SameBits(a: byte, b: byte)
    requires (a & 0x80 != 0) == (b & 0x80 != 0) && (a & 0x40 != 0) == (b & 0x40 != 0)
    requires (a & 0x20 != 0) == (b & 0x20 != 0) && (a & 0x10 != 0) == (b & 0x10 != 0)
    requires (a & 0x08 != 0) == (b & 0x08 != 0) && (a & 0x04 != 0) == (b & 0x04 != 0)
    requires (a & 0x02 != 0) == (b & 0x02 != 0) && (a & 0x01 != 0) == (b & 0x01 != 0)
    ensures a == b
  {
  }

  lemma {:induction false} BitStringAt(bytes: seq<byte>, i: nat)
    requires i < |bytes|
    ensures BitString(bytes)[8 * i..8 * i + 8] == Bits(bytes[i])
    decreases |bytes|
  {
    hide Bits;
    var last := |bytes| - 1;
    if i < last {
      BitStringAt(bytes[..last], i);
      assert bytes[..last][i] == bytes[i];
    }
  }

  // Payloads of one length that differ only inside two adjacent octets have different checksums.
  lemma TwoByteBurstChangesChecksum(p: seq<byte>, q: seq<byte>, k: nat)
    requires |p| == |q| && p != q
    requires forall i :: 0 <= i < |p| && i != k && i != k + 1 ==> p[i] == q[i]
    ensures Checksum(p) != Checksum(q)
  {
    hide TableCrcFrom, BitCrcFrom, Bits, BitString;
    var a, b := BitString(p), BitString(q);
    var d :| 0 <= d < |p| && p[d] != q[d];
    BitStringAt(p, d);
    BitStringAt(q, d);
    if Bits(p[d]) == Bits(q[d]) { BitsInjective(p[d], q[d]); }
    forall i | 0 <= i < |a| && !(8 * k <= i < 8 * k + 16)
      ensures a[i] == b[i]
    {
      BitStringAt(p, i / 8);
      BitStringAt(q, i / 8);
      assert a[i] == a[8 * (i / 8)..8 * (i / 8) + 8][i % 8];
      assert b[i] == b[8 * (i / 8)..8 * (i / 8) + 8][i % 8];
    }
    BurstChangesRemainder(INITIAL, a, b, 8 * k);
    TableEqualsBitwise(INITIAL, p);
    TableEqualsBitwise(INITIAL, q);
  }

  /* ---------- The last octet ---------- */

  lemma TopOfDifference(s: bv16, t: bv16)
    ensures Top(Xor(s, t)) <==> Top(s) != Top(t)
  {
  }

  lemma PolynomialMoves(s: bv16, t: bv16)
    ensures Xor(Xor(s, POLYNOMIAL), t) == Xor(Xor(s, t), POLYNOMIAL)
  {
  }

  lemma PolynomialLeaves(s: bv16, t: bv16)
    ensures Xor(s, Xor(t, POLYNOMIAL)) == Xor(Xor(s, t), POLYNOMIAL)
  {
  }

  lemma Shift1Linear(s: bv16, t: bv16)
    ensures Xor(Shift1(s), Shift1(t)) == Shift1(Xor(s, t))
  {
    hide Xor, Top, Shl;
    TopOfDifference(s, t);
    ShlXor(s, t);
    CancelPolynomial(Shl(s), Shl(t));
    PolynomialMoves(Shl(s), Shl(t));
    PolynomialLeaves(Shl(s), Shl(t));
  }

  lemma Shift8Linear(s: bv16, t: bv16)
    ensures Xor(Shift8(s), Shift8(t)) == Shift8(Xor(s, t))
  {
    hide Xor, Shift1;
    Shift4Linear(s, t);
    Shift4Linear(Shift4(s), Shift4(t));
  }

  lemma Shift4Linear(s: bv16, t: bv16)
    ensures Xor(Shift4(s), Shift4(t)) == Shift4(Xor(s, t))
  {
    hide Xor, Shift1;
    Shift1Linear(s, t);
    Shift1Linear(Shift1(s), Shift1(t));
    Shift1Linear(Shift1(Shift1(s)), Shift1(Shift1(t)));
    Shift1Linear(Shift1(Shift1(Shift1(s))), Shift1(Shift1(Shift1(t))));
  }

  // How the checksum changes when the last octet changes by x
  function LastOctetDifference(x: byte): bv16 { Shift8(Word(x)) }

  lemma WordsDiffer(crc: bv16, a: byte, b: byte)
    ensures Xor(Xor(crc, Word(b)), Xor(crc, Word(a))) == Word(a ^ b)
  {
  }

  lemma LastOctetChanges(init: seq<byte>, a: byte, b: byte)
    ensures Xor(Checksum(init + [b]), Checksum(init + [a])) == LastOctetDifference(a ^ b)
  {
    hide Xor, Word, Shift8, TableStep;
    var crc := TableCrcFrom(INITIAL, init);
    assert (init + [a])[..|init|] == init && (init + [b])[..|init|] == init;
    TableStepIsShift8(crc, a);
    TableStepIsShift8(crc, b);
    Shift8Linear(Xor(crc, Word(b)), Xor(crc, Word(a)));
    WordsDiffer(crc, a, b);
  }

  // Only one change of the last octet changes nothing but the low octet of the checksum.
  lemma DifferenceIsLow(x: byte, low: byte)
    requires x != 0
    ensures LastOctetDifference(x) == low as bv16 <==> x == 0x89 && low == 0xA1
  {
  }
}
