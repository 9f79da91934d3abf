/** How dsap_data_tx_request cuts a payload: tiles of mtu octets, the last one taking the remainder. */
module Tiles {
  import opened Bytes
  import opened Fragments

  // Number of fragments
  function Count(len: nat, mtu: nat): nat
    requires mtu > 0
  {
    (len + mtu - 1) / mtu
  }

  function LastSize(len: nat, mtu: nat): nat
    requires mtu > 0
  {
    if len % mtu == 0 then mtu else len % mtu
  }

  function TileSize(len: nat, mtu: nat, i: nat): nat
    requires mtu > 0
  {
    if i + 1 == Count(len, mtu) then LastSize(len, mtu) else mtu
  }

  lemma DivMod(len: nat, mtu: nat)
    requires mtu > 0
    ensures len == (len / mtu) * mtu + len % mtu && 0 <= len % mtu < mtu
  {
  }

  lemma QuotientUnique(x: nat, d: nat, q: nat, r: nat)
    requires d > 0 && x == q * d + r && r < d
    ensures x / d == q
  {
    DivMod(x, d);
    if x / d < q {
      MulMono(x / d + 1, q, d);
    } else if x / d > q {
      MulMono(q + 1, x / d, d);
    }
  }

  lemma MulMono(a: nat, b: nat, d: nat)
    requires a <= b
    ensures a * d <= b * d && (a + 1) * d == a * d + d
  {
    assert b * d == a * d + (b - a) * d;
  }

  // The last fragment takes what full tiles before it leave.
  lemma CountBounds(len: nat, mtu: nat)
    requires 0 < mtu && 0 < len
    ensures Count(len, mtu) >= 1
    ensures (Count(len, mtu) - 1) * mtu + LastSize(len, mtu) == len
    ensures 1 <= LastSize(len, mtu) <= mtu
  {
    var q, r := len / mtu, len % mtu;
    DivMod(len, mtu);
    if r == 0 {
      QuotientUnique(len + mtu - 1, mtu, q, mtu - 1);
      MulMono(q - 1, q, mtu);
    } else {
      MulMono(q, q + 1, mtu);
      QuotientUnique(len + mtu - 1, mtu, q + 1, r - 1);
    }
  }

  // Tiles lie inside the payload, are not empty, do not exceed the mtu and follow one another.
  lemma TileBounds(len: nat, mtu: nat, i: nat)
    requires 0 < mtu && 0 < len && i < Count(len, mtu)
    ensures i * mtu + TileSize(len, mtu, i) <= len
    ensures 1 <= TileSize(len, mtu, i) <= mtu
    ensures i + 1 < Count(len, mtu) ==> (i + 1) * mtu == i * mtu + TileSize(len, mtu, i) < len
    ensures i + 1 == Count(len, mtu) ==> i * mtu + TileSize(len, mtu, i) == len
  {
    CountBounds(len, mtu);
    MulMono(i, i + 1, mtu);
    MulMono(i + 1, if i + 1 < Count(len, mtu) then Count(len, mtu) - 1 else i + 1, mtu);
  }

  function Tile(payload: seq<byte>, mtu: nat, i: nat): (t: Stored)
    requires 0 < mtu && payload != [] && i < Count(|payload|, mtu)
    ensures t.offset == i * mtu && |t.bytes| == TileSize(|payload|, mtu, i)
    ensures t.offset + |t.bytes| <= |payload| && t.bytes == payload[t.offset..t.offset + |t.bytes|]
  {
    TileBounds(|payload|, mtu, i);
    Stored(i * mtu, payload[i * mtu..i * mtu + TileSize(|payload|, mtu, i)])
  }

  lemma OffsetsDiffer(mtu: nat, i: nat, j: nat)
    requires 0 < mtu && i < j
    ensures i * mtu + mtu <= j * mtu
  {
    MulMono(i + 1, j, mtu);
    MulMono(i, j, mtu);
  }

  // Different tiles share no octet.
  lemma TilesDisjoint(payload: seq<byte>, mtu: nat, i: nat, j: nat)
    requires 0 < mtu && payload != [] && i < Count(|payload|, mtu) && j < Count(|payload|, mtu) && i != j
    ensures Cells(Tile(payload, mtu, i)) !! Cells(Tile(payload, mtu, j))
  {
    TileBounds(|payload|, mtu, i);
    TileBounds(|payload|, mtu, j);
    if i < j { OffsetsDiffer(mtu, i, j); } else { OffsetsDiffer(mtu, j, i); }
  }

  // Every octet of the payload lies in a tile.
  lemma {:induction false} TileOf(payload: seq<byte>, mtu: nat, k: nat) returns (i: nat)
    requires 0 < mtu && k < |payload|
    ensures i < Count(|payload|, mtu)
    ensures Tile(payload, mtu, i).offset <= k < Tile(payload, mtu, i).offset + |Tile(payload, mtu, i).bytes|
  {
    CountBounds(|payload|, mtu);
    i := k / mtu;
    DivMod(k, mtu);
    var n := Count(|payload|, mtu);
    if i >= n {
      MulMono(n, i, mtu);
      MulMono(n - 1, n, mtu);
      assert false;
    }
    TileBounds(|payload|, mtu, i);
  }
}
