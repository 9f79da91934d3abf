/**
 The intrusive hash table of uthash.h, for the macros reassembly.c uses.  Every element is on two
 doubly linked lists: the application-order list (prev, next) and the chain of its bucket
 (hh_prev, hh_next).  The hash function is a parameter.
 */
module UtHash {

  // UT_hash_handle together with the element it is embedded in.
  class Handle<K(==), V> {
    const key: K
    const value: V
    const hashv: nat
    var prev: Handle?<K, V>
    var next: Handle?<K, V>
    var hhPrev: Handle?<K, V>
    var hhNext: Handle?<K, V>

    constructor (key: K, value: V, hashv: nat)
      ensures this.key == key && this.value == value && this.hashv == hashv
      ensures prev == null && next == null
    {
      this.key, this.value, this.hashv := key, value, hashv;
      prev, next, hhPrev, hhNext := null, null, null, null;
    }
  }

  // UT_hash_bucket
  datatype Bucket<K(==), V> = Bucket(head: Handle?<K, V>, count: nat, expandMult: nat)

  const INITIAL_NUM_BUCKETS := 32
  const INITIAL_LOG2 := 5
  const BKT_CAPACITY_THRESH := 10

  /* ---------- Linked sequences ---------- */

  ghost predicate Distinct<T>(s: seq<T>) {
    forall i, j :: 0 <= i < j < |s| ==> s[i] != s[j]
  }

  ghost function At<K, V>(s: seq<Handle<K, V>>, i: int): Handle?<K, V> {
    if 0 <= i < |s| then s[i] else null
  }

  // s is an application-order list: the links of its i-th handle are its neighbours.
  ghost predicate Ordered<K, V>(s: seq<Handle<K, V>>)
    reads s`prev, s`next
  {
    Distinct(s) && forall i :: 0 <= i < |s| ==> s[i].prev == At(s, i - 1) && s[i].next == At(s, i + 1)
  }

  // s is a bucket chain.
  ghost predicate Chained<K, V>(s: seq<Handle<K, V>>)
    reads s`hhPrev, s`hhNext
  {
    Distinct(s) && forall i :: 0 <= i < |s| ==> s[i].hhPrev == At(s, i - 1) && s[i].hhNext == At(s, i + 1)
  }

  function Without<T>(s: seq<T>, k: nat): (r: seq<T>)
    requires k < |s|
    ensures |r| == |s| - 1
  {
    s[..k] + s[k + 1..]
  }

  lemma AtIs<K, V>(s: seq<Handle<K, V>>, i: int)
    ensures At(s, i) == if 0 <= i < |s| then s[i] else null
  {
  }

  lemma DistinctAt<T>(s: seq<T>, k: int)
    requires Distinct(s) && 0 <= k < |s|
    ensures forall i :: 0 <= i < |s| && i != k ==> s[i] != s[k]
  {
  }

  lemma DistinctWithout<T>(s: seq<T>, k: nat)
    requires Distinct(s) && k < |s|
    ensures Distinct(Without(s, k)) && s[k] !in Without(s, k)
    ensures forall x :: x in s && x != s[k] ==> x in Without(s, k)
    ensures forall x :: x in Without(s, k) ==> x in s
  {
    forall x | x in s && x != s[k]
      ensures x in Without(s, k)
    {
      var i :| 0 <= i < |s| && s[i] == x;
      assert Without(s, k)[if i < k then i else i - 1] == x;
    }
  }

  lemma DistinctExtend<T>(s: seq<T>, x: T)
    requires Distinct(s) && x !in s
    ensures Distinct(s + [x]) && Distinct([x] + s)
  {
  }

  lemma WithoutAt<K, V>(s: seq<Handle<K, V>>, k: nat, i: int)
    requires k < |s|
    ensures At(Without(s, k), i) == At(s, if i < k then i else i + 1)
  {
  }

  /* ---------- The application-order list ---------- */

  // HASH_APPEND_LIST
  method AppendList<K, V>(ghost s: seq<Handle<K, V>>, tail: Handle<K, V>, add: Handle<K, V>)
    requires s != [] && Ordered(s) && tail == s[|s| - 1] && add !in s
    modifies tail`next, add`next, add`prev
    ensures Ordered(s + [add])
  {
    hide Distinct;
    DistinctExtend(s, add);
    DistinctAt(s, |s| - 1);
    add.next := null;
    add.prev := tail;
    tail.next := add;
    forall i | 0 <= i < |s| + 1
      ensures (s + [add])[i].prev == At(s + [add], i - 1) && (s + [add])[i].next == At(s + [add], i + 1)
    {
      assert i < |s| ==> s[i] in s;
    }
  }

  lemma OrderedGapClosed<K, V>(s: seq<Handle<K, V>>, k: nat)
    requires k < |s| && Distinct(s)
    requires forall i :: 0 <= i < |s| && i != k ==>
      && s[i].prev == At(s, if i == k + 1 then k - 1 else i - 1)
      && s[i].next == At(s, if i + 1 == k then k + 1 else i + 1)
    ensures Ordered(Without(s, k))
  {
    hide Distinct, At;
    DistinctWithout(s, k);
    ghost var t := Without(s, k);
    forall i | 0 <= i < |t|
      ensures t[i].prev == At(t, i - 1) && t[i].next == At(t, i + 1)
    {
      WithoutAt(s, k, i - 1);
      WithoutAt(s, k, i + 1);
      assert t[i] == s[if i < k then i else i + 1];
    }
  }

  // The relinking of HASH_DELETE_HH: the neighbours of del close the gap.
  method UnlinkList<K, V>(ghost s: seq<Handle<K, V>>, ghost k: nat, del: Handle<K, V>)
    requires k < |s| && Ordered(s) && del == s[k]
    modifies (if k > 0 then {s[k - 1]} else {})`next, (if k + 1 < |s| then {s[k + 1]} else {})`prev
    ensures Ordered(Without(s, k))
  {
    hide Distinct, At, Without;
    AtIs(s, k - 1);
    AtIs(s, k + 1);
    if k > 0 { DistinctAt(s, k - 1); }
    if k + 1 < |s| { DistinctAt(s, k + 1); }
    if del.prev != null {
      del.prev.next := del.next;
    }
    if del.next != null {
      del.next.prev := del.prev;
    }
    OrderedGapClosed(s, k);
  }

  /* ---------- Bucket chains ---------- */

  lemma AtPushed<K, V>(s: seq<Handle<K, V>>, x: Handle<K, V>, i: int)
    ensures At([x] + s, i) == if i == 0 then x else if i < 0 then null else At(s, i - 1)
  {
  }

  // The chain part of HASH_ADD_TO_BKT, also used when buckets are doubled.
  method PushChain<K, V>(ghost s: seq<Handle<K, V>>, head: Handle?<K, V>, add: Handle<K, V>)
    requires Chained(s) && head == At(s, 0) && add !in s
    modifies add`hhPrev, add`hhNext, (if s != [] then {s[0]} else {})`hhPrev
    ensures Chained([add] + s)
  {
    hide Distinct, At;
    DistinctExtend(s, add);
    AtIs(s, 0);
    if s != [] { DistinctAt(s, 0); }
    add.hhNext := head;
    add.hhPrev := null;
    if head != null {
      head.hhPrev := add;
    }
    ghost var t := [add] + s;
    forall i | 0 <= i < |t|
      ensures t[i].hhPrev == At(t, i - 1) && t[i].hhNext == At(t, i + 1)
    {
      AtPushed(s, add, i - 1);
      AtPushed(s, add, i + 1);
      assert i > 0 ==> t[i] == s[i - 1];
      AtIs(s, i - 2);
    }
  }

  lemma ChainedGapClosed<K, V>(s: seq<Handle<K, V>>, k: nat)
    requires k < |s| && Distinct(s)
    requires forall i :: 0 <= i < |s| && i != k ==>
      && s[i].hhPrev == At(s, if i == k + 1 then k - 1 else i - 1)
      && s[i].hhNext == At(s, if i + 1 == k then k + 1 else i + 1)
    ensures Chained(Without(s, k))
  {
    hide Distinct, At;
    DistinctWithout(s, k);
    ghost var t := Without(s, k);
    forall i | 0 <= i < |t|
      ensures t[i].hhPrev == At(t, i - 1) && t[i].hhNext == At(t, i + 1)
    {
      WithoutAt(s, k, i - 1);
      WithoutAt(s, k, i + 1);
      assert t[i] == s[if i < k then i else i + 1];
    }
  }

  // The chain part of HASH_DEL_IN_BKT.
  method UnlinkChain<K, V>(ghost s: seq<Handle<K, V>>, ghost k: nat, del: Handle<K, V>)
    requires k < |s| && Chained(s) && del == s[k]
    modifies (if k > 0 then {s[k - 1]} else {})`hhNext, (if k + 1 < |s| then {s[k + 1]} else {})`hhPrev
    ensures Chained(Without(s, k))
  {
    hide Distinct, At, Without;
    AtIs(s, k - 1);
    AtIs(s, k + 1);
    if k > 0 { DistinctAt(s, k - 1); }
    if k + 1 < |s| { DistinctAt(s, k + 1); }
    if del.hhPrev != null {
      del.hhPrev.hhNext := del.hhNext;
    }
    if del.hhNext != null {
      del.hhNext.hhPrev := del.hhPrev;
    }
    ChainedGapClosed(s, k);
  }

  /* ---------- The bucket array ---------- */

  // The members are spread over the chains, each in the bucket its hash value selects.
  ghost predicate Placed<K, V>(members: set<Handle<K, V>>, chains: seq<seq<Handle<K, V>>>) {
    && |chains| > 0
    && (forall n :: n in members ==> n in chains[n.hashv % |chains|])
    && (forall b, n :: 0 <= b < |chains| && n in chains[b] ==> n in members && n.hashv % |chains| == b)
  }

  // A bucket heads its chain and counts it exactly.
  ghost predicate Heads<K, V>(bucket: Bucket<K, V>, chain: seq<Handle<K, V>>)
    reads chain`hhPrev, chain`hhNext
  {
    Chained(chain) && bucket.head == At(chain, 0) && bucket.count == |chain|
  }

  ghost predicate Filled<K, V>(buckets: array<Bucket<K, V>>, members: set<Handle<K, V>>,
                               chains: seq<seq<Handle<K, V>>>)
    requires Placed(members, chains)
    reads buckets, members`hhPrev, members`hhNext
  {
    buckets.Length == |chains| && forall b :: 0 <= b < |chains| ==> Heads(buckets[b], chains[b])
  }

  lemma PlacedPush<K, V>(members: set<Handle<K, V>>, chains: seq<seq<Handle<K, V>>>, x: Handle<K, V>)
    requires Placed(members, chains) && x !in members
    ensures var b := x.hashv % |chains|;
      x !in chains[b] && Placed(members + {x}, chains[b := [x] + chains[b]])
  {
  }

  lemma PlacedApart<K, V>(members: set<Handle<K, V>>, chains: seq<seq<Handle<K, V>>>, c: nat, b: nat)
    requires Placed(members, chains) && c < |chains| && b < |chains| && c != b
    ensures forall i :: 0 <= i < |chains[c]| ==> chains[c][i] in members && chains[c][i] !in chains[b]
  {
    forall i | 0 <= i < |chains[c]|
      ensures chains[c][i] in members && chains[c][i] !in chains[b]
    {
      assert chains[c][i].hashv % |chains| == c;
    }
  }

  // Puts x at the front of the chain of its bucket and counts it.
  method PushBucket<K, V>(buckets: array<Bucket<K, V>>, ghost members: set<Handle<K, V>>,
                          ghost chains: seq<seq<Handle<K, V>>>, x: Handle<K, V>)
    returns (b: nat, ghost chains': seq<seq<Handle<K, V>>>)
    requires Placed(members, chains) && Filled(buckets, members, chains) && x !in members
    modifies buckets, members`hhPrev, x`hhPrev, x`hhNext
    ensures b == x.hashv % buckets.Length < buckets.Length && chains' == chains[b := [x] + chains[b]]
    ensures Placed(members + {x}, chains') && Filled(buckets, members + {x}, chains')
    ensures buckets[b].expandMult == old(buckets[b].expandMult) && buckets[b].count == old(buckets[b].count) + 1
  {
    hide Chained;
    PlacedPush(members, chains, x);
    b := x.hashv % buckets.Length;
    PushChain(chains[b], buckets[b].head, x);
    buckets[b] := Bucket(x, buckets[b].count + 1, buckets[b].expandMult);
    chains' := chains[b := [x] + chains[b]];
    forall c | 0 <= c < |chains'|
      ensures Heads(buckets[c], chains'[c])
    {
      if c == b {
        AtPushed(chains[b], x, 0);
      } else {
        PlacedApart(members, chains, c, b);
        assert old(Heads(buckets[c], chains[c]));
      }
    }
  }

  lemma PlacedRemove<K, V>(members: set<Handle<K, V>>, chains: seq<seq<Handle<K, V>>>, x: Handle<K, V>, k: nat)
    requires Placed(members, chains)
    requires var b := x.hashv % |chains|; k < |chains[b]| && chains[b][k] == x && Distinct(chains[b])
    ensures var b := x.hashv % |chains|; Placed(members - {x}, chains[b := Without(chains[b], k)])
  {
    hide Distinct, Without;
    var b := x.hashv % |chains|;
    DistinctWithout(chains[b], k);
  }

  // HASH_DEL_IN_BKT
  method RemoveBucket<K, V>(buckets: array<Bucket<K, V>>, ghost members: set<Handle<K, V>>,
                            ghost chains: seq<seq<Handle<K, V>>>, x: Handle<K, V>)
    returns (ghost chains': seq<seq<Handle<K, V>>>)
    requires Placed(members, chains) && Filled(buckets, members, chains) && x in members
    modifies buckets, members`hhPrev, members`hhNext
    ensures |chains'| == |chains|
    ensures Placed(members - {x}, chains') && Filled(buckets, members - {x}, chains')
  {
    hide Distinct, Without, At, Chained;
    var b := x.hashv % buckets.Length;
    ghost var chain := chains[b];
    assert Heads(buckets[b], chain);
    ghost var k := RemoveHead(chain, x, buckets[b].head);
    chains' := chains[b := Without(chain, k)];
    PlacedRemove(members, chains, x, k);
    var head := if buckets[b].head == x then x.hhNext else buckets[b].head;
    UnlinkChain(chain, k, x);
    buckets[b] := Bucket(head, buckets[b].count - 1, buckets[b].expandMult);
    forall c | 0 <= c < |chains'|
      ensures Heads(buckets[c], chains'[c])
    {
      if c != b {
        PlacedApart(members, chains, c, b);
        assert old(Heads(buckets[c], chains[c]));
      }
    }
  }

  lemma RemoveHead<K, V>(chain: seq<Handle<K, V>>, x: Handle<K, V>, head: Handle?<K, V>) returns (k: nat)
    requires Chained(chain) && x in chain && head == At(chain, 0)
    ensures Distinct(chain) && k < |chain| && chain[k] == x
    ensures At(Without(chain, k), 0) == if head == x then x.hhNext else head
  {
    k :| k < |chain| && chain[k] == x;
  }

  /* ---------- Doubling the buckets ---------- */

  // How many elements lie beyond the ideal length of their chains, in the first n buckets
  ghost function Excess<T>(chains: seq<seq<T>>, ideal: nat, n: nat): nat
    requires n <= |chains|
  {
    if n == 0 then 0
    else Excess(chains, ideal, n - 1) + if |chains[n - 1]| > ideal then |chains[n - 1]| - ideal else 0
  }

  lemma {:induction false} ExcessPush<T>(chains: seq<seq<T>>, b: nat, x: T, ideal: nat, n: nat)
    requires b < |chains| && n <= |chains|
    ensures Excess(chains[b := [x] + chains[b]], ideal, n)
      == Excess(chains, ideal, n) + if b < n && |chains[b]| + 1 > ideal then 1 else 0
  {
    if n > 0 { ExcessPush(chains, b, x, ideal, n - 1); }
  }

  lemma {:induction false} ExcessEmpty<T>(chains: seq<seq<T>>, ideal: nat, n: nat)
    requires n <= |chains| && forall b :: 0 <= b < |chains| ==> chains[b] == []
    ensures Excess(chains, ideal, n) == 0
  {
    if n > 0 { ExcessEmpty(chains, ideal, n - 1); }
  }

  // The chain s can still be walked through hh_next from its i-th handle on.
  ghost predicate Walkable<K, V>(s: seq<Handle<K, V>>, i: nat)
    reads s`hhNext
  {
    forall j {:trigger s[j]} :: i <= j < |s| ==> s[j].hhNext == At(s, j + 1)
  }

  // The expansion multiplier of a bucket that gains one more element during doubling
  function Stretched<K, V>(bucket: Bucket<K, V>, ideal: nat): nat {
    var count := bucket.count + 1;
    if count > ideal && count > bucket.expandMult * ideal then bucket.expandMult + 1 else bucket.expandMult
  }

  // One round of HASH_EXPAND_BUCKETS: x moves to its new bucket; the statistics follow the source.
  method MoveHandle<K, V>(buckets: array<Bucket<K, V>>, ghost members: set<Handle<K, V>>,
                          ghost chains: seq<seq<Handle<K, V>>>, x: Handle<K, V>,
                          idealChainMaxlen: nat, nonideal: nat)
    returns (nonideal': nat, ghost chains': seq<seq<Handle<K, V>>>)
    requires Placed(members, chains) && Filled(buckets, members, chains) && x !in members
    requires nonideal == Excess(chains, idealChainMaxlen, |chains|)
    modifies buckets, members`hhPrev, x`hhPrev, x`hhNext
    ensures |chains'| == |chains| && nonideal' == Excess(chains', idealChainMaxlen, |chains'|)
    ensures Placed(members + {x}, chains') && Filled(buckets, members + {x}, chains')
    ensures var b := x.hashv % buckets.Length;
      buckets[b].expandMult == Stretched(old(buckets[b]), idealChainMaxlen)
  {
    hide Chained, Placed, Excess;
    var b: nat;
    b, chains' := PushBucket(buckets, members, chains, x);
    ExcessPush(chains, b, x, idealChainMaxlen, |chains|);
    nonideal' := nonideal;
    label pushed:
    if buckets[b].count > idealChainMaxlen {
      nonideal' := nonideal' + 1;
      if buckets[b].count > buckets[b].expandMult * idealChainMaxlen {
        buckets[b] := buckets[b].(expandMult := buckets[b].expandMult + 1);
      }
    }
    forall c | 0 <= c < |chains'|
      ensures Heads(buckets[c], chains'[c])
    {
      assert old@pushed(Heads(buckets[c], chains'[c]));
    }
  }

  ghost function Prefix<K, V>(s: seq<Handle<K, V>>, i: nat): set<Handle<K, V>>
    requires i <= |s|
  {
    set n | n in s[..i]
  }

  lemma PrefixStep<K, V>(s: seq<Handle<K, V>>, i: nat)
    requires i < |s| && Distinct(s)
    ensures Prefix(s, i + 1) == Prefix(s, i) + {s[i]}
    ensures s[i] !in Prefix(s, i)
    ensures forall j {:trigger s[j]} :: i < j < |s| ==> s[j] != s[i] && s[j] !in Prefix(s, i)
  {
    assert s[..i + 1] == s[..i] + [s[i]];
  }

  // The inner loop of HASH_EXPAND_BUCKETS: one old chain moves, handle by handle.
  method MoveChain<K, V>(buckets: array<Bucket<K, V>>, ghost members: set<Handle<K, V>>,
                         ghost chains: seq<seq<Handle<K, V>>>, ghost old_: seq<Handle<K, V>>,
                         head: Handle?<K, V>, idealChainMaxlen: nat, nonideal: nat)
    returns (nonideal': nat, ghost chains': seq<seq<Handle<K, V>>>)
    requires Placed(members, chains) && Filled(buckets, members, chains)
    requires Distinct(old_) && Walkable(old_, 0) && head == At(old_, 0)
    requires forall j :: 0 <= j < |old_| ==> old_[j] !in members
    requires nonideal == Excess(chains, idealChainMaxlen, |chains|)
    modifies buckets, members`hhPrev, old_`hhPrev, old_`hhNext
    ensures |chains'| == |chains| && nonideal' == Excess(chains', idealChainMaxlen, |chains'|)
    ensures Placed(members + Prefix(old_, |old_|), chains')
    ensures Filled(buckets, members + Prefix(old_, |old_|), chains')
  {
    hide Placed, Filled, Distinct, At, Excess;
    AtIs(old_, |old_|);
    nonideal', chains' := nonideal, chains;
    var thh := head;
    ghost var i := 0;
    ghost var moved := members;
    assert members + Prefix(old_, 0) == members;
    while thh != null
      invariant 0 <= i <= |old_| && thh == At(old_, i)
      invariant |chains'| == |chains| && moved == members + Prefix(old_, i)
      invariant nonideal' == Excess(chains', idealChainMaxlen, |chains'|)
      invariant Placed(moved, chains') && Filled(buckets, moved, chains')
      invariant Walkable(old_, i)
      decreases |old_| - i
    {
      AtIs(old_, i);
      PrefixStep(old_, i);
      var next := thh.hhNext;
      nonideal', chains' := MoveHandle(buckets, moved, chains', thh, idealChainMaxlen, nonideal');
      moved := moved + {thh};
      thh := next;
      i := i + 1;
    }
    AtIs(old_, i);
  }

  // The members whose old bucket comes before b.
  ghost function Before<K, V>(members: set<Handle<K, V>>, buckets: nat, b: nat): set<Handle<K, V>>
    requires buckets > 0
  {
    set n | n in members && n.hashv % buckets < b
  }

  lemma BeforeStep<K, V>(members: set<Handle<K, V>>, chains: seq<seq<Handle<K, V>>>, b: nat)
    requires Placed(members, chains) && b < |chains|
    ensures Before(members, |chains|, b + 1) == Before(members, |chains|, b) + Prefix(chains[b], |chains[b]|)
    ensures forall j :: 0 <= j < |chains[b]| ==> chains[b][j] !in Before(members, |chains|, b)
  {
    assert chains[b][..|chains[b]|] == chains[b];
  }

  lemma StillToMove<K, V>(members: set<Handle<K, V>>, chains: seq<seq<Handle<K, V>>>, b: nat, c: nat)
    requires Placed(members, chains) && b < c < |chains|
    ensures forall j :: 0 <= j < |chains[c]| ==>
      chains[c][j] !in Before(members, |chains|, b) && chains[c][j] !in chains[b]
  {
    PlacedApart(members, chains, c, b);
    forall j | 0 <= j < |chains[c]|
      ensures chains[c][j] !in Before(members, |chains|, b)
    {
      assert chains[c][j].hashv % |chains| == c;
    }
  }

  lemma AllBefore<K, V>(members: set<Handle<K, V>>, chains: seq<seq<Handle<K, V>>>)
    requires Placed(members, chains)
    ensures Before(members, |chains|, 0) == {} && Before(members, |chains|, |chains|) == members
  {
  }

  lemma NothingPlaced<K, V>(chains: seq<seq<Handle<K, V>>>)
    requires |chains| > 0 && forall b :: 0 <= b < |chains| ==> chains[b] == []
    ensures Placed({}, chains)
  {
  }

  method EmptyBuckets<K, V>(n: nat) returns (buckets: array<Bucket<K, V>>, ghost chains: seq<seq<Handle<K, V>>>)
    requires n > 0
    ensures fresh(buckets) && |chains| == n && Placed({}, chains) && Filled(buckets, {}, chains)
    ensures forall b :: 0 <= b < n ==> chains[b] == []
  {
    buckets := new Bucket[n](_ => Bucket(null, 0, 0));
    chains := seq(n, _ => []);
    NothingPlaced(chains);
  }

  // HASH_EXPAND_BUCKETS: twice the buckets, the same members.
  method ExpandBuckets<K, V>(buckets: array<Bucket<K, V>>, ghost members: set<Handle<K, V>>,
                             ghost chains: seq<seq<Handle<K, V>>>, idealChainMaxlen: nat)
    returns (newBuckets: array<Bucket<K, V>>, nonideal: nat, ghost newChains: seq<seq<Handle<K, V>>>)
    requires Placed(members, chains) && Filled(buckets, members, chains)
    modifies members`hhPrev, members`hhNext
    ensures fresh(newBuckets) && |newChains| == 2 * |chains|
    ensures nonideal == Excess(newChains, idealChainMaxlen, |newChains|)
    ensures Placed(members, newChains) && Filled(newBuckets, members, newChains)
  {
    assert buckets.Length == |chains| > 0;
    hide Placed, Distinct, At, Before;
    forall c | 0 <= c < |chains|
      ensures Distinct(chains[c]) && Walkable(chains[c], 0) && buckets[c].head == At(chains[c], 0)
    {
      assert Heads(buckets[c], chains[c]);
    }
    hide Filled, Heads, Chained, Walkable, Excess;
    nonideal := 0;
    newBuckets, newChains := EmptyBuckets(2 * buckets.Length);
    ExcessEmpty(newChains, idealChainMaxlen, |newChains|);
    AllBefore(members, chains);
    for b := 0 to buckets.Length
      invariant |newChains| == 2 * |chains| && nonideal == Excess(newChains, idealChainMaxlen, |newChains|)
      invariant fresh(newBuckets)
      invariant Placed(Before(members, |chains|, b), newChains)
      invariant Filled(newBuckets, Before(members, |chains|, b), newChains)
      invariant forall c :: b <= c < |chains| ==> Walkable(chains[c], 0)
      invariant buckets[..] == old(buckets[..])
    {
      nonideal, newChains := MoveBucket(newBuckets, members, chains, newChains, b, buckets[b].head,
                                        idealChainMaxlen, nonideal);
    }
  }

  // The outer round of HASH_EXPAND_BUCKETS for old bucket b; later chains stay walkable.
  method MoveBucket<K, V>(newBuckets: array<Bucket<K, V>>, ghost members: set<Handle<K, V>>,
                          ghost chains: seq<seq<Handle<K, V>>>, ghost newChains: seq<seq<Handle<K, V>>>, ghost b: nat,
                          head: Handle?<K, V>, idealChainMaxlen: nat, nonideal: nat)
    returns (nonideal': nat, ghost newChains': seq<seq<Handle<K, V>>>)
    requires Placed(members, chains) && b < |chains| && Distinct(chains[b]) && head == At(chains[b], 0)
    requires forall c :: b <= c < |chains| ==> Walkable(chains[c], 0)
    requires Placed(Before(members, |chains|, b), newChains)
    requires Filled(newBuckets, Before(members, |chains|, b), newChains)
    requires nonideal == Excess(newChains, idealChainMaxlen, |newChains|)
    modifies newBuckets, members`hhPrev, members`hhNext
    ensures |newChains'| == |newChains| && nonideal' == Excess(newChains', idealChainMaxlen, |newChains'|)
    ensures Placed(Before(members, |chains|, b + 1), newChains')
    ensures Filled(newBuckets, Before(members, |chains|, b + 1), newChains')
    ensures forall c :: b < c < |chains| ==> Walkable(chains[c], 0)
  {
    hide Placed, Filled, Distinct, At, Before, Walkable, Excess;
    BeforeStep(members, chains, b);
    MembersOfChain(members, chains, b);
    nonideal', newChains' := MoveChain(newBuckets, Before(members, |chains|, b), newChains, chains[b], head,
                                       idealChainMaxlen, nonideal);
    forall c | b < c < |chains|
      ensures Walkable(chains[c], 0)
    {
      StillToMove(members, chains, b, c);
      assert old(Walkable(chains[c], 0));
    }
  }

  lemma MembersOfChain<K, V>(members: set<Handle<K, V>>, chains: seq<seq<Handle<K, V>>>, b: nat)
    requires Placed(members, chains) && b < |chains|
    ensures forall n :: n in chains[b] ==> n in members
    ensures forall n :: n in Before(members, |chains|, b) ==> n in members
  {
  }

  /* ---------- The table ---------- */

  function Pow2(n: nat): nat { if n == 0 then 1 else 2 * Pow2(n - 1) }

  // Two elements of the list have different keys, and contents is the map the list spells out.
  ghost predicate Spells<K, V>(order: seq<Handle<K, V>>, contents: map<K, V>, hash: K -> nat) {
    && (forall n :: n in order ==> n.hashv == hash(n.key))
    && (forall n :: n in order ==> n.key in contents && contents[n.key] == n.value)
    && (forall k :: k in contents ==> exists n :: n in order && n.key == k)
    && (forall m, n :: m in order && n in order && m.key == n.key ==> m == n)
  }

  ghost function Members<K, V>(order: seq<Handle<K, V>>): set<Handle<K, V>> {
    set n | n in order
  }

  lemma SpellsAppend<K, V>(order: seq<Handle<K, V>>, contents: map<K, V>, hash: K -> nat, x: Handle<K, V>)
    requires Spells(order, contents, hash) && x.key !in contents && x.hashv == hash(x.key)
    ensures Spells(order + [x], contents[x.key := x.value], hash)
    ensures x !in order && Members(order + [x]) == Members(order) + {x}
  {
    var contents' := contents[x.key := x.value];
    forall k | k in contents'
      ensures exists n :: n in order + [x] && n.key == k
    {
      if k == x.key {
        assert x in order + [x];
      } else {
        var n :| n in order && n.key == k;
        assert n in order + [x];
      }
    }
  }

  lemma SpellsWithout<K, V>(order: seq<Handle<K, V>>, contents: map<K, V>, hash: K -> nat, k: nat)
    requires Spells(order, contents, hash) && Distinct(order) && k < |order|
    ensures Spells(Without(order, k), contents - {order[k].key}, hash)
    ensures Members(Without(order, k)) == Members(order) - {order[k]}
  {
    hide Distinct, Without;
    DistinctWithout(order, k);
    var rest, contents' := Without(order, k), contents - {order[k].key};
    forall key | key in contents'
      ensures exists n :: n in rest && n.key == key
    {
      var n :| n in order && n.key == key;
      assert n in rest;
    }
  }

  // The quotient rounded up
  function Ceiling(n: nat, d: nat): (c: nat)
    requires d > 0
  {
    n / d + (if n % d != 0 then 1 else 0)
  }

  lemma CeilingIsLeast(n: nat, d: nat)
    requires d > 0
    ensures (Ceiling(n, d) - 1) * d < n <= Ceiling(n, d) * d || n == Ceiling(n, d) == 0
  {
    var q, r := n / d, n % d;
    assert n == q * d + r;
    assert (q + 1) * d == q * d + d && (q - 1) * d == q * d - d;
  }

  // One more element in the bucket of hashv makes the table double its buckets.
  predicate Crowded<K, V>(noexpand: bool, buckets: seq<Bucket<K, V>>, hashv: nat) {
    && !noexpand && |buckets| > 0
    && var bucket := buckets[hashv % |buckets|];
       bucket.count + 1 >= (bucket.expandMult + 1) * BKT_CAPACITY_THRESH
  }

  lemma CrowdedIs<K, V>(noexpand: bool, buckets: seq<Bucket<K, V>>, hashv: nat, after: Bucket<K, V>)
    requires |buckets| > 0
    requires var before := buckets[hashv % |buckets|];
      after.count == before.count + 1 && after.expandMult == before.expandMult
    ensures Crowded(noexpand, buckets, hashv)
      <==> after.count >= (after.expandMult + 1) * BKT_CAPACITY_THRESH && !noexpand
  {
  }

  // The head pointer of the user together with the table it reaches.
  class Table<K(==), V> {
    const hash: K -> nat
    var head: Handle?<K, V>
    var tail: Handle?<K, V>
    var buckets: array<Bucket<K, V>>
    var log2NumBuckets: nat
    var numItems: nat
    var idealChainMaxlen: nat
    var nonidealItems: nat
    var ineffExpands: nat
    var noexpand: bool

    ghost var order: seq<Handle<K, V>>            // the elements, oldest first
    ghost var chains: seq<seq<Handle<K, V>>>      // the chain of each bucket
    ghost var contents: map<K, V>                 // what the table stands for

    ghost predicate Valid()
      reads this, buckets, order
    {
      && Ordered(order) && head == At(order, 0)
      && Spells(order, contents, hash)
      && (order != [] ==> tail == At(order, |order| - 1) && Tabled())
    }

    // The table proper, which exists while the list is not empty.
    ghost predicate Tabled()
      reads this, buckets, order
    {
      && numItems == |order|
      && |chains| == Pow2(log2NumBuckets)
      && Placed(Members(order), chains) && Filled(buckets, Members(order), chains)
    }

    constructor (hash: K -> nat)
      ensures Valid() && order == [] && contents == map[] && this.hash == hash
      ensures fresh(buckets)
    {
      this.hash := hash;
      head, tail := null, null;
      buckets := new Bucket[INITIAL_NUM_BUCKETS](_ => Bucket(null, 0, 0));
      log2NumBuckets, numItems := INITIAL_LOG2, 0;
      idealChainMaxlen, nonidealItems, ineffExpands, noexpand := 0, 0, 0, false;
      order, chains, contents := [], [], map[];
    }

    // HASH_FIND
    method Find(key: K) returns (out: Handle?<K, V>)
      requires Valid()
      ensures out == null <==> key !in contents
      ensures out != null ==> out in order && out.key == key && out.value == contents[key]
    {
      hide Ordered, Chained, Distinct;
      out := null;
      if head != null {
        var hashval := hash(key);
        var bkt := hashval % buckets.Length;
        ghost var chain := chains[bkt];
        out := FindInBucket(chain, buckets[bkt].head, key, hashval);
      }
    }

    // HASH_FIND_IN_BKT
    method FindInBucket(ghost chain: seq<Handle<K, V>>, first: Handle?<K, V>, key: K, hashval: nat)
      returns (out: Handle?<K, V>)
      requires Chained(chain) && first == At(chain, 0)
      requires hashval == hash(key) && forall n :: n in chain ==> n.hashv == hash(n.key)
      ensures out == null ==> forall n :: n in chain ==> n.key != key
      ensures out != null ==> out in chain && out.key == key
    {
      hide Distinct, At;
      AtIs(chain, 0);
      out := first;
      ghost var i := 0;
      while out != null
        invariant 0 <= i <= |chain| && out == At(chain, i)
        invariant forall j :: 0 <= j < i ==> chain[j].key != key
        decreases |chain| - i
      {
        AtIs(chain, i);
        AtIs(chain, i + 1);
        if out.hashv == hashval && out.key == key { return; }
        out := out.hhNext;
        i := i + 1;
      }
      AtIs(chain, i);
    }
  
    // HASH_MAKE_TABLE for the first element
    method MakeTable(add: Handle<K, V>)
      requires order == []
      modifies this
      ensures fresh(buckets) && Placed({}, chains) && Filled(buckets, {}, chains)
      ensures head == add && tail == add && numItems == 0 && |chains| == Pow2(log2NumBuckets)
      ensures order == old(order) && contents == old(contents)
    {
      hide Placed, Filled;
      head, tail := add, add;
      log2NumBuckets, numItems := INITIAL_LOG2, 0;
      idealChainMaxlen, nonidealItems, ineffExpands, noexpand := 0, 0, 0, false;
      buckets, chains := EmptyBuckets(INITIAL_NUM_BUCKETS);
    }

    // HASH_ADD_TO_BKT: members are the elements already in the buckets.
    method AddToBucket(add: Handle<K, V>, ghost members: set<Handle<K, V>>)
      requires Placed(members, chains) && Filled(buckets, members, chains) && add !in members
      requires |chains| == Pow2(log2NumBuckets)
      modifies this`chains, this`buckets, this`log2NumBuckets
      modifies this`idealChainMaxlen, this`nonidealItems, this`ineffExpands, this`noexpand
      modifies buckets, (members + {add})`hhPrev, (members + {add})`hhNext
      ensures Placed(members + {add}, chains) && Filled(buckets, members + {add}, chains)
      ensures |chains| == Pow2(log2NumBuckets)
      ensures if Crowded(old(noexpand), old(buckets[..]), add.hashv)
              then fresh(buckets) && |chains| == 2 * old(|chains|)
              else buckets == old(buckets) && |chains| == old(|chains|)
    {
      hide Placed, Filled, Crowded;
      BucketCount(buckets, members, chains);
      ghost var was := buckets[..];
      var bkt: nat;
      bkt, chains := PushBucket(buckets, members, chains, add);
      CrowdedIs(noexpand, was, add.hashv, buckets[bkt]);
      if buckets[bkt].count >= (buckets[bkt].expandMult + 1) * BKT_CAPACITY_THRESH && !noexpand {
        Expand(members + {add});
      }
    }

    // HASH_EXPAND_BUCKETS
    method Expand(ghost members: set<Handle<K, V>>)
      requires Placed(members, chains) && Filled(buckets, members, chains)
      requires |chains| == Pow2(log2NumBuckets) == buckets.Length
      modifies this`chains, this`buckets, this`log2NumBuckets
      modifies this`idealChainMaxlen, this`nonidealItems, this`ineffExpands, this`noexpand
      modifies members`hhPrev, members`hhNext
      ensures Placed(members, chains) && Filled(buckets, members, chains)
      ensures |chains| == Pow2(log2NumBuckets) == 2 * old(|chains|) && fresh(buckets)
      ensures idealChainMaxlen == Ceiling(numItems, |chains|)
      ensures nonidealItems == Excess(chains, idealChainMaxlen, |chains|)
      ensures ineffExpands == if nonidealItems > numItems / 2 then old(ineffExpands) + 1 else 0
      ensures noexpand <==> old(noexpand) || ineffExpands > 1
    {
      hide Placed, Filled, Excess;
      BucketCount(buckets, members, chains);
      var twice := 2 * buckets.Length;
      idealChainMaxlen := numItems / twice + (if numItems % twice != 0 then 1 else 0);
      var bigger: array<Bucket<K, V>>, nonideal: nat;
      bigger, nonideal, chains := ExpandBuckets(buckets, members, chains, idealChainMaxlen);
      nonidealItems := nonideal;
      buckets := bigger;
      log2NumBuckets := log2NumBuckets + 1;
      ineffExpands := if nonidealItems > numItems / 2 then ineffExpands + 1 else 0;
      if ineffExpands > 1 { noexpand := true; }
    }

    // HASH_ADD of an element whose key is absent.
    method Add(key: K, value: V) returns (add: Handle<K, V>)
      requires Valid() && key !in contents
      modifies this, buckets, order
      ensures Valid() && fresh(add) && add.key == key && add.value == value
      ensures order == old(order) + [add] && contents == old(contents)[key := value]
      ensures buckets == old(buckets) || fresh(buckets)
    {
      hide Ordered, At, Spells, Filled, Placed;
      ghost var members := Members(order);
      add := new Handle(key, value, hash(key));
      SpellsAppend(order, contents, hash, add);
      LinkNew(add, members);
      contents := contents[key := value];
      AddToBucket(add, members);
    }

    // The application-order half of HASH_ADD: add becomes the last element.
    method LinkNew(add: Handle<K, V>, ghost members: set<Handle<K, V>>)
      requires Ordered(order) && head == At(order, 0) && members == Members(order)
      requires order != [] ==> tail == At(order, |order| - 1) && Tabled()
      requires add !in order && add.prev == null && add.next == null
      modifies this, order`prev, order`next, add`prev, add`next
      ensures order == old(order) + [add] && contents == old(contents)
      ensures Ordered(order) && head == At(order, 0) && tail == At(order, |order| - 1)
      ensures numItems == |order| && |chains| == Pow2(log2NumBuckets)
      ensures Placed(members, chains) && Filled(buckets, members, chains)
      ensures buckets == old(buckets) || fresh(buckets)
    {
      hide Ordered, At, Filled, Placed;
      AtIs(order, 0);
      AtIs(order, |order| - 1);
      if head == null {
        MakeTable(add);
        OrderedOne(add);
        assert [] + [add] == [add] && members == {};
      } else {
        AppendList(order, tail, add);
        tail := add;
      }
      numItems := numItems + 1;
      order := order + [add];
      AtIs(order, 0);
      AtIs(order, |order| - 1);
    }

    // The application-order half of HASH_DELETE_HH: order itself is left for the caller to cut.
    method UnlinkOrder(del: Handle<K, V>, ghost k: nat)
      requires Ordered(order) && head == At(order, 0) && tail == At(order, |order| - 1)
      requires k < |order| && order[k] == del
      modifies this`head, this`tail, order`prev, order`next
      ensures Ordered(Without(order, k))
      ensures head == At(Without(order, k), 0) && tail == At(Without(order, k), |order| - 2)
    {
      hide At, Distinct, Without;
      ghost var p := PositionOf(order, del);
      DistinctAt(order, k);
      EndsWithout(order, k);
      hide Ordered;
      if del == tail {
        tail := del.prev;
      }
      UnlinkList(order, k, del);
      if del.prev == null {
        head := del.next;
      }
    }

    // HASH_DELETE_HH when other elements remain: both lists close the gap.
    method Detach(del: Handle<K, V>, ghost k: nat)
      requires Ordered(order) && head == At(order, 0) && tail == At(order, |order| - 1) && Tabled()
      requires k < |order| && order[k] == del
      modifies this`head, this`tail, this`chains, this`numItems, buckets, order
      ensures Ordered(Without(order, k))
      ensures head == At(Without(order, k), 0) && tail == At(Without(order, k), |order| - 2)
      ensures numItems == |order| - 1 && |chains| == Pow2(log2NumBuckets)
      ensures Placed(Members(order) - {del}, chains) && Filled(buckets, Members(order) - {del}, chains)
    {
      hide Ordered, At, Filled, Placed, Without;
      UnlinkOrder(del, k);
      assert Ordered(Without(order, k));
      chains := RemoveBucket(buckets, Members(order), chains, del);
      assert Ordered(Without(order, k));
      numItems := numItems - 1;
    }

    // HASH_DELETE_HH
    method Delete(del: Handle<K, V>)
      requires Valid() && del in order
      modifies this, buckets, order
      ensures Valid() && contents == old(contents) - {del.key}
      ensures exists k :: 0 <= k < |old(order)| && old(order)[k] == del && order == Without(old(order), k)
      ensures buckets == old(buckets)
    {
      hide Ordered, At, Spells, Filled, Placed, Distinct, Without;
      ghost var k := PositionOf(order, del);
      SpellsWithout(order, contents, hash, k);
      EndsWithout(order, k);
      if del.prev == null && del.next == null {
        head := null;
      } else {
        Detach(del, k);
      }
      order := Without(order, k);
      contents := contents - {del.key};
    }
  }

  lemma EndsWithout<K, V>(order: seq<Handle<K, V>>, k: nat)
    requires k < |order| && Distinct(order)
    ensures var rest := Without(order, k); var last := |order| - 1;
      && At(rest, 0) == At(order, if k == 0 then 1 else 0)
      && At(rest, |rest| - 1) == At(order, if k == last then last - 1 else last)
    ensures At(order, k - 1) == null <==> k == 0
    ensures At(order, k + 1) == null <==> k == |order| - 1
    ensures At(order, |order| - 1) == order[k] <==> k == |order| - 1
    ensures |order| == 1 ==> Without(order, k) == [] && Ordered(Without(order, k))
  {
  }

  lemma BucketCount<K, V>(buckets: array<Bucket<K, V>>, members: set<Handle<K, V>>, chains: seq<seq<Handle<K, V>>>)
    requires Placed(members, chains) && Filled(buckets, members, chains)
    ensures buckets.Length == |chains| > 0
  {
  }

  lemma OrderedOne<K, V>(x: Handle<K, V>)
    requires x.prev == null && x.next == null
    ensures Ordered([x])
  {
  }

  lemma PositionOf<K, V>(order: seq<Handle<K, V>>, x: Handle<K, V>) returns (k: nat)
    requires Ordered(order) && x in order
    ensures k < |order| && order[k] == x && Distinct(order)
    ensures x.prev == At(order, k - 1) && x.next == At(order, k + 1)
  {
    k :| k < |order| && order[k] == x;
  }
}
