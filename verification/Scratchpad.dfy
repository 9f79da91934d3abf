/** Moving a scratchpad image between host and node in blocks: wpc.c over the block requests of msap.c. */
module Scratchpad {
  import opened Bytes
  import opened Tiles

  const MAXIMUM_SCRATCHPAD_BLOCK_SIZE := 112
  const BLOCK_TOO_BIG := 6
  const ADDRESSES := 0x1_0000_0000

  // The scratchpad area of the node
  type Memory = nat -> byte

  // What a block request returns: a result code of the node or, below zero, an error of the link.
  type Answer = r: int | -0x80 <= r < 0x100

  // stored: an upload whose confirm does not come back may have been carried out all the same.
  datatype Reply = Reply(answer: Answer, stored: bool)

  datatype Block = Block(address: nat, size: nat)

  function BlockSize(remaining: int, max: nat): int { if remaining > max then max else remaining }

  function Address(start: nat, loaded: nat): nat { (start + loaded) % ADDRESSES }

  // The transfer loops keep the answer in eight bits.
  function Code(answer: Answer): nat { answer % 0x100 }

  /* ---------- When the loops end ---------- */

  predicate Refused(replies: nat -> Reply, m: nat) { Code(replies(m).answer) > 1 }

  // Against a block limit of zero only a refused request ends a loop that has something left to move;
  // the requests from here on are numbered from k.
  ghost predicate Ends(len: nat, max: nat, replies: nat -> Reply, k: nat, loaded: nat) {
    loaded >= len || max > 0 || exists m: nat :: k <= m && Refused(replies, m)
  }

  ghost predicate FirstRefused(replies: nat -> Reply, k: nat, m: nat) {
    k <= m && Refused(replies, m) && forall j: nat :: k <= j < m ==> !Refused(replies, j)
  }

  lemma {:induction false} SomeFirst(replies: nat -> Reply, k: nat, m: nat)
    requires k <= m && Refused(replies, m)
    ensures exists i: nat :: FirstRefused(replies, k, i)
    decreases m - k
  {
    if Refused(replies, k) {
      assert FirstRefused(replies, k, k);
    } else {
      SomeFirst(replies, k + 1, m);
      var i: nat :| FirstRefused(replies, k + 1, i);
      assert FirstRefused(replies, k, i);
    }
  }

  // How many requests of no octets may still be answered
  ghost function Left(len: nat, max: nat, replies: nat -> Reply, k: nat, loaded: nat): (r: nat)
    requires Ends(len, max, replies, k, loaded)
    ensures loaded < len && max == 0 ==> FirstRefused(replies, k, k + r)
  {
    if loaded >= len || max > 0 then 0
    else
      var m: nat :| k <= m && Refused(replies, m);
      SomeFirst(replies, k, m);
      var first: nat :| FirstRefused(replies, k, first);
      first - k
  }

  lemma OneFirst(replies: nat -> Reply, k: nat, i: nat, j: nat)
    requires FirstRefused(replies, k, i) && FirstRefused(replies, k, j)
    ensures i == j
  {
    hide Refused;
  }

  // The round goes on: something has been moved, or there is one request of no octets less to make.
  lemma EndsStep(len: nat, max: nat, replies: nat -> Reply, k: nat, loaded: nat)
    requires Ends(len, max, replies, k, loaded) && loaded < len && !Refused(replies, k)
    ensures var n := BlockSize(len - loaded, max);
      && loaded + n <= len && Ends(len, max, replies, k + 1, loaded + n)
      && (n == 0 ==> Left(len, max, replies, k + 1, loaded + n) < Left(len, max, replies, k, loaded))
  {
    hide Refused;
    if max == 0 {
      var m: nat :| k <= m && Refused(replies, m);
      assert k + 1 <= m;
      var next := k + 1 + Left(len, max, replies, k + 1, loaded);
      assert FirstRefused(replies, k, next);
      OneFirst(replies, k, k + Left(len, max, replies, k, loaded), next);
    }
  }

  /* ---------- Both loops as functions ---------- */

  // code: 0, or the code of the failing request; blocks: the blocks requested
  datatype Walked = Walked(code: nat, blocks: seq<Block>)

  function Walk(start: nat, len: nat, max: nat, replies: nat -> Reply, k: nat, loaded: nat): Walked
    requires Ends(len, max, replies, k, loaded)
    decreases len - loaded, Left(len, max, replies, k, loaded)
  {
    if loaded >= len then Walked(0, [])
    else
      var n := BlockSize(len - loaded, max);
      if n > MAXIMUM_SCRATCHPAD_BLOCK_SIZE then Walked(BLOCK_TOO_BIG, [])
      else
        var block, c := Block(Address(start, loaded), n), Code(replies(k).answer);
        if c > 1 then Walked(c, [block])
        else
          EndsStep(len, max, replies, k, loaded);
          var rest := Walk(start, len, max, replies, k + 1, loaded + n);
          Walked(rest.code, [block] + rest.blocks)
  }

  function Write(mem: Memory, address: nat, bytes: seq<byte>): Memory {
    (a: nat) => if address <= a < address + |bytes| then bytes[a - address] else mem(a)
  }

  function Read(mem: Memory, address: nat, n: nat): (r: seq<byte>)
    ensures |r| == n
  {
    seq(n, i requires 0 <= i < n => mem(address + i))
  }

  predicate Stores(reply: Reply) { reply.answer == 0 || reply.answer == 1 || reply.stored }

  function MemoryAfterBlock(mem: Memory, address: nat, bytes: seq<byte>, reply: Reply): Memory {
    if Stores(reply) then Write(mem, address, bytes) else mem
  }

  function MemoryAfter(mem: Memory, start: nat, bytes: seq<byte>, max: nat, replies: nat -> Reply, k: nat,
                       loaded: nat): Memory
    requires Ends(|bytes|, max, replies, k, loaded)
    decreases |bytes| - loaded, Left(|bytes|, max, replies, k, loaded)
  {
    if loaded >= |bytes| then mem
    else
      var n := BlockSize(|bytes| - loaded, max);
      if n > MAXIMUM_SCRATCHPAD_BLOCK_SIZE then mem
      else
        var after := MemoryAfterBlock(mem, Address(start, loaded), bytes[loaded..loaded + n], replies(k));
        if Code(replies(k).answer) > 1 then after
        else
          EndsStep(|bytes|, max, replies, k, loaded);
          MemoryAfter(after, start, bytes, max, replies, k + 1, loaded + n)
  }

  function Patched(buffer: seq<byte>, at: nat, bytes: seq<byte>): (r: seq<byte>)
    requires at + |bytes| <= |buffer|
    ensures |r| == |buffer|
  {
    buffer[..at] + bytes + buffer[at + |bytes|..]
  }

  // The block is copied from the confirm only when its result is 0.
  function BufferAfterBlock(buffer: seq<byte>, at: nat, mem: Memory, address: nat, n: nat, reply: Reply): (r: seq<byte>)
    requires at + n <= |buffer|
    ensures |r| == |buffer|
  {
    if reply.answer == 0 then Patched(buffer, at, Read(mem, address, n)) else buffer
  }

  function BufferAfter(mem: Memory, start: nat, buffer: seq<byte>, len: nat, max: nat, replies: nat -> Reply, k: nat,
                       loaded: nat): (r: seq<byte>)
    requires Ends(len, max, replies, k, loaded) && len <= |buffer|
    ensures |r| == |buffer|
    decreases len - loaded, Left(len, max, replies, k, loaded)
  {
    if loaded >= len then buffer
    else
      var n := BlockSize(len - loaded, max);
      if n > MAXIMUM_SCRATCHPAD_BLOCK_SIZE then buffer
      else
        var after := BufferAfterBlock(buffer, loaded, mem, Address(start, loaded), n, replies(k));
        if Code(replies(k).answer) > 1 then after
        else
          EndsStep(len, max, replies, k, loaded);
          BufferAfter(mem, start, after, len, max, replies, k + 1, loaded + n)
  }

  /* ---------- One round of each ---------- */

  lemma WalkStep(start: nat, len: nat, max: nat, replies: nat -> Reply, k: nat, loaded: nat)
    requires Ends(len, max, replies, k, loaded)
    ensures loaded < len && !Refused(replies, k) ==>
      Ends(len, max, replies, k + 1, loaded + BlockSize(len - loaded, max))
    ensures var w, n := Walk(start, len, max, replies, k, loaded), BlockSize(len - loaded, max);
      && (loaded >= len ==> w == Walked(0, []))
      && (loaded < len && n > MAXIMUM_SCRATCHPAD_BLOCK_SIZE ==> w == Walked(BLOCK_TOO_BIG, []))
      && (loaded < len && n <= MAXIMUM_SCRATCHPAD_BLOCK_SIZE ==>
            var block, c := Block(Address(start, loaded), n), Code(replies(k).answer);
            w == if c > 1 then Walked(c, [block])
                 else var rest := Walk(start, len, max, replies, k + 1, loaded + n);
                   Walked(rest.code, [block] + rest.blocks))
  {
    hide Code, Address, Ends, Left;
    if loaded < len && !Refused(replies, k) { EndsStep(len, max, replies, k, loaded); }
  }

  lemma MemoryStep(mem: Memory, start: nat, bytes: seq<byte>, max: nat, replies: nat -> Reply, k: nat, loaded: nat)
    requires Ends(|bytes|, max, replies, k, loaded)
    ensures loaded < |bytes| && !Refused(replies, k) ==>
      Ends(|bytes|, max, replies, k + 1, loaded + BlockSize(|bytes| - loaded, max))
    ensures var after, n := MemoryAfter(mem, start, bytes, max, replies, k, loaded), BlockSize(|bytes| - loaded, max);
      && (loaded >= |bytes| ==> after == mem)
      && (loaded < |bytes| && n > MAXIMUM_SCRATCHPAD_BLOCK_SIZE ==> after == mem)
      && (loaded < |bytes| && n <= MAXIMUM_SCRATCHPAD_BLOCK_SIZE ==>
            var one := MemoryAfterBlock(mem, Address(start, loaded), bytes[loaded..loaded + n], replies(k));
            after == if Code(replies(k).answer) > 1 then one
                     else MemoryAfter(one, start, bytes, max, replies, k + 1, loaded + n))
  {
    hide Code, Address, MemoryAfterBlock, Ends, Left;
    if loaded < |bytes| && !Refused(replies, k) { EndsStep(|bytes|, max, replies, k, loaded); }
  }

  lemma BufferStep(mem: Memory, start: nat, buffer: seq<byte>, len: nat, max: nat, replies: nat -> Reply, k: nat,
                   loaded: nat)
    requires Ends(len, max, replies, k, loaded) && len <= |buffer|
    ensures loaded < len && !Refused(replies, k) ==>
      Ends(len, max, replies, k + 1, loaded + BlockSize(len - loaded, max))
    ensures var after, n := BufferAfter(mem, start, buffer, len, max, replies, k, loaded), BlockSize(len - loaded, max);
      && (loaded >= len ==> after == buffer)
      && (loaded < len && n > MAXIMUM_SCRATCHPAD_BLOCK_SIZE ==> after == buffer)
      && (loaded < len && n <= MAXIMUM_SCRATCHPAD_BLOCK_SIZE ==>
            var one := BufferAfterBlock(buffer, loaded, mem, Address(start, loaded), n, replies(k));
            after == if Code(replies(k).answer) > 1 then one
                     else BufferAfter(mem, start, one, len, max, replies, k + 1, loaded + n))
  {
    hide Code, Address, BufferAfterBlock, Ends, Left;
    if loaded < len && !Refused(replies, k) { EndsStep(len, max, replies, k, loaded); }
  }

  /* ---------- The loops ---------- */

  class Node {
    const replies: nat -> Reply
    var memory: Memory
    var asked: nat               // block requests so far
    var requests: seq<Block>

    constructor (replies: nat -> Reply, memory: Memory)
      ensures this.replies == replies && this.memory == memory && asked == 0 && requests == []
    {
      this.replies, this.memory := replies, memory;
      asked, requests := 0, [];
    }

    // msap_scratchpad_block_request
    method BlockRequest(address: nat, n: nat, bytes: array<byte>, at: nat) returns (res: Answer)
      requires at + n <= bytes.Length
      modifies this
      ensures n > MAXIMUM_SCRATCHPAD_BLOCK_SIZE ==>
        res == BLOCK_TOO_BIG && memory == old(memory) && asked == old(asked) && requests == old(requests)
      ensures n <= MAXIMUM_SCRATCHPAD_BLOCK_SIZE ==>
        && res == replies(old(asked)).answer && asked == old(asked) + 1
        && requests == old(requests) + [Block(address, n)]
        && memory == MemoryAfterBlock(old(memory), address, bytes[at..at + n], replies(old(asked)))
    {
      if n > MAXIMUM_SCRATCHPAD_BLOCK_SIZE { return BLOCK_TOO_BIG; }
      var reply := replies(asked);
      requests, asked := requests + [Block(address, n)], asked + 1;
      memory := MemoryAfterBlock(memory, address, bytes[at..at + n], reply);
      res := reply.answer;
    }

    // msap_scratchpad_block_read_request
    method BlockReadRequest(address: nat, n: nat, bytes: array<byte>, at: nat) returns (res: Answer)
      requires at + n <= bytes.Length
      modifies this`asked, this`requests, bytes
      ensures n > MAXIMUM_SCRATCHPAD_BLOCK_SIZE ==>
        res == BLOCK_TOO_BIG && bytes[..] == old(bytes[..]) && asked == old(asked) && requests == old(requests)
      ensures n <= MAXIMUM_SCRATCHPAD_BLOCK_SIZE ==>
        && res == replies(old(asked)).answer && asked == old(asked) + 1
        && requests == old(requests) + [Block(address, n)]
        && bytes[..] == BufferAfterBlock(old(bytes[..]), at, memory, address, n, replies(old(asked)))
    {
      if n > MAXIMUM_SCRATCHPAD_BLOCK_SIZE { return BLOCK_TOO_BIG; }
      var reply := replies(asked);
      requests, asked := requests + [Block(address, n)], asked + 1;
      if reply.answer == 0 {
        var confirm := Read(memory, address, n);
        for i := 0 to n
          modifies bytes
          invariant forall j :: 0 <= j < i ==> bytes[at + j] == confirm[j]
          invariant forall j :: 0 <= j < bytes.Length && !(at <= j < at + i) ==> bytes[j] == old(bytes[j])
        {
          bytes[at + i] := confirm[i];
        }
        assert bytes[..] == Patched(old(bytes[..]), at, confirm);
      }
      res := reply.answer;
    }

    // What is asked for so far, continued by the walk from here, is the whole walk.
    ghost predicate ToWalk(whole: Walked, start: nat, len: nat, max: nat, loaded: nat, requests0: seq<Block>)
      requires Ends(len, max, replies, asked, loaded)
      reads this
    {
      var rest := Walk(start, len, max, replies, asked, loaded);
      whole.code == rest.code && requests0 + whole.blocks == requests + rest.blocks
    }

    // WPC_upload_local_block_scratchpad, once the maximum block size is known; code 0 stands for
    // APP_RES_OK.
    method UploadLocalBlockScratchpad(len: nat, bytes: array<byte>, start: nat, max: nat) returns (code: nat)
      requires len <= bytes.Length && Ends(len, max, replies, asked, 0)
      modifies this
      ensures var w := Walk(start, len, max, replies, old(asked), 0);
        code == w.code && requests == old(requests) + w.blocks
      ensures memory == MemoryAfter(old(memory), start, bytes[..len], max, replies, old(asked), 0)
    {
      hide MemoryAfterBlock, Stores, Code, Address, Walk, MemoryAfter, Ends, Left;
      ghost var whole := Walk(start, len, max, replies, asked, 0);
      ghost var after := MemoryAfter(memory, start, bytes[..len], max, replies, asked, 0);
      var loaded := 0;
      while loaded < len
        invariant loaded <= len && Ends(len, max, replies, asked, loaded)
        invariant ToWalk(whole, start, len, max, loaded, old(requests))
        invariant after == MemoryAfter(memory, start, bytes[..len], max, replies, asked, loaded)
        decreases len - loaded, Left(len, max, replies, asked, loaded)
      {
        WalkStep(start, len, max, replies, asked, loaded);
        MemoryStep(memory, start, bytes[..len], max, replies, asked, loaded);
        var remaining := len - loaded;
        var blockSize := if remaining > max then max else remaining;
        assert bytes[..len][loaded..loaded + blockSize] == bytes[loaded..loaded + blockSize];
        var res := BlockRequest(Address(start, loaded), blockSize, bytes, loaded);
        BigBlockCode();
        if Code(res) > 1 { return Code(res); }
        EndsStep(len, max, replies, asked - 1, loaded);
        loaded := loaded + blockSize;
      }
      WalkStep(start, len, max, replies, asked, loaded);
      MemoryStep(memory, start, bytes[..len], max, replies, asked, loaded);
      code := 0;
    }

    // WPC_download_local_scratchpad, likewise
    method DownloadLocalScratchpad(len: nat, bytes: array<byte>, start: nat, max: nat) returns (code: nat)
      requires len <= bytes.Length && Ends(len, max, replies, asked, 0)
      modifies this`asked, this`requests, bytes
      ensures var w := Walk(start, len, max, replies, old(asked), 0);
        code == w.code && requests == old(requests) + w.blocks
      ensures bytes[..] == BufferAfter(memory, start, old(bytes[..]), len, max, replies, old(asked), 0)
    {
      hide BufferAfterBlock, Code, Address, Walk, BufferAfter, Ends, Left;
      ghost var whole := Walk(start, len, max, replies, asked, 0);
      ghost var after := BufferAfter(memory, start, bytes[..], len, max, replies, asked, 0);
      var loaded := 0;
      while loaded < len
        invariant loaded <= len && Ends(len, max, replies, asked, loaded)
        invariant ToWalk(whole, start, len, max, loaded, old(requests))
        invariant after == BufferAfter(memory, start, bytes[..], len, max, replies, asked, loaded)
        decreases len - loaded, Left(len, max, replies, asked, loaded)
      {
        WalkStep(start, len, max, replies, asked, loaded);
        BufferStep(memory, start, bytes[..], len, max, replies, asked, loaded);
        var remaining := len - loaded;
        var blockSize := if remaining > max then max else remaining;
        var res := BlockReadRequest(Address(start, loaded), blockSize, bytes, loaded);
        BigBlockCode();
        if Code(res) > 1 { return Code(res); }
        EndsStep(len, max, replies, asked - 1, loaded);
        loaded := loaded + blockSize;
      }
      WalkStep(start, len, max, replies, asked, loaded);
      BufferStep(memory, start, bytes[..], len, max, replies, asked, loaded);
      code := 0;
    }
  }

  lemma BigBlockCode()
    ensures Code(BLOCK_TOO_BIG) == BLOCK_TOO_BIG
  {
  }

  /* ---------- The blocks tile the range ---------- */

  predicate Fits(start: nat, len: nat, max: nat) {
    && 1 <= max <= MAXIMUM_SCRATCHPAD_BLOCK_SIZE && start + len <= ADDRESSES
  }

  // From loaded on, the i-th block requested is the i-th tile of what remains; all are requested when
  // the transfer succeeds.
  lemma {:induction false} BlocksAre(start: nat, len: nat, max: nat, replies: nat -> Reply, k: nat, loaded: nat)
    requires Fits(start, len, max) && loaded < len
    ensures var w := Walk(start, len, max, replies, k, loaded); var r := len - loaded;
      && 1 <= |w.blocks| <= Count(r, max)
      && (w.code == 0 ==> |w.blocks| == Count(r, max))
      && forall i :: 0 <= i < |w.blocks| ==> w.blocks[i] == Block(start + loaded + i * max, TileSize(r, max, i))
    decreases len - loaded
  {
    hide Count, LastSize, TileSize, Code, Walk;
    var w, r, n := Walk(start, len, max, replies, k, loaded), len - loaded, BlockSize(len - loaded, max);
    WalkUnfolded(start, len, max, replies, k, loaded);
    CountBounds(r, max);
    FirstTile(r, max);
    if Code(replies(k).answer) <= 1 && loaded + n < len {
      BlocksAre(start, len, max, replies, k + 1, loaded + n);
      OneTileLess(r, max);
      var rest := Walk(start, len, max, replies, k + 1, loaded + n);
      forall i | 1 <= i < |w.blocks|
        ensures w.blocks[i] == Block(start + loaded + i * max, TileSize(r, max, i))
      {
        assert w.blocks[i] == rest.blocks[i - 1];
        OneTileLessSize(r, max, i - 1);
        MulMono(i - 1, i, max);
      }
    }
  }

  lemma WalkUnfolded(start: nat, len: nat, max: nat, replies: nat -> Reply, k: nat, loaded: nat)
    requires Fits(start, len, max) && loaded < len
    ensures var w, n := Walk(start, len, max, replies, k, loaded), BlockSize(len - loaded, max);
      && |w.blocks| >= 1 && w.blocks[0] == Block(start + loaded, n)
      && if Code(replies(k).answer) > 1 || loaded + n == len then |w.blocks| == 1
         else var rest := Walk(start, len, max, replies, k + 1, loaded + n);
           w.code == rest.code && w.blocks == [w.blocks[0]] + rest.blocks
    ensures Code(replies(k).answer) > 1 ==> Walk(start, len, max, replies, k, loaded).code > 0
  {
    hide Code;
  }

  // The transfer goes on while the node answers 0 or 1, and reports the first other code.
  lemma {:induction false} AnswersAre(start: nat, len: nat, max: nat, replies: nat -> Reply, k: nat, loaded: nat)
    requires Fits(start, len, max) && loaded < len
    ensures var w := Walk(start, len, max, replies, k, loaded); var last := k + |w.blocks| - 1;
      && last >= k
      && (forall m :: k <= m < last ==> Code(replies(m).answer) <= 1)
      && w.code == if Code(replies(last).answer) <= 1 then 0 else Code(replies(last).answer)
    decreases len - loaded
  {
    hide Code;
    var n := BlockSize(len - loaded, max);
    if Code(replies(k).answer) <= 1 && loaded + n < len {
      AnswersAre(start, len, max, replies, k + 1, loaded + n);
    }
  }

  // The loops' eight bits tell every answer of the node, and no error of the link passes for one of those
  // that go on.
  lemma CodeTells(answer: Answer)
    ensures answer >= 0 ==> Code(answer) == answer
    ensures answer < 0 ==> Code(answer) == 0x100 + answer >= 0x80
  {
  }

  // A limit above 112 makes a longer transfer fail with code 6 before it has asked for anything; a shorter one
  // takes a single block.
  lemma LimitTooLarge(start: nat, len: nat, max: nat, replies: nat -> Reply, k: nat)
    requires max > 112 && len > 0
    ensures var w := Walk(start, len, max, replies, k, 0);
      && (len > 112 ==> w == Walked(6, []))
      && (len <= 112 ==> w.blocks == [Block(start % 0x1_0000_0000, len)])
      && (len <= 112 && 0 <= replies(k).answer <= 1 ==> w.code == 0)
      && (len <= 112 && replies(k).answer > 1 ==> w.code == replies(k).answer)
  {
    hide Left;
    CodeTells(replies(k).answer);
    WalkStep(start, len, max, replies, k, 0);
    if len <= 112 && !Refused(replies, k) { WalkStep(start, len, max, replies, k + 1, len); }
  }

  lemma FirstTile(r: nat, max: nat)
    requires r > 0 && max > 0
    ensures BlockSize(r, max) == TileSize(r, max, 0)
    ensures Count(r, max) == 1 <==> r <= max
  {
    hide LastSize;
    CountBounds(r, max);
    if r <= max {
      QuotientUnique(r + max - 1, max, 1, r - 1);
    } else {
      MulMono(1, Count(r, max) - 1, max);
    }
  }

  lemma OneTileLess(r: nat, max: nat)
    requires max > 0 && r > max
    ensures Count(r, max) == Count(r - max, max) + 1 && LastSize(r, max) == LastSize(r - max, max)
  {
    DivMod(r - max + max - 1, max);
    var q := Count(r - max, max);
    QuotientUnique(r + max - 1, max, q + 1, (r - 1) % max);
    DivMod(r - max, max);
    QuotientUnique(r, max, (r - max) / max + 1, (r - max) % max);
    DivMod(r, max);
  }

  lemma OneTileLessSize(r: nat, max: nat, i: nat)
    requires max > 0 && r > max
    ensures TileSize(r, max, i + 1) == TileSize(r - max, max, i)
  {
    hide Count, LastSize;
    OneTileLess(r, max);
  }

  // A completed transfer asked for exactly the range: its blocks follow one another from start to
  // start + len, none empty and none above the limit.
  lemma BlocksTileRange(start: nat, len: nat, max: nat, replies: nat -> Reply, k: nat)
    requires Fits(start, len, max) && Walk(start, len, max, replies, k, 0).code == 0
    ensures var b := Walk(start, len, max, replies, k, 0).blocks;
      && |b| == Count(len, max)
      && (len > 0 ==> b != [] && b[0].address == start && b[|b| - 1].address + b[|b| - 1].size == start + len)
      && (forall i :: 0 <= i < |b| ==> 1 <= b[i].size <= max)
      && forall i :: 0 <= i < |b| - 1 ==> b[i].address + b[i].size == b[i + 1].address
  {
    hide Count, LastSize, Walk;
    if len > 0 {
      BlocksAre(start, len, max, replies, k, 0);
      var b := Walk(start, len, max, replies, k, 0).blocks;
      forall i | 0 <= i < |b|
        ensures 1 <= b[i].size <= max
        ensures i < |b| - 1 ==> b[i].address + b[i].size == b[i + 1].address
        ensures i == |b| - 1 ==> b[i].address + b[i].size == start + len
      {
        TileBounds(len, max, i);
      }
    } else {
      EmptyWalk(start, max, replies, k);
      QuotientUnique(max - 1, max, 0, max - 1);
      EmptyCount(max);
    }
  }

  lemma EmptyWalk(start: nat, max: nat, replies: nat -> Reply, k: nat)
    requires max > 0
    ensures Walk(start, 0, max, replies, k, 0) == Walked(0, [])
  {
  }

  lemma EmptyCount(max: nat)
    requires max > 0
    ensures Count(0, max) == (max - 1) / max
  {
  }

  /* ---------- Upload, then download ---------- */

  lemma StoredBlock(mem: Memory, address: nat, block: seq<byte>, reply: Reply, a: nat)
    ensures var after := MemoryAfterBlock(mem, address, block, reply);
      && (Code(reply.answer) <= 1 && address <= a < address + |block| ==> after(a) == block[a - address])
      && (!(address <= a < address + |block|) ==> after(a) == mem(a))
  {
  }

  lemma {:induction false} Uploaded(mem: Memory, start: nat, bytes: seq<byte>, max: nat, replies: nat -> Reply,
                                    k: nat, loaded: nat, a: nat)
    requires Fits(start, |bytes|, max) && loaded <= |bytes|
    ensures var after := MemoryAfter(mem, start, bytes, max, replies, k, loaded);
      && (Walk(start, |bytes|, max, replies, k, loaded).code == 0 && start + loaded <= a < start + |bytes| ==>
            after(a) == bytes[a - start])
      && (!(start + loaded <= a < start + |bytes|) ==> after(a) == mem(a))
    decreases |bytes| - loaded
  {
    hide Code, MemoryAfterBlock, Walk, MemoryAfter;
    WalkStep(start, |bytes|, max, replies, k, loaded);
    MemoryStep(mem, start, bytes, max, replies, k, loaded);
    if loaded < |bytes| {
      var n := BlockSize(|bytes| - loaded, max);
      var block := bytes[loaded..loaded + n];
      var next := MemoryAfterBlock(mem, Address(start, loaded), block, replies(k));
      StoredBlock(mem, start + loaded, block, replies(k), a);
      if Code(replies(k).answer) <= 1 {
        Uploaded(next, start, bytes, max, replies, k + 1, loaded + n, a);
      }
    }
  }

  // Octet a of the node's memory after any upload, also one that fails: that of the image if its block was
  // requested and stored, what it was otherwise.
  lemma {:induction false} UploadedExactly(mem: Memory, start: nat, bytes: seq<byte>, max: nat, replies: nat -> Reply,
                                           k: nat, loaded: nat, a: nat)
    requires Fits(start, |bytes|, max) && loaded <= |bytes|
    ensures var w := Walk(start, |bytes|, max, replies, k, loaded);
      MemoryAfter(mem, start, bytes, max, replies, k, loaded)(a)
      == if start + loaded <= a < start + |bytes| && BlockOf(a - start - loaded, max) < |w.blocks|
            && Stores(replies(k + BlockOf(a - start - loaded, max)))
         then bytes[a - start] else mem(a)
    decreases |bytes| - loaded
  {
    hide Code, MemoryAfterBlock, Walk, MemoryAfter, BlockOf, Stores;
    WalkStep(start, |bytes|, max, replies, k, loaded);
    MemoryStep(mem, start, bytes, max, replies, k, loaded);
    if loaded < |bytes| {
      var n := BlockSize(|bytes| - loaded, max);
      var block := bytes[loaded..loaded + n];
      var next := MemoryAfterBlock(mem, Address(start, loaded), block, replies(k));
      StoredExactly(mem, start + loaded, block, replies(k), a);
      if Code(replies(k).answer) <= 1 {
        UploadedExactly(next, start, bytes, max, replies, k + 1, loaded + n, a);
      }
      if a >= start + loaded + max {
        OneBlockLess(a - start - loaded, max);
      } else if a >= start + loaded {
        FirstBlock(a - start - loaded, max);
      }
    }
  }

  lemma StoredExactly(mem: Memory, address: nat, block: seq<byte>, reply: Reply, a: nat)
    ensures MemoryAfterBlock(mem, address, block, reply)(a)
      == if address <= a < address + |block| && Stores(reply) then block[a - address] else mem(a)
  {
  }

  // An accepted upload leaves the image in the node's memory and nothing else changed.
  lemma UploadStores(mem: Memory, start: nat, bytes: seq<byte>, max: nat, replies: nat -> Reply, k: nat)
    requires Fits(start, |bytes|, max) && Walk(start, |bytes|, max, replies, k, 0).code == 0
    ensures var after := MemoryAfter(mem, start, bytes, max, replies, k, 0);
      && Read(after, start, |bytes|) == bytes
      && forall a: nat :: !(start <= a < start + |bytes|) ==> after(a) == mem(a)
  {
    hide MemoryAfter, Walk;
    var after := MemoryAfter(mem, start, bytes, max, replies, k, 0);
    forall a: nat ensures !(start <= a < start + |bytes|) ==> after(a) == mem(a) {
      Uploaded(mem, start, bytes, max, replies, k, 0, a);
    }
    forall i | 0 <= i < |bytes| ensures Read(after, start, |bytes|)[i] == bytes[i] {
      Uploaded(mem, start, bytes, max, replies, k, 0, start + i);
    }
  }

  // The block that octet d of a transfer lies in
  function BlockOf(d: nat, max: nat): nat
    requires max > 0
  {
    d / max
  }

  lemma FirstBlock(d: nat, max: nat)
    requires d < max
    ensures BlockOf(d, max) == 0
  {
    QuotientUnique(d, max, 0, d);
  }

  lemma ReadBlock(mem: Memory, buffer: seq<byte>, at: nat, address: nat, n: nat, reply: Reply, j: nat)
    requires at + n <= |buffer| && j < |buffer|
    ensures BufferAfterBlock(buffer, at, mem, address, n, reply)[j]
      == if at <= j < at + n && reply.answer == 0 then mem(address + (j - at)) else buffer[j]
  {
  }

  // Octet j of the caller's buffer after any download, also one that fails: read from the node if its block was
  // requested and answered 0, what it was otherwise.
  lemma {:induction false} DownloadedExactly(mem: Memory, start: nat, buffer: seq<byte>, len: nat, max: nat,
                                             replies: nat -> Reply, k: nat, loaded: nat, j: nat)
    requires Fits(start, len, max) && len <= |buffer| && loaded <= len && j < |buffer|
    ensures var w := Walk(start, len, max, replies, k, loaded);
      BufferAfter(mem, start, buffer, len, max, replies, k, loaded)[j]
      == if loaded <= j < len && BlockOf(j - loaded, max) < |w.blocks|
            && replies(k + BlockOf(j - loaded, max)).answer == 0
         then mem(start + j) else buffer[j]
    decreases len - loaded
  {
    hide Code, BufferAfterBlock, BlockOf, Walk, BufferAfter;
    WalkStep(start, len, max, replies, k, loaded);
    BufferStep(mem, start, buffer, len, max, replies, k, loaded);
    if loaded < len {
      var n := BlockSize(len - loaded, max);
      var next := BufferAfterBlock(buffer, loaded, mem, Address(start, loaded), n, replies(k));
      ReadBlock(mem, buffer, loaded, start + loaded, n, replies(k), j);
      if Code(replies(k).answer) <= 1 {
        DownloadedExactly(mem, start, next, len, max, replies, k + 1, loaded + n, j);
      }
      if j >= loaded + max {
        OneBlockLess(j - loaded, max);
      } else if j >= loaded {
        FirstBlock(j - loaded, max);
      }
    }
  }

  // Octet j of a download that reports success: read from the node if its block was answered 0, left
  // alone if it was answered 1.
  lemma {:induction false} Downloaded(mem: Memory, start: nat, buffer: seq<byte>, len: nat, max: nat,
                                      replies: nat -> Reply, k: nat, loaded: nat, j: nat)
    requires Fits(start, len, max) && len <= |buffer| && loaded <= len && j < |buffer|
    requires Walk(start, len, max, replies, k, loaded).code == 0
    ensures BufferAfter(mem, start, buffer, len, max, replies, k, loaded)[j]
      == if loaded <= j < len && replies(k + BlockOf(j - loaded, max)).answer == 0 then mem(start + j) else buffer[j]
    decreases len - loaded
  {
    hide Code, BufferAfterBlock, BlockOf, Walk, BufferAfter;
    WalkStep(start, len, max, replies, k, loaded);
    BufferStep(mem, start, buffer, len, max, replies, k, loaded);
    if loaded < len {
      var n := BlockSize(len - loaded, max);
      var next := BufferAfterBlock(buffer, loaded, mem, Address(start, loaded), n, replies(k));
      ReadBlock(mem, buffer, loaded, start + loaded, n, replies(k), j);
      Downloaded(mem, start, next, len, max, replies, k + 1, loaded + n, j);
      if j >= loaded + max {
        OneBlockLess(j - loaded, max);
      } else if j >= loaded {
        FirstBlock(j - loaded, max);
      }
    }
  }

  lemma OneBlockLess(d: nat, max: nat)
    requires max > 0 && d >= max
    ensures BlockOf(d, max) == BlockOf(d - max, max) + 1
  {
    DivMod(d - max, max);
    QuotientUnique(d, max, (d - max) / max + 1, (d - max) % max);
  }

  // Every block of the download is answered 0.
  predicate AllRead(len: nat, max: nat, replies: nat -> Reply, k: nat)
    requires max > 0
  {
    forall m :: k <= m < k + Count(len, max) ==> replies(m).answer == 0
  }

  // The download into buffer leaves the node's memory there.
  predicate Reads(mem: Memory, start: nat, buffer: seq<byte>, len: nat, max: nat, replies: nat -> Reply, k: nat)
    requires max > 0 && |buffer| == len
  {
    BufferAfter(mem, start, buffer, len, max, replies, k, 0) == Read(mem, start, len)
  }

  lemma AllReadReads(mem: Memory, start: nat, buffer: seq<byte>, len: nat, max: nat, replies: nat -> Reply, k: nat)
    requires Fits(start, len, max) && Walk(start, len, max, replies, k, 0).code == 0
    requires AllRead(len, max, replies, k) && |buffer| == len
    ensures Reads(mem, start, buffer, len, max, replies, k)
  {
    hide BufferAfter, Walk, Count, BlockOf, BlockSize, Address;
    forall j | 0 <= j < len ensures BufferAfter(mem, start, buffer, len, max, replies, k, 0)[j] == mem(start + j) {
      Downloaded(mem, start, buffer, len, max, replies, k, 0, j);
      BlockIndex(len, max, j);
    }
  }

  // A download that reports success returns the node's memory, whatever was in the buffer, exactly
  // when no block was answered 1.
  lemma DownloadReadsIff(mem: Memory, start: nat, len: nat, max: nat, replies: nat -> Reply, k: nat)
    requires Fits(start, len, max) && Walk(start, len, max, replies, k, 0).code == 0
    ensures AllRead(len, max, replies, k) <==>
      forall buffer: seq<byte> :: |buffer| == len ==> Reads(mem, start, buffer, len, max, replies, k)
  {
    hide BufferAfter, Walk, Count;
    if AllRead(len, max, replies, k) {
      forall buffer: seq<byte> | |buffer| == len
        ensures Reads(mem, start, buffer, len, max, replies, k)
      {
        AllReadReads(mem, start, buffer, len, max, replies, k);
      }
    } else {
      var m :| k <= m < k + Count(len, max) && replies(m).answer != 0;
      var buffer := NotRead(mem, start, len, max, replies, k, m - k);
    }
  }

  lemma BlockIndex(len: nat, max: nat, j: nat)
    requires max > 0 && j < len
    ensures BlockOf(j, max) < Count(len, max)
  {
    DivMod(j, max);
    CountBounds(len, max);
    if j / max >= Count(len, max) {
      MulMono(Count(len, max), j / max, max);
      MulMono(Count(len, max) - 1, Count(len, max), max);
    }
  }

  lemma FirstOfBlock(len: nat, max: nat, i: nat)
    requires max > 0 && i < Count(len, max)
    ensures 0 <= i * max < len && BlockOf(i * max, max) == i
  {
    if len == 0 { QuotientUnique(max - 1, max, 0, max - 1); }
    TileBounds(len, max, i);
    QuotientUnique(i * max, max, i, 0);
  }

  lemma NotRead(mem: Memory, start: nat, len: nat, max: nat, replies: nat -> Reply, k: nat, i: nat)
    returns (buffer: seq<byte>)
    requires Fits(start, len, max) && Walk(start, len, max, replies, k, 0).code == 0
    requires i < Count(len, max) && replies(k + i).answer != 0
    ensures |buffer| == len && !Reads(mem, start, buffer, len, max, replies, k)
  {
    hide BufferAfter, Walk, Count, BlockOf;
    FirstOfBlock(len, max, i);
    var j := i * max;
    buffer := seq(len, x => mem(start + j) ^ 1);
    Downloaded(mem, start, buffer, len, max, replies, k, 0, j);
    Differs(mem(start + j));
    assert Read(mem, start, len)[j] == mem(start + j);
  }

  lemma Differs(b: byte)
    ensures b ^ 1 != b
  {
  }

  // Both transfers together: whatever the block limits, an accepted upload followed by a download that
  // succeeds with every block answered 0 returns the image.
  lemma DownloadOfUpload(mem: Memory, start: nat, bytes: seq<byte>, buffer: seq<byte>, maxUp: nat, maxDown: nat,
                         up: nat -> Reply, k: nat, down: nat -> Reply, m: nat)
    requires Fits(start, |bytes|, maxUp) && Fits(start, |bytes|, maxDown) && |buffer| == |bytes|
    requires Walk(start, |bytes|, maxUp, up, k, 0).code == 0
    requires Walk(start, |bytes|, maxDown, down, m, 0).code == 0 && AllRead(|bytes|, maxDown, down, m)
    ensures BufferAfter(MemoryAfter(mem, start, bytes, maxUp, up, k, 0), start, buffer, |bytes|, maxDown, down, m, 0)
      == bytes
  {
    hide BufferAfter, MemoryAfter, Walk, AllRead;
    UploadStores(mem, start, bytes, maxUp, up, k);
    AllReadReads(MemoryAfter(mem, start, bytes, maxUp, up, k, 0), start, buffer, |bytes|, maxDown, down, m);
  }

  // The concrete failure: the node answers the only block with 1 and the download reports success.
  lemma DownloadReadsNothing(mem: Memory, old0: byte)
    ensures var replies := (k: nat) => Reply(1, false);
      && Walk(0, 1, 1, replies, 0, 0).code == 0
      && BufferAfter(mem, 0, [old0], 1, 1, replies, 0, 0) == [old0]
  {
    var replies := (k: nat) => Reply(1, false);
    assert Walk(0, 1, 1, replies, 1, 1).code == 0;
    assert BufferAfter(mem, 0, [old0], 1, 1, replies, 1, 1) == [old0];
  }

  /* ---------- Rounds of the loops ---------- */

  // Either loop, numbering its requests from k and having moved loaded octets, is over within n rounds.
  predicate OverWithin(n: nat, len: nat, max: nat, replies: nat -> Reply, k: nat, loaded: nat) {
    loaded >= len
    || (n > 0
        && (BlockSize(len - loaded, max) > MAXIMUM_SCRATCHPAD_BLOCK_SIZE || Refused(replies, k)
            || OverWithin(n - 1, len, max, replies, k + 1, loaded + BlockSize(len - loaded, max))))
  }

  lemma {:induction false} OverEnds(n: nat, len: nat, max: nat, replies: nat -> Reply, k: nat, loaded: nat)
    requires OverWithin(n, len, max, replies, k, loaded)
    ensures Ends(len, max, replies, k, loaded)
  {
    hide Refused;
    if loaded < len && max == 0 && !Refused(replies, k) {
      OverEnds(n - 1, len, max, replies, k + 1, loaded);
    }
  }

  // The walk's blocks count the rounds, but for a last one that may ask for nothing.
  lemma {:induction false} RoundsAre(start: nat, len: nat, max: nat, replies: nat -> Reply, k: nat, loaded: nat)
    requires Ends(len, max, replies, k, loaded)
    ensures var w := Walk(start, len, max, replies, k, loaded);
      && OverWithin(|w.blocks| + 1, len, max, replies, k, loaded)
      && forall n: nat :: OverWithin(n, len, max, replies, k, loaded) ==> n >= |w.blocks|
    decreases len - loaded, Left(len, max, replies, k, loaded)
  {
    hide Ends, Left, Address, Walk;
    WalkStep(start, len, max, replies, k, loaded);
    if loaded < len && BlockSize(len - loaded, max) <= MAXIMUM_SCRATCHPAD_BLOCK_SIZE && !Refused(replies, k) {
      EndsStep(len, max, replies, k, loaded);
      RoundsAre(start, len, max, replies, k + 1, loaded + BlockSize(len - loaded, max));
    }
  }

  // A loop is over after some number of rounds exactly when its node reports a block limit, there is
  // nothing to move, or some request is refused; its walk tells how many rounds that takes.
  lemma EndsIff(start: nat, len: nat, max: nat, replies: nat -> Reply, k: nat)
    ensures (exists n: nat :: OverWithin(n, len, max, replies, k, 0))
      <==> max > 0 || len == 0 || exists m: nat :: k <= m && Refused(replies, m)
    ensures Ends(len, max, replies, k, 0) ==>
      var rounds := |Walk(start, len, max, replies, k, 0).blocks|;
      && OverWithin(rounds + 1, len, max, replies, k, 0)
      && (rounds > 0 ==> !OverWithin(rounds - 1, len, max, replies, k, 0))
  {
    hide Refused, OverWithin, Walk;
    if Ends(len, max, replies, k, 0) {
      RoundsAre(start, len, max, replies, k, 0);
    }
    if exists n: nat :: OverWithin(n, len, max, replies, k, 0) {
      var n: nat :| OverWithin(n, len, max, replies, k, 0);
      OverEnds(n, len, max, replies, k, 0);
    }
  }

  // A node that reports no block limit and refuses nothing keeps both loops going for ever.
  lemma NoLimitNeverEnds(len: nat, n: nat)
    requires len > 0
    ensures !OverWithin(n, len, 0, (m: nat) => Reply(0, true), 0, 0)
  {
    var replies := (m: nat) => Reply(0, true);
    if OverWithin(n, len, 0, replies, 0, 0) {
      OverEnds(n, len, 0, replies, 0, 0);
    }
  }
}
