/** The allocator itself, working in place on the pool. */
module Allocator {
  import opened HeapBlocks
  import opened HeapMemory

  const NULL: Word := 0
  const HEADER_BYTES := 8 * HEADER

  class Pool {
    const origin: Origin
    const memory: array<Word>  // memory_pool
    var isInitialized: bool
    ghost var blocks: seq<Block>

    /** Static storage is zero until the first allocation lays out the pool. */
    ghost predicate Valid()
      reads this, memory
    {
      && memory.Length == POOL_WORDS
      && if isInitialized then Represents(origin, memory[..], blocks)
         else blocks == InitialBlocks() && forall w :: 0 <= w < POOL_WORDS ==> memory[w] == 0
    }

    constructor (origin: Origin)
      ensures Valid() && !isInitialized && this.origin == origin && fresh(memory)
    {
      this.origin := origin;
      this.memory := new Word[POOL_WORDS](_ => 0);
      this.isInitialized := false;
      this.blocks := InitialBlocks();
    }

    /** The word a pointer into the pool refers to. */
    function At(p: Word): int { p / 8 - origin }

    method InitAllocator()
      requires memory.Length == POOL_WORDS
      modifies this, memory
      ensures Valid() && isInitialized && blocks == InitialBlocks()
      ensures memory[..] == InitMemory(old(memory[..]))
    {
      memory[0] := 8 * POOL_WORDS - HEADER_BYTES;
      memory[1] := WithLow(memory[1], 1);
      memory[2] := NULL;
      isInitialized := true;
      blocks := InitialBlocks();
      assert memory[..] == InitMemory(old(memory[..]));
      InitRepresents(origin, old(memory[..]));
    }

    /** The block at `curr` marked used, and split when it is larger than the request needs. */
    method HandOut(curr: Word, bytes: Word, ghost k: nat, ghost n: nat)
      requires Valid() && isInitialized && k < |blocks| && Fits(blocks[k], n)
      requires curr == Address(origin, blocks[k].at) && bytes == 8 * n
      modifies this, memory
      ensures Valid() && isInitialized && blocks == Take(old(blocks), k, n)
      ensures memory[..] == TakeMemory(origin, old(memory[..]), old(blocks), k, n)
    {
      NextOf(origin, memory[..], blocks, k);
      TakeRepresents(origin, memory[..], blocks, k, n);
      MarkUsed(curr, bytes, k, n);
      blocks := Take(blocks, k, n);
    }

    method MarkUsed(curr: Word, bytes: Word, ghost k: nat, ghost n: nat)
      requires memory.Length == POOL_WORDS && Tiling(blocks) && k < |blocks| && Fits(blocks[k], n)
      requires curr == Address(origin, blocks[k].at) && bytes == 8 * n
      requires blocks[k].End() <= POOL_WORDS && memory[blocks[k].at] == 8 * blocks[k].words
      modifies memory
      ensures memory[..] == TakeMemory(origin, old(memory[..]), blocks, k, n)
    {
      hide Tiling, WithLow, Low;
      ghost var mem := memory[..];
      var c := At(curr);
      assert c == blocks[k].at;
      memory[c + 1] := WithLow(memory[c + 1], 0);
      assert memory[..] == mem[c + 1 := WithLow(mem[c + 1], 0)];
      if memory[c] > bytes + HEADER_BYTES { SplitOff(c, bytes, n, blocks[k].words); }
    }

    /** A new free block after the first `bytes` of the payload of the block at word `c`. */
    method SplitOff(c: nat, bytes: Word, ghost n: nat, ghost words: nat)
      requires memory.Length == POOL_WORDS && n + HEADER < words && c + HEADER + words <= POOL_WORDS
      requires bytes == 8 * n && memory[c] == 8 * words
      modifies memory
      ensures var mem, rest := old(memory[..]), c + HEADER + n;
        memory[..] == mem[rest := 8 * (words - n - HEADER)][rest + 1 := WithLow(mem[rest + 1], 1)][rest + 2 := mem[c + 2]]
                         [c := 8 * n][c + 2 := Address(origin, rest)]
    {
      hide WithLow, Low;
      var next: Word := Address(origin, c) + HEADER_BYTES + bytes;
      var r := At(next);
      assert r == c + HEADER + n;
      memory[r] := memory[c] - bytes - HEADER_BYTES;
      memory[r + 1] := WithLow(memory[r + 1], 1);
      memory[r + 2] := memory[c + 2];
      memory[c] := bytes;
      memory[c + 2] := next;
    }

    /** First fit: the payload of the lowest free block that is large enough, NULL when there is none. */
    method InternalAllocation(size: Size) returns (p: Word)
      requires Valid()
      modifies this, memory
      ensures Valid() && isInitialized
      ensures var n := RoundedWords(size);
        var k := FirstFit(old(blocks), n);
        var start := if old(isInitialized) then old(memory[..]) else InitMemory(old(memory[..]));
        && (k < |old(blocks)| ==> p == Address(origin, old(blocks)[k].at) + HEADER_BYTES)
        && (k == |old(blocks)| ==> p == NULL)
        && blocks == AllocBlocks(old(blocks), n)
        && memory[..] == AllocMemory(origin, start, old(blocks), n)
    {
      hide Take, TakeMemory, WithLow;
      if !isInitialized { InitAllocator(); }
      ghost var mem, bs := memory[..], blocks;

      var curr := Address(origin, 0);
      var bytes := (size + 7) % SIZE_LIMIT / 8 * 8;
      ghost var n := RoundedWords(size);
      ghost var k := 0;
      while curr != NULL
        invariant k <= |bs| && blocks == bs && memory[..] == mem && isInitialized
        invariant FirstFit(bs, n, k) == FirstFit(bs, n)
        invariant k < |bs| ==> curr == Address(origin, bs[k].at)
        invariant k == |bs| ==> curr == NULL
        decreases |bs| - k
      {
        assert Listed(origin, mem, bs, k);
        InPool(bs, k);
        var c := At(curr);
        assert c == bs[k].at;
        if Low(memory[c + 1]) != 0 && memory[c] >= bytes {
          HandOut(curr, bytes, k, n);
          return curr + HEADER_BYTES;
        }
        curr := memory[c + 2];
        k := k + 1;
      }
      return NULL;
    }

    /** The checked wrapper: 1 and the pointer, or 0 and NULL. */
    method BbyMalloc(size: Size) returns (ok: int, out: Word)
      requires Valid()
      modifies this, memory
      ensures Valid() && isInitialized
      ensures var k := FirstFit(old(blocks), RoundedWords(size));
        && blocks == AllocBlocks(old(blocks), RoundedWords(size))
        && (k == |old(blocks)| ==> ok == 0 && out == NULL)
        && (k < |old(blocks)| ==> ok == 1 && Live(blocks, k) && out == Address(origin, blocks[k].Payload()))
      ensures forall w :: 0 <= w < POOL_WORDS && InLivePayload(old(blocks), w) ==> memory[w] == old(memory[w])
    {
      ghost var n := RoundedWords(size);
      ghost var bs, mem := blocks, if isInitialized then memory[..] else InitMemory(memory[..]);
      ghost var before := memory[..];
      ghost var k := FirstFit(bs, n);
      var result := InternalAllocation(size);
      forall w | 0 <= w < POOL_WORDS && InLivePayload(bs, w) ensures memory[w] == before[w] {
        AllocKeepsPayloads(origin, mem, bs, n, w);
        assert memory[..][w] == mem[w];
      }
      if result == NULL {
        out, ok := NULL, 0;
      } else {
        out, ok := result, 1;
        assert Live(blocks, k) && blocks[k].at == bs[k].at;
        InPool(blocks, k);
      }
    }

    /** Frees a pointer that an earlier allocation returned and nobody freed since; NULL is ignored. */
    method BbyFree(p: Word)
      requires Valid()
      requires p == NULL || exists k :: Live(blocks, k) && p == Address(origin, blocks[k].at) + HEADER_BYTES
      modifies this, memory
      ensures Valid() && isInitialized == old(isInitialized)
      ensures p == NULL ==> blocks == old(blocks) && memory[..] == old(memory[..])
      ensures forall k :: Live(old(blocks), k) && p == Address(origin, old(blocks)[k].at) + HEADER_BYTES ==>
        blocks == Release(old(blocks), k) && memory[..] == ReleaseMemory(old(memory[..]), old(blocks), k)
    {
      if p == NULL { return; }
      ghost var mem, bs := memory[..], blocks;
      ghost var k :| Live(bs, k) && p == Address(origin, bs[k].at) + HEADER_BYTES;
      forall j | Live(bs, j) && p == Address(origin, bs[j].at) + HEADER_BYTES ensures j == k {
        if j != k { Apart(bs, j, k); }
      }
      assert isInitialized;
      InPool(bs, k);
      Unuse(p - HEADER_BYTES, k);
    }

    /** The block at `block` marked free and joined with its successor when that one is free. */
    method Unuse(block: Word, ghost k: nat)
      requires Valid() && isInitialized && Live(blocks, k) && block == Address(origin, blocks[k].at)
      modifies this, memory
      ensures Valid() && isInitialized && blocks == Release(old(blocks), k)
      ensures memory[..] == ReleaseMemory(old(memory[..]), old(blocks), k)
    {
      ReleaseRepresents(origin, memory[..], blocks, k);
      MarkFree(block, k);
      blocks := Release(blocks, k);
    }

    method MarkFree(block: Word, ghost k: nat)
      requires Represents(origin, memory[..], blocks) && Live(blocks, k) && block == Address(origin, blocks[k].at)
      modifies memory
      ensures memory[..] == ReleaseMemory(old(memory[..]), blocks, k)
    {
      NextOf(origin, memory[..], blocks, k);
      hide Represents, Tiling, WithLow, Low;
      ghost var mem := memory[..];
      var c := At(block);
      assert c == blocks[k].at;
      memory[c + 1] := WithLow(memory[c + 1], 1);
      assert memory[..] == mem[c + 1 := WithLow(mem[c + 1], 1)];
      if memory[c + 2] != NULL && Low(memory[At(memory[c + 2]) + 1]) != 0 { JoinNext(c, At(memory[c + 2])); }
    }

    /** The block at word `c` takes over its free successor, header and all. */
    method JoinNext(c: nat, next: nat)
      requires memory.Length == POOL_WORDS && c + HEADER <= next && next + HEADER <= POOL_WORDS
      requires memory[c] + HEADER_BYTES + memory[next] < SIZE_LIMIT
      modifies memory
      ensures var mem := old(memory[..]);
        memory[..] == mem[c := mem[c] + HEADER_BYTES + mem[next]][c + 2 := mem[next + 2]]
    {
      memory[c] := memory[c] + HEADER_BYTES + memory[next];
      memory[c + 2] := memory[next + 2];
    }

    /** The debug walk. It sees the block list, except that before the first allocation the zeroed
        pool reads as one used block of size 0. */
    method DumpAllocatorState() returns (shown: seq<(int, bool)>)
      requires Valid()
      ensures isInitialized ==> |shown| == |blocks| && forall i :: 0 <= i < |shown| ==> shown[i] == (8 * blocks[i].words, blocks[i].free)
      ensures !isInitialized ==> shown == [(0, false)]
    {
      shown := [];
      var curr := Address(origin, 0);
      ghost var k := 0;
      ghost var count := if isInitialized then |blocks| else 1;
      while curr != NULL
        invariant |shown| == k <= count
        invariant k < count ==> curr == Address(origin, if isInitialized then blocks[k].at else 0)
        invariant k == count ==> curr == NULL
        invariant isInitialized ==> forall i :: 0 <= i < k ==> shown[i] == (8 * blocks[i].words, blocks[i].free)
        invariant !isInitialized && k == 1 ==> shown == [(0, false)]
        decreases count - k
      {
        if isInitialized {
          assert Listed(origin, memory[..], blocks, k);
          InPool(blocks, k);
        }
        var c := At(curr);
        shown := shown + [(memory[c], Low(memory[c + 1]) != 0)];
        curr := memory[c + 2];
        k := k + 1;
      }
    }
  }
}
