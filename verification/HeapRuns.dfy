/** Whole runs of the allocator: any mix of allocations, frees of live pointers and client writes. */
module HeapRuns {
  import opened HeapBlocks
  import opened HeapMemory

  datatype Heap = Heap(mem: seq<Word>, bs: seq<Block>)

  // Pointers are named by the pool word their payload starts at.
  datatype Op = Alloc(size: Size) | Free(payload: nat) | Write(word: nat, value: Word)

  /** The live block whose payload starts at `w`, or |bs|. */
  function IndexOf(bs: seq<Block>, w: nat, i: nat := 0): (k: nat)
    requires i <= |bs|
    ensures i <= k <= |bs|
    ensures k < |bs| ==> Live(bs, k) && bs[k].Payload() == w
    ensures forall j :: i <= j < k ==> !(Live(bs, j) && bs[j].Payload() == w)
    decreases |bs| - i
  {
    if i == |bs| || (Live(bs, i) && bs[i].Payload() == w) then i else IndexOf(bs, w, i + 1)
  }

  lemma IndexOfLive(bs: seq<Block>, k: nat)
    requires Tiling(bs) && Live(bs, k)
    ensures IndexOf(bs, bs[k].Payload()) == k
  {
    var j := IndexOf(bs, bs[k].Payload());
    if j < k { Ordered(bs, j, k); }
  }

  ghost predicate Shaped(h: Heap) { |h.mem| == POOL_WORDS && Tiling(h.bs) }

  ghost predicate Legal(h: Heap, op: Op) {
    match op
    case Alloc(_) => true
    case Free(w) => IndexOf(h.bs, w) < |h.bs|
    case Write(w, _) => w < |h.mem| && InLivePayload(h.bs, w)
  }

  ghost function Apply(o: Origin, h: Heap, op: Op): (h': Heap)
    requires Shaped(h) && Legal(h, op)
    ensures Shaped(h')
  {
    match op
    case Alloc(size) =>
      var n := RoundedWords(size);
      (if FirstFit(h.bs, n) < |h.bs| then TakeTiles(h.bs, FirstFit(h.bs, n), n); Heap(AllocMemory(o, h.mem, h.bs, n), AllocBlocks(h.bs, n)) else h)
    case Free(w) =>
      ReleaseTiles(h.bs, IndexOf(h.bs, w));
      Heap(ReleaseMemory(h.mem, h.bs, IndexOf(h.bs, w)), Release(h.bs, IndexOf(h.bs, w)))
    case Write(w, v) => h.(mem := h.mem[w := v])
  }

  ghost predicate LegalRun(o: Origin, h: Heap, ops: seq<Op>)
    requires Shaped(h)
    decreases |ops|
  {
    ops == [] || (Legal(h, ops[0]) && LegalRun(o, Apply(o, h, ops[0]), ops[1..]))
  }

  ghost function Run(o: Origin, h: Heap, ops: seq<Op>): (h': Heap)
    requires Shaped(h) && LegalRun(o, h, ops)
    ensures Shaped(h')
    decreases |ops|
  {
    if ops == [] then h else Run(o, Apply(o, h, ops[0]), ops[1..])
  }

  ghost function Start(mem: seq<Word>): (h: Heap)
    requires |mem| == POOL_WORDS
    ensures Shaped(h)
  {
    Heap(InitMemory(mem), InitialBlocks())
  }

  // ---------- safety: the list read from memory always tiles the pool ----------

  lemma ApplyRepresents(o: Origin, h: Heap, op: Op)
    requires Represents(o, h.mem, h.bs) && Legal(h, op)
    ensures var h' := Apply(o, h, op); Represents(o, h'.mem, h'.bs)
  {
    match op
    case Alloc(size) =>
      var n := RoundedWords(size);
      if FirstFit(h.bs, n) < |h.bs| { TakeRepresents(o, h.mem, h.bs, FirstFit(h.bs, n), n); }
    case Free(w) => ReleaseRepresents(o, h.mem, h.bs, IndexOf(h.bs, w));
    case Write(w, v) => ClientWriteRepresents(o, h.mem, h.bs, w, v);
  }

  lemma {:induction false} RunRepresents(o: Origin, h: Heap, ops: seq<Op>)
    requires Represents(o, h.mem, h.bs) && LegalRun(o, h, ops)
    ensures var h' := Run(o, h, ops); Represents(o, h'.mem, h'.bs)
    decreases |ops|
  {
    if ops != [] {
      ApplyRepresents(o, h, ops[0]);
      RunRepresents(o, Apply(o, h, ops[0]), ops[1..]);
    }
  }

  /** From first use on, whatever the clients do inside their own payloads, walking `next` visits
      blocks that tile the pool and account for every one of its bytes. */
  lemma ReachableHeapTiles(o: Origin, mem: seq<Word>, ops: seq<Op>)
    requires |mem| == POOL_WORDS && LegalRun(o, Start(mem), ops)
    ensures var h := Run(o, Start(mem), ops);
      Represents(o, h.mem, h.bs) && TotalBytes(h.bs) == 1024 * 1024
  {
    InitRepresents(o, mem);
    RunRepresents(o, Start(mem), ops);
    BytesConserved(Run(o, Start(mem), ops).bs);
  }

  // ---------- integrity: nobody else touches a live block ----------

  lemma AllocKeepsBlock(bs: seq<Block>, n: nat, b: Block)
    requires b in bs && !b.free
    ensures b in AllocBlocks(bs, n)
  {
    var j :| 0 <= j < |bs| && bs[j] == b;
    var k, cs := FirstFit(bs, n), AllocBlocks(bs, n);
    if k < |bs| { assert if j < k then cs[j] == b else cs[j + |cs| - |bs|] == b; }
  }

  lemma ReleaseKeepsBlock(bs: seq<Block>, k: nat, b: Block)
    requires k < |bs| && b in bs && !b.free && b != bs[k]
    ensures b in Release(bs, k)
  {
    var j :| 0 <= j < |bs| && bs[j] == b;
    var cs := Release(bs, k);
    assert if j < k then cs[j] == b else cs[j + |cs| - |bs|] == b;
  }

  lemma ApplyKeepsLive(o: Origin, h: Heap, op: Op, b: Block, w: nat)
    requires Shaped(h) && Legal(h, op)
    requires b in h.bs && !b.free && b.Payload() <= w < b.End() && w < |h.mem|
    requires op != Free(b.Payload()) && !(op.Write? && op.word == w)
    ensures var h' := Apply(o, h, op); b in h'.bs && h'.mem[w] == h.mem[w]
  {
    var j :| 0 <= j < |h.bs| && h.bs[j] == b;
    assert Live(h.bs, j) && InLivePayload(h.bs, w);
    match op
    case Alloc(size) =>
      AllocKeepsPayloads(o, h.mem, h.bs, RoundedWords(size), w);
      AllocKeepsBlock(h.bs, RoundedWords(size), b);
    case Free(p) =>
      ReleaseKeepsPayloads(h.mem, h.bs, IndexOf(h.bs, p), w);
      ReleaseKeepsBlock(h.bs, IndexOf(h.bs, p), b);
    case Write(_, _) =>
  }

  /** A word of a live block keeps its value through any run that neither frees the block nor writes
      that word, and the block itself stays where it is. */
  lemma {:induction false} RunKeepsLive(o: Origin, h: Heap, ops: seq<Op>, b: Block, w: nat)
    requires Shaped(h) && LegalRun(o, h, ops)
    requires b in h.bs && !b.free && b.Payload() <= w < b.End() && w < |h.mem|
    requires forall i :: 0 <= i < |ops| ==> ops[i] != Free(b.Payload()) && !(ops[i].Write? && ops[i].word == w)
    ensures var h' := Run(o, h, ops); b in h'.bs && h'.mem[w] == h.mem[w]
    decreases |ops|
  {
    if ops != [] {
      ApplyKeepsLive(o, h, ops[0], b, w);
      RunKeepsLive(o, Apply(o, h, ops[0]), ops[1..], b, w);
    }
  }

  // ---------- what the clients write is there ----------

  /** The value of the last write to word `w`, or `before` if there is none. */
  function LastWritten(ops: seq<Op>, w: nat, before: Word): Word {
    if ops == [] then before
    else var last := ops[|ops| - 1]; if last.Write? && last.word == w then last.value else LastWritten(ops[..|ops| - 1], w, before)
  }

  lemma {:induction false} LastWrittenCons(op: Op, ops: seq<Op>, w: nat, before: Word)
    ensures LastWritten([op] + ops, w, before) == LastWritten(ops, w, if op.Write? && op.word == w then op.value else before)
    decreases |ops|
  {
    var all := [op] + ops;
    if ops == [] {
      assert all[..0] == [];
    } else {
      assert all[..|all| - 1] == [op] + ops[..|ops| - 1] && all[|all| - 1] == ops[|ops| - 1];
      LastWrittenCons(op, ops[..|ops| - 1], w, before);
    }
  }

  /** Every word of a live payload may be written: the write stores its value, and changes no other word and
      no block. */
  lemma WriteStores(o: Origin, h: Heap, k: nat, w: nat, v: Word)
    requires Shaped(h) && Live(h.bs, k) && h.bs[k].Payload() <= w < h.bs[k].End() && w < |h.mem|
    ensures Legal(h, Write(w, v))
    ensures var h' := Apply(o, h, Write(w, v));
      h'.mem[w] == v && h'.bs == h.bs && forall u :: 0 <= u < |h.mem| && u != w ==> h'.mem[u] == h.mem[u]
  {
  }

  /** Every live block may be freed, and any size may be asked for. */
  lemma FreeReleases(o: Origin, h: Heap, k: nat, size: Size)
    requires Shaped(h) && Live(h.bs, k)
    ensures Legal(h, Free(h.bs[k].Payload())) && Legal(h, Alloc(size))
    ensures Apply(o, h, Free(h.bs[k].Payload())) == Heap(ReleaseMemory(h.mem, h.bs, k), Release(h.bs, k))
    ensures Apply(o, h, Alloc(size)) == Heap(AllocMemory(o, h.mem, h.bs, RoundedWords(size)), AllocBlocks(h.bs, RoundedWords(size)))
  {
    IndexOfLive(h.bs, k);
  }

  /** A word of a live block holds what was last written to it, through any run that does not free the
      block; until the first write it keeps the value it had. */
  lemma {:induction false} RunHoldsLastWrite(o: Origin, h: Heap, ops: seq<Op>, b: Block, w: nat)
    requires Shaped(h) && LegalRun(o, h, ops)
    requires b in h.bs && !b.free && b.Payload() <= w < b.End() && w < |h.mem|
    requires forall i :: 0 <= i < |ops| ==> ops[i] != Free(b.Payload())
    ensures var h' := Run(o, h, ops); b in h'.bs && h'.mem[w] == LastWritten(ops, w, h.mem[w])
    decreases |ops|
  {
    if ops != [] {
      var h1 := Apply(o, h, ops[0]);
      assert ops == [ops[0]] + ops[1..];
      LastWrittenCons(ops[0], ops[1..], w, h.mem[w]);
      if ops[0].Write? && ops[0].word == w {
        var j :| 0 <= j < |h.bs| && h.bs[j] == b;
        WriteStores(o, h, j, w, ops[0].value);
      } else {
        ApplyKeepsLive(o, h, ops[0], b, w);
      }
      RunHoldsLastWrite(o, h1, ops[1..], b, w);
    }
  }

  lemma {:induction false} RunConcat(o: Origin, h: Heap, ops: seq<Op>, more: seq<Op>)
    requires Shaped(h) && LegalRun(o, h, ops) && LegalRun(o, Run(o, h, ops), more)
    ensures LegalRun(o, h, ops + more) && Run(o, h, ops + more) == Run(o, Run(o, h, ops), more)
    decreases |ops|
  {
    hide Apply, Legal, Shaped;
    if ops == [] {
      assert ops + more == more;
    } else {
      var h1, rest := Apply(o, h, ops[0]), ops[1..];
      assert LegalRun(o, h1, rest) && Run(o, h, ops) == Run(o, h1, rest);
      RunConcat(o, h1, rest, more);
      assert ops + more == [ops[0]] + (rest + more);
      OneMore(o, h, ops[0], rest + more);
    }
  }

  /** From first use on: what a client last wrote into a block that the operations `ops` allocated is there
      after any further ones that do not free it. */
  lemma WrittenSinceAllocated(o: Origin, mem: seq<Word>, ops: seq<Op>, more: seq<Op>, b: Block, w: nat)
    requires |mem| == POOL_WORDS && LegalRun(o, Start(mem), ops) && LegalRun(o, Run(o, Start(mem), ops), more)
    requires forall i :: 0 <= i < |more| ==> more[i] != Free(b.Payload())
    requires b in Run(o, Start(mem), ops).bs && !b.free && b.Payload() <= w < b.End() && w < POOL_WORDS
    ensures LegalRun(o, Start(mem), ops + more)
    ensures var h' := Run(o, Start(mem), ops + more);
      b in h'.bs && h'.mem[w] == LastWritten(more, w, Run(o, Start(mem), ops).mem[w])
  {
    RunConcat(o, Start(mem), ops, more);
    RunHoldsLastWrite(o, Run(o, Start(mem), ops), more, b, w);
  }

  lemma FirstBlocks()
    ensures RoundedWords(100) == 13 && RoundedWords(8) == 1 && RoundedWords(80) == 10
    ensures var b1 := [Block(0, 13, false), Block(16, POOL_WORDS - 19, true)];
      var b2 := [Block(0, 13, false), Block(16, 1, false), Block(20, POOL_WORDS - 23, true)];
      var b3 := [Block(0, 13, true), Block(16, 1, false), Block(20, POOL_WORDS - 23, true)];
      && AllocBlocks(InitialBlocks(), 13) == b1 && AllocBlocks(b1, 1) == b2 && FirstFit(b1, 1) == 1
      && IndexOf(b2, 3) == 0 && Release(b2, 0) == b3 && AllocBlocks(b3, 10) == b2
  {
    var b1 := [Block(0, 13, false), Block(16, POOL_WORDS - 19, true)];
    FirstFitIs(InitialBlocks(), 13, 0);
    FirstFitIs(b1, 1, 1);
    FirstFitIs([Block(0, 13, true), Block(16, 1, false), Block(20, POOL_WORDS - 23, true)], 10, 0);
  }

  /** The words of the pool after the first allocation, of 100 bytes, and a client write to its payload. */
  lemma FirstAllocation(o: Origin, mem: seq<Word>)
    requires |mem| == POOL_WORDS
    ensures var ops := [Alloc(100), Write(3, 42)];
      && LegalRun(o, Start(mem), ops)
      && var h := Run(o, Start(mem), ops);
      && h.bs == [Block(0, 13, false), Block(16, 131053, true)]
      && h.mem[0] == 104 && Low(h.mem[1]) == 0 && h.mem[2] == 8 * (o + 16)
      && h.mem[3] == 42
      && h.mem[16] == 8 * 131053 && Low(h.mem[17]) == 1 && h.mem[18] == 0
  {
    FirstBlocks();
    var h1 := Apply(o, Start(mem), Alloc(100));
    assert Live(h1.bs, 0) && InLivePayload(h1.bs, 3);
    OneMore(o, h1, Write(3, 42), []);
    OneMore(o, Start(mem), Alloc(100), [Write(3, 42)]);
    assert [Alloc(100)] + [Write(3, 42)] == [Alloc(100), Write(3, 42)] && [Write(3, 42)] + [] == [Write(3, 42)];
    InitRepresents(o, mem);
    ApplyRepresents(o, Start(mem), Alloc(100));
    assert Listed(o, h1.mem, h1.bs, 0) && Listed(o, h1.mem, h1.bs, 1);
  }

  /** A request for 80 bytes gets all of a free block of 104: nothing but a header would be left. */
  lemma ExactFitIsNotCut(o: Origin, mem: seq<Word>)
    requires |mem| == POOL_WORDS
    ensures var ops := [Alloc(100), Alloc(8), Free(3), Alloc(80)];
      && LegalRun(o, Start(mem), ops)
      && Run(o, Start(mem), ops).bs == [Block(0, 13, false), Block(16, 1, false), Block(20, 131049, true)]
  {
    hide FirstFit, RoundedWords, Apply, Run, AllocBlocks, Release, IndexOf, LegalRun, InitMemory;
    FirstBlocks();
    var h := Start(mem);
    assert h.bs == InitialBlocks();
    AppliedBlocks(o, h, Alloc(100));
    var h1 := Apply(o, h, Alloc(100));
    AppliedBlocks(o, h1, Alloc(8));
    var h2 := Apply(o, h1, Alloc(8));
    AppliedBlocks(o, h2, Free(3));
    var h3 := Apply(o, h2, Free(3));
    AppliedBlocks(o, h3, Alloc(80));
    NoOps(o, Apply(o, h3, Alloc(80)));
    hide Legal;
    assert [Alloc(80)] + [] == [Alloc(80)] && [Free(3)] + [Alloc(80)] == [Free(3), Alloc(80)];
    assert [Alloc(8)] + [Free(3), Alloc(80)] == [Alloc(8), Free(3), Alloc(80)];
    assert [Alloc(100)] + [Alloc(8), Free(3), Alloc(80)] == [Alloc(100), Alloc(8), Free(3), Alloc(80)];
    OneMore(o, h3, Alloc(80), []);
    OneMore(o, h2, Free(3), [Alloc(80)]);
    OneMore(o, h1, Alloc(8), [Free(3), Alloc(80)]);
    OneMore(o, h, Alloc(100), [Alloc(8), Free(3), Alloc(80)]);
  }

  // ---------- hollow blocks ----------

  /** Some request in the run rounds to no bytes and is cut from a larger block. */
  ghost predicate CutsNothing(o: Origin, h: Heap, ops: seq<Op>)
    requires Shaped(h) && LegalRun(o, h, ops)
    decreases |ops|
  {
    ops != [] && (
      || (ops[0].Alloc? && RoundedWords(ops[0].size) == 0 && FirstFit(h.bs, 0) < |h.bs| && h.bs[FirstFit(h.bs, 0)].words > 3)
      || CutsNothing(o, Apply(o, h, ops[0]), ops[1..]))
  }

  ghost predicate NoneHollowAfter(o: Origin, h: Heap, ops: seq<Op>, k: nat)
    requires Shaped(h) && LegalRun(o, h, ops) && k <= |ops|
  {
    LegalPrefix(o, h, ops, k);
    NoneHollow(Run(o, h, ops[..k]).bs)
  }

  lemma ApplyHollow(o: Origin, h: Heap, op: Op)
    requires Shaped(h) && Legal(h, op) && NoneHollow(h.bs)
    ensures NoneHollow(Apply(o, h, op).bs) <==>
      !(op.Alloc? && RoundedWords(op.size) == 0 && FirstFit(h.bs, 0) < |h.bs| && h.bs[FirstFit(h.bs, 0)].words > 3)
  {
    match op {
      case Alloc(size) => AllocHollow(h.bs, RoundedWords(size));
      case Free(w) => ReleaseHollow(h.bs, IndexOf(h.bs, w));
      case Write(_, _) =>
    }
  }

  /** Every block of every point of a run, used or free, has at least one word of payload if and only if
      the run never cuts a request of no bytes from a larger block. */
  lemma {:induction false} NeverHollow(o: Origin, h: Heap, ops: seq<Op>)
    requires Shaped(h) && LegalRun(o, h, ops) && NoneHollow(h.bs)
    ensures (forall k :: 0 <= k <= |ops| ==> NoneHollowAfter(o, h, ops, k)) <==> !CutsNothing(o, h, ops)
    decreases |ops|
  {
    hide RoundedWords, FirstFit, NoneHollow, Legal;
    assert NoneHollowAfter(o, h, ops, 0);
    if ops != [] {
      var h1, rest := Apply(o, h, ops[0]), ops[1..];
      ApplyHollow(o, h, ops[0]);
      forall k | 0 < k <= |ops| ensures NoneHollowAfter(o, h, ops, k) <==> NoneHollowAfter(o, h1, rest, k - 1) { HollowStep(o, h, ops, k); }
      assert NoneHollowAfter(o, h1, rest, 0) <==> NoneHollow(h1.bs);
      if NoneHollow(h1.bs) {
        NeverHollow(o, h1, rest);
        if forall k :: 0 <= k <= |ops| ==> NoneHollowAfter(o, h, ops, k) {
          forall k | 0 <= k <= |rest| ensures NoneHollowAfter(o, h1, rest, k) { assert NoneHollowAfter(o, h, ops, k + 1); }
        }
      } else {
        assert !NoneHollowAfter(o, h, ops, 1);
      }
    }
  }

  lemma HollowStep(o: Origin, h: Heap, ops: seq<Op>, k: nat)
    requires Shaped(h) && LegalRun(o, h, ops) && 0 < k <= |ops|
    ensures NoneHollowAfter(o, h, ops, k) <==> NoneHollowAfter(o, Apply(o, h, ops[0]), ops[1..], k - 1)
  {
    LegalPrefix(o, h, ops, k);
    LegalPrefix(o, Apply(o, h, ops[0]), ops[1..], k - 1);
    assert ops[..k][1..] == ops[1..][..k - 1];
  }

  // ---------- fragmentation over runs ----------

  /** The frees in a run that release a block whose lower neighbour is already free. */
  ghost function UpwardFrees(o: Origin, h: Heap, ops: seq<Op>): nat
    requires Shaped(h) && LegalRun(o, h, ops)
    decreases |ops|
  {
    if ops == [] then 0
    else (if ops[0].Free? && LowerNeighbourFree(h.bs, IndexOf(h.bs, ops[0].payload)) then 1 else 0)
         + UpwardFrees(o, Apply(o, h, ops[0]), ops[1..])
  }

  /** Only such frees can leave neighbouring free blocks, one pair each. */
  lemma {:induction false} RunFragmentation(o: Origin, h: Heap, ops: seq<Op>)
    requires Shaped(h) && LegalRun(o, h, ops)
    ensures AdjacentFree(Run(o, h, ops).bs) <= AdjacentFree(h.bs) + UpwardFrees(o, h, ops)
    decreases |ops|
  {
    if ops != [] {
      ApplyFragmentation(o, h, ops[0]);
      RunFragmentation(o, Apply(o, h, ops[0]), ops[1..]);
    }
  }

  lemma {:induction false} LegalPrefix(o: Origin, h: Heap, ops: seq<Op>, k: nat)
    requires Shaped(h) && LegalRun(o, h, ops) && k <= |ops|
    ensures LegalRun(o, h, ops[..k])
    decreases k
  {
    if k > 0 {
      assert ops[..k][1..] == ops[1..][..k - 1];
      LegalPrefix(o, Apply(o, h, ops[0]), ops[1..], k - 1);
    }
  }

  /** No two neighbouring blocks are free after the first `k` operations. */
  ghost predicate CoalescedAfter(o: Origin, h: Heap, ops: seq<Op>, k: nat)
    requires Shaped(h) && LegalRun(o, h, ops) && k <= |ops|
  {
    LegalPrefix(o, h, ops, k);
    AdjacentFree(Run(o, h, ops[..k]).bs) == 0
  }

  lemma CoalescedStep(o: Origin, h: Heap, ops: seq<Op>, k: nat)
    requires Shaped(h) && LegalRun(o, h, ops) && 0 < k <= |ops|
    ensures CoalescedAfter(o, h, ops, k) <==> CoalescedAfter(o, Apply(o, h, ops[0]), ops[1..], k - 1)
  {
    LegalPrefix(o, h, ops, k);
    assert ops[..k][1..] == ops[1..][..k - 1];
  }

  /** Exactly: starting without free pairs, a run never has one at any point if and only if it never
      frees a block above a free neighbour. */
  lemma {:induction false} AlwaysCoalesced(o: Origin, h: Heap, ops: seq<Op>)
    requires Shaped(h) && LegalRun(o, h, ops) && AdjacentFree(h.bs) == 0
    ensures (forall k :: 0 <= k <= |ops| ==> CoalescedAfter(o, h, ops, k)) <==> UpwardFrees(o, h, ops) == 0
    decreases |ops|
  {
    if ops != [] {
      var h1 := Apply(o, h, ops[0]);
      CoalescedStep(o, h, ops, 1);
      ApplyFragmentation(o, h, ops[0]);
      if AdjacentFree(h1.bs) == 0 {
        AlwaysCoalesced(o, h1, ops[1..]);
        forall k | 0 < k <= |ops| ensures CoalescedAfter(o, h, ops, k) <==> CoalescedAfter(o, h1, ops[1..], k - 1) { CoalescedStep(o, h, ops, k); }
        if forall k :: 0 <= k <= |ops| ==> CoalescedAfter(o, h, ops, k) {
          forall k | 0 <= k <= |ops[1..]| ensures CoalescedAfter(o, h1, ops[1..], k) { assert CoalescedAfter(o, h, ops, k + 1); }
        }
      }
    }
  }

  lemma ApplyFragmentation(o: Origin, h: Heap, op: Op)
    requires Shaped(h) && Legal(h, op)
    ensures var upward := op.Free? && LowerNeighbourFree(h.bs, IndexOf(h.bs, op.payload));
      && AdjacentFree(Apply(o, h, op).bs) <= AdjacentFree(h.bs) + (if upward then 1 else 0)
      && (upward ==> AdjacentFree(Apply(o, h, op).bs) == AdjacentFree(h.bs) + 1)
  {
    match op {
      case Alloc(size) =>
        if FirstFit(h.bs, RoundedWords(size)) < |h.bs| { AllocFragmentation(h.bs, RoundedWords(size)); }
      case Free(w) => FreeFragmentation(h.bs, IndexOf(h.bs, w));
      case Write(_, _) =>
    }
  }

  lemma AppliedBlocks(o: Origin, h: Heap, op: Op)
    requires Shaped(h) && Legal(h, op)
    ensures Apply(o, h, op).bs ==
      if op.Alloc? then AllocBlocks(h.bs, RoundedWords(op.size))
      else if op.Free? then Release(h.bs, IndexOf(h.bs, op.payload))
      else h.bs
  {
  }

  lemma OneMore(o: Origin, h: Heap, op: Op, rest: seq<Op>)
    requires Shaped(h) && Legal(h, op) && LegalRun(o, Apply(o, h, op), rest)
    ensures LegalRun(o, h, [op] + rest) && Run(o, h, [op] + rest) == Run(o, Apply(o, h, op), rest)
  {
    assert ([op] + rest)[1..] == rest;
  }

  lemma TwoBlocksUpwards()
    ensures RoundedWords(8) == 1
    ensures var b1 := [Block(0, 1, false), Block(4, POOL_WORDS - 7, true)];
      var b2 := [Block(0, 1, false), Block(4, 1, false), Block(8, POOL_WORDS - 11, true)];
      var b3 := [Block(0, 1, true), Block(4, 1, false), Block(8, POOL_WORDS - 11, true)];
      && AllocBlocks(InitialBlocks(), 1) == b1 && FirstFit(InitialBlocks(), 1) == 0
      && AllocBlocks(b1, 1) == b2 && FirstFit(b1, 1) == 1
      && IndexOf(b2, 3) == 0 && Release(b2, 0) == b3
      && IndexOf(b3, 7) == 1 && Release(b3, 1) == [Block(0, 1, true), Block(4, POOL_WORDS - 7, true)]
  {
    var b1 := [Block(0, 1, false), Block(4, POOL_WORDS - 7, true)];
    var b3 := [Block(0, 1, true), Block(4, 1, false), Block(8, POOL_WORDS - 11, true)];
    FirstFitIs(b1, 1, 1);
    assert IndexOf(b3, 7, 1) == 1;
  }

  /** The documented "combine adjacent free blocks" fails for two blocks freed in the order they
      were allocated: all of the pool is free again, yet in two pieces, and the request that the
      fresh pool would satisfy is refused. */
  lemma FreeingUpwardsFragments(o: Origin, mem: seq<Word>)
    requires |mem| == POOL_WORDS
    ensures var ops := [Alloc(8), Alloc(8), Free(3), Free(7)];
      && LegalRun(o, Start(mem), ops)
      && var bs := Run(o, Start(mem), ops).bs;
      && (forall k :: 0 <= k < |bs| ==> bs[k].free)
      && AdjacentFree(bs) == 1
      && FirstFit(InitialBlocks(), POOL_WORDS - HEADER) == 0
      && FirstFit(bs, POOL_WORDS - HEADER) == |bs|
  {
    TwoBlocksUpwards();
    var h1 := Apply(o, Start(mem), Alloc(8));
    var h2 := Apply(o, h1, Alloc(8));
    var h3 := Apply(o, h2, Free(3));
    var h4 := Apply(o, h3, Free(7));
    OneMore(o, h3, Free(7), []);
    OneMore(o, h2, Free(3), [Free(7)]);
    OneMore(o, h1, Alloc(8), [Free(3), Free(7)]);
    OneMore(o, Start(mem), Alloc(8), [Alloc(8), Free(3), Free(7)]);
    assert [Alloc(8)] + [Alloc(8), Free(3), Free(7)] == [Alloc(8), Alloc(8), Free(3), Free(7)];
    assert [Alloc(8)] + [Free(3), Free(7)] == [Alloc(8), Free(3), Free(7)];
    assert [Free(3)] + [Free(7)] == [Free(3), Free(7)];
    assert [Free(7)] + [] == [Free(7)];
    assert h4.bs == [Block(0, 1, true)] + [Block(4, POOL_WORDS - 7, true)];
    AdjacentFreeSplit([Block(0, 1, true)], [Block(4, POOL_WORDS - 7, true)]);
  }

  // ---------- stack discipline ----------

  /** The live pointers, oldest first, after one operation. */
  ghost function NextStack(h: Heap, op: Op, stack: seq<nat>): seq<nat> {
    match op
    case Alloc(size) =>
      var k := FirstFit(h.bs, RoundedWords(size));
      if k < |h.bs| then stack + [h.bs[k].Payload()] else stack
    case Free(_) => if stack == [] then [] else stack[..|stack| - 1]
    case Write(_, _) => stack
  }

  ghost function FinalStack(o: Origin, h: Heap, ops: seq<Op>, stack: seq<nat>): seq<nat>
    requires Shaped(h) && LegalRun(o, h, ops)
    decreases |ops|
  {
    if ops == [] then stack else FinalStack(o, Apply(o, h, ops[0]), ops[1..], NextStack(h, ops[0], stack))
  }

  /** Every free releases the most recently allocated pointer that is still live. */
  ghost predicate LastInFirstOut(o: Origin, h: Heap, ops: seq<Op>, stack: seq<nat>)
    requires Shaped(h) && LegalRun(o, h, ops)
    decreases |ops|
  {
    ops == [] || (
      && (ops[0].Free? ==> stack != [] && stack[|stack| - 1] == ops[0].payload)
      && LastInFirstOut(o, Apply(o, h, ops[0]), ops[1..], NextStack(h, ops[0], stack)))
  }

  /** Used blocks in allocation order, then at most one free tail. */
  ghost predicate StackShape(bs: seq<Block>, stack: seq<nat>) {
    && |stack| <= |bs| <= |stack| + 1
    && (forall i :: 0 <= i < |stack| ==> Live(bs, i) && bs[i].Payload() == stack[i])
    && (|bs| == |stack| + 1 ==> bs[|stack|].free)
  }

  lemma AllocStackShape(bs: seq<Block>, n: nat, stack: seq<nat>)
    requires StackShape(bs, stack)
    ensures var k := FirstFit(bs, n);
      StackShape(AllocBlocks(bs, n), if k < |bs| then stack + [bs[k].Payload()] else stack)
  {
    var k := FirstFit(bs, n);
    assert k < |stack| ==> Live(bs, k);
  }

  lemma ReleaseStackShape(bs: seq<Block>, stack: seq<nat>)
    requires StackShape(bs, stack) && stack != []
    ensures StackShape(Release(bs, |stack| - 1), stack[..|stack| - 1])
  {
    assert Live(bs, |stack| - 1);
  }

  lemma ApplyStackShape(o: Origin, h: Heap, op: Op, stack: seq<nat>)
    requires Shaped(h) && Legal(h, op) && StackShape(h.bs, stack)
    requires op.Free? ==> stack != [] && stack[|stack| - 1] == op.payload
    ensures StackShape(Apply(o, h, op).bs, NextStack(h, op, stack))
  {
    if op.Alloc? {
      AllocStackShape(h.bs, RoundedWords(op.size), stack);
    } else if op.Free? {
      assert Live(h.bs, |stack| - 1);
      IndexOfLive(h.bs, |stack| - 1);
      ReleaseStackShape(h.bs, stack);
    }
  }

  /** A last-in-first-out run keeps the stack shape, and once everything is released the pool is a
      single free block of POOL_SIZE - 24 bytes again. */
  lemma {:induction false} StackRun(o: Origin, h: Heap, ops: seq<Op>, stack: seq<nat>)
    requires Shaped(h) && LegalRun(o, h, ops) && StackShape(h.bs, stack) && LastInFirstOut(o, h, ops, stack)
    ensures var bs, rest := Run(o, h, ops).bs, FinalStack(o, h, ops, stack);
      StackShape(bs, rest) && (rest == [] ==> bs == InitialBlocks())
    decreases |ops|
  {
    if ops != [] {
      ApplyStackShape(o, h, ops[0], stack);
      StackRun(o, Apply(o, h, ops[0]), ops[1..], NextStack(h, ops[0], stack));
    }
  }

  lemma StackBlocks()
    ensures var b1 := [Block(0, 13, false), Block(16, POOL_WORDS - 19, true)];
      var b2 := [Block(0, 13, false), Block(16, 1, false), Block(20, POOL_WORDS - 23, true)];
      && IndexOf(b2, 19) == 1 && Release(b2, 1) == b1 && IndexOf(b1, 3) == 0 && Release(b1, 0) == InitialBlocks()
      && FirstFit(InitialBlocks(), 13) == 0
  {
    FirstFitIs(InitialBlocks(), 13, 0);
    var b2 := [Block(0, 13, false), Block(16, 1, false), Block(20, POOL_WORDS - 23, true)];
    assert IndexOf(b2, 19, 1) == 1;
  }

  /** Two allocations freed in the opposite order: such a run, and its pool is as it was. */
  lemma StackExample(o: Origin, mem: seq<Word>)
    requires |mem| == POOL_WORDS
    ensures var ops := [Alloc(100), Alloc(8), Free(19), Free(3)];
      && LegalRun(o, Start(mem), ops) && LastInFirstOut(o, Start(mem), ops, [])
      && Run(o, Start(mem), ops).bs == [Block(0, 131069, true)]
  {
    hide FirstFit, RoundedWords, Apply, Run, AllocBlocks, Release, IndexOf, LegalRun, LastInFirstOut, InitMemory;
    FirstBlocks();
    StackBlocks();
    var h := Start(mem);
    assert h.bs == InitialBlocks();
    AppliedBlocks(o, h, Alloc(100));
    var h1 := Apply(o, h, Alloc(100));
    AppliedBlocks(o, h1, Alloc(8));
    var h2 := Apply(o, h1, Alloc(8));
    AppliedBlocks(o, h2, Free(19));
    var h3 := Apply(o, h2, Free(19));
    AppliedBlocks(o, h3, Free(3));
    NoOps(o, Apply(o, h3, Free(3)));
    assert NextStack(h, Alloc(100), []) == [3] && NextStack(h1, Alloc(8), [3]) == [3, 19] && NextStack(h2, Free(19), [3, 19]) == [3];
    hide Legal, NextStack;
    assert [Free(3)] + [] == [Free(3)] && [Free(19)] + [Free(3)] == [Free(19), Free(3)];
    assert [Alloc(8)] + [Free(19), Free(3)] == [Alloc(8), Free(19), Free(3)];
    assert [Alloc(100)] + [Alloc(8), Free(19), Free(3)] == [Alloc(100), Alloc(8), Free(19), Free(3)];
    OneMoreStacked(o, h3, Free(3), [], [3]);
    OneMoreStacked(o, h2, Free(19), [Free(3)], [3, 19]);
    OneMoreStacked(o, h1, Alloc(8), [Free(19), Free(3)], [3]);
    OneMoreStacked(o, h, Alloc(100), [Alloc(8), Free(19), Free(3)], []);
  }

  lemma NoOps(o: Origin, h: Heap)
    requires Shaped(h)
    ensures LegalRun(o, h, []) && Run(o, h, []) == h && forall stack :: LastInFirstOut(o, h, [], stack)
  {
  }

  lemma OneMoreStacked(o: Origin, h: Heap, op: Op, rest: seq<Op>, stack: seq<nat>)
    requires Shaped(h) && Legal(h, op) && LegalRun(o, Apply(o, h, op), rest)
    requires LastInFirstOut(o, Apply(o, h, op), rest, NextStack(h, op, stack))
    requires op.Free? ==> stack != [] && stack[|stack| - 1] == op.payload
    ensures LegalRun(o, h, [op] + rest) && Run(o, h, [op] + rest) == Run(o, Apply(o, h, op), rest)
    ensures LastInFirstOut(o, h, [op] + rest, stack)
  {
    assert ([op] + rest)[1..] == rest;
  }
}
