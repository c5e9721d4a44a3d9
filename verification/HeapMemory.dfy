/** The pool as raw 8-byte words: headers and client payloads share the same storage, and the
    block list exists only as `size`, `free` and `next` fields written between the payloads. */
module HeapMemory {
  import opened HeapBlocks

  const INT_LIMIT := 0x1_0000_0000  // `free` is an int: the low half of its word, the rest is padding

  type Word = w: int | 0 <= w < SIZE_LIMIT

  // The address of memory_pool in words; no object lives at address 0, which encodes NULL.
  type Origin = o: int | 0 < o && 8 * (o + POOL_WORDS) < SIZE_LIMIT witness 1

  function Address(o: Origin, w: int): int { 8 * (o + w) }

  function Low(w: Word): nat { w % INT_LIMIT }

  function WithLow(w: Word, v: nat): (r: Word)
    requires v < INT_LIMIT
    ensures Low(r) == v && r / INT_LIMIT == w / INT_LIMIT
  {
    w / INT_LIMIT * INT_LIMIT + v
  }

  /** The `next` field that block `j` must hold. */
  function Link(o: Origin, bs: seq<Block>, j: nat): Word
    requires Tiling(bs) && j < |bs|
  {
    if j + 1 < |bs| then InPool(bs, j + 1); Address(o, bs[j + 1].at) else 0
  }

  ghost predicate HeaderAt(mem: seq<Word>, at: nat, words: nat, free: bool, next: Word) {
    && at + HEADER <= |mem|
    && mem[at] == 8 * words
    && Low(mem[at + 1]) == (if free then 1 else 0)
    && mem[at + 2] == next
  }

  /** Following `next` from the start of the pool visits exactly the blocks `bs`, which tile it. */
  ghost predicate Represents(o: Origin, mem: seq<Word>, bs: seq<Block>) {
    && |mem| == POOL_WORDS
    && Tiling(bs)
    && forall j :: 0 <= j < |bs| ==> Listed(o, mem, bs, j)
  }

  ghost predicate Listed(o: Origin, mem: seq<Word>, bs: seq<Block>, j: int)
    requires Tiling(bs) && 0 <= j < |bs|
  {
    HeaderAt(mem, bs[j].at, bs[j].words, bs[j].free, Link(o, bs, j))
  }

  /** The list is determined by the memory alone. */
  lemma {:induction false} ListIsUnique(o: Origin, mem: seq<Word>, bs: seq<Block>, cs: seq<Block>)
    requires Represents(o, mem, bs) && Represents(o, mem, cs)
    ensures bs == cs
  {
    SamePrefix(o, mem, bs, cs, |bs|);
    SamePrefix(o, mem, cs, bs, |cs|);
  }

  lemma {:induction false} SamePrefix(o: Origin, mem: seq<Word>, bs: seq<Block>, cs: seq<Block>, n: nat)
    requires Represents(o, mem, bs) && Represents(o, mem, cs) && n <= |bs|
    ensures n <= |cs| && bs[..n] == cs[..n]
  {
    if n == 1 {
      assert Listed(o, mem, bs, 0);
      assert Listed(o, mem, cs, 0);
    } else if n > 1 {
      SamePrefix(o, mem, bs, cs, n - 1);
      assert bs[n - 2] == bs[..n - 1][n - 2] == cs[n - 2];
      assert Listed(o, mem, bs, n - 2);
      assert Listed(o, mem, cs, n - 2);
      assert Listed(o, mem, bs, n - 1);
      assert Listed(o, mem, cs, n - 1);
      assert bs[n - 1] == cs[n - 1];
      assert bs[..n] == bs[..n - 1] + [bs[n - 1]] && cs[..n] == cs[..n - 1] + [cs[n - 1]];
    }
  }

  /** What a header and its successor look like in memory. */
  lemma NextOf(o: Origin, mem: seq<Word>, bs: seq<Block>, k: nat)
    requires Represents(o, mem, bs) && k < |bs|
    ensures bs[k].End() <= |mem| && mem[bs[k].at] == 8 * bs[k].words
    ensures mem[bs[k].at + 2] == 0 <==> k + 1 == |bs|
    ensures k + 1 < |bs| ==>
      && bs[k + 1].at == bs[k].End() && bs[k + 1].End() <= |mem|
      && mem[bs[k].at + 2] / 8 - o == bs[k + 1].at
      && mem[bs[k + 1].at] == 8 * bs[k + 1].words
      && (Low(mem[bs[k + 1].at + 1]) != 0 <==> bs[k + 1].free)
  {
    assert Listed(o, mem, bs, k);
    InPool(bs, k);
    if k + 1 < |bs| {
      assert Follows(bs, k + 1);
      assert Listed(o, mem, bs, k + 1);
      InPool(bs, k + 1);
    }
  }

  // ---------- the writes of each operation ----------

  /** The pool after init_allocator. */
  function InitMemory(mem: seq<Word>): seq<Word>
    requires |mem| == POOL_WORDS
  {
    mem[0 := 8 * (POOL_WORDS - HEADER)][1 := WithLow(mem[1], 1)][2 := 0]
  }

  /** The pool after block `k` of `bs` was handed out for `n` words. */
  function TakeMemory(o: Origin, mem: seq<Word>, bs: seq<Block>, k: nat, n: nat): (r: seq<Word>)
    requires |mem| == POOL_WORDS && Tiling(bs) && k < |bs| && Fits(bs[k], n)
    ensures |r| == |mem|
    ensures forall w :: 0 <= w < |mem| && !(bs[k].at <= w < bs[k].End()) ==> r[w] == mem[w]
  {
    InPool(bs, k);
    var at := bs[k].at;
    var taken := mem[at + 1 := WithLow(mem[at + 1], 0)];
    if !Splits(bs[k], n) then taken else
    var rest := at + HEADER + n;
    taken[rest := 8 * (bs[k].words - n - HEADER)]
         [rest + 1 := WithLow(mem[rest + 1], 1)]
         [rest + 2 := mem[at + 2]]
         [at := 8 * n]
         [at + 2 := Address(o, rest)]
  }

  /** Inside the block handed out only the place of the second header is written. */
  lemma TakeWritesHeaders(o: Origin, mem: seq<Word>, bs: seq<Block>, k: nat, n: nat, w: nat)
    requires |mem| == POOL_WORDS && Tiling(bs) && k < |bs| && Fits(bs[k], n)
    requires bs[k].Payload() <= w < |mem| && !(bs[k].Payload() + n <= w < bs[k].Payload() + n + HEADER)
    ensures TakeMemory(o, mem, bs, k, n)[w] == mem[w]
  {
    InPool(bs, k);
  }

  function AllocMemory(o: Origin, mem: seq<Word>, bs: seq<Block>, n: nat): (r: seq<Word>)
    requires |mem| == POOL_WORDS && Tiling(bs)
    ensures |r| == |mem|
  {
    var k := FirstFit(bs, n);
    if k < |bs| then TakeMemory(o, mem, bs, k, n) else mem
  }

  /** The pool after bby_free of block `k`. */
  function ReleaseMemory(mem: seq<Word>, bs: seq<Block>, k: nat): (r: seq<Word>)
    requires |mem| == POOL_WORDS && Tiling(bs) && k < |bs|
    ensures |r| == |mem|
    ensures forall w :: 0 <= w < |mem| && !(bs[k].at <= w < bs[k].Payload()) ==> r[w] == mem[w]
  {
    InPool(bs, k);
    var at := bs[k].at;
    var freed := mem[at + 1 := WithLow(mem[at + 1], 1)];
    if !MergesForward(bs, k) then freed else
    InPool(bs, k + 1);
    freed[at := 8 * (bs[k].words + HEADER + bs[k + 1].words)][at + 2 := mem[bs[k + 1].at + 2]]
  }

  // ---------- every operation keeps the representation ----------

  /** init_allocator, whatever the pool held before. */
  lemma InitRepresents(o: Origin, mem: seq<Word>)
    requires |mem| == POOL_WORDS
    ensures Represents(o, InitMemory(mem), InitialBlocks())
  {
  }

  /** A header that no write touched is still there. */
  lemma HeaderKept(o: Origin, mem: seq<Word>, bs: seq<Block>, j: nat, mem': seq<Word>)
    requires Represents(o, mem, bs) && j < |bs| && |mem'| == |mem|
    requires forall w :: bs[j].at <= w < bs[j].Payload() && w < |mem| ==> mem'[w] == mem[w]
    ensures Listed(o, mem', bs, j)
  {
    InPool(bs, j);
    assert Listed(o, mem, bs, j);
  }

  /** Blocks other than `k` lie outside block `k`. */
  lemma Apart(bs: seq<Block>, j: nat, k: nat)
    requires Tiling(bs) && j < |bs| && k < |bs| && j != k
    ensures bs[j].End() <= bs[k].at || bs[k].End() <= bs[j].at
  {
    if j < k { Ordered(bs, j, k); } else { Ordered(bs, k, j); }
  }

  lemma TakeRepresents(o: Origin, mem: seq<Word>, bs: seq<Block>, k: nat, n: nat)
    requires Represents(o, mem, bs) && k < |bs| && Fits(bs[k], n)
    ensures Represents(o, TakeMemory(o, mem, bs, k, n), Take(bs, k, n))
  {
    var cs, mem' := Take(bs, k, n), TakeMemory(o, mem, bs, k, n);
    TakeTiles(bs, k, n);
    var grown := if Splits(bs[k], n) then 1 else 0;
    forall j | 0 <= j < |cs| ensures Listed(o, mem', cs, j) {
      if k <= j <= k + grown {
        TakenListed(o, mem, bs, k, n, j);
      } else {
        var i := if j < k then j else j - grown;
        Apart(bs, i, k);
        HeaderKept(o, mem, bs, i, mem');
        assert cs[j] == bs[i] && (i + 1 < |bs| ==> cs[j + 1].at == bs[i + 1].at);
      }
    }
  }

  /** The headers of the block handed out and of the free rest. */
  lemma TakenListed(o: Origin, mem: seq<Word>, bs: seq<Block>, k: nat, n: nat, j: nat)
    requires Represents(o, mem, bs) && k < |bs| && Fits(bs[k], n) && Tiling(Take(bs, k, n))
    requires j == k || (j == k + 1 && Splits(bs[k], n))
    ensures Listed(o, TakeMemory(o, mem, bs, k, n), Take(bs, k, n), j)
  {
    hide Tiling;
    var cs, grown := Take(bs, k, n), if Splits(bs[k], n) then 1 else 0;
    assert Listed(o, mem, bs, k);
    InPool(bs, k);
    assert k + 1 < |bs| ==> cs[k + 1 + grown] == bs[k + 1];
  }

  lemma ReleaseRepresents(o: Origin, mem: seq<Word>, bs: seq<Block>, k: nat)
    requires Represents(o, mem, bs) && Live(bs, k)
    ensures Represents(o, ReleaseMemory(mem, bs, k), Release(bs, k))
  {
    var cs, mem' := Release(bs, k), ReleaseMemory(mem, bs, k);
    ReleaseTiles(bs, k);
    var shrunk := if MergesForward(bs, k) then 1 else 0;
    assert Listed(o, mem, bs, k);
    forall j | 0 <= j < |cs| ensures Listed(o, mem', cs, j) {
      if j < k {
        Apart(bs, j, k);
        HeaderKept(o, mem, bs, j, mem');
        assert cs[j] == bs[j] && cs[j + 1].at == bs[j + 1].at;
      } else if j > k {
        var i := j + shrunk;
        Apart(bs, i, k);
        HeaderKept(o, mem, bs, i, mem');
        assert cs[j] == bs[i] && (i + 1 < |bs| ==> cs[j + 1] == bs[i + 1]);
      } else {
        InPool(bs, k);
        if shrunk == 1 {
          assert Listed(o, mem, bs, k + 1);
          Apart(bs, k, k + 1);
          assert k + 2 < |bs| ==> cs[k + 1] == bs[k + 2];
        } else {
          assert k + 1 < |bs| ==> cs[k + 1] == bs[k + 1];
        }
      }
    }
  }

  // ---------- non-interference ----------

  /** Word `w` belongs to the payload of a block in use. */
  ghost predicate InLivePayload(bs: seq<Block>, w: int) {
    exists k :: Live(bs, k) && bs[k].Payload() <= w < bs[k].End()
  }

  /** A client that writes inside a live payload cannot change the list, whatever it writes. */
  lemma ClientWriteRepresents(o: Origin, mem: seq<Word>, bs: seq<Block>, w: nat, v: Word)
    requires Represents(o, mem, bs) && w < |mem| && InLivePayload(bs, w)
    ensures Represents(o, mem[w := v], bs)
  {
    var k :| Live(bs, k) && bs[k].Payload() <= w < bs[k].End();
    var mem' := mem[w := v];
    forall j | 0 <= j < |bs| ensures Listed(o, mem', bs, j)
    {
      if j != k { Apart(bs, j, k); }
      HeaderKept(o, mem, bs, j, mem');
    }
  }

  /** Allocation leaves every word of every live payload as it was. */
  lemma AllocKeepsPayloads(o: Origin, mem: seq<Word>, bs: seq<Block>, n: nat, w: nat)
    requires |mem| == POOL_WORDS && Tiling(bs) && w < |mem| && InLivePayload(bs, w)
    ensures AllocMemory(o, mem, bs, n)[w] == mem[w]
  {
    var j :| Live(bs, j) && bs[j].Payload() <= w < bs[j].End();
    var k := FirstFit(bs, n);
    if k < |bs| {
      InPool(bs, k);
      Apart(bs, j, k);
    }
  }

  /** Freeing block `k` leaves every word of every live payload, its own included, as it was. */
  lemma ReleaseKeepsPayloads(mem: seq<Word>, bs: seq<Block>, k: nat, w: nat)
    requires |mem| == POOL_WORDS && Tiling(bs) && w < |mem| && Live(bs, k) && InLivePayload(bs, w)
    ensures ReleaseMemory(mem, bs, k)[w] == mem[w]
  {
    var j :| Live(bs, j) && bs[j].Payload() <= w < bs[j].End();
    InPool(bs, k);
    if j != k { Apart(bs, j, k); }
  }
}
