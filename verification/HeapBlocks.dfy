/** The block list of the allocator, as a value: what one walk along `next` sees.
    Positions and sizes are counted in 8-byte words, so a header is three words. */
module HeapBlocks {
  const HEADER := 3            // sizeof(block_meta) == 24 on LP64
  const POOL_WORDS := 131072   // POOL_SIZE / 8
  const SIZE_LIMIT := 0x1_0000_0000_0000_0000  // size_t is 64 bits wide

  datatype Block = Block(at: nat, words: nat, free: bool) {
    function Payload(): nat { at + HEADER }
    function End(): nat { at + HEADER + words }
  }

  // A request as size_t; `(size + 7) & ~7` wraps around at the top of the type.
  type Size = n: int | 0 <= n < SIZE_LIMIT

  function RoundedWords(size: Size): nat { (size + 7) % SIZE_LIMIT / 8 }

  /** The blocks cover the pool from its first word to its last, with no gap and no overlap. */
  ghost predicate Tiling(bs: seq<Block>) {
    && |bs| > 0
    && bs[0].at == 0
    && bs[|bs| - 1].End() == POOL_WORDS
    && forall i :: 0 < i < |bs| ==> Follows(bs, i)
  }

  predicate Follows(bs: seq<Block>, i: int)
    requires 0 < i < |bs|
  {
    bs[i].at == bs[i - 1].End()
  }

  function InitialBlocks(): seq<Block> { [Block(0, POOL_WORDS - HEADER, true)] }

  lemma {:induction false} Ordered(bs: seq<Block>, i: nat, j: nat)
    requires Tiling(bs) && i < j < |bs|
    ensures bs[i].End() <= bs[j].at
    decreases j
  {
    assert Follows(bs, j);
    if i < j - 1 { Ordered(bs, i, j - 1); }
  }

  lemma InPool(bs: seq<Block>, i: nat)
    requires Tiling(bs) && i < |bs|
    ensures bs[i].End() <= POOL_WORDS
  {
    if i < |bs| - 1 { Ordered(bs, i, |bs| - 1); }
  }

  // ---------- first fit ----------

  predicate Fits(b: Block, n: nat) { b.free && b.words >= n }

  /** The lowest block from `i` on that a request of `n` words fits into. */
  function FirstFit(bs: seq<Block>, n: nat, i: nat := 0): (k: nat)
    requires i <= |bs|
    ensures i <= k <= |bs|
    ensures k < |bs| ==> Fits(bs[k], n)
    ensures forall j :: i <= j < k ==> !Fits(bs[j], n)
    decreases |bs| - i
  {
    if i == |bs| || Fits(bs[i], n) then i else FirstFit(bs, n, i + 1)
  }

  lemma FirstFitIs(bs: seq<Block>, n: nat, k: nat)
    requires k < |bs| && Fits(bs[k], n)
    requires forall j :: 0 <= j < k ==> !Fits(bs[j], n)
    ensures FirstFit(bs, n) == k
  {
    assert !(FirstFit(bs, n) < k);
  }

  predicate Splits(b: Block, n: nat) { b.words > n + HEADER }

  /** Block `k` given to a request of `n` words: split when a header and more than nothing is left. */
  function Take(bs: seq<Block>, k: nat, n: nat): seq<Block>
    requires k < |bs| && Fits(bs[k], n)
  {
    var b := bs[k];
    if Splits(b, n) then
      bs[..k] + [Block(b.at, n, false), Block(b.at + HEADER + n, b.words - n - HEADER, true)] + bs[k + 1..]
    else
      bs[..k] + [b.(free := false)] + bs[k + 1..]
  }

  function AllocBlocks(bs: seq<Block>, n: nat): seq<Block> {
    var k := FirstFit(bs, n);
    if k < |bs| then Take(bs, k, n) else bs
  }

  predicate Live(bs: seq<Block>, k: int) { 0 <= k < |bs| && !bs[k].free }

  predicate MergesForward(bs: seq<Block>, k: nat) { k + 1 < |bs| && bs[k + 1].free }

  /** Block `k` freed: merged with its successor when that one is free, never with its predecessor. */
  function Release(bs: seq<Block>, k: nat): seq<Block>
    requires k < |bs|
  {
    if MergesForward(bs, k) then
      bs[..k] + [Block(bs[k].at, bs[k].words + HEADER + bs[k + 1].words, true)] + bs[k + 2..]
    else
      bs[..k] + [bs[k].(free := true)] + bs[k + 1..]
  }

  // ---------- the new lists, block by block ----------

  /** Allocation touches the lowest free block that is large enough and no other. One that holds more
      than the request and a header is cut: exactly the request stays in front, used, and all that is
      left behind the second header is free. One that does not is handed out whole. */
  lemma AllocatedBlocks(bs: seq<Block>, n: nat)
    ensures var k, cs := FirstFit(bs, n), AllocBlocks(bs, n);
      && (k == |bs| ==> cs == bs)
      && (k < |bs| ==>
        var cut := 8 * bs[k].words > 8 * n + 24;
        && |cs| == |bs| + (if cut then 1 else 0)
        && cs[k] == Block(bs[k].at, if cut then n else bs[k].words, false)
        && (cut ==> cs[k + 1] == Block(bs[k].at + 3 + n, bs[k].words - n - 3, true) && cs[k + 1].words > 0)
        && (forall j :: 0 <= j < k ==> cs[j] == bs[j])
        && (forall j :: k < j < |bs| ==> cs[j + |cs| - |bs|] == bs[j]))
  {
    hide FirstFit, Take;
    if FirstFit(bs, n) < |bs| { TakenBlocks(bs, FirstFit(bs, n), n); }
  }

  lemma TakenBlocks(bs: seq<Block>, k: nat, n: nat)
    requires k < |bs| && Fits(bs[k], n)
    ensures var cs, cut := Take(bs, k, n), bs[k].words > n + 3;
      && |cs| == |bs| + (if cut then 1 else 0)
      && cs[k] == Block(bs[k].at, if cut then n else bs[k].words, false)
      && (cut ==> cs[k + 1] == Block(bs[k].at + 3 + n, bs[k].words - n - 3, true))
      && (forall j :: 0 <= j < k ==> cs[j] == bs[j])
      && (forall j :: k < j < |bs| ==> cs[j + |cs| - |bs|] == bs[j])
  {
  }

  /** Freeing joins a block with a free successor, whose header becomes part of the payload, and leaves every
      other block as it was. */
  lemma ReleasedBlocks(bs: seq<Block>, k: nat, j: nat)
    requires k < |bs| && j < |bs|
    ensures var joined, cs := k + 1 < |bs| && bs[k + 1].free, Release(bs, k);
      && |cs| == |bs| - (if joined then 1 else 0)
      && cs[k] == Block(bs[k].at, if joined then bs[k].words + 3 + bs[k + 1].words else bs[k].words, true)
      && (j < k ==> cs[j] == bs[j])
      && (j > k && !joined ==> cs[j] == bs[j])
      && (j > k + 1 && joined ==> cs[j - 1] == bs[j])
  {
    hide Release;
    ReleaseForm(bs, k);
  }

  lemma ReleaseForm(bs: seq<Block>, k: nat)
    requires k < |bs|
    ensures Release(bs, k) ==
      if k + 1 < |bs| && bs[k + 1].free then bs[..k] + [Block(bs[k].at, bs[k].words + 3 + bs[k + 1].words, true)] + bs[k + 2..]
      else bs[..k] + [Block(bs[k].at, bs[k].words, true)] + bs[k + 1..]
  {
  }

  /** No block has a payload of no bytes. */
  ghost predicate NoneHollow(bs: seq<Block>) { forall k :: 0 <= k < |bs| ==> bs[k].words > 0 }

  /** Only a request that rounds to nothing and is cut from a larger block makes a hollow block. */
  lemma AllocHollow(bs: seq<Block>, n: nat)
    requires NoneHollow(bs)
    ensures var k := FirstFit(bs, n);
      NoneHollow(AllocBlocks(bs, n)) <==> !(n == 0 && k < |bs| && bs[k].words > 3)
  {
    hide FirstFit, AllocBlocks;
    AllocatedBlocks(bs, n);
    var k, cs := FirstFit(bs, n), AllocBlocks(bs, n);
    if k < |bs| && !(n == 0 && bs[k].words > 3) {
      forall i | 0 <= i < |cs| ensures cs[i].words > 0 {
        if i > k + |cs| - |bs| { assert cs[i] == bs[i - (|cs| - |bs|)]; }
      }
    }
  }

  lemma ReleaseHollow(bs: seq<Block>, k: nat)
    requires NoneHollow(bs) && k < |bs|
    ensures NoneHollow(Release(bs, k))
  {
    hide Release;
    ReleasedBlocks(bs, k, k);
    var cs := Release(bs, k);
    forall i | 0 <= i < |cs| ensures cs[i].words > 0 {
      if i < k { ReleasedBlocks(bs, k, i); }
      if i > k { ReleasedBlocks(bs, k, i + (|bs| - |cs|)); }
    }
  }

  lemma TakeTiles(bs: seq<Block>, k: nat, n: nat)
    requires Tiling(bs) && k < |bs| && Fits(bs[k], n)
    ensures Tiling(Take(bs, k, n))
  {
    var cs := Take(bs, k, n);
    var grown := if Splits(bs[k], n) then 1 else 0;
    forall i | 0 < i < |cs| ensures Follows(cs, i) {
      if i <= k { assert Follows(bs, i); }
      else if i > k + grown {
        assert cs[i] == bs[i - grown];
        assert Follows(bs, i - grown);
      }
    }
    assert cs[|cs| - 1].End() == bs[|bs| - 1].End();
  }

  lemma ReleaseTiles(bs: seq<Block>, k: nat)
    requires Tiling(bs) && k < |bs|
    ensures Tiling(Release(bs, k))
  {
    var cs := Release(bs, k);
    var shrunk := if MergesForward(bs, k) then 1 else 0;
    if shrunk == 1 { assert Follows(bs, k + 1); }
    forall i | 0 < i < |cs| ensures Follows(cs, i) {
      if i <= k { assert Follows(bs, i); }
      else {
        assert cs[i] == bs[i + shrunk];
        assert Follows(bs, i + shrunk);
      }
    }
    assert cs[|cs| - 1].End() == bs[|bs| - 1].End();
  }

  // ---------- conservation ----------

  /** Bytes held by headers and payloads together. */
  function TotalBytes(bs: seq<Block>): nat {
    if bs == [] then 0 else TotalBytes(bs[..|bs| - 1]) + 24 + 8 * bs[|bs| - 1].words
  }

  lemma {:induction false} PrefixBytes(bs: seq<Block>, i: nat)
    requires Tiling(bs) && i < |bs|
    ensures TotalBytes(bs[..i + 1]) == 8 * bs[i].End()
  {
    assert bs[..i + 1][..i] == bs[..i];
    if i > 0 {
      PrefixBytes(bs, i - 1);
      assert Follows(bs, i);
    }
  }

  /** Nothing leaks: the headers and payloads of a tiling add up to POOL_SIZE bytes. */
  lemma BytesConserved(bs: seq<Block>)
    requires Tiling(bs)
    ensures TotalBytes(bs) == 8 * POOL_WORDS == 1024 * 1024
  {
    PrefixBytes(bs, |bs| - 1);
    assert bs[..|bs|] == bs;
  }

  // ---------- allocate, then free ----------

  /** Freeing what was just allocated restores the list if the block was split; if it was taken
      whole, the only trace is that it is now merged with a free successor. */
  lemma AllocThenFree(bs: seq<Block>, n: nat)
    requires Tiling(bs) && FirstFit(bs, n) < |bs|
    ensures var k := FirstFit(bs, n);
      Release(AllocBlocks(bs, n), k) ==
        if bs[k].words <= n + 3 && k + 1 < |bs| && bs[k + 1].free then Release(bs, k) else bs
  {
    hide FirstFit, Tiling, Take, Release;
    TakeThenRelease(bs, FirstFit(bs, n), n);
  }

  lemma TakeThenRelease(bs: seq<Block>, k: nat, n: nat)
    requires k < |bs| && Fits(bs[k], n)
    ensures Release(Take(bs, k, n), k) == if !Splits(bs[k], n) && MergesForward(bs, k) then Release(bs, k) else bs
  {
    hide Release;
    var left, b, right := bs[..k], bs[k], bs[k + 1..];
    TakeBetween(bs, k, n);
    hide Take;
    assert bs == left + [b] + right;
    if Splits(b, n) {
      CutBetween(left, b, right, n);
    } else {
      ReleaseBetween(left, b, right);
      ReleaseBetween(left, b.(free := false), right);
    }
  }

  lemma CutBetween(left: seq<Block>, b: Block, right: seq<Block>, n: nat)
    requires b.free && Splits(b, n)
    ensures var rest := [Block(b.at + HEADER + n, b.words - n - HEADER, true)];
      Release(left + [Block(b.at, n, false)] + (rest + right), |left|) == left + [b] + right
  {
    hide Release;
    var rest := [Block(b.at + HEADER + n, b.words - n - HEADER, true)];
    ReleaseBetween(left, Block(b.at, n, false), rest + right);
    assert (rest + right)[1..] == right;
  }

  lemma TakeBetween(bs: seq<Block>, k: nat, n: nat)
    requires k < |bs| && Fits(bs[k], n)
    ensures var b, right := bs[k], bs[k + 1..];
      Take(bs, k, n) ==
        if Splits(b, n) then bs[..k] + [Block(b.at, n, false)] + ([Block(b.at + HEADER + n, b.words - n - HEADER, true)] + right)
        else bs[..k] + [b.(free := false)] + right
  {
  }

  lemma ReleaseBetween(left: seq<Block>, b: Block, right: seq<Block>)
    ensures Release(left + [b] + right, |left|) ==
      if right != [] && right[0].free then left + [Block(b.at, b.words + HEADER + right[0].words, true)] + right[1..]
      else left + [b.(free := true)] + right
  {
    var bs := left + [b] + right;
    assert bs[..|left|] == left && bs[|left| + 1..] == right;
    if right != [] { assert bs[|left| + 2..] == right[1..]; }
  }

  // ---------- fragmentation ----------

  function Junction(left: seq<Block>, right: seq<Block>): nat {
    if left != [] && right != [] && left[|left| - 1].free && right[0].free then 1 else 0
  }

  /** The number of neighbouring pairs of blocks that are both free. */
  function AdjacentFree(bs: seq<Block>): nat {
    if bs == [] then 0 else Junction([bs[0]], bs[1..]) + AdjacentFree(bs[1..])
  }

  lemma {:induction false} AdjacentFreeSplit(left: seq<Block>, right: seq<Block>)
    ensures AdjacentFree(left + right) == AdjacentFree(left) + Junction(left, right) + AdjacentFree(right)
  {
    if left == [] {
      assert left + right == right;
    } else {
      AdjacentFreeSplit(left[1..], right);
      assert (left + right)[1..] == left[1..] + right;
      if |left| == 1 { assert left[1..] == []; }
    }
  }

  predicate LowerNeighbourFree(bs: seq<Block>, k: nat) { 0 < k < |bs| && bs[k - 1].free }

  lemma AdjacentFreeAround(left: seq<Block>, mid: seq<Block>, right: seq<Block>)
    requires mid != []
    ensures AdjacentFree(left + mid + right) ==
            AdjacentFree(left) + Junction(left, mid) + AdjacentFree(mid) + Junction(mid, right) + AdjacentFree(right)
  {
    AdjacentFreeSplit(left + mid, right);
    AdjacentFreeSplit(left, mid);
    assert (left + mid)[|left + mid| - 1] == mid[|mid| - 1];
  }

  /** Allocation removes exactly the free pairs the chosen block took part in and adds none. */
  lemma AllocFragmentation(bs: seq<Block>, n: nat)
    requires FirstFit(bs, n) < |bs|
    ensures var k := FirstFit(bs, n);
      AdjacentFree(AllocBlocks(bs, n)) ==
        AdjacentFree(bs) - (if LowerNeighbourFree(bs, k) then 1 else 0)
                         - (if bs[k].words <= n + 3 && k + 1 < |bs| && bs[k + 1].free then 1 else 0)
  {
    hide AdjacentFree;
    var k := FirstFit(bs, n);
    var left, b, right := bs[..k], bs[k], bs[k + 1..];
    assert bs == left + [b] + right;
    AdjacentFreeAround(left, [b], right);
    AdjacentFreeOne(b);
    if Splits(b, n) {
      var used, rest := Block(b.at, n, false), Block(b.at + HEADER + n, b.words - n - HEADER, true);
      assert [used, rest] == [used] + [rest];
      AdjacentFreeSplit([used], [rest]);
      AdjacentFreeOne(used);
      AdjacentFreeOne(rest);
      AdjacentFreeAround(left, [used, rest], right);
    } else {
      AdjacentFreeOne(b.(free := false));
      AdjacentFreeAround(left, [b.(free := false)], right);
    }
  }

  lemma AdjacentFreeOne(b: Block)
    ensures AdjacentFree([b]) == 0
  {
  }

  /** Freeing a live block adds one free pair if its lower neighbour is free, and none otherwise. */
  lemma FreeFragmentation(bs: seq<Block>, k: nat)
    requires Live(bs, k)
    ensures AdjacentFree(Release(bs, k)) == AdjacentFree(bs) + if LowerNeighbourFree(bs, k) then 1 else 0
  {
    var left, b, right := bs[..k], bs[k], bs[k + 1..];
    assert bs == left + [b] + right;
    AdjacentFreeAround(left, [b], right);
    if MergesForward(bs, k) {
      var merged := Block(b.at, b.words + HEADER + bs[k + 1].words, true);
      assert right == [bs[k + 1]] + bs[k + 2..];
      AdjacentFreeSplit([bs[k + 1]], bs[k + 2..]);
      AdjacentFreeAround(left, [merged], bs[k + 2..]);
    } else {
      AdjacentFreeAround(left, [b.(free := true)], right);
    }
  }

  /** Freeing leaves no two neighbouring free blocks if and only if there were none before and the
      freed block's lower neighbour is in use: merging looks forward only. */
  lemma FreeKeepsCoalesced(bs: seq<Block>, k: nat)
    requires Live(bs, k)
    ensures AdjacentFree(Release(bs, k)) == 0 <==> AdjacentFree(bs) == 0 && !LowerNeighbourFree(bs, k)
  {
    FreeFragmentation(bs, k);
  }

  // ---------- bounded waste ----------

  lemma RoundingBounds(size: Size)
    ensures size + 7 < SIZE_LIMIT ==> size <= 8 * RoundedWords(size) <= size + 7
    ensures size + 7 >= SIZE_LIMIT ==> RoundedWords(size) == 0
  {
  }

  lemma TakenBlock(bs: seq<Block>, k: nat, n: nat)
    requires k < |bs| && Fits(bs[k], n)
    ensures k < |Take(bs, k, n)|
    ensures Take(bs, k, n)[k] == if Splits(bs[k], n) then Block(bs[k].at, n, false) else bs[k].(free := false)
  {
  }

  /** A block chosen by first fit holds the request exactly when rounding did not wrap, and then
      exceeds it by at most 31 bytes. */
  lemma WasteBound(bs: seq<Block>, size: Size)
    requires FirstFit(bs, RoundedWords(size)) < |bs|
    ensures var k, cs := FirstFit(bs, RoundedWords(size)), AllocBlocks(bs, RoundedWords(size));
      && k < |cs| && !cs[k].free && cs[k].at == bs[k].at
      && (size <= 0xFFFF_FFFF_FFFF_FFF8 ==> size <= 8 * cs[k].words <= size + 31)
      && (size > 0xFFFF_FFFF_FFFF_FFF8 ==> 8 * cs[k].words <= 24)
  {
    hide RoundedWords, FirstFit, Take;
    RoundingBounds(size);
    TakenBlock(bs, FirstFit(bs, RoundedWords(size)), RoundedWords(size));
  }
}
