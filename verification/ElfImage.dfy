/** Loading PT_LOAD segments and translating virtual addresses into them, after the program-header
    rules of the System V gABI, chapter 5, "Program Header". */
module ElfImage {
  import opened Bytes

  const ADDRESS_SPACE := 0x1_0000_0000_0000_0000

  type U64 = x: int | 0 <= x < ADDRESS_SPACE

  const OFF_LIMIT := 0x8000_0000_0000_0000  // off_t is signed

  // No file is longer than an off_t can say.
  type ElfFile = f: seq<Byte> | |f| < OFF_LIMIT

  const PT_LOAD := 1

  datatype Phdr = Phdr(ptype: nat, flags: nat, offset: U64, vaddr: U64, filesz: U64, memsz: U64)

  datatype LoadedSegment = LoadedSegment(host: array<Byte>, virt: U64, size: U64, flags: nat)

  // A host address: a byte of some segment's buffer.
  datatype HostPtr = Null | At(buffer: array<Byte>, offset: nat)

  // ---------- the program headers ----------

  function Loads(ps: seq<Phdr>): seq<Phdr> {
    if ps == [] then []
    else Loads(ps[..|ps| - 1]) + if ps[|ps| - 1].ptype == PT_LOAD then [ps[|ps| - 1]] else []
  }

  lemma {:induction false} LoadsPrefix(ps: seq<Phdr>, i: nat)
    requires i <= |ps|
    ensures Loads(ps[..i]) <= Loads(ps)
    decreases |ps|
  {
    if i < |ps| {
      assert ps[..|ps| - 1][..i] == ps[..i];
      LoadsPrefix(ps[..|ps| - 1], i);
    } else {
      assert ps[..i] == ps;
    }
  }

  lemma {:induction false} LoadsAreLoads(ps: seq<Phdr>)
    ensures forall p :: p in Loads(ps) <==> p in ps && p.ptype == PT_LOAD
    decreases |ps|
  {
    if ps != [] {
      LoadsAreLoads(ps[..|ps| - 1]);
      assert ps == ps[..|ps| - 1] + [ps[|ps| - 1]];
    }
  }

  /** The PT_LOAD headers in their order: those of a list and then those of the next one. */
  lemma {:induction false} LoadsConcat(ps: seq<Phdr>, qs: seq<Phdr>)
    ensures Loads(ps + qs) == Loads(ps) + Loads(qs)
    ensures |qs| == 1 ==> Loads(qs) == if qs[0].ptype == 1 then qs else []
    decreases |qs|
  {
    if qs == [] {
      assert ps + qs == ps;
    } else {
      assert (ps + qs)[..|ps + qs| - 1] == ps + qs[..|qs| - 1];
      LoadsConcat(ps, qs[..|qs| - 1]);
      if |qs| == 1 { assert qs[..0] == []; }
    }
  }

  /** lseek takes a signed offset; it refuses a negative one and leaves the file position alone. */
  function SeekTo(p: Phdr, position: nat): nat { if p.offset < OFF_LIMIT then p.offset else position }

  /** The bytes read(2) delivers for a segment from a file position. */
  function Available(file: ElfFile, from: nat, p: Phdr): nat {
    if from >= |file| then 0 else if from + p.filesz <= |file| then p.filesz else |file| - from
  }

  /** The file position after the segments `ls` were read, starting from `start`. */
  function Position(file: ElfFile, start: nat, ls: seq<Phdr>): nat {
    if ls == [] then start else
    var p := ls[|ls| - 1];
    var from := SeekTo(p, Position(file, start, ls[..|ls| - 1]));
    from + Available(file, from, p)
  }

  /** Where segment `k` is read from. */
  function From(file: ElfFile, start: nat, ls: seq<Phdr>, k: nat): nat
    requires k < |ls|
  {
    SeekTo(ls[k], Position(file, start, ls[..k]))
  }

  /** A segment is read at its p_offset, or, where lseek refuses that, from where the read of the one before
      it ended: p_filesz bytes on, or at the end of the file. */
  lemma ReadFrom(file: ElfFile, start: nat, ls: seq<Phdr>, k: nat)
    requires k < |ls|
    ensures ls[k].offset < 0x8000_0000_0000_0000 ==> From(file, start, ls, k) == ls[k].offset
    ensures ls[k].offset >= 0x8000_0000_0000_0000 && k == 0 ==> From(file, start, ls, k) == start
    ensures ls[k].offset >= 0x8000_0000_0000_0000 && k > 0 ==>
      var before := From(file, start, ls, k - 1);
      From(file, start, ls, k) ==
        if before + ls[k - 1].filesz <= |file| then before + ls[k - 1].filesz else if before <= |file| then |file| else before
  {
    if k > 0 { PositionNext(file, start, ls, k - 1); }
  }

  /** read(2) fills more than the p_memsz bytes that were allocated. */
  predicate Overruns(file: ElfFile, from: nat, p: Phdr) { Available(file, from, p) > p.memsz }

  /** The gABI's p_filesz <= p_memsz rules that out wherever the segment is read from, and is exact for
      segments that lie in the file, which are read from their p_offset. */
  lemma OverrunsExactly(file: ElfFile, start: nat, ls: seq<Phdr>, k: nat)
    requires k < |ls|
    ensures var from := From(file, start, ls, k);
      Overruns(file, from, ls[k]) <==> ls[k].filesz > ls[k].memsz && from + ls[k].memsz < |file|
    ensures ls[k].filesz <= ls[k].memsz ==> !Overruns(file, From(file, start, ls, k), ls[k])
    ensures InFile(file, ls[k]) ==>
      && From(file, start, ls, k) == ls[k].offset
      && (Overruns(file, From(file, start, ls, k), ls[k]) <==> ls[k].filesz > ls[k].memsz)
  {
  }

  predicate InFile(file: ElfFile, p: Phdr) { p.offset + p.filesz <= |file| }

  /** The gABI content of the address `v` of a segment: file bytes first, zeros after them. */
  function ImageByte(file: ElfFile, p: Phdr, v: U64): Byte
    requires InFile(file, p) && p.vaddr <= v
  {
    if v - p.vaddr < p.filesz then file[p.offset + (v - p.vaddr)] else 0
  }

  // ---------- translation ----------

  /** The range test, with `start + size` in 64-bit arithmetic. */
  predicate Covers(s: LoadedSegment, v: U64) { s.virt <= v < (s.virt + s.size) % ADDRESS_SPACE }

  /** The first segment that covers `v`, from `i` on. */
  function FirstCovering(ss: seq<LoadedSegment>, v: U64, i: nat := 0): (k: nat)
    requires i <= |ss|
    ensures i <= k <= |ss|
    ensures k < |ss| ==> Covers(ss[k], v)
    ensures forall j :: i <= j < k ==> !Covers(ss[j], v)
    decreases |ss| - i
  {
    if i == |ss| || Covers(ss[i], v) then i else FirstCovering(ss, v, i + 1)
  }

  function Translate(ss: seq<LoadedSegment>, v: U64): HostPtr {
    var k := FirstCovering(ss, v);
    if k < |ss| then At(ss[k].host, v - ss[k].virt) else Null
  }

  /** `v` lies in the segment, in plain arithmetic. */
  predicate Inside(s: LoadedSegment, v: U64) { s.virt <= v < s.virt + s.size }

  predicate Wraps(s: LoadedSegment) { s.virt + s.size >= ADDRESS_SPACE }

  /** Every address of a non-empty segment is found exactly when its end does not wrap; a segment
      reaching up to the last address is never found at all. */
  lemma FoundUnlessWrapping(s: LoadedSegment)
    requires s.size > 0
    ensures (forall v: U64 :: Inside(s, v) ==> Covers(s, v)) <==> s.virt + s.size < 0x1_0000_0000_0000_0000
    ensures Wraps(s) ==> forall v: U64 :: !Covers(s, v)
  {
    assert Inside(s, s.virt);
    if Wraps(s) { assert !Covers(s, s.virt); }
  }

  /** NULL exactly for the addresses outside all segments that do not wrap. */
  lemma TranslateNull(ss: seq<LoadedSegment>, v: U64)
    ensures Translate(ss, v) == Null <==> forall k :: 0 <= k < |ss| ==> !(Inside(ss[k], v) && !Wraps(ss[k]))
  {
    forall k | 0 <= k < |ss| ensures Covers(ss[k], v) <==> Inside(ss[k], v) && !Wraps(ss[k]) {
      if ss[k].size > 0 { FoundUnlessWrapping(ss[k]); }
    }
    var k := FirstCovering(ss, v);
    if k < |ss| { assert Inside(ss[k], v) && !Wraps(ss[k]); }
  }

  ghost predicate DistinctHosts(ss: seq<LoadedSegment>) {
    forall i, j :: 0 <= i < j < |ss| ==> ss[i].host != ss[j].host
  }

  /** Two mapped addresses never share a host byte, even when segments overlap. */
  lemma TranslateInjective(ss: seq<LoadedSegment>, v: U64, w: U64)
    requires DistinctHosts(ss) && Translate(ss, v) != Null && Translate(ss, v) == Translate(ss, w)
    ensures v == w
  {
    var i, j := FirstCovering(ss, v), FirstCovering(ss, w);
    assert i < |ss| && j < |ss| && ss[i].host == ss[j].host;
  }

  // ---------- loading ----------

  /** The buffer of a segment read from `from`; bytes the file is too short for are left as malloc
      gave them. */
  ghost predicate Holds(file: ElfFile, from: nat, p: Phdr, s: LoadedSegment)
    reads s.host
  {
    && s.virt == p.vaddr && s.size == p.memsz && s.flags == p.flags && s.host.Length == p.memsz
    && (forall j :: 0 <= j < p.filesz && j < p.memsz && from + j < |file| ==> s.host[j] == file[from + j])
    && (forall j :: p.filesz <= j < p.memsz ==> s.host[j] == 0)
  }

  /** The first segments of `ls` are in the table, each in a buffer of its own. */
  ghost predicate Filled(file: ElfFile, start: nat, ls: seq<Phdr>, ss: seq<LoadedSegment>)
    reads set i | 0 <= i < |ss| :: ss[i].host
  {
    |ss| <= |ls| && DistinctHosts(ss) && forall k :: 0 <= k < |ss| ==> Holds(file, From(file, start, ls, k), ls[k], ss[k])
  }

  ghost predicate Loaded(file: ElfFile, start: nat, ps: seq<Phdr>, ss: seq<LoadedSegment>)
    reads set i | 0 <= i < |ss| :: ss[i].host
  {
    |ss| == |Loads(ps)| && Filled(file, start, Loads(ps), ss)
  }

  /** Every segment as it is entered: its address, size and flags, the file's bytes as far as the file
      goes, and zeros from p_filesz on. */
  lemma LoadedFields(file: ElfFile, start: nat, ps: seq<Phdr>, ss: seq<LoadedSegment>, k: nat, j: nat)
    requires Loaded(file, start, ps, ss) && k < |ss|
    ensures |ss| == |Loads(ps)|
    ensures var p, s, from := Loads(ps)[k], ss[k], From(file, start, Loads(ps), k);
      && s.virt == p.vaddr && s.size == p.memsz == s.host.Length && s.flags == p.flags
      && (j < p.memsz && j < p.filesz && from + j < |file| ==> s.host[j] == file[from + j])
      && (j < p.memsz && j >= p.filesz ==> s.host[j] == 0)
    ensures forall i :: 0 <= i < |ss| && i != k ==> ss[i].host != ss[k].host
  {
    hide Loads, From;
    assert Holds(file, From(file, start, Loads(ps), k), Loads(ps)[k], ss[k]);
  }

  /** The translated byte is the gABI image byte of the first segment that covers the address. */
  lemma TranslatedByte(file: ElfFile, start: nat, ps: seq<Phdr>, ss: seq<LoadedSegment>, v: U64)
    requires Loaded(file, start, ps, ss) && Translate(ss, v) != Null
    requires forall p :: p in Loads(ps) ==> InFile(file, p)
    ensures var h, p := Translate(ss, v), Loads(ps)[FirstCovering(ss, v)];
      && p.vaddr <= v < p.vaddr + p.memsz
      && h.offset < h.buffer.Length && h.buffer[h.offset] == ImageByte(file, p, v)
  {
    hide Loads, Position;
    var k := FirstCovering(ss, v);
    var p := Loads(ps)[k];
    assert Holds(file, From(file, start, Loads(ps), k), p, ss[k]) && p in Loads(ps);
    if ss[k].size > 0 { FoundUnlessWrapping(ss[k]); }
  }

  ghost predicate DisjointLoads(ps: seq<Phdr>) {
    forall i, j :: 0 <= i < j < |Loads(ps)| ==> var p, q := Loads(ps)[i], Loads(ps)[j];
      p.vaddr + p.memsz <= q.vaddr || q.vaddr + q.memsz <= p.vaddr
  }

  /** With disjoint, non-wrapping segments the process image is the gABI's: an address is mapped iff
      some PT_LOAD header contains it, and then it reads as that header says. */
  lemma ProcessImage(file: ElfFile, start: nat, ps: seq<Phdr>, ss: seq<LoadedSegment>, v: U64)
    requires Loaded(file, start, ps, ss) && DisjointLoads(ps)
    requires forall p :: p in Loads(ps) ==> InFile(file, p) && p.vaddr + p.memsz < ADDRESS_SPACE
    ensures Translate(ss, v) == Null <==> forall p :: p in ps && p.ptype == PT_LOAD ==> !(p.vaddr <= v < p.vaddr + p.memsz)
    ensures forall k :: 0 <= k < |Loads(ps)| && Loads(ps)[k].vaddr <= v < Loads(ps)[k].vaddr + Loads(ps)[k].memsz ==>
      var h := Translate(ss, v);
      h.At? && h.offset < h.buffer.Length && h.buffer[h.offset] == ImageByte(file, Loads(ps)[k], v)
  {
    hide Loads, Position, Translate, ImageByte;
    var ls := Loads(ps);
    LoadsAreLoads(ps);
    SegmentsAreHeaders(file, start, ps, ss, v);
    TranslateNull(ss, v);
    if Translate(ss, v) != Null {
      TranslatedByte(file, start, ps, ss, v);
      assert ls[FirstCovering(ss, v)] in ls;
    }
  }

  lemma SegmentsAreHeaders(file: ElfFile, start: nat, ps: seq<Phdr>, ss: seq<LoadedSegment>, v: U64)
    requires Loaded(file, start, ps, ss)
    requires forall p :: p in Loads(ps) ==> p.vaddr + p.memsz < ADDRESS_SPACE
    ensures forall k :: 0 <= k < |ss| ==>
      !Wraps(ss[k]) && (Inside(ss[k], v) <==> Loads(ps)[k].vaddr <= v < Loads(ps)[k].vaddr + Loads(ps)[k].memsz)
  {
    hide Loads, Position;
    forall k | 0 <= k < |ss|
      ensures !Wraps(ss[k]) && (Inside(ss[k], v) <==> Loads(ps)[k].vaddr <= v < Loads(ps)[k].vaddr + Loads(ps)[k].memsz)
    {
      assert Holds(file, From(file, start, Loads(ps), k), Loads(ps)[k], ss[k]) && Loads(ps)[k] in Loads(ps);
    }
  }

  // ---------- elfload.c ----------

  method CountLoads(phdrs: seq<Phdr>) returns (hasLoad: nat)
    ensures hasLoad == |Loads(phdrs)|
  {
    hasLoad := 0;
    var i := 0;
    while i < |phdrs|
      invariant 0 <= i <= |phdrs| && hasLoad == |Loads(phdrs[..i])|
    {
      assert phdrs[..i + 1][..i] == phdrs[..i];
      if phdrs[i].ptype == PT_LOAD { hasLoad := hasLoad + 1; }
      i := i + 1;
    }
    assert phdrs[..i] == phdrs;
  }

  lemma FilledNext(file: ElfFile, start: nat, ls: seq<Phdr>, ss: seq<LoadedSegment>, s: LoadedSegment)
    requires |ss| < |ls| && Filled(file, start, ls, ss) && Holds(file, From(file, start, ls, |ss|), ls[|ss|], s)
    requires forall k :: 0 <= k < |ss| ==> ss[k].host != s.host
    ensures Filled(file, start, ls, ss + [s])
  {
    hide From;
  }

  lemma LoadsNext(ps: seq<Phdr>, i: nat)
    requires i < |ps|
    ensures Loads(ps[..i + 1]) == Loads(ps[..i]) + (if ps[i].ptype == PT_LOAD then [ps[i]] else [])
    ensures Loads(ps[..i + 1]) <= Loads(ps)
  {
    assert ps[..i + 1][..i] == ps[..i];
    LoadsPrefix(ps, i + 1);
  }

  lemma PositionNext(file: ElfFile, start: nat, ls: seq<Phdr>, k: nat)
    requires k < |ls|
    ensures var from := From(file, start, ls, k); Position(file, start, ls[..k + 1]) == from + Available(file, from, ls[k])
  {
    assert ls[..k + 1][..k] == ls[..k];
  }

  // What main ends with; Overrun is undefined behaviour in the loading pass.
  datatype Status = NoSegments | Overrun | Complete

  ghost predicate OverrunAt(file: ElfFile, start: nat, ls: seq<Phdr>, k: int) {
    0 <= k < |ls| && Overruns(file, From(file, start, ls, k), ls[k])
  }

  /** The two passes, with the file position where reading the headers left it: counting sizes the
      table, loading fills every entry of it. */
  method Load(file: ElfFile, start: nat, phdrs: seq<Phdr>) returns (status: Status, table: array<LoadedSegment>)
    ensures fresh(table)
    ensures status == NoSegments <==> forall i :: 0 <= i < |phdrs| ==> phdrs[i].ptype != PT_LOAD
    ensures status == Overrun <==> exists k :: OverrunAt(file, start, Loads(phdrs), k)
    ensures status == Complete ==> Loaded(file, start, phdrs, table[..])
  {
    var hasLoad := CountLoads(phdrs);
    LoadsAreLoads(phdrs);
    var nowhere := new Byte[0];
    table := new LoadedSegment[hasLoad](_ => LoadedSegment(nowhere, 0, 0, 0));
    if hasLoad == 0 {
      assert Loads(phdrs) == [];
      assert forall i :: 0 <= i < |phdrs| ==> phdrs[i] in phdrs;
      return NoSegments, table;
    }
    assert Loads(phdrs)[0] in Loads(phdrs);
    var overrun := FillTable(file, start, phdrs, table);
    status := if overrun then Overrun else Complete;
  }

  method FillTable(file: ElfFile, start: nat, phdrs: seq<Phdr>, table: array<LoadedSegment>) returns (overrun: bool)
    requires table.Length == |Loads(phdrs)|
    modifies table
    ensures overrun <==> exists k :: OverrunAt(file, start, Loads(phdrs), k)
    ensures !overrun ==> Loaded(file, start, phdrs, table[..])
  {
    hide Loads, Position, Holds;
    ghost var ls := Loads(phdrs);
    NoLoadsYet(phdrs, file, start);
    var loadIdx, i, position := 0, 0, start;
    while i < |phdrs|
      invariant 0 <= i <= |phdrs| && loadIdx <= |ls| && Loads(phdrs[..i]) == ls[..loadIdx]
      invariant position == Position(file, start, ls[..loadIdx])
      invariant Filled(file, start, ls, table[..loadIdx])
      invariant forall k :: 0 <= k < loadIdx ==> fresh(table[k].host)
      invariant forall k :: 0 <= k < loadIdx ==> !OverrunAt(file, start, ls, k)
    {
      LoadsNext(phdrs, i);
      if phdrs[i].ptype == PT_LOAD {
        assert ls[loadIdx] == phdrs[i] && ls[..loadIdx + 1] == ls[..loadIdx] + [phdrs[i]];
        PositionNext(file, start, ls, loadIdx);
        var from := SeekTo(phdrs[i], position);
        overrun := AddSegment(file, start, ls, from, phdrs[i], table, loadIdx);
        if overrun {
          assert OverrunAt(file, start, ls, loadIdx);
          return;
        }
        position := from + Available(file, from, phdrs[i]);
        loadIdx := loadIdx + 1;
      }
      i := i + 1;
    }
    assert phdrs[..i] == phdrs && ls[..loadIdx] == ls && table[..loadIdx] == table[..];
    overrun := false;
  }

  lemma NoLoadsYet(phdrs: seq<Phdr>, file: ElfFile, start: nat)
    ensures Loads(phdrs[..0]) == [] && Position(file, start, []) == start
  {
  }

  /** One PT_LOAD header: its segment read and entered in the table. */
  method AddSegment(file: ElfFile, ghost start: nat, ghost ls: seq<Phdr>, from: nat, p: Phdr, table: array<LoadedSegment>, loadIdx: nat)
    returns (overrun: bool)
    requires loadIdx < table.Length == |ls| && ls[loadIdx] == p && from == From(file, start, ls, loadIdx)
    requires Filled(file, start, ls, table[..loadIdx])
    modifies table
    ensures overrun == Overruns(file, from, p)
    ensures forall k :: 0 <= k < loadIdx ==> table[k] == old(table[k])
    ensures !overrun ==> fresh(table[loadIdx].host) && Filled(file, start, ls, table[..loadIdx + 1])
  {
    hide Overruns, From;
    ghost var filled := table[..loadIdx];
    var segment;
    overrun, segment := LoadSegment(file, from, p);
    if overrun { return; }
    var loaded := LoadedSegment(segment, p.vaddr, p.memsz, p.flags);
    assert forall k :: 0 <= k < |filled| ==> filled[k] == table[k] && filled[k].host != segment;
    FilledNext(file, start, ls, filled, loaded);
    table[loadIdx] := loaded;
    assert table[..loadIdx + 1] == filled + [loaded];
  }

  /** malloc, read (which may fall short, and may run past the buffer), and zero-fill of the rest. */
  method LoadSegment(file: ElfFile, from: nat, p: Phdr) returns (overrun: bool, segment: array<Byte>)
    ensures fresh(segment)
    ensures overrun == Overruns(file, from, p)
    ensures !overrun ==> Holds(file, from, p, LoadedSegment(segment, p.vaddr, p.memsz, p.flags))
  {
    segment := new Byte[p.memsz];
    overrun := Available(file, from, p) > p.memsz;
    if overrun { return; }
    var n := 0;
    while n < Available(file, from, p)
      invariant 0 <= n <= Available(file, from, p)
      invariant forall j :: 0 <= j < n ==> segment[j] == file[from + j]
    {
      segment[n] := file[from + n];
      n := n + 1;
    }
    if p.memsz > p.filesz {
      var z := p.filesz;
      while z < p.memsz
        invariant p.filesz <= z <= p.memsz
        invariant forall j :: 0 <= j < n ==> segment[j] == file[from + j]
        invariant forall j :: p.filesz <= j < z ==> segment[j] == 0
      {
        segment[z] := 0;
        z := z + 1;
      }
    }
  }

  method VaddrToHost(segments: array<LoadedSegment>, n: nat, vaddr: U64) returns (h: HostPtr)
    requires n <= segments.Length
    ensures h == Translate(segments[..n], vaddr)
  {
    var i := 0;
    while i < n
      invariant 0 <= i <= n && FirstCovering(segments[..n], vaddr, i) == FirstCovering(segments[..n], vaddr)
    {
      var start := segments[i].virt;
      var end := (start + segments[i].size) % ADDRESS_SPACE;
      if vaddr >= start && vaddr < end {
        return At(segments[i].host, vaddr - start);
      }
      i := i + 1;
    }
    h := Null;
  }
}
