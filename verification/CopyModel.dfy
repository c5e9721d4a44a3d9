/** Files, copy jobs, and the sequential loop that the threaded copier must agree with. */
module CopyModel {
  import opened Bytes

  // A name as open(2) resolves it: two spellings of one file are one Path here.
  type Path = string
  type File = seq<Byte>
  type Files = map<Path, File>

  datatype Job = Job(from: Path, to: Path)

  const BUF_SIZE := 4096

  /** write(2) at offset `off`: overwrites, and extends the file where it is too short. */
  function WriteAt(content: File, off: nat, data: File): File {
    var head := if off <= |content| then content[..off] else content + seq(off - |content|, _ => 0);
    head + data + if off + |data| < |content| then content[off + |data|..] else []
  }

  /** Byte by byte: the piece where it is written, zeros in a hole before it, and everything else as it was. */
  lemma WrittenBytes(content: File, off: nat, data: File, i: nat)
    requires data != []
    ensures var after := WriteAt(content, off, data);
      && |after| == (if off + |data| > |content| then off + |data| else |content|)
      && (i < |after| ==> after[i] == if off <= i < off + |data| then data[i - off] else if i < |content| then content[i] else 0)
  {
  }

  /** Appending the next piece of `source` to a copy of its first `off` bytes. */
  lemma WriteNext(source: File, off: nat, n: nat)
    requires off + n <= |source|
    ensures WriteAt(source[..off], off, source[off..off + n]) == source[..off + n]
  {
  }

  /** What copying one file leaves in its destination: O_TRUNC empties a file copied onto itself. */
  function Copied(files: Files, j: Job): File {
    if j.from in files && j.from != j.to then files[j.from] else []
  }

  function CopyOne(files: Files, j: Job): Files { files[j.to := Copied(files, j)] }

  /** The sequential loop: one job after the other, giving up at the first source that is missing. */
  function SeqCopy(files: Files, jobs: seq<Job>): Files
    decreases |jobs|
  {
    if jobs == [] || jobs[0].from !in files then files
    else SeqCopy(CopyOne(files, jobs[0]), jobs[1..])
  }

  /** How many jobs the sequential loop carries out. */
  function SeqReached(files: Files, jobs: seq<Job>): (m: nat)
    ensures m <= |jobs|
    decreases |jobs|
  {
    if jobs == [] || jobs[0].from !in files then 0
    else 1 + SeqReached(CopyOne(files, jobs[0]), jobs[1..])
  }

  /** All jobs in order, a missing source giving an empty file. */
  function CopyEach(files: Files, jobs: seq<Job>): Files {
    if jobs == [] then files else CopyOne(CopyEach(files, jobs[..|jobs| - 1]), jobs[|jobs| - 1])
  }

  // ---------- how jobs may interfere ----------

  /** No two jobs share a destination and no job reads what another one writes. */
  ghost predicate Independent(jobs: seq<Job>) {
    forall i, j :: 0 <= i < |jobs| && 0 <= j < |jobs| && i != j ==> jobs[i].to != jobs[j].to && jobs[i].to != jobs[j].from
  }

  /** The only destination a job can read is its own: what main queues always satisfies this. */
  ghost predicate SourcesApart(jobs: seq<Job>) {
    forall i, j :: 0 <= i < |jobs| && 0 <= j < |jobs| && jobs[i].to == jobs[j].from ==> jobs[j].from == jobs[j].to
  }

  /** Jobs that share a destination would each put the same bytes there. */
  ghost predicate SameBytes(files: Files, jobs: seq<Job>) {
    forall i, j :: 0 <= i < |jobs| && 0 <= j < |jobs| && jobs[i].to == jobs[j].to ==> Copied(files, jobs[i]) == Copied(files, jobs[j])
  }

  ghost predicate Harmonious(files: Files, jobs: seq<Job>) { SourcesApart(jobs) && SameBytes(files, jobs) }

  // ---------- what a finished batch looks like ----------

  ghost predicate IsDest(jobs: seq<Job>, p: Path) { exists k :: 0 <= k < |jobs| && jobs[k].to == p }

  ghost predicate SameAt(files: Files, files': Files, p: Path) {
    (p in files' <==> p in files) && (p in files ==> files'[p] == files[p])
  }

  ghost predicate SameElsewhere(files: Files, jobs: seq<Job>, files': Files) {
    forall p :: !IsDest(jobs, p) ==> SameAt(files, files', p)
  }

  ghost predicate Arrived(files: Files, j: Job, files': Files) { j.to in files' && files'[j.to] == Copied(files, j) }

  /** Every destination holds its source's original content, and every other file is as it was. */
  ghost predicate CopiedExactly(files: Files, jobs: seq<Job>, files': Files) {
    (forall k :: 0 <= k < |jobs| ==> Arrived(files, jobs[k], files')) && SameElsewhere(files, jobs, files')
  }

  lemma CopiedExactlyIsUnique(files: Files, jobs: seq<Job>, f: Files, g: Files)
    requires CopiedExactly(files, jobs, f) && CopiedExactly(files, jobs, g)
    ensures f == g
  {
    forall p ensures (p in f <==> p in g) && (p in f ==> f[p] == g[p]) {
      if IsDest(jobs, p) {
        var k :| 0 <= k < |jobs| && jobs[k].to == p;
        assert Arrived(files, jobs[k], f) && Arrived(files, jobs[k], g);
      } else {
        assert SameAt(files, f, p) && SameAt(files, g, p);
      }
    }
  }

  /** Sources are not written, so a job copies its original source whenever it is done. */
  lemma CopiedStable(files: Files, jobs: seq<Job>, files': Files, k: nat)
    requires SourcesApart(jobs) && SameElsewhere(files, jobs, files') && k < |jobs|
    ensures Copied(files', jobs[k]) == Copied(files, jobs[k])
  {
    if jobs[k].from != jobs[k].to {
      assert !IsDest(jobs, jobs[k].from);
      assert SameAt(files, files', jobs[k].from);
    }
  }

  // ---------- the serial result ----------

  lemma {:induction false} CopyEachElsewhere(files: Files, jobs: seq<Job>, n: nat)
    requires n <= |jobs|
    ensures SameElsewhere(files, jobs, CopyEach(files, jobs[..n]))
  {
    if n > 0 {
      CopyEachElsewhere(files, jobs, n - 1);
      assert jobs[..n][..n - 1] == jobs[..n - 1];
      var f, g := CopyEach(files, jobs[..n - 1]), CopyEach(files, jobs[..n]);
      assert g == CopyOne(f, jobs[n - 1]);
      forall p | !IsDest(jobs, p) ensures SameAt(files, g, p) { assert SameAt(files, f, p) && jobs[n - 1].to != p; }
    }
  }

  /** A destination is left as the last job for it leaves it. */
  lemma {:induction false} LastJobWins(files: Files, jobs: seq<Job>, r: nat, n: nat)
    requires SourcesApart(jobs) && r < n <= |jobs| && forall k :: r < k < n ==> jobs[k].to != jobs[r].to
    ensures Arrived(files, jobs[r], CopyEach(files, jobs[..n]))
    decreases n
  {
    assert jobs[..n][..n - 1] == jobs[..n - 1];
    var f := CopyEach(files, jobs[..n - 1]);
    assert CopyEach(files, jobs[..n]) == CopyOne(f, jobs[n - 1]);
    if r == n - 1 {
      CopyEachElsewhere(files, jobs, n - 1);
      CopiedStable(files, jobs, f, r);
    } else {
      LastJobWins(files, jobs, r, n - 1);
    }
  }

  lemma {:induction false} LastJobFor(jobs: seq<Job>, k: nat, n: nat) returns (r: nat)
    requires k < n <= |jobs|
    ensures k <= r < n && jobs[r].to == jobs[k].to && forall i :: r < i < n ==> jobs[i].to != jobs[r].to
    decreases n
  {
    if jobs[n - 1].to == jobs[k].to { r := n - 1; } else { r := LastJobFor(jobs, k, n - 1); }
  }

  lemma SerialOutcome(files: Files, jobs: seq<Job>)
    requires Harmonious(files, jobs)
    ensures CopiedExactly(files, jobs, CopyEach(files, jobs))
  {
    assert jobs[..|jobs|] == jobs;
    CopyEachElsewhere(files, jobs, |jobs|);
    forall k | 0 <= k < |jobs| ensures Arrived(files, jobs[k], CopyEach(files, jobs)) {
      var r := LastJobFor(jobs, k, |jobs|);
      LastJobWins(files, jobs, r, |jobs|);
    }
  }

  lemma {:induction false} CopyEachCons(files: Files, j: Job, jobs: seq<Job>)
    ensures CopyEach(files, [j] + jobs) == CopyEach(CopyOne(files, j), jobs)
    decreases |jobs|
  {
    if jobs == [] {
      assert [j] + jobs == [j] && [j][..0] == [];
    } else {
      assert ([j] + jobs)[..|jobs|] == [j] + jobs[..|jobs| - 1];
      CopyEachCons(files, j, jobs[..|jobs| - 1]);
    }
  }

  lemma {:induction false} SeqCopyIsSerial(files: Files, jobs: seq<Job>)
    ensures SeqCopy(files, jobs) == CopyEach(files, jobs[..SeqReached(files, jobs)])
    decreases |jobs|
  {
    if jobs != [] && jobs[0].from in files {
      var next, rest := CopyOne(files, jobs[0]), jobs[1..];
      var m := SeqReached(next, rest);
      SeqCopyIsSerial(next, rest);
      CopyEachCons(files, jobs[0], rest[..m]);
      assert jobs[..m + 1] == [jobs[0]] + rest[..m];
    }
  }

  /** For jobs in harmony the sequential loop copies exactly the jobs it reaches. */
  lemma SequentialOutcome(files: Files, jobs: seq<Job>)
    requires Harmonious(files, jobs)
    ensures CopiedExactly(files, jobs[..SeqReached(files, jobs)], SeqCopy(files, jobs))
  {
    SeqCopyIsSerial(files, jobs);
    SerialOutcome(files, jobs[..SeqReached(files, jobs)]);
  }

  /** The source of job `k` exists beforehand or is the destination of an earlier job. */
  ghost predicate Openable(files: Files, jobs: seq<Job>, k: int)
    requires 0 <= k < |jobs|
  {
    jobs[k].from in files || exists i :: 0 <= i < k && jobs[i].to == jobs[k].from
  }

  /** The first job, from `k` on, whose source cannot be opened when its turn comes, or |jobs|. */
  ghost function FirstUnopenable(files: Files, jobs: seq<Job>, k: nat := 0): (m: nat)
    requires k <= |jobs|
    ensures k <= m <= |jobs| && forall i :: k <= i < m ==> Openable(files, jobs, i)
    ensures m < |jobs| ==> !Openable(files, jobs, m)
    decreases |jobs| - k
  {
    if k == |jobs| || !Openable(files, jobs, k) then k else FirstUnopenable(files, jobs, k + 1)
  }

  lemma OpenableNext(files: Files, jobs: seq<Job>, k: nat)
    requires k + 1 < |jobs|
    ensures Openable(CopyOne(files, jobs[0]), jobs[1..], k) <==> Openable(files, jobs, k + 1)
  {
    var next, rest := CopyOne(files, jobs[0]), jobs[1..];
    if Openable(next, rest, k) && rest[k].from !in next {
      var i :| 0 <= i < k && rest[i].to == rest[k].from;
      assert jobs[i + 1].to == jobs[k + 1].from;
    }
    if Openable(files, jobs, k + 1) && jobs[k + 1].from !in files {
      var i :| 0 <= i < k + 1 && jobs[i].to == jobs[k + 1].from;
      if i > 0 { assert rest[i - 1].to == rest[k].from; }
    }
  }

  lemma {:induction false} ReachedAreOpenable(files: Files, jobs: seq<Job>)
    ensures var m := SeqReached(files, jobs);
      && (forall k :: 0 <= k < m ==> Openable(files, jobs, k))
      && (m < |jobs| ==> !Openable(files, jobs, m))
    decreases |jobs|
  {
    if jobs != [] && jobs[0].from in files {
      var next, rest := CopyOne(files, jobs[0]), jobs[1..];
      var m := SeqReached(next, rest);
      ReachedAreOpenable(next, rest);
      forall k | 0 < k < m + 1 ensures Openable(files, jobs, k) {
        assert Openable(next, rest, k - 1);
        OpenableNext(files, jobs, k - 1);
      }
      if m < |rest| { OpenableNext(files, jobs, m); }
    }
  }

  /** For any jobs, the sequential loop ends at the first source that neither existed beforehand nor
      was written by an earlier job. */
  lemma ReachedIsFirstUnopenable(files: Files, jobs: seq<Job>)
    ensures SeqReached(files, jobs) == FirstUnopenable(files, jobs)
  {
    ReachedAreOpenable(files, jobs);
    var m, n := SeqReached(files, jobs), FirstUnopenable(files, jobs);
    assert !(m < n) && !(n < m);
  }

  /** The first job whose source does not exist, or |jobs|. */
  function FirstMissing(files: Files, jobs: seq<Job>): (m: nat)
    ensures m <= |jobs|
    ensures forall k :: 0 <= k < m ==> jobs[k].from in files
    ensures m < |jobs| ==> jobs[m].from !in files
  {
    if jobs == [] || jobs[0].from !in files then 0 else 1 + FirstMissing(files, jobs[1..])
  }

  lemma {:induction false} SameFirstMissing(files: Files, jobs: seq<Job>, next: Files)
    requires forall k :: 0 <= k < |jobs| ==> SameAt(files, next, jobs[k].from)
    ensures FirstMissing(files, jobs) == FirstMissing(next, jobs)
    decreases |jobs|
  {
    if jobs != [] {
      assert SameAt(files, next, jobs[0].from);
      SameFirstMissing(files, jobs[1..], next);
    }
  }

  /** For independent jobs it stops exactly at the first source that does not exist beforehand. */
  lemma {:induction false} ReachedIsFirstMissing(files: Files, jobs: seq<Job>)
    requires Independent(jobs)
    ensures SeqReached(files, jobs) == FirstMissing(files, jobs)
    decreases |jobs|
  {
    if jobs != [] && jobs[0].from in files {
      var next, rest := CopyOne(files, jobs[0]), jobs[1..];
      forall k | 0 <= k < |rest| ensures SameAt(files, next, rest[k].from) { assert rest[k] == jobs[k + 1]; }
      SameFirstMissing(files, rest, next);
      assert Independent(rest) by { assert forall i :: 0 <= i < |rest| ==> rest[i] == jobs[i + 1]; }
      ReachedIsFirstMissing(next, rest);
    }
  }
}
