/** Every run of the threaded copier ends, for any jobs whatever. */
module CopyProgress {
  import opened CopyModel
  import opened CopyWorkers
  import opened CopyContents
  import opened CopyTheorems

  // `sizes` bounds the bytes each job can move.

  function JobCost(size: nat): nat { 2 * size + 8 }

  function WaitingCost(sizes: seq<nat>, i: nat): nat
    requires i <= |sizes|
    decreases |sizes| - i
  {
    if i == |sizes| then 0 else JobCost(sizes[i]) + WaitingCost(sizes, i + 1)
  }

  function Left(size: nat, off: nat): nat { if off <= size then 2 * (size - off) else 0 }

  function Cost(sizes: seq<nat>, pc: Pc): nat
    requires HasJob(pc) ==> pc.job < |sizes|
  {
    match pc
    case Lock => 3
    case Check => 2
    case Leave => 1
    case Take => 1
    case Unlock(k) => JobCost(sizes[k])
    case OpenSource(k) => JobCost(sizes[k]) - 1
    case OpenDest(k, _) => JobCost(sizes[k]) - 2
    case Stat(k, _) => JobCost(sizes[k]) - 3
    case Read(k, off) => Left(sizes[k], off) + 4
    case Write(k, off, _) => Left(sizes[k], off) + 3
    case Exited => 0
  }

  /** Nobody moves more bytes than allotted. */
  predicate Within(sizes: seq<nat>, pc: Pc) {
    && (HasJob(pc) ==> pc.job < |sizes|)
    && (pc.Read? ==> pc.stolen <= sizes[pc.job])
    && (pc.Write? ==> 0 < |pc.buffer| && pc.stolen + |pc.buffer| <= sizes[pc.job])
  }

  predicate AllWithin(sizes: seq<nat>, s: State) {
    s.jobIndex <= |sizes| && forall t :: 0 <= t < |s.threads| ==> Within(sizes, s.threads[t])
  }

  function CostsOf(sizes: seq<nat>, s: State): seq<nat>
    requires AllWithin(sizes, s)
  {
    seq(|s.threads|, t requires 0 <= t < |s.threads| => Cost(sizes, s.threads[t]))
  }

  function Measure(sizes: seq<nat>, s: State): nat
    requires AllWithin(sizes, s)
  {
    Sum(CostsOf(sizes, s)) + WaitingCost(sizes, s.jobIndex)
  }

  /** The next line of a worker, as far as its cost is concerned. */
  predicate NextPc(pc: Pc, next: Pc, claimed: nat) {
    match pc
    case Lock => next == Check
    case Check => next == Leave || next == Take
    case Leave => next == Exited
    case Take => next == Unlock(claimed)
    case Unlock(k) => next == OpenSource(k)
    case OpenSource(k) => next.OpenDest? && next.job == k
    case OpenDest(k, _) => next.Stat? && next.job == k
    case Stat(k, _) => next == Lock || next == Read(k, 0)
    case Read(k, off) => next == Lock || (next.Write? && next.job == k && next.stolen == off)
    case Write(k, off, buffer) => next == Read(k, off + |buffer|)
    case Exited => false
  }

  lemma StepNextPc(c: Config, s: State, t: nat, s': State)
    requires t < |s.threads| && Step(c, s, t, s')
    ensures |s'.threads| == |s.threads| && NextPc(s.threads[t], s'.threads[t], s.jobIndex)
    ensures s'.jobIndex == s.jobIndex + if s.threads[t] == Take then 1 else 0
  {
  }

  lemma StepCost(c: Config, sizes: seq<nat>, s: State, t: nat, s': State)
    requires |sizes| == |c.jobs| && AllWithin(sizes, s) && AllWithin(sizes, s') && t < |s.threads| && Step(c, s, t, s')
    ensures |s'.threads| == |s.threads|
    ensures Cost(sizes, s'.threads[t]) + WaitingCost(sizes, s'.jobIndex) < Cost(sizes, s.threads[t]) + WaitingCost(sizes, s.jobIndex)
  {
    StepNextPc(c, s, t, s');
    hide Step;
    assert Within(sizes, s.threads[t]) && Within(sizes, s'.threads[t]);
  }

  lemma CostsUpdate(sizes: seq<nat>, s: State, t: nat, s': State)
    requires AllWithin(sizes, s) && AllWithin(sizes, s')
    requires t < |s.threads| && |s'.threads| == |s.threads| && s'.threads == s.threads[t := s'.threads[t]]
    ensures Sum(CostsOf(sizes, s')) == Sum(CostsOf(sizes, s)) - Cost(sizes, s.threads[t]) + Cost(sizes, s'.threads[t])
  {
    SumUpdate(CostsOf(sizes, s), t, Cost(sizes, s'.threads[t]));
    assert CostsOf(sizes, s') == CostsOf(sizes, s)[t := Cost(sizes, s'.threads[t])];
  }

  lemma {:induction false} RunMeasure(c: Config, sizes: seq<nat>, run: seq<State>, i: nat)
    requires |sizes| == |c.jobs| && IsRun(c, run) && i < |run|
    requires forall j :: 0 <= j < |run| ==> AllWithin(sizes, run[j])
    ensures Measure(sizes, run[i]) + i <= 3 * c.workers + WaitingCost(sizes, 0)
  {
    if i == 0 {
      SumConstant(CostsOf(sizes, run[0]), 3);
    } else {
      RunMeasure(c, sizes, run, i - 1);
      assert Next(c, run[i - 1], run[i]);
      var t :| 0 <= t < |run[i - 1].threads| && Step(c, run[i - 1], t, run[i]);
      StepCost(c, sizes, run[i - 1], t, run[i]);
      StepOneThread(c, run[i - 1], t, run[i]);
      CostsUpdate(sizes, run[i - 1], t, run[i]);
    }
  }

  // ---------- any jobs: no file outgrows the longest one ----------

  ghost predicate NoLonger(files: Files, m: nat) { forall p :: p in files ==> |files[p]| <= m }

  function Uniform(m: nat, n: nat): seq<nat> { seq(n, _ => m) }

  /** What one worker reads and writes stays within the longest file. */
  lemma StepBounded(c: Config, m: nat, s: State, t: nat, s': State)
    requires t < |s.threads| && Step(c, s, t, s') && NoLonger(s.files, m)
    requires s.threads[t].Write? ==> s.threads[t].stolen + |s.threads[t].buffer| <= m
    requires s.threads[t].Read? ==> s.threads[t].stolen <= m
    ensures NoLonger(s'.files, m) && t < |s'.threads|
    ensures s'.threads[t].Write? ==> 0 < |s'.threads[t].buffer| && s'.threads[t].stolen + |s'.threads[t].buffer| <= m
    ensures s'.threads[t].Read? ==> s'.threads[t].stolen <= m
  {
  }

  lemma StepNoLonger(c: Config, m: nat, s: State, s': State)
    requires Control(c, s) && Next(c, s, s')
    requires NoLonger(s.files, m) && AllWithin(Uniform(m, |c.jobs|), s)
    ensures NoLonger(s'.files, m) && AllWithin(Uniform(m, |c.jobs|), s')
  {
    StepKeepsControl(c, s, s');
    var t :| 0 <= t < |s.threads| && Step(c, s, t, s');
    StepOneThread(c, s, t, s');
    var sizes := Uniform(m, |c.jobs|);
    assert Within(sizes, s.threads[t]);
    StepBounded(c, m, s, t, s');
    hide Step;
    assert HasJob(s'.threads[t]) ==> Working(s', t, s'.threads[t].job);
    forall u | 0 <= u < |s'.threads| ensures Within(sizes, s'.threads[u]) {
      if u != t { assert Within(sizes, s.threads[u]); }
    }
  }

  lemma {:induction false} RunNoLonger(c: Config, m: nat, run: seq<State>, i: nat)
    requires IsRun(c, run) && i < |run| && NoLonger(c.files0, m)
    ensures NoLonger(run[i].files, m) && AllWithin(Uniform(m, |c.jobs|), run[i])
  {
    hide Control, Step;
    if i > 0 {
      RunNoLonger(c, m, run, i - 1);
      RunControl(c, run, i - 1);
      StepNoLonger(c, m, run[i - 1], run[i]);
    }
  }

  lemma {:induction false} UniformCost(m: nat, n: nat, i: nat)
    requires i <= n
    ensures WaitingCost(Uniform(m, n), i) == (n - i) * JobCost(m)
    decreases n - i
  {
    if i < n {
      UniformCost(m, n, i + 1);
      assert (n - i) * JobCost(m) == JobCost(m) + (n - (i + 1)) * JobCost(m);
    }
  }

  /** Whatever the jobs, no run is longer than three steps a worker and 8 + 2 * m steps a job, where
      no file is longer than m to begin with. */
  lemma RunsAreBounded(c: Config, run: seq<State>, m: nat)
    requires IsRun(c, run) && NoLonger(c.files0, m)
    ensures |run| <= 3 * c.workers + |c.jobs| * (2 * m + 8) + 1
  {
    forall i | 0 <= i < |run| ensures AllWithin(Uniform(m, |c.jobs|), run[i]) { RunNoLonger(c, m, run, i); }
    RunMeasure(c, Uniform(m, |c.jobs|), run, |run| - 1);
    UniformCost(m, |c.jobs|, 0);
  }

  // ---------- jobs in harmony: each pays for its own source ----------

  function SourceSizes(c: Config): seq<nat> { seq(|c.jobs|, k requires 0 <= k < |c.jobs| => |Copied(c.files0, c.jobs[k])|) }

  /** For jobs in harmony, 8 + 2 * size steps a job, with the size of its own source. */
  lemma RunsAreBoundedBySize(c: Config, run: seq<State>)
    requires Harmonious(c.files0, c.jobs) && IsRun(c, run)
    ensures |run| <= 3 * c.workers + WaitingCost(SourceSizes(c), 0) + 1
  {
    forall i | 0 <= i < |run| ensures AllWithin(SourceSizes(c), run[i]) {
      RunContents(c, run, i);
      forall t | 0 <= t < |run[i].threads| ensures Within(SourceSizes(c), run[i].threads[t]) {
        var pc := run[i].threads[t];
        if HasJob(pc) { assert Local(c, pc, pc.job); }
      }
    }
    RunMeasure(c, SourceSizes(c), run, |run| - 1);
  }
}
