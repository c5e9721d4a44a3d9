/** What every run of the threaded copier satisfies, and how its result compares with steal.c. */
module CopyTheorems {
  import opened CopyModel
  import opened CopyNames
  import opened CopyWorkers
  import opened CopyContents

  lemma {:induction false} RunControl(c: Config, run: seq<State>, i: nat)
    requires IsRun(c, run) && i < |run|
    ensures Control(c, run[i])
  {
    if i == 0 {
      StartControl(c);
    } else {
      RunControl(c, run, i - 1);
      StepKeepsControl(c, run[i - 1], run[i]);
    }
  }

  lemma {:induction false} RunContents(c: Config, run: seq<State>, i: nat)
    requires Harmonious(c.files0, c.jobs) && IsRun(c, run) && i < |run|
    ensures Control(c, run[i]) && Contents(c, run[i])
  {
    RunControl(c, run, i);
    if i == 0 {
      StartContents(c);
    } else {
      RunContents(c, run, i - 1);
      var t :| 0 <= t < |run[i - 1].threads| && Step(c, run[i - 1], t, run[i]);
      StepContents(c, run[i - 1], t, run[i]);
    }
  }

  // ---------- control: any jobs whatever ----------

  /** Exactly once, at every point of every run: the claimed jobs are 0..job_index-1, each is either
      finished or in the hands of one worker and never both, and no two workers share a job. */
  lemma ClaimedExactlyOnce(c: Config, run: seq<State>)
    requires IsRun(c, run)
    ensures var s := run[|run| - 1];
      && s.jobIndex <= |c.jobs|
      && (forall k :: k in s.finished || (exists t :: Working(s, t, k)) <==> 0 <= k < s.jobIndex)
      && (forall t, k :: Working(s, t, k) ==> k !in s.finished)
      && (forall t, u, k :: Working(s, t, k) && Working(s, u, k) ==> t == u)
  {
    RunControl(c, run, |run| - 1);
  }

  /** At most one worker is between lock and unlock. */
  lemma MutualExclusion(c: Config, run: seq<State>, t: nat, u: nat)
    requires IsRun(c, run)
    requires var s := run[|run| - 1];
      t < |s.threads| && u < |s.threads| && InCritical(s.threads[t]) && InCritical(s.threads[u])
    ensures t == u
  {
    RunControl(c, run, |run| - 1);
    var s := run[|run| - 1];
    assert InCritical(s.threads[t]) <==> s.holder == t;
    assert InCritical(s.threads[u]) <==> s.holder == u;
  }

  /** Every worker has returned and main has joined them all. */
  ghost predicate Complete(c: Config, run: seq<State>) { IsRun(c, run) && Joined(run[|run| - 1]) }

  /** Once main has joined the workers, every job is done and the mutex was taken
      job_count + NUM_THREADS times. */
  lemma JoinedCounts(c: Config, run: seq<State>)
    requires Complete(c, run) && c.workers > 0
    ensures var s := run[|run| - 1];
      && (forall k :: k in s.finished <==> 0 <= k < |c.jobs|)
      && s.jobIndex == |c.jobs| && s.acquired == |c.jobs| + c.workers
  {
    var s := run[|run| - 1];
    RunControl(c, run, |run| - 1);
    assert s.threads[0].Exited?;
    SumConstant(UnclaimedOf(s), 1);
    forall k | 0 <= k < |c.jobs| ensures k in s.finished {
      assert k in s.finished || Working(s, s.owner[k], k);
    }
  }

  /** The scheduler is free: in every reachable state every worker that has not returned and does not
      wait for a lock that is held can make its next step. */
  lemma EveryWorkerCanMove(c: Config, run: seq<State>, t: nat) returns (s': State)
    requires IsRun(c, run)
    requires var s := run[|run| - 1]; t < |s.threads| && s.threads[t] != Exited && (s.threads[t] == Lock ==> s.holder == FREE)
    ensures Step(c, run[|run| - 1], t, s') && IsRun(c, run + [s'])
  {
    var s := run[|run| - 1];
    RunControl(c, run, |run| - 1);
    assert HasJob(s.threads[t]) ==> Working(s, t, s.threads[t].job);
    s' := SomeStep(c, s, t);
    assert Next(c, s, s');
  }

  /** So some step is enabled in every reachable state that is not final. */
  lemma NoDeadlock(c: Config, run: seq<State>) returns (s': State)
    requires IsRun(c, run) && !Joined(run[|run| - 1])
    ensures Next(c, run[|run| - 1], s') && IsRun(c, run + [s'])
  {
    var s := run[|run| - 1];
    RunControl(c, run, |run| - 1);
    var t: nat;
    if s.holder == FREE {
      t :| t < |s.threads| && s.threads[t] != Exited;
    } else {
      t := s.holder;
    }
    assert InCritical(s.threads[t]) <==> s.holder == t;
    s' := EveryWorkerCanMove(c, run, t);
    assert Next(c, s, s');
  }

  /** And read(2) is free: any piece of one byte up to a full buffer of 4096 can come next. */
  lemma AnyPieceCanBeRead(c: Config, run: seq<State>, t: nat, n: nat) returns (s': State)
    requires IsRun(c, run)
    requires var s := run[|run| - 1];
      && t < |s.threads| && s.threads[t].Read? && s.threads[t].job < |c.jobs| && c.jobs[s.threads[t].job].from in s.files
      && 0 < n <= 4096 && s.threads[t].stolen + n <= |s.files[c.jobs[s.threads[t].job].from]|
    ensures var s := run[|run| - 1];
      var k, off := s.threads[t].job, s.threads[t].stolen;
      s' == s.(threads := s.threads[t := Write(k, off, s.files[c.jobs[k].from][off..off + n])])
    ensures IsRun(c, run + [s'])
  {
    var s := run[|run| - 1];
    var k, off := s.threads[t].job, s.threads[t].stolen;
    assert IsRead(s.files[c.jobs[k].from], off, n);
    s' := Goto(s, t, Write(k, off, s.files[c.jobs[k].from][off..off + n]));
    assert Step(c, s, t, s');
    assert Next(c, s, s');
  }

  /** A worker that is neither waiting for a held lock nor done can move. */
  lemma SomeStep(c: Config, s: State, t: nat) returns (s': State)
    requires t < |s.threads| && s.threads[t] != Exited && (s.threads[t] == Lock ==> s.holder == FREE)
    requires HasJob(s.threads[t]) ==> s.threads[t].job < |c.jobs|
    ensures Step(c, s, t, s')
  {
    match s.threads[t] {
      case Lock => s' := Goto(s, t, Check).(holder := t, acquired := s.acquired + 1);
      case Check => s' := Goto(s, t, if s.jobIndex >= |c.jobs| then Leave else Take);
      case Leave => s' := Goto(s, t, Exited).(holder := FREE);
      case Take => s' := Goto(s, t, Unlock(s.jobIndex)).(jobIndex := s.jobIndex + 1, owner := s.owner + [t]);
      case Unlock(k) => s' := Goto(s, t, OpenSource(k)).(holder := FREE);
      case OpenSource(k) => s' := Goto(s, t, OpenDest(k, c.jobs[k].from in s.files));
      case OpenDest(k, found) => s' := Goto(s, t, Stat(k, found)).(files := s.files[c.jobs[k].to := []]);
      case Stat(k, found) => s' := if found then Goto(s, t, Read(k, 0)) else Finish(s, t, k);
      case Read(k, off) =>
        var source := Content(s.files, c.jobs[k].from);
        if off >= |source| {
          s' := Finish(s, t, k);
        } else {
          assert IsRead(source, off, 1);
          s' := Goto(s, t, Write(k, off, source[off..off + 1]));
        }
      case Write(k, off, buffer) =>
        s' := Goto(s, t, Read(k, off + |buffer|)).(files := s.files[c.jobs[k].to := WriteAt(Content(s.files, c.jobs[k].to), off, buffer)]);
    }
  }

  // ---------- contents: jobs in harmony ----------

  /** At any point, what a worker is about to write is the next piece of its original source. */
  lemma PiecesInOrder(c: Config, run: seq<State>, t: nat)
    requires Harmonious(c.files0, c.jobs) && IsRun(c, run)
    requires var s := run[|run| - 1]; t < |s.threads| && s.threads[t].Write?
    ensures var pc := run[|run| - 1].threads[t];
      && pc.job < |c.jobs| && 0 < |pc.buffer| <= 4096
      && pc.stolen + |pc.buffer| <= |Copied(c.files0, c.jobs[pc.job])|
      && pc.buffer == Copied(c.files0, c.jobs[pc.job])[pc.stolen..pc.stolen + |pc.buffer|]
  {
    RunContents(c, run, |run| - 1);
    var pc := run[|run| - 1].threads[t];
    assert HasJob(pc) && Local(c, pc, pc.job);
  }

  /** Every destination then holds its source's original content and nothing else has changed, also
      where several jobs bring the same bytes to one destination. */
  lemma JoinedOutcome(c: Config, run: seq<State>)
    requires Harmonious(c.files0, c.jobs) && Complete(c, run) && c.workers > 0
    ensures CopiedExactly(c.files0, c.jobs, run[|run| - 1].files)
    ensures var files, final := c.files0, run[|run| - 1].files;
      forall k :: 0 <= k < |c.jobs| ==> var j := c.jobs[k];
        j.to in final && final[j.to] == if j.from in files && j.from != j.to then files[j.from] else []
  {
    JoinedCounts(c, run);
    RunContents(c, run, |run| - 1);
    FinishedContents(c, run[|run| - 1]);
    assert forall k :: 0 <= k < |c.jobs| ==> Arrived(c.files0, c.jobs[k], run[|run| - 1].files);
  }

  /** Job `k` has its result without being carried out: another one that is shares its destination,
      or it was there beforehand. */
  ghost predicate InPlace(files: Files, jobs: seq<Job>, m: nat, k: nat)
    requires m <= |jobs| && k < |jobs|
  {
    IsDest(jobs[..m], jobs[k].to) || Arrived(files, jobs[k], files)
  }

  /** From the first source on that cannot be opened when its turn comes, every job has its result in
      place. */
  ghost predicate RestInPlace(files: Files, jobs: seq<Job>) {
    var m := FirstUnopenable(files, jobs);
    forall k :: m <= k < |jobs| ==> InPlace(files, jobs, m, k)
  }

  /** With nothing missing there is no such job. */
  lemma NothingLeftOver(files: Files, jobs: seq<Job>)
    requires forall k :: 0 <= k < |jobs| ==> jobs[k].from in files
    ensures RestInPlace(files, jobs)
  {
    var m := FirstUnopenable(files, jobs);
    assert m < |jobs| ==> Openable(files, jobs, m);
  }

  /** The exact outcome of a batch is the sequential one if and only if that holds. */
  lemma OutcomesAgree(files: Files, jobs: seq<Job>, final: Files)
    requires Harmonious(files, jobs) && CopiedExactly(files, jobs, final)
    ensures final == SeqCopy(files, jobs) <==> RestInPlace(files, jobs)
  {
    hide FirstUnopenable, SeqReached, SeqCopy;
    ReachedIsFirstUnopenable(files, jobs);
    var m := FirstUnopenable(files, jobs);
    var seqFiles, reached := SeqCopy(files, jobs), jobs[..m];
    SequentialOutcome(files, jobs);
    if final == seqFiles {
      forall k | m <= k < |jobs| ensures InPlace(files, jobs, m, k) {
        if !IsDest(reached, jobs[k].to) {
          assert SameAt(files, seqFiles, jobs[k].to) && Arrived(files, jobs[k], final);
        }
      }
    }
    if RestInPlace(files, jobs) {
      forall k | 0 <= k < |jobs| ensures Arrived(files, jobs[k], seqFiles) {
        if k < m {
          assert Arrived(files, reached[k], seqFiles);
        } else {
          assert InPlace(files, jobs, m, k);
          if IsDest(reached, jobs[k].to) {
            var i :| 0 <= i < m && reached[i].to == jobs[k].to;
            assert Arrived(files, reached[i], seqFiles) && reached[i] == jobs[i];
          } else {
            assert SameAt(files, seqFiles, jobs[k].to);
          }
        }
      }
      forall p | !IsDest(jobs, p) ensures SameAt(files, seqFiles, p) {
        assert !IsDest(reached, p) by { assert forall k :: 0 <= k < m ==> reached[k] == jobs[k]; }
      }
      CopiedExactlyIsUnique(files, jobs, final, seqFiles);
    }
  }

  /** Two programs, one command line: for sources of which any two with the same name have the same
      bytes, every complete run of the threads leaves what the sequential program leaves, whatever the
      schedule and the sizes read, if and only if the jobs from the first source on that cannot be opened
      have their results in place; in particular whenever all sources exist. */
  lemma ThreadedMatchesSequential(c: Config, folder: string, sources: seq<string>, run: seq<State>)
    requires folder != "" && c.jobs == ThreadedJobs(folder, sources) && c.workers > 0 && Complete(c, run)
    requires SameBytes(c.files0, c.jobs)
    ensures run[|run| - 1].files == SeqCopy(c.files0, SequentialJobs(folder, sources)) <==> RestInPlace(c.files0, c.jobs)
    ensures (forall k :: 0 <= k < |sources| ==> Resolve(sources[k]) in c.files0) ==>
      run[|run| - 1].files == SeqCopy(c.files0, SequentialJobs(folder, sources))
  {
    hide ThreadedJob, SequentialJob, RestInPlace, SameBytes, CopiedExactly, SeqCopy, Joined, Resolve;
    QueuedJobsInterfere(folder, sources);
    SameJobs(folder, sources);
    JoinedOutcome(c, run);
    OutcomesAgree(c.files0, c.jobs, run[|run| - 1].files);
    if forall k :: 0 <= k < |sources| ==> Resolve(sources[k]) in c.files0 { NoSourceMissing(c.files0, folder, sources); }
  }

  lemma NoSourceMissing(files: Files, folder: string, sources: seq<string>)
    requires forall k :: 0 <= k < |sources| ==> Resolve(sources[k]) in files
    ensures RestInPlace(files, ThreadedJobs(folder, sources))
  {
    hide RestInPlace, Resolve, ThreadedDest;
    NothingLeftOver(files, ThreadedJobs(folder, sources));
  }
}
