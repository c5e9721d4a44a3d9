/** Schedules that exist, and with them the exact condition under which every complete run agrees
    with the sequential program. */
module CopySchedules {
  import opened CopyModel
  import opened CopyNames
  import opened CopyWorkers
  import opened CopyTheorems

  function Last(run: seq<State>): State
    requires run != []
  {
    run[|run| - 1]
  }

  lemma Extend(c: Config, run: seq<State>, t: nat, s': State) returns (run': seq<State>)
    requires IsRun(c, run) && t < |Last(run).threads| && Step(c, Last(run), t, s')
    ensures IsRun(c, run') && Last(run') == s'
  {
    run' := run + [s'];
    assert Next(c, Last(run), s');
    forall i | 0 < i < |run'| ensures Next(c, run'[i - 1], run'[i]) {
      if i < |run| { assert Next(c, run[i - 1], run[i]); }
    }
  }

  /** Worker `t` claims the next job. */
  lemma Claim(c: Config, run: seq<State>, t: nat) returns (run': seq<State>)
    requires IsRun(c, run)
    requires var s := Last(run); t < |s.threads| && s.threads[t] == Lock && s.holder == FREE && s.jobIndex < |c.jobs|
    ensures var s := Last(run);
      && IsRun(c, run')
      && Last(run') == Goto(s, t, OpenSource(s.jobIndex)).(jobIndex := s.jobIndex + 1, owner := s.owner + [t], acquired := s.acquired + 1)
  {
    var s := Last(run);
    var s1 := Goto(s, t, Check).(holder := t, acquired := s.acquired + 1);
    run' := Extend(c, run, t, s1);
    var s2 := Goto(s1, t, Take);
    run' := Extend(c, run', t, s2);
    var s3 := Goto(s2, t, Unlock(s.jobIndex)).(jobIndex := s.jobIndex + 1, owner := s.owner + [t]);
    run' := Extend(c, run', t, s3);
    var s4 := Goto(s3, t, OpenSource(s.jobIndex)).(holder := FREE);
    run' := Extend(c, run', t, s4);
    assert s4.threads == s.threads[t := OpenSource(s.jobIndex)];
  }

  /** Worker `t` alone carries its copy from its first read to its end. */
  lemma {:induction false} ReadOut(c: Config, run: seq<State>, t: nat, k: nat, off: nat, files: Files) returns (run': seq<State>)
    requires IsRun(c, run) && k < |c.jobs| && t < |Last(run).threads| && Last(run).threads[t] == Read(k, off)
    requires c.jobs[k].from in files && off <= |Copied(files, c.jobs[k])|
    requires Last(run).files == files[c.jobs[k].to := Copied(files, c.jobs[k])[..off]]
    ensures IsRun(c, run')
    ensures Last(run') == Finish(Last(run), t, k).(files := CopyOne(files, c.jobs[k]))
    decreases |Copied(files, c.jobs[k])| - off
  {
    var s, j := Last(run), c.jobs[k];
    var goal := Copied(files, j);
    var source := Content(s.files, j.from);
    assert source == if j.from == j.to then [] else goal;
    if off == |goal| {
      assert goal[..off] == goal;
      run' := Extend(c, run, t, Finish(s, t, k));
    } else {
      assert IsRead(source, off, 1);
      var s1 := Goto(s, t, Write(k, off, source[off..off + 1]));
      run' := Extend(c, run, t, s1);
      WriteNext(goal, off, 1);
      var s2 := Goto(s1, t, Read(k, off + 1)).(files := s.files[j.to := goal[..off + 1]]);
      assert s2.files == files[j.to := goal[..off + 1]];
      run' := Extend(c, run', t, s2);
      run' := ReadOut(c, run', t, k, off + 1, files);
      assert s2.threads[t := Lock] == s.threads[t := Lock];
    }
  }

  /** Worker `t` alone carries out the job it has claimed. */
  lemma Copy(c: Config, run: seq<State>, t: nat, k: nat) returns (run': seq<State>)
    requires IsRun(c, run) && k < |c.jobs| && t < |Last(run).threads| && Last(run).threads[t] == OpenSource(k)
    ensures IsRun(c, run')
    ensures Last(run') == Finish(Last(run), t, k).(files := CopyOne(Last(run).files, c.jobs[k]))
  {
    var s, j := Last(run), c.jobs[k];
    var found := j.from in s.files;
    var s1 := Goto(s, t, OpenDest(k, found));
    run' := Extend(c, run, t, s1);
    var s2 := Goto(s1, t, Stat(k, found)).(files := s.files[j.to := []]);
    run' := Extend(c, run', t, s2);
    if found {
      var s3 := Goto(s2, t, Read(k, 0));
      run' := Extend(c, run', t, s3);
      run' := ReadOut(c, run', t, k, 0, s.files);
      assert s3.threads[t := Lock] == s.threads[t := Lock];
    } else {
      run' := Extend(c, run', t, Finish(s2, t, k));
      assert s2.threads[t := Lock] == s.threads[t := Lock];
    }
  }

  /** Worker `t` finds the queue empty and returns. */
  lemma Exit(c: Config, run: seq<State>, t: nat) returns (run': seq<State>)
    requires IsRun(c, run)
    requires var s := Last(run); t < |s.threads| && s.threads[t] == Lock && s.holder == FREE && s.jobIndex == |c.jobs|
    ensures IsRun(c, run') && Last(run') == Goto(Last(run), t, Exited).(acquired := Last(run).acquired + 1)
  {
    var s := Last(run);
    var s1 := Goto(s, t, Check).(holder := t, acquired := s.acquired + 1);
    run' := Extend(c, run, t, s1);
    var s2 := Goto(s1, t, Leave);
    run' := Extend(c, run', t, s2);
    var s3 := Goto(s2, t, Exited).(holder := FREE);
    run' := Extend(c, run', t, s3);
    assert s3.threads == s.threads[t := Exited];
  }

  /** Everybody waits for the lock, and nobody holds it. */
  ghost predicate Idle(c: Config, s: State) {
    |s.threads| == c.workers && s.holder == FREE && forall t :: 0 <= t < c.workers ==> s.threads[t] == Lock
  }

  lemma ExitAll(c: Config, run: seq<State>) returns (run': seq<State>)
    requires IsRun(c, run) && Idle(c, Last(run)) && Last(run).jobIndex == |c.jobs|
    ensures Complete(c, run') && Last(run').files == Last(run).files
  {
    run' := run;
    var t := 0;
    while t < c.workers
      invariant 0 <= t <= c.workers && IsRun(c, run')
      invariant var s := Last(run'); |s.threads| == c.workers && s.holder == FREE && s.jobIndex == |c.jobs| && s.files == Last(run).files
      invariant forall u :: 0 <= u < c.workers ==> Last(run').threads[u] == if u < t then Exited else Lock
    {
      run' := Exit(c, run', t);
      t := t + 1;
    }
  }

  /** Worker `t` alone does the next job. */
  lemma ServeOne(c: Config, run: seq<State>, t: nat) returns (run': seq<State>)
    requires IsRun(c, run)
    requires var s := Last(run); t < |s.threads| && s.threads[t] == Lock && s.holder == FREE && s.jobIndex < |c.jobs|
    ensures IsRun(c, run')
    ensures var s, s' := Last(run), Last(run');
      && s'.threads == s.threads && s'.holder == FREE && s'.jobIndex == s.jobIndex + 1
      && s'.files == CopyOne(s.files, c.jobs[s.jobIndex])
  {
    var k := Last(run).jobIndex;
    hide IsRun, CopyOne;
    run' := Claim(c, run, t);
    run' := Copy(c, run', t, k);
  }

  /** Worker `t` alone does the jobs up to `n`, while every other worker stays where it is. */
  lemma Serve(c: Config, run: seq<State>, t: nat, n: nat) returns (run': seq<State>)
    requires IsRun(c, run) && n <= |c.jobs|
    requires var s := Last(run); t < |s.threads| && s.threads[t] == Lock && s.holder == FREE && s.jobIndex <= n
    ensures IsRun(c, run')
    ensures var s, s' := Last(run), Last(run');
      && s'.threads == s.threads && s'.holder == FREE && s'.jobIndex == n
      && (SameElsewhere(c.files0, c.jobs, s.files) ==> SameElsewhere(c.files0, c.jobs, s'.files))
      && (s.files == CopyEach(c.files0, c.jobs[..s.jobIndex]) ==> s'.files == CopyEach(c.files0, c.jobs[..n]))
    decreases n - Last(run).jobIndex
  {
    var k, files := Last(run).jobIndex, Last(run).files;
    hide IsRun, SameElsewhere, CopyEach;
    if k == n {
      run' := run;
    } else {
      run' := ServeOne(c, run, t);
      CopyOneElsewhere(c.files0, c.jobs, files, k);
      CopyEachNext(c.files0, c.jobs, k);
      run' := Serve(c, run', t, n);
    }
  }

  lemma CopyEachNext(files: Files, jobs: seq<Job>, k: nat)
    requires k < |jobs|
    ensures CopyEach(files, jobs[..k + 1]) == CopyOne(CopyEach(files, jobs[..k]), jobs[k])
  {
    assert jobs[..k + 1][..k] == jobs[..k];
  }

  lemma CopyOneElsewhere(files: Files, jobs: seq<Job>, f: Files, k: nat)
    requires k < |jobs|
    ensures SameElsewhere(files, jobs, f) ==> SameElsewhere(files, jobs, CopyOne(f, jobs[k]))
  {
    if SameElsewhere(files, jobs, f) {
      forall p | !IsDest(jobs, p) ensures SameAt(files, CopyOne(f, jobs[k]), p) {
        assert SameAt(files, f, p) && jobs[k].to != p;
      }
    }
  }

  /** Whatever the jobs, some complete run of the threads does them one after the other. */
  lemma SerialRunExists(c: Config) returns (run: seq<State>)
    requires c.workers > 0
    ensures Complete(c, run) && Last(run).files == CopyEach(c.files0, c.jobs)
  {
    run := [Start(c)];
    assert c.jobs[..0] == [] && c.jobs[..|c.jobs|] == c.jobs;
    run := Serve(c, run, 0, |c.jobs|);
    run := ExitAll(c, run);
  }

  /** With a second worker, some complete run carries out job `d` after all others. */
  lemma DelayedRunExists(c: Config, d: nat) returns (run: seq<State>)
    requires c.workers > 1 && d < |c.jobs| && SourcesApart(c.jobs)
    ensures Complete(c, run) && Arrived(c.files0, c.jobs[d], Last(run).files)
  {
    run := [Start(c)];
    run := Serve(c, run, 1, d);
    run := Claim(c, run, 0);
    run := Serve(c, run, 1, |c.jobs|);
    ghost var f := Last(run).files;
    run := Copy(c, run, 0, d);
    CopiedStable(c.files0, c.jobs, f, d);
    run := ExitAll(c, run);
  }

  /** Jobs that would leave different bytes in one destination have two complete runs that differ. */
  lemma ClashingJobsDiffer(c: Config, i: nat, j: nat) returns (run: seq<State>, run': seq<State>)
    requires c.workers > 1 && SourcesApart(c.jobs) && i < |c.jobs| && j < |c.jobs|
    requires c.jobs[i].to == c.jobs[j].to && Copied(c.files0, c.jobs[i]) != Copied(c.files0, c.jobs[j])
    ensures Complete(c, run) && Complete(c, run') && Last(run).files != Last(run').files
  {
    run := DelayedRunExists(c, i);
    run' := DelayedRunExists(c, j);
  }

  /** Sources with the same name would leave the same bytes; one that lies in the folder already
      counts as empty, for copying it onto itself empties it. */
  ghost predicate SameNameSameBytes(files: Files, folder: string, sources: seq<string>) {
    forall i, j :: 0 <= i < j < |sources| && Basename(sources[i]) == Basename(sources[j]) ==>
      Copied(files, ThreadedJob(folder, sources[i])) == Copied(files, ThreadedJob(folder, sources[j]))
  }

  lemma SameNamesClash(files: Files, folder: string, sources: seq<string>)
    ensures SameBytes(files, ThreadedJobs(folder, sources)) <==> SameNameSameBytes(files, folder, sources)
  {
    hide ThreadedJob, Basename, Copied;
    var jobs := ThreadedJobs(folder, sources);
    if SameBytes(files, jobs) {
      forall i, j | 0 <= i < j < |sources| && Basename(sources[i]) == Basename(sources[j])
        ensures Copied(files, ThreadedJob(folder, sources[i])) == Copied(files, ThreadedJob(folder, sources[j]))
      {
        TwoJobsInterfere(folder, sources[i], sources[j]);
        assert jobs[i].to == jobs[j].to;
      }
    }
    if SameNameSameBytes(files, folder, sources) {
      forall i, j | 0 <= i < |jobs| && 0 <= j < |jobs| && jobs[i].to == jobs[j].to ensures Copied(files, jobs[i]) == Copied(files, jobs[j]) {
        TwoJobsInterfere(folder, sources[i], sources[j]);
        assert Basename(sources[i]) == Basename(sources[j]);
      }
    }
  }

  ghost predicate AllRunsLeave(c: Config, files: Files) {
    forall run :: Complete(c, run) ==> Last(run).files == files
  }

  /** The exact condition, on what main really queues: every complete run of two or more workers leaves
      the files of the sequential program if and only if sources with the same name have the same bytes
      and the jobs from the first source on that program cannot open have their results in place. */
  lemma AllRunsMatchSequential(c: Config, folder: string, sources: seq<string>)
    requires folder != "" && c.jobs == ThreadedJobs(folder, sources) && c.workers > 1
    ensures AllRunsLeave(c, SeqCopy(c.files0, SequentialJobs(folder, sources))) <==>
      SameNameSameBytes(c.files0, folder, sources) && RestInPlace(c.files0, c.jobs)
  {
    hide ThreadedJob, SequentialJob, RestInPlace, SameNameSameBytes, Joined;
    SameNamesClash(c.files0, folder, sources);
    if SameBytes(c.files0, c.jobs) {
      forall run | Complete(c, run)
        ensures Last(run).files == SeqCopy(c.files0, SequentialJobs(folder, sources)) <==> RestInPlace(c.files0, c.jobs)
      {
        ThreadedMatchesSequential(c, folder, sources, run);
      }
      var run := SerialRunExists(c);
      assert Complete(c, run);
    } else {
      QueuedJobsInterfere(folder, sources);
      var i, j :| 0 <= i < |c.jobs| && 0 <= j < |c.jobs| && c.jobs[i].to == c.jobs[j].to && Copied(c.files0, c.jobs[i]) != Copied(c.files0, c.jobs[j]);
      var run, run' := ClashingJobsDiffer(c, i, j);
      assert Complete(c, run) && Complete(c, run');
    }
  }

  /** When all sources exist, only the same-name condition is left. */
  lemma ExistingSourcesMatch(c: Config, folder: string, sources: seq<string>)
    requires folder != "" && c.jobs == ThreadedJobs(folder, sources) && c.workers > 1
    requires forall k :: 0 <= k < |sources| ==> Resolve(sources[k]) in c.files0
    ensures AllRunsLeave(c, SeqCopy(c.files0, SequentialJobs(folder, sources))) <==> SameNameSameBytes(c.files0, folder, sources)
  {
    hide SeqCopy, SequentialJob, SameNameSameBytes, AllRunsLeave, RestInPlace, Resolve, ThreadedJob;
    AllRunsMatchSequential(c, folder, sources);
    NoSourceMissing(c.files0, folder, sources);
  }

  /** Copying x/f and y/f, which differ, into d: some run of the eight workers leaves other files than
      the sequential program. */
  lemma SameNameRaces()
    ensures var files, sources := map["x/f" := [1], "y/f" := [2]], ["x/f", "y/f"];
      var c := Config(files, ThreadedJobs("d", sources), 8);
      !AllRunsLeave(c, SeqCopy(files, SequentialJobs("d", sources)))
  {
    var files, sources := map["x/f" := [1], "y/f" := [2]], ["x/f", "y/f"];
    var c := Config(files, ThreadedJobs("d", sources), 8);
    TwoSources();
    assert Copied(files, ThreadedJob("d", sources[0])) == [1] && Copied(files, ThreadedJob("d", sources[1])) == [2];
    assert !SameNameSameBytes(files, "d", sources);
    AllRunsMatchSequential(c, "d", sources);
  }

  lemma TwoSources()
    ensures Basename("x/f") == Basename("y/f") == "f"
    ensures ThreadedJob("d", "x/f") == Job("x/f", "d/f") && ThreadedJob("d", "y/f") == Job("y/f", "d/f")
  {
    hide Basename, Resolve;
    BasenameOf("x", "f");
    BasenameOf("y", "f");
    assert "x" + "/" + "f" == "x/f" && "y" + "/" + "f" == "y/f" && "d" + "/" + "f" == "d/f";
    ThreeChars('x');
    ThreeChars('y');
    ThreeChars('d');
  }

  lemma ThreeChars(c: char)
    requires c != '/'
    ensures Resolve([c, '/', 'f']) == [c, '/', 'f']
  {
    assert [c, '/', 'f'][1..] == "/f" && "/f"[1..] == "f" && "f"[1..] == "";
    assert Resolve("f") == "f" && Resolve("/f") == "/f";
  }
}
