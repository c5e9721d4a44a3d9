/** The jobs the two programs make of their command line: sources, then a folder. */
module CopyNames {
  import opened CopyModel

  const MAX_JOBS := 1024

  /** The part after the last '/'. */
  function Basename(p: string): (name: string)
    ensures '/' !in name
  {
    if '/' !in p then p else Basename(p[1..])
  }

  /** It is a suffix without slashes, and a longer one would begin with a slash. */
  lemma {:induction false} BasenameIsLast(p: string)
    ensures var n := |Basename(p)|;
      n <= |p| && p[|p| - n..] == Basename(p) && '/' !in Basename(p) && (n < |p| ==> p[|p| - n - 1] == '/')
    decreases |p|
  {
    BasenameNext(p);
    hide Basename;
    if '/' in p {
      BasenameIsLast(p[1..]);
      EndsAlike(p, Basename(p));
    }
  }

  lemma BasenameNext(p: string)
    ensures Basename(p) == if '/' in p then Basename(p[1..]) else p
  {
  }

  lemma EndsAlike(p: string, name: string)
    requires '/' in p && |name| < |p|
    requires var q, n := p[1..], |name|; q[|q| - n..] == name && '/' !in name && (n < |q| ==> q[|q| - n - 1] == '/')
    ensures p[|p| - |name|..] == name && p[|p| - |name| - 1] == '/'
  {
    if |name| + 1 == |p| { assert p == [p[0]] + name; }
  }

  function ThreadedDest(dir: string, source: string): string { dir + "/" + Basename(source) }

  function SequentialDest(dir: string, source: string): string
    requires dir != ""
  {
    if dir[|dir| - 1] != '/' then dir + "/" + Basename(source) else dir + Basename(source)
  }

  /** Path resolution: a run of slashes counts as one. */
  function Resolve(p: string): Path {
    if p == "" then "" else if |p| > 1 && p[0] == '/' && p[1] == '/' then Resolve(p[1..]) else [p[0]] + Resolve(p[1..])
  }

  // ---------- what resolution does ----------

  /** No two slashes in a row. */
  predicate SingleSlashes(p: string) { forall i :: 0 < i < |p| ==> !(p[i - 1] == '/' && p[i] == '/') }

  lemma ResolveStep(p: string)
    ensures Resolve(p) == if p == "" then "" else if |p| > 1 && p[0] == '/' && p[1] == '/' then Resolve(p[1..]) else [p[0]] + Resolve(p[1..])
    ensures p != "" ==> Resolve(p) != "" && Resolve(p)[0] == p[0]
  {
  }

  lemma {:induction false} ResolvedHasSingleSlashes(p: string)
    ensures SingleSlashes(Resolve(p))
    decreases |p|
  {
    ResolveStep(p);
    if p != "" {
      var r := Resolve(p[1..]);
      ResolvedHasSingleSlashes(p[1..]);
      ResolveStep(p[1..]);
      hide Resolve;
      if !(|p| > 1 && p[0] == '/' && p[1] == '/') {
        var q := [p[0]] + r;
        forall i | 0 < i < |q| ensures !(q[i - 1] == '/' && q[i] == '/') { if i > 1 { assert r[i - 2] == q[i - 1] && r[i - 1] == q[i]; } }
      }
    }
  }

  /** A name without doubled slashes is left alone. */
  lemma {:induction false} ResolveKeeps(p: string)
    requires SingleSlashes(p)
    ensures Resolve(p) == p
    decreases |p|
  {
    if p != "" {
      assert |p| > 1 ==> !(p[0] == '/' && p[1] == '/');
      assert SingleSlashes(p[1..]) by { assert forall i :: 0 < i < |p[1..]| ==> p[1..][i] == p[i + 1] && p[1..][i - 1] == p[i]; }
      ResolveKeeps(p[1..]);
      assert [p[0]] + p[1..] == p;
    }
  }

  function DropSlashes(p: string): (q: string)
    ensures |q| <= |p| && (q != "" ==> q[0] != '/')
  {
    if p != "" && p[0] == '/' then DropSlashes(p[1..]) else p
  }

  /** The same characters in the same order, where only the lengths of runs of slashes may differ. */
  predicate SameUpToSlashes(p: string, q: string)
    decreases |p|
  {
    if p == "" || q == "" then p == q
    else if p[0] == '/' then q[0] == '/' && SameUpToSlashes(DropSlashes(p[1..]), DropSlashes(q[1..]))
    else p[0] == q[0] && SameUpToSlashes(p[1..], q[1..])
  }

  lemma {:induction false} ResolveRun(p: string)
    requires p != "" && p[0] == '/'
    ensures Resolve(p) == "/" + Resolve(DropSlashes(p[1..]))
    decreases |p|
  {
    if |p| > 1 && p[1] == '/' {
      ResolveRun(p[1..]);
      assert DropSlashes(p[1..]) == DropSlashes(p[2..]) && p[1..][1..] == p[2..];
    } else {
      assert DropSlashes(p[1..]) == p[1..];
    }
  }

  /** Two names resolve alike if and only if they differ only in the lengths of their runs of slashes. */
  lemma {:induction false} ResolveAlike(p: string, q: string)
    ensures Resolve(p) == Resolve(q) <==> SameUpToSlashes(p, q)
    decreases |p|
  {
    ResolveStep(p);
    ResolveStep(q);
    if p != "" && q != "" && p[0] == q[0] {
      var p', q' := if p[0] == '/' then DropSlashes(p[1..]) else p[1..], if p[0] == '/' then DropSlashes(q[1..]) else q[1..];
      if p[0] == '/' { ResolveRun(p); ResolveRun(q); }
      assert Resolve(p) == [p[0]] + Resolve(p') && Resolve(q) == [p[0]] + Resolve(q');
      ResolveAlike(p', q');
      hide Resolve;
      assert ([p[0]] + Resolve(p'))[1..] == Resolve(p') && ([p[0]] + Resolve(q'))[1..] == Resolve(q');
    }
  }

  function ThreadedJob(dir: string, source: string): Job { Job(Resolve(source), Resolve(ThreadedDest(dir, source))) }

  function SequentialJob(dir: string, source: string): Job
    requires dir != ""
  {
    Job(Resolve(source), Resolve(SequentialDest(dir, source)))
  }

  /** The files the queue of threaded_steal.c names, one job a source. */
  function ThreadedJobs(dir: string, sources: seq<string>): seq<Job> {
    seq(|sources|, k requires 0 <= k < |sources| => ThreadedJob(dir, sources[k]))
  }

  /** The files the loop of steal.c names. */
  function SequentialJobs(dir: string, sources: seq<string>): seq<Job>
    requires dir != ""
  {
    seq(|sources|, k requires 0 <= k < |sources| => SequentialJob(dir, sources[k]))
  }

  // ---------- both programs name the same files ----------

  lemma {:induction false} DoubleSlash(dir: string, name: string)
    ensures Resolve(dir + "//" + name) == Resolve(dir + "/" + name)
    decreases |dir|
  {
    if dir == "" {
      assert ("" + "//" + name)[1..] == "" + "/" + name;
    } else {
      DoubleSlash(dir[1..], name);
      assert (dir + "//" + name)[1..] == dir[1..] + "//" + name;
      assert (dir + "/" + name)[1..] == dir[1..] + "/" + name;
    }
  }

  /** The two programs spell the destination differently when the folder ends in '/', but both names
      resolve to the same file. */
  lemma SameDestination(dir: string, source: string)
    requires dir != ""
    ensures Resolve(ThreadedDest(dir, source)) == Resolve(SequentialDest(dir, source))
  {
    hide Resolve, Basename;
    if dir[|dir| - 1] == '/' {
      var stem := dir[..|dir| - 1];
      assert dir + "/" + Basename(source) == stem + "//" + Basename(source);
      assert dir + Basename(source) == stem + "/" + Basename(source);
      DoubleSlash(stem, Basename(source));
    }
  }

  lemma SameJobs(dir: string, sources: seq<string>)
    requires dir != ""
    ensures ThreadedJobs(dir, sources) == SequentialJobs(dir, sources)
  {
    forall k | 0 <= k < |sources| ensures ThreadedJob(dir, sources[k]) == SequentialJob(dir, sources[k]) {
      SameDestination(dir, sources[k]);
    }
  }

  /** Every job leads from its source, as typed, to the folder, one slash and the source's name. */
  lemma JobsNamed(dir: string, sources: seq<string>, k: nat)
    requires dir != "" && k < |sources|
    ensures ThreadedJobs(dir, sources)[k] == SequentialJobs(dir, sources)[k] == Job(Resolve(sources[k]), Resolve(dir + "/" + Basename(sources[k])))
  {
    SameDestination(dir, sources[k]);
  }

  /** Copying a/b/f into d reads a/b/f and writes d/f, however many slashes are typed. */
  lemma NestedSource()
    ensures ThreadedJobs("d/", ["a//b/f"]) == SequentialJobs("d/", ["a//b/f"]) == [Job("a/b/f", "d/f")]
    ensures var files: Files := map["a/b/f" := [1]];
      SeqCopy(files, [Job("a/b/f", "d/f")]) == files["d/f" := [1]] && SeqReached(files, [Job("a/b/f", "d/f")]) == 1
  {
    NestedNames();
    hide Resolve, Basename;
    JobsNamed("d/", ["a//b/f"], 0);
    SameJobs("d/", ["a//b/f"]);
    OneJob(map["a/b/f" := [1]], Job("a/b/f", "d/f"));
  }

  lemma NestedNames()
    ensures Basename("a//b/f") == "f" && Resolve("a//b/f") == "a/b/f" && Resolve("d/" + "/" + "f") == "d/f"
  {
    hide Resolve, Basename;
    BasenameOf("a//b", "f");
    assert "a//b" + "/" + "f" == "a//b/f" && "d/" + "/" + "f" == "d" + "//" + "f";
    DoubleSlash("a", "b/f");
    assert "a" + "//" + "b/f" == "a//b/f" && "a" + "/" + "b/f" == "a/b/f";
    DoubleSlash("d", "f");
    assert "d" + "/" + "f" == "d/f";
    ResolveKeeps("a/b/f");
    ResolveKeeps("d/f");
  }

  lemma OneJob(files: Files, j: Job)
    requires j.from in files
    ensures SeqCopy(files, [j]) == CopyOne(files, j) && SeqReached(files, [j]) == 1
  {
    assert [j][1..] == [];
  }

  // ---------- which jobs can interfere ----------

  lemma {:induction false} BasenameOf(dir: string, name: string)
    requires '/' !in name
    ensures Basename(dir + "/" + name) == name
    decreases |dir|
  {
    var p := dir + "/" + name;
    assert p[|dir|] == '/';
    if dir == "" {
      assert p[1..] == name;
    } else {
      assert p[1..] == dir[1..] + "/" + name;
      BasenameOf(dir[1..], name);
    }
  }

  lemma {:induction false} ResolveNoSlash(p: string)
    requires '/' !in p
    ensures Resolve(p) == p
    decreases |p|
  {
    if p != "" {
      ResolveNoSlash(p[1..]);
      assert [p[0]] + p[1..] == p;
    }
  }

  /** Resolving a name does not change its last component. */
  lemma {:induction false} ResolveKeepsBasename(p: string)
    ensures Basename(Resolve(p)) == Basename(p) && ('/' in Resolve(p) <==> '/' in p)
    decreases |p|
  {
    if '/' !in p {
      ResolveNoSlash(p);
    } else {
      ResolveKeepsBasename(p[1..]);
      if |p| > 1 && p[0] == '/' && p[1] == '/' {
        assert p[1..][0] == '/';
      } else {
        var r := Resolve(p[1..]);
        assert ([p[0]] + r)[1..] == r;
        assert Resolve(p) == [p[0]] + r;
        assert '/' in p <==> p[0] == '/' || '/' in p[1..];
        assert '/' in Resolve(p) <==> p[0] == '/' || '/' in r;
      }
    }
  }

  lemma JobNames(dir: string, source: string)
    ensures Basename(ThreadedJob(dir, source).from) == Basename(ThreadedJob(dir, source).to) == Basename(source)
  {
    ResolveKeepsBasename(source);
    ResolveKeepsBasename(ThreadedDest(dir, source));
    BasenameOf(dir, Basename(source));
  }

  lemma TwoJobsInterfere(dir: string, s: string, t: string)
    ensures ThreadedJob(dir, s).to == ThreadedJob(dir, t).to <==> Basename(s) == Basename(t)
    ensures ThreadedJob(dir, s).to == ThreadedJob(dir, t).from ==> ThreadedJob(dir, t).from == ThreadedJob(dir, t).to
  {
    JobNames(dir, s);
    JobNames(dir, t);
    hide Resolve, Basename;
  }

  /** Two queued jobs share a destination exactly when their sources have the same name, and no job
      ever reads another one's destination unless that is its own as well. */
  lemma QueuedJobsInterfere(dir: string, sources: seq<string>)
    ensures var jobs := ThreadedJobs(dir, sources);
      && SourcesApart(jobs)
      && forall i, j :: 0 <= i < |jobs| && 0 <= j < |jobs| ==> (jobs[i].to == jobs[j].to <==> Basename(sources[i]) == Basename(sources[j]))
  {
    hide ThreadedJob, Basename;
    var jobs := ThreadedJobs(dir, sources);
    forall i, j | 0 <= i < |jobs| && 0 <= j < |jobs|
      ensures jobs[i].to == jobs[j].to <==> Basename(sources[i]) == Basename(sources[j])
      ensures jobs[i].to == jobs[j].from ==> jobs[j].from == jobs[j].to
    {
      TwoJobsInterfere(dir, sources[i], sources[j]);
    }
  }

  /** Queued jobs are independent if and only if all sources have different names. */
  lemma IndependentByName(dir: string, sources: seq<string>)
    ensures Independent(ThreadedJobs(dir, sources)) <==>
      forall i, j :: 0 <= i < j < |sources| ==> Basename(sources[i]) != Basename(sources[j])
  {
    var jobs := ThreadedJobs(dir, sources);
    QueuedJobsInterfere(dir, sources);
    if Independent(jobs) {
      forall i, j | 0 <= i < j < |sources| ensures Basename(sources[i]) != Basename(sources[j]) {
        assert jobs[i].to != jobs[j].to;
      }
    }
    if forall i, j :: 0 <= i < j < |sources| ==> Basename(sources[i]) != Basename(sources[j]) {
      forall i, j | 0 <= i < |jobs| && 0 <= j < |jobs| && i != j ensures jobs[i].to != jobs[j].to && jobs[i].to != jobs[j].from {
        assert Basename(sources[i]) != Basename(sources[j]);
      }
    }
  }

  // A slot of job_queue: the names as they are spelled.
  datatype Slot = Slot(from: string, to: string)

  /** The queue main fills before it starts the workers. It has room for MAX_JOBS jobs and no check:
      with more sources the loop writes past its end. */
  method BuildQueue(sources: seq<string>, folder: string) returns (queue: array<Slot>, jobCount: nat, overrun: bool)
    ensures fresh(queue) && queue.Length == MAX_JOBS && jobCount <= MAX_JOBS
    ensures overrun <==> |sources| > 1024
    ensures !overrun ==> jobCount == |sources|
    ensures forall k :: 0 <= k < jobCount && k < |sources| ==>
      && queue[k] == Slot(sources[k], folder + "/" + Basename(sources[k]))
      && Job(Resolve(queue[k].from), Resolve(queue[k].to)) == ThreadedJobs(folder, sources)[k]
  {
    hide Resolve, Basename;
    queue := new Slot[MAX_JOBS](_ => Slot("", ""));
    jobCount, overrun := 0, false;
    var i := 0;
    while i < |sources|
      invariant 0 <= i == jobCount <= |sources| && jobCount <= MAX_JOBS
      invariant forall k :: 0 <= k < jobCount ==> queue[k] == Slot(sources[k], ThreadedDest(folder, sources[k]))
    {
      if jobCount == MAX_JOBS { return queue, jobCount, true; }
      queue[jobCount] := Slot(sources[i], ThreadedDest(folder, sources[i]));
      jobCount := jobCount + 1;
      i := i + 1;
    }
  }
}
