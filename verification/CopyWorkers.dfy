/** The threaded copier as a transition system: each step is one source line of one worker. */
module CopyWorkers {
  import opened CopyModel

  datatype Config = Config(files0: Files, jobs: seq<Job>, workers: nat)

  /** The program counter of a worker, with the local variables that are live there. */
  datatype Pc =
    | Lock                                   // waiting for queue_mutex
    | Check                                  // holds it, about to compare job_index with job_count
    | Leave                                  // holds it, about to release it and return
    | Take                                   // holds it, about to copy out the next job
    | Unlock(job: nat)                       // holds it, about to release it
    | OpenSource(job: nat)
    | OpenDest(job: nat, found: bool)
    | Stat(job: nat, found: bool)            // fstat fails on a source that could not be opened
    | Read(job: nat, stolen: nat)
    | Write(job: nat, stolen: nat, buffer: File)
    | Exited

  // `owner`, `finished` and `acquired` only record history: who claimed each job, which jobs are
  // over, and how often the mutex was taken.
  datatype State = State(
    files: Files, jobIndex: nat, holder: int, threads: seq<Pc>,
    owner: seq<nat>, finished: set<nat>, acquired: nat)

  const FREE := -1

  predicate InCritical(pc: Pc) { pc.Check? || pc.Leave? || pc.Take? || pc.Unlock? }

  predicate HasJob(pc: Pc) { pc.Unlock? || pc.OpenSource? || pc.OpenDest? || pc.Stat? || pc.Read? || pc.Write? }

  function Goto(s: State, t: nat, pc: Pc): State
    requires t < |s.threads|
  {
    s.(threads := s.threads[t := pc])
  }

  /** The copy is over: the worker goes back for the next job. */
  function Finish(s: State, t: nat, k: nat): State
    requires t < |s.threads|
  {
    Goto(s, t, Lock).(finished := s.finished + {k})
  }

  function Content(files: Files, p: Path): File { if p in files then files[p] else [] }

  function Start(c: Config): State {
    State(c.files0, 0, FREE, seq(c.workers, _ => Lock), [], {}, 0)
  }

  ghost predicate Step(c: Config, s: State, t: nat, s': State)
    requires t < |s.threads|
  {
    var pc := s.threads[t];
    (HasJob(pc) ==> pc.job < |c.jobs|) &&
    match pc
    case Lock => s.holder == FREE && s' == Goto(s, t, Check).(holder := t, acquired := s.acquired + 1)
    case Check => s' == Goto(s, t, if s.jobIndex >= |c.jobs| then Leave else Take)
    case Leave => s' == Goto(s, t, Exited).(holder := FREE)
    case Take => s' == Goto(s, t, Unlock(s.jobIndex)).(jobIndex := s.jobIndex + 1, owner := s.owner + [t])
    case Unlock(k) => s' == Goto(s, t, OpenSource(k)).(holder := FREE)
    case OpenSource(k) => s' == Goto(s, t, OpenDest(k, c.jobs[k].from in s.files))
    case OpenDest(k, found) => s' == Goto(s, t, Stat(k, found)).(files := s.files[c.jobs[k].to := []])
    case Stat(k, found) => s' == if found then Goto(s, t, Read(k, 0)) else Finish(s, t, k)
    case Read(k, off) =>
      var source := Content(s.files, c.jobs[k].from);
      if off >= |source| then s' == Finish(s, t, k)
      else exists n :: IsRead(source, off, n) && s' == Goto(s, t, Write(k, off, source[off..off + n]))
    case Write(k, off, buffer) =>
      var to := c.jobs[k].to;
      s' == Goto(s, t, Read(k, off + |buffer|)).(files := s.files[to := WriteAt(Content(s.files, to), off, buffer)])
    case Exited => false
  }

  /** read(2) returns between one byte and a full buffer while there is something left. */
  predicate IsRead(source: File, off: nat, n: int) { 1 <= n <= BUF_SIZE && off + n <= |source| }

  ghost predicate Next(c: Config, s: State, s': State) { exists t :: 0 <= t < |s.threads| && Step(c, s, t, s') }

  ghost predicate IsRun(c: Config, run: seq<State>) {
    && run != []
    && run[0] == Start(c)
    && forall i :: 0 < i < |run| ==> Next(c, run[i - 1], run[i])
  }

  /** main has joined every worker. */
  predicate Joined(s: State) { forall t :: 0 <= t < |s.threads| ==> s.threads[t] == Exited }

  // ---------- the invariant ----------

  ghost predicate Mutex(s: State) {
    && (s.holder == FREE || 0 <= s.holder < |s.threads|)
    && forall t :: 0 <= t < |s.threads| ==> (InCritical(s.threads[t]) <==> s.holder == t)
  }

  ghost predicate QueueBounds(c: Config, s: State) {
    && s.jobIndex <= |c.jobs|
    && forall t :: 0 <= t < |s.threads| ==>
      && (s.threads[t].Take? ==> s.jobIndex < |c.jobs|)
      && (s.threads[t].Leave? || s.threads[t].Exited? ==> s.jobIndex == |c.jobs|)
  }

  ghost predicate Working(s: State, t: int, k: int) { 0 <= t < |s.threads| && HasJob(s.threads[t]) && s.threads[t].job == k }

  /** The claimed jobs are 0..jobIndex-1, each finished or held by the one worker that claimed it. */
  ghost predicate Ownership(c: Config, s: State) {
    && |s.owner| == s.jobIndex
    && (forall k :: k in s.finished ==> k < s.jobIndex)
    && (forall t, k :: Working(s, t, k) ==> 0 <= k < s.jobIndex && k !in s.finished && s.owner[k] == t)
    && (forall k :: 0 <= k < s.jobIndex ==> k in s.finished || Working(s, s.owner[k], k))
  }

  // ---------- counting ----------

  function Sum(ns: seq<nat>): nat { if ns == [] then 0 else ns[0] + Sum(ns[1..]) }

  lemma {:induction false} SumUpdate(ns: seq<nat>, t: nat, v: nat)
    requires t < |ns|
    ensures Sum(ns[t := v]) == Sum(ns) - ns[t] + v
    decreases t
  {
    if t > 0 {
      SumUpdate(ns[1..], t - 1, v);
      assert ns[t := v][1..] == ns[1..][t - 1 := v];
    } else {
      assert ns[t := v][1..] == ns[1..];
    }
  }

  lemma {:induction false} SumConstant(ns: seq<nat>, v: nat)
    requires forall t :: 0 <= t < |ns| ==> ns[t] == v
    ensures Sum(ns) == |ns| * v
    decreases |ns|
  {
    if ns != [] { SumConstant(ns[1..], v); }
  }

  /** The acquisitions of the current round that did not (yet) claim a job. */
  function Unclaimed(pc: Pc): nat { if pc.Check? || pc.Leave? || pc.Take? || pc.Exited? then 1 else 0 }

  function UnclaimedOf(s: State): seq<nat> { seq(|s.threads|, t requires 0 <= t < |s.threads| => Unclaimed(s.threads[t])) }

  ghost predicate Accounting(s: State) { s.acquired == s.jobIndex + Sum(UnclaimedOf(s)) }

  /** Control needs no assumption on the jobs at all. */
  ghost predicate Control(c: Config, s: State) {
    |s.threads| == c.workers && Mutex(s) && QueueBounds(c, s) && Ownership(c, s) && Accounting(s)
  }

  lemma StartControl(c: Config)
    ensures Control(c, Start(c))
  {
    SumConstant(UnclaimedOf(Start(c)), 0);
  }

  // ---------- every step keeps it ----------

  /** A step changes the program counter of the stepping worker only. */
  lemma StepOneThread(c: Config, s: State, t: nat, s': State)
    requires t < |s.threads| && Step(c, s, t, s')
    ensures |s'.threads| == |s.threads| && s'.threads == s.threads[t := s'.threads[t]]
    ensures s'.acquired - s'.jobIndex + Unclaimed(s.threads[t]) == s.acquired - s.jobIndex + Unclaimed(s'.threads[t])
  {
  }

  lemma UnclaimedUpdate(s: State, t: nat, s': State)
    requires t < |s.threads| && |s'.threads| == |s.threads| && s'.threads == s.threads[t := s'.threads[t]]
    ensures Sum(UnclaimedOf(s')) == Sum(UnclaimedOf(s)) - Unclaimed(s.threads[t]) + Unclaimed(s'.threads[t])
  {
    SumUpdate(UnclaimedOf(s), t, Unclaimed(s'.threads[t]));
    assert UnclaimedOf(s') == UnclaimedOf(s)[t := Unclaimed(s'.threads[t])];
  }

  lemma StepAccounting(c: Config, s: State, t: nat, s': State)
    requires t < |s.threads| && Accounting(s) && Step(c, s, t, s')
    ensures Accounting(s')
  {
    StepOneThread(c, s, t, s');
    UnclaimedUpdate(s, t, s');
  }

  lemma StepControl(c: Config, s: State, t: nat, s': State)
    requires t < |s.threads| && Mutex(s) && QueueBounds(c, s) && Step(c, s, t, s')
    ensures Mutex(s') && QueueBounds(c, s')
  {
    assert InCritical(s.threads[t]) <==> s.holder == t;
    forall u | 0 <= u < |s'.threads|
      ensures InCritical(s'.threads[u]) <==> s'.holder == u
      ensures s'.threads[u].Take? ==> s'.jobIndex < |c.jobs|
      ensures s'.threads[u].Leave? || s'.threads[u].Exited? ==> s'.jobIndex == |c.jobs|
    {
      assert InCritical(s.threads[u]) <==> s.holder == u;
    }
  }

  lemma StepOwnership(c: Config, s: State, t: nat, s': State)
    requires t < |s.threads| && Ownership(c, s) && Step(c, s, t, s')
    ensures Ownership(c, s')
  {
    StepClaims(c, s, t, s');
    hide Step;
    forall u, k | Working(s', u, k) ensures 0 <= k < s'.jobIndex && k !in s'.finished && s'.owner[k] == u {
      if u != t { assert Working(s, u, k); }
    }
    forall k | 0 <= k < s'.jobIndex ensures k in s'.finished || Working(s', s'.owner[k], k) {
      if k < s.jobIndex { assert k in s.finished || Working(s, s.owner[k], k); }
    }
  }

  /** How one step changes who holds what: only the stepping worker's own claim, by taking the next
      job, keeping the one it has, or finishing it. */
  lemma StepClaims(c: Config, s: State, t: nat, s': State)
    requires t < |s.threads| && Ownership(c, s) && Step(c, s, t, s')
    ensures |s'.threads| == |s.threads| && forall u :: 0 <= u < |s.threads| && u != t ==> s'.threads[u] == s.threads[u]
    ensures var was, now := s.threads[t], s'.threads[t];
      if HasJob(now) && !HasJob(was) then
        now.job == s.jobIndex && s'.jobIndex == s.jobIndex + 1 && s'.owner == s.owner + [t] && s'.finished == s.finished
      else
        && s'.jobIndex == s.jobIndex && s'.owner == s.owner
        && (HasJob(was) ==> Working(s, t, was.job))
        && s'.finished == (if HasJob(was) && !HasJob(now) then s.finished + {was.job} else s.finished)
        && (HasJob(was) && HasJob(now) ==> now.job == was.job)
  {
  }

  lemma StepKeepsControl(c: Config, s: State, s': State)
    requires Control(c, s) && Next(c, s, s')
    ensures Control(c, s')
  {
    var t :| 0 <= t < |s.threads| && Step(c, s, t, s');
    StepOneThread(c, s, t, s');
    StepAccounting(c, s, t, s');
    StepControl(c, s, t, s');
    StepOwnership(c, s, t, s');
  }
}
