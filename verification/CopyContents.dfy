/** What is in the files while the workers run, for jobs in harmony. */
module CopyContents {
  import opened CopyModel
  import opened CopyWorkers

  /** What the worker of job `k` knows at `pc`. */
  ghost predicate Local(c: Config, pc: Pc, k: nat)
    requires k < |c.jobs| && HasJob(pc)
  {
    var j := c.jobs[k];
    var goal := Copied(c.files0, j);
    var exists0 := j.from in c.files0;
    match pc
    case Unlock(_) => true
    case OpenSource(_) => true
    case OpenDest(_, found) => j.from != j.to ==> found == exists0
    case Stat(_, found) => j.from != j.to ==> found == exists0
    case Read(_, off) => off <= |goal| && (j.from != j.to ==> exists0)
    case Write(_, off, buffer) =>
      (j.from != j.to ==> exists0) && 0 < |buffer| <= 4096 && off + |buffer| <= |goal| && buffer == goal[off..off + |buffer|]
  }

  ghost predicate Truncated(pc: Pc) { pc.Stat? || pc.Read? || pc.Write? }

  /** Job `k` has truncated its destination. */
  ghost predicate Touched(c: Config, s: State, k: int)
    requires Ownership(c, s)
  {
    0 <= k < s.jobIndex && (k in s.finished || (assert Working(s, s.owner[k], k); Truncated(s.threads[s.owner[k]])))
  }

  /** How many bytes job `k` has delivered. */
  ghost function Delivered(c: Config, s: State, k: nat): nat
    requires Ownership(c, s) && k < |c.jobs| && Touched(c, s, k)
  {
    if k in s.finished then |Copied(c.files0, c.jobs[k])| else
    assert Working(s, s.owner[k], k);
    match s.threads[s.owner[k]]
    case Read(_, off) => off
    case Write(_, off, _) => off
    case _ => 0
  }

  /** What job `k` has delivered is still there. */
  ghost predicate Leads(c: Config, s: State, k: nat)
    requires Ownership(c, s) && k < |c.jobs|
  {
    var j := c.jobs[k];
    var goal := Copied(c.files0, j);
    && Touched(c, s, k) && j.to in s.files
    && Delivered(c, s, k) <= |s.files[j.to]| <= |goal|
    && s.files[j.to][..Delivered(c, s, k)] == goal[..Delivered(c, s, k)]
  }

  ghost predicate ForDest(c: Config, k: int, p: Path) { 0 <= k < |c.jobs| && c.jobs[k].to == p }

  /** A destination is as it was until a job truncates it; then the last job to do so is in the lead. */
  ghost predicate DestState(c: Config, s: State, p: Path)
    requires Ownership(c, s)
  {
    if exists k :: ForDest(c, k, p) && Touched(c, s, k) then exists k :: ForDest(c, k, p) && Leads(c, s, k)
    else SameAt(c.files0, s.files, p)
  }

  ghost predicate Contents(c: Config, s: State)
    requires Ownership(c, s)
  {
    && (forall t :: 0 <= t < |s.threads| && HasJob(s.threads[t]) ==> s.threads[t].job < |c.jobs| && Local(c, s.threads[t], s.threads[t].job))
    && (forall p :: DestState(c, s, p))
  }

  lemma StartContents(c: Config)
    ensures Ownership(c, Start(c)) && Contents(c, Start(c))
  {
  }

  /** Files outside the destinations never change. */
  lemma OthersUnchanged(c: Config, s: State)
    requires Ownership(c, s) && Contents(c, s)
    ensures SameElsewhere(c.files0, c.jobs, s.files)
  {
    forall p | !IsDest(c.jobs, p) ensures SameAt(c.files0, s.files, p) {
      assert DestState(c, s, p);
      assert forall k :: ForDest(c, k, p) ==> IsDest(c.jobs, p);
    }
  }

  /** The worker's source is still what it was, unless it is its own destination. */
  lemma SourceUnchanged(c: Config, s: State, k: nat)
    requires SourcesApart(c.jobs) && k < |c.jobs| && Ownership(c, s) && Contents(c, s)
    requires c.jobs[k].from != c.jobs[k].to
    ensures SameAt(c.files0, s.files, c.jobs[k].from)
  {
    OthersUnchanged(c, s);
    assert !IsDest(c.jobs, c.jobs[k].from);
  }

  /** A file copied onto itself is empty once truncated. */
  lemma SelfCopyEmpty(c: Config, s: State, k: nat)
    requires SameBytes(c.files0, c.jobs) && k < |c.jobs| && Ownership(c, s) && Contents(c, s) && Touched(c, s, k)
    requires c.jobs[k].from == c.jobs[k].to
    ensures c.jobs[k].to in s.files && s.files[c.jobs[k].to] == []
  {
    assert DestState(c, s, c.jobs[k].to);
    assert ForDest(c, k, c.jobs[k].to);
    var l :| ForDest(c, l, c.jobs[k].to) && Leads(c, s, l);
    assert Copied(c.files0, c.jobs[l]) == Copied(c.files0, c.jobs[k]);
  }

  lemma StepLocal(c: Config, s: State, t: nat, s': State)
    requires t < |s.threads| && Harmonious(c.files0, c.jobs) && Ownership(c, s) && Contents(c, s) && Step(c, s, t, s')
    requires HasJob(s.threads[t]) && HasJob(s'.threads[t])
    ensures s'.threads[t].job == s.threads[t].job && Local(c, s'.threads[t], s.threads[t].job)
  {
    var k := s.threads[t].job;
    assert Working(s, t, k);
    var j := c.jobs[k];
    assert Local(c, s.threads[t], k);
    if j.from != j.to {
      SourceUnchanged(c, s, k);
    } else if s.threads[t].Read? {
      SelfCopyEmpty(c, s, k);
    }
  }

  /** The bytes already right stay right when a job writes its next piece. */
  lemma WriteKeepsPrefix(content: File, goal: File, off: nat, n: nat, r: nat)
    requires off + n <= |goal| && |content| <= |goal| && r <= |content| && content[..r] == goal[..r]
    ensures var after := WriteAt(content, off, goal[off..off + n]);
      && r <= |after| <= |goal| && after[..r] == goal[..r] && off + n <= |after|
      && (r == off ==> after[..off + n] == goal[..off + n])
  {
    var data := goal[off..off + n];
    var after := WriteAt(content, off, data);
    assert forall i :: off <= i < off + n ==> after[i] == data[i - off] == goal[i];
    assert forall i :: 0 <= i < r ==> content[i] == content[..r][i] == goal[..r][i] == goal[i];
    assert forall i :: 0 <= i < r && i < off ==> after[i] == content[i];
    assert forall i :: off + n <= i < r ==> after[i] == content[i];
  }

  /** A job the stepping worker does not hold keeps its standing; a newly claimed one has done nothing. */
  lemma StepKeepsJob(c: Config, s: State, t: nat, s': State, k: nat)
    requires t < |s.threads| && Ownership(c, s) && Step(c, s, t, s') && Ownership(c, s')
    requires k < |c.jobs| && !Working(s, t, k)
    ensures Touched(c, s', k) <==> Touched(c, s, k)
    ensures Touched(c, s, k) ==> Delivered(c, s', k) == Delivered(c, s, k)
  {
    StepClaims(c, s, t, s');
    hide Step;
    if k < s.jobIndex && k !in s.finished { assert Working(s, s.owner[k], k); }
  }

  lemma StepOtherDest(c: Config, s: State, t: nat, s': State, p: Path)
    requires t < |s.threads| && Ownership(c, s) && Step(c, s, t, s') && Ownership(c, s') && DestState(c, s, p)
    requires HasJob(s.threads[t]) ==> !ForDest(c, s.threads[t].job, p)
    ensures DestState(c, s', p)
  {
    StepFiles(c, s, t, s', p);
    hide Step;
    forall k | ForDest(c, k, p)
      ensures Touched(c, s', k) <==> Touched(c, s, k)
      ensures Leads(c, s, k) ==> Leads(c, s', k)
    {
      assert !Working(s, t, k);
      StepKeepsJob(c, s, t, s', k);
    }
  }

  /** Only the destination of the stepping worker's job can change. */
  lemma StepFiles(c: Config, s: State, t: nat, s': State, p: Path)
    requires t < |s.threads| && Step(c, s, t, s')
    requires HasJob(s.threads[t]) ==> !ForDest(c, s.threads[t].job, p)
    ensures SameAt(s.files, s'.files, p)
  {
  }

  /** The stepping worker's own destination, before it is truncated. */
  lemma StepBefore(c: Config, s: State, t: nat, s': State)
    requires t < |s.threads| && Ownership(c, s) && Contents(c, s) && Step(c, s, t, s') && Ownership(c, s')
    requires s.threads[t].Unlock? || s.threads[t].OpenSource?
    ensures DestState(c, s', c.jobs[s.threads[t].job].to)
  {
    var k := s.threads[t].job;
    var p := c.jobs[k].to;
    assert Working(s, t, k) && Working(s', t, k);
    assert DestState(c, s, p) && s'.files == s.files;
    forall l | ForDest(c, l, p)
      ensures Touched(c, s', l) <==> Touched(c, s, l)
      ensures Leads(c, s, l) ==> Leads(c, s', l)
    {
      if l != k { StepKeepsJob(c, s, t, s', l); }
    }
  }

  lemma StepTruncates(c: Config, s: State, t: nat, s': State)
    requires t < |s.threads| && Ownership(c, s) && Step(c, s, t, s') && Ownership(c, s')
    requires s.threads[t].OpenDest?
    ensures DestState(c, s', c.jobs[s.threads[t].job].to)
  {
    var k := s.threads[t].job;
    assert Working(s', t, k);
    assert Touched(c, s', k) && Leads(c, s', k) && ForDest(c, k, c.jobs[k].to);
  }

  /** Reading changes no file, and finishing counts what has been delivered as everything. */
  lemma StepReads(c: Config, s: State, t: nat, s': State)
    requires t < |s.threads| && Harmonious(c.files0, c.jobs) && Ownership(c, s) && Contents(c, s) && Step(c, s, t, s') && Ownership(c, s')
    requires s.threads[t].Stat? || s.threads[t].Read?
    ensures DestState(c, s', c.jobs[s.threads[t].job].to)
  {
    var k := s.threads[t].job;
    var p := c.jobs[k].to;
    assert Working(s, t, k) && Local(c, s.threads[t], k);
    assert DestState(c, s, p) && ForDest(c, k, p) && Touched(c, s, k);
    if c.jobs[k].from != c.jobs[k].to { SourceUnchanged(c, s, k); } else { SelfCopyEmpty(c, s, k); }
    if k !in s'.finished { assert Working(s', t, k); }
    assert s'.files == s.files && Touched(c, s', k) && Delivered(c, s', k) == Delivered(c, s, k);
    var l :| ForDest(c, l, p) && Leads(c, s, l);
    if l != k { StepKeepsJob(c, s, t, s', l); }
    assert Leads(c, s', l);
  }

  /** A write adds its piece and counts it as delivered. */
  lemma WriteEffect(c: Config, s: State, t: nat, s': State)
    requires t < |s.threads| && Ownership(c, s) && Step(c, s, t, s') && Ownership(c, s')
    requires s.threads[t].Write? && s.threads[t].job < |c.jobs|
    ensures var pc := s.threads[t];
      var k, p := pc.job, c.jobs[pc.job].to;
      && Touched(c, s, k) && Touched(c, s', k) && Delivered(c, s, k) == pc.stolen && Delivered(c, s', k) == pc.stolen + |pc.buffer|
      && s'.files == s.files[p := WriteAt(Content(s.files, p), pc.stolen, pc.buffer)]
  {
    var k := s.threads[t].job;
    assert Working(s, t, k);
    assert s'.threads[t] == Read(k, s.threads[t].stolen + |s.threads[t].buffer|);
    assert Working(s', t, k);
    hide Step, WriteAt;
  }

  lemma StepWrites(c: Config, s: State, t: nat, s': State)
    requires t < |s.threads| && Harmonious(c.files0, c.jobs) && Ownership(c, s) && Contents(c, s) && Step(c, s, t, s') && Ownership(c, s')
    requires s.threads[t].Write?
    ensures DestState(c, s', c.jobs[s.threads[t].job].to)
  {
    var pc := s.threads[t];
    var k := pc.job;
    var p := c.jobs[k].to;
    assert Local(c, pc, k);
    WriteEffect(c, s, t, s');
    assert DestState(c, s, p) && ForDest(c, k, p);
    var l :| ForDest(c, l, p) && Leads(c, s, l);
    assert Copied(c.files0, c.jobs[l]) == Copied(c.files0, c.jobs[k]);
    assert Working(s, t, k);
    hide Step, Contents, Harmonious, DestState, WriteAt, Ownership, Touched, Delivered, Copied;
    if l != k { StepKeepsJob(c, s, t, s', l); }
    WriteKeepsLead(c, s, s', l, pc.stolen, pc.buffer, if l == k then pc.stolen + |pc.buffer| else Delivered(c, s, l));
    StillLeading(c, s', k, l);
  }

  /** The leading job stays in the lead when bytes of its content are written. */
  lemma WriteKeepsLead(c: Config, s: State, s': State, l: nat, off: nat, data: File, r: nat)
    requires Ownership(c, s) && Ownership(c, s') && l < |c.jobs| && Leads(c, s, l) && Touched(c, s', l) && Delivered(c, s', l) == r
    requires var j := c.jobs[l];
      && off + |data| <= |Copied(c.files0, j)| && data == Copied(c.files0, j)[off..off + |data|]
      && s'.files == s.files[j.to := WriteAt(Content(s.files, j.to), off, data)]
    requires r == Delivered(c, s, l) || (Delivered(c, s, l) == off && r == off + |data|)
    ensures Leads(c, s', l)
  {
    hide Ownership, Touched, Delivered, Copied, WriteAt;
    var j := c.jobs[l];
    WriteKeepsPrefix(s.files[j.to], Copied(c.files0, j), off, |data|, Delivered(c, s, l));
  }

  lemma StillLeading(c: Config, s: State, k: nat, l: nat)
    requires Ownership(c, s) && k < |c.jobs| && l < |c.jobs| && c.jobs[k].to == c.jobs[l].to && Touched(c, s, k) && Leads(c, s, l)
    ensures DestState(c, s, c.jobs[k].to)
  {
    assert ForDest(c, k, c.jobs[k].to) && ForDest(c, l, c.jobs[k].to);
  }

  lemma StepContents(c: Config, s: State, t: nat, s': State)
    requires t < |s.threads| && Harmonious(c.files0, c.jobs) && Ownership(c, s) && Contents(c, s) && Step(c, s, t, s') && Ownership(c, s')
    requires QueueBounds(c, s)
    ensures Contents(c, s')
  {
    var pc := s.threads[t];
    StepClaims(c, s, t, s');
    forall u | 0 <= u < |s'.threads| && HasJob(s'.threads[u])
      ensures s'.threads[u].job < |c.jobs| && Local(c, s'.threads[u], s'.threads[u].job)
    {
      if u == t && HasJob(pc) { StepLocal(c, s, t, s'); }
    }
    forall p ensures DestState(c, s', p) {
      assert DestState(c, s, p);
      if HasJob(pc) && ForDest(c, pc.job, p) {
        if pc.Unlock? || pc.OpenSource? { StepBefore(c, s, t, s'); }
        else if pc.OpenDest? { StepTruncates(c, s, t, s'); }
        else if pc.Write? { StepWrites(c, s, t, s'); }
        else { StepReads(c, s, t, s'); }
      } else {
        StepOtherDest(c, s, t, s', p);
      }
    }
  }

  /** When every job is finished, every destination is complete. */
  lemma FinishedContents(c: Config, s: State)
    requires SameBytes(c.files0, c.jobs) && Ownership(c, s) && Contents(c, s)
    requires s.jobIndex == |c.jobs| && forall k :: 0 <= k < |c.jobs| ==> k in s.finished
    ensures CopiedExactly(c.files0, c.jobs, s.files)
  {
    OthersUnchanged(c, s);
    forall k | 0 <= k < |c.jobs| ensures Arrived(c.files0, c.jobs[k], s.files) {
      var p := c.jobs[k].to;
      assert DestState(c, s, p) && ForDest(c, k, p) && Touched(c, s, k);
      var l :| ForDest(c, l, p) && Leads(c, s, l);
      assert Copied(c.files0, c.jobs[l]) == Copied(c.files0, c.jobs[k]);
    }
  }
}
