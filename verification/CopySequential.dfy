/** steal.c: the files copied one after the other. */
module CopySequential {
  import opened CopyModel
  import opened CopyNames

  /** What that leaves for a source it reached: its bytes in the folder under the source's name, or nothing
      where a file was copied onto itself. */
  lemma CopiedFiles(files: Files, sources: seq<string>, folder: string, k: nat)
    requires folder != "" && Harmonious(files, SequentialJobs(folder, sources)) && k < SeqReached(files, SequentialJobs(folder, sources))
    ensures var from, to := Resolve(sources[k]), Resolve(folder + "/" + Basename(sources[k]));
      var final := SeqCopy(files, SequentialJobs(folder, sources));
      to in final && final[to] == if from in files && from != to then files[from] else []
  {
    hide Resolve, Basename, Harmonious;
    var jobs := SequentialJobs(folder, sources);
    SequentialOutcome(files, jobs);
    JobsNamed(folder, sources, k);
    assert jobs[..SeqReached(files, jobs)][k] == jobs[k] && Arrived(files, jobs[k], SeqCopy(files, jobs));
  }

  class FileSystem {
    var files: Files

    constructor (files: Files)
      ensures this.files == files
    {
      this.files := files;
    }

    /** Copies in pieces of whatever size read(2) returns, 1 to BUF_SIZE bytes; the destination was
        just opened with O_TRUNC. */
    method CopyFiles(src: Path, dest: Path) returns (error: int)
      requires src in files && dest in files && files[dest] == []
      modifies this
      ensures error == 0
      ensures files == old(files)[dest := if src == dest then [] else old(files)[src]]
    {
      var stolen := 0;
      while stolen < |files[src]|
        invariant src in files && dest in files && stolen <= |files[src]|
        invariant src == dest ==> files == old(files)
        invariant src != dest ==> files[src] == old(files)[src]
        invariant src != dest ==> files == old(files)[dest := files[src][..stolen]]
        decreases |files[src]| - stolen
      {
        var bRead :| 1 <= bRead <= BUF_SIZE && stolen + bRead <= |files[src]|;
        var buffer := files[src][stolen..stolen + bRead];
        WriteNext(files[src], stolen, bRead);
        files := files[dest := WriteAt(files[dest], stolen, buffer)];
        stolen := stolen + bRead;
      }
      assert files[src][..stolen] == files[src];
      error := 0;
    }

    /** The per-file loop of main, ending early at a source that cannot be opened. */
    method CopyAll(sources: seq<string>, folder: string) returns (success: nat)
      requires folder != ""
      modifies this
      ensures var jobs := SequentialJobs(folder, sources);
        && files == SeqCopy(old(files), jobs) && success == SeqReached(old(files), jobs)
        && (Harmonious(old(files), jobs) ==> CopiedExactly(old(files), jobs[..success], files))
    {
      hide SequentialDest, Resolve, Harmonious;
      ghost var jobs := SequentialJobs(folder, sources);
      success := 0;
      var i := 0;
      while i < |sources|
        invariant success == i <= |sources|
        invariant SeqCopy(files, jobs[i..]) == SeqCopy(old(files), jobs)
        invariant i + SeqReached(files, jobs[i..]) == SeqReached(old(files), jobs)
      {
        var from := Resolve(sources[i]);
        if from !in files { break; }
        var to := Resolve(SequentialDest(folder, sources[i]));
        ghost var before := files;
        assert jobs[i..][0] == Job(from, to) && jobs[i..][1..] == jobs[i + 1..];
        files := files[to := []];
        var error := CopyFiles(from, to);
        assert files == CopyOne(before, Job(from, to));
        success := success + 1;
        i := i + 1;
      }
      if Harmonious(old(files), jobs) { SequentialOutcome(old(files), jobs); }
    }
  }
}
