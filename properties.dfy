/**
 * Properties of the reconciliation loop: what a run leaves in the output
 * directory, what the download counter means, and what a second run does.
 */
module ScrapeDataProperties {
  import opened ScrapeData

  /** The final names of the listing. */
  function Names(jobs: seq<Job>): set<string>
  {
    set i | 0 <= i < |jobs| :: jobs[i].file.fileName
  }

  /** The temp names the listing can write. */
  function TempNames(jobs: seq<Job>): set<string>
  {
    set i | 0 <= i < |jobs| :: TempName(jobs[i].file.fileName)
  }

  /**
   * No listed final name is also the temp name of a listed file (PeMS names
   * end in .txt or .txt.gz, never in the temp suffix).
   */
  predicate NoClash(jobs: seq<Job>)
  {
    forall i, j :: 0 <= i < |jobs| && 0 <= j < |jobs| ==>
      jobs[i].file.fileName != TempName(jobs[j].file.fileName)
  }

  /** Two listings name the same files in the same order; the network may answer differently. */
  predicate SameFiles(jobs: seq<Job>, again: seq<Job>)
  {
    |jobs| == |again| && forall i :: 0 <= i < |jobs| ==> again[i].file == jobs[i].file
  }

  /** Entry k of the run's directory was installed by the rename of listed file i. */
  ghost predicate InstalledAt(jobs: seq<Job>, r: Run, i: int, k: string)
  {
    0 <= i < |r.statuses| && i < |jobs| &&
    jobs[i].file.fileName == k && r.statuses[i].Downloaded? &&
    1 <= r.statuses[i].attempts <= MaxAttempts &&
    jobs[i].answers[r.statuses[i].attempts - 1].Ok? &&
    k in r.dir && r.dir[k] == jobs[i].answers[r.statuses[i].attempts - 1].content
  }

  /** Entry k is the temp file of the file whose exhausted attempts aborted the run. */
  ghost predicate AbortTemp(jobs: seq<Job>, r: Run, k: string)
  {
    r.result.Aborted? && 0 < |r.statuses| <= |jobs| &&
    k == TempName(jobs[|r.statuses| - 1].file.fileName)
  }

  lemma NamesSnoc(jobs: seq<Job>)
    requires jobs != []
    ensures var n := |jobs| - 1;
      Names(jobs) == Names(jobs[..n]) + {jobs[n].file.fileName} &&
      TempNames(jobs) == TempNames(jobs[..n]) + {TempName(jobs[n].file.fileName)}
  {
    var n := |jobs| - 1;
    forall x | x in Names(jobs) ensures x in Names(jobs[..n]) + {jobs[n].file.fileName} {
      var i :| 0 <= i < |jobs| && jobs[i].file.fileName == x;
      if i < n { assert jobs[..n][i] == jobs[i]; }
    }
    forall x | x in Names(jobs[..n]) ensures x in Names(jobs) {
      var i :| 0 <= i < n && jobs[..n][i].file.fileName == x;
      assert jobs[..n][i] == jobs[i];
    }
    forall x | x in TempNames(jobs) ensures x in TempNames(jobs[..n]) + {TempName(jobs[n].file.fileName)} {
      var i :| 0 <= i < |jobs| && TempName(jobs[i].file.fileName) == x;
      if i < n { assert jobs[..n][i] == jobs[i]; }
    }
    forall x | x in TempNames(jobs[..n]) ensures x in TempNames(jobs) {
      var i :| 0 <= i < n && TempName(jobs[..n][i].file.fileName) == x;
      assert jobs[..n][i] == jobs[i];
    }
  }

  lemma NoClashPrefix(jobs: seq<Job>, m: nat)
    requires NoClash(jobs) && m <= |jobs|
    ensures NoClash(jobs[..m])
  {
    forall i, j | 0 <= i < m && 0 <= j < m
      ensures jobs[..m][i].file.fileName != TempName(jobs[..m][j].file.fileName)
    {
      assert jobs[..m][i] == jobs[i] && jobs[..m][j] == jobs[j];
    }
  }

  /** Distinct file names have distinct temp names. */
  lemma TempNameInjective(a: string, b: string)
    requires TempName(a) == TempName(b)
    ensures a == b
  {
    assert |a| == |b|;
    assert a == TempName(a)[..|a|];
  }

  /** A listed url that starts with "/" is fetched as the host followed by the rest of it. */
  lemma RequestUrlRooted(path: string)
    ensures RequestUrl("/" + path) == Host + path
  {
    assert ("/" + path)[1..] == path;
  }

  /** Four failures and then a success download the file; five failures abort. */
  lemma RetryBound(dir: Dir, name: string, outs: Answers)
    requires name !in dir
    requires forall j :: 0 <= j < MaxAttempts - 1 ==> !outs[j].Ok?
    ensures var s := ReconcileSpec(dir, name, outs);
      (outs[MaxAttempts - 1].Ok? ==>
        s.status == Downloaded(MaxAttempts) && name in s.dir &&
        s.dir[name] == outs[MaxAttempts - 1].content) &&
      (!outs[MaxAttempts - 1].Ok? ==> s.status == Exhausted && name !in s.dir)
  {
    var s := ReconcileSpec(dir, name, outs);
    if outs[MaxAttempts - 1].Ok? {
      assert !s.status.Exhausted?;
    }
  }

  /**
   * A temp file left behind by an earlier aborted run does not change what
   * the next attempt at that file does, and vanishes once it is downloaded.
   */
  lemma StaleTempIgnored(dir: Dir, name: string, outs: Answers, stale: Bytes)
    requires name !in dir
    ensures var s := ReconcileSpec(dir[TempName(name) := stale], name, outs);
      var clean := ReconcileSpec(dir, name, outs);
      s.status == clean.status && (s.status.Downloaded? ==> s.dir == clean.dir)
  {
    var tmp := TempName(name);
    var k := FirstSuccess(outs);
    if k < |outs| {
      var w := Overwrite(dir, tmp, LastWrite(outs[..k]))[tmp := outs[k].content];
      var w' := Overwrite(dir[tmp := stale], tmp, LastWrite(outs[..k]))[tmp := outs[k].content];
      assert w == w';
    }
  }

  /** What RunSpec promises about any run it returns, for a listing of length n. */
  ghost predicate Reached(r: Run, n: nat)
  {
    |r.statuses| <= n &&
    (r.result.Completed? ==> |r.statuses| == n && r.result.n == CountDownloaded(r.statuses))
  }

  ghost predicate Bounded(r: Run)
  {
    forall i :: 0 <= i < |r.statuses| ==> WithinRetryBound(r.statuses[i])
  }

  /** Only the last file of an aborted run is exhausted, and its final path is absent. */
  ghost predicate AbortsLast(r: Run, jobs: seq<Job>)
  {
    (forall i :: 0 <= i < |r.statuses| && r.statuses[i].Exhausted? ==>
      r.result.Aborted? && i == |r.statuses| - 1) &&
    (r.result.Aborted? ==>
      0 < |r.statuses| <= |jobs| && r.statuses[|r.statuses| - 1].Exhausted? &&
      jobs[|r.statuses| - 1].file.fileName !in r.dir)
  }

  lemma BoundedStep(prev: Run, job: Job)
    requires Bounded(prev)
    ensures Bounded(RunStep(prev, job))
  {
  }

  lemma AbortsLastStep(prev: Run, jobs: seq<Job>)
    requires jobs != [] && Reached(prev, |jobs| - 1) && AbortsLast(prev, jobs[..|jobs| - 1])
    ensures AbortsLast(RunStep(prev, jobs[|jobs| - 1]), jobs)
  {
    var n := |jobs| - 1;
    if prev.result.Aborted? {
      assert jobs[..n][|prev.statuses| - 1] == jobs[|prev.statuses| - 1];
    }
  }

  /** Every file the run reaches is tried at most MaxAttempts times, and a download takes at least one. */
  lemma {:induction false} RunRetryBound(dir0: Dir, jobs: seq<Job>)
    ensures Bounded(RunSpec(dir0, jobs))
    decreases |jobs|
  {
    if jobs != [] {
      var n := |jobs| - 1;
      RunRetryBound(dir0, jobs[..n]);
      BoundedStep(RunSpec(dir0, jobs[..n]), jobs[n]);
    }
  }

  /**
   * An exhausted file ends the run: it is the last file reached, the run
   * aborts, and its final path does not exist.
   */
  lemma {:induction false} RunAbortsLast(dir0: Dir, jobs: seq<Job>)
    ensures AbortsLast(RunSpec(dir0, jobs), jobs)
    decreases |jobs|
  {
    if jobs != [] {
      var n := |jobs| - 1;
      RunAbortsLast(dir0, jobs[..n]);
      AbortsLastStep(RunSpec(dir0, jobs[..n]), jobs);
    }
  }

  /** The statuses of a run over a prefix of the listing are a prefix of the run's statuses. */
  lemma {:induction false} StatusesGrow(dir0: Dir, jobs: seq<Job>, m: nat)
    requires m <= |jobs|
    ensures RunSpec(dir0, jobs[..m]).statuses <= RunSpec(dir0, jobs).statuses
    decreases |jobs|
  {
    if m == |jobs| {
      assert jobs[..m] == jobs;
    } else {
      var n := |jobs| - 1;
      assert jobs[..n][..m] == jobs[..m];
      StatusesGrow(dir0, jobs[..n], m);
      var prev := RunSpec(dir0, jobs[..n]);
      StepExtends(prev, jobs[n]);
      PrefixTransitive(RunSpec(dir0, jobs[..m]).statuses, prev.statuses, RunStep(prev, jobs[n]).statuses);
    }
  }

  lemma StepExtends(prev: Run, job: Job)
    ensures prev.statuses <= RunStep(prev, job).statuses
  {
  }

  lemma PrefixTransitive(a: seq<FileStatus>, b: seq<FileStatus>, c: seq<FileStatus>)
    requires a <= b && b <= c
    ensures a <= c
  {
    assert c[..|b|][..|a|] == c[..|a|];
  }

  /**
   * The requests for a sequence of files within the retry bound: at most
   * MaxAttempts per file, each for the address of one of those files.
   */
  lemma {:induction false} FetchedFromListing(jobs: seq<Job>, statuses: seq<FileStatus>)
    requires |statuses| <= |jobs|
    requires forall i :: 0 <= i < |statuses| ==> WithinRetryBound(statuses[i])
    ensures |Fetched(jobs, statuses)| <= MaxAttempts * |statuses|
    ensures forall a :: a in Fetched(jobs, statuses) ==>
      exists i :: 0 <= i < |statuses| && a == RequestUrl(jobs[i].file.url)
    decreases |statuses|
  {
    if statuses != [] {
      var n := |statuses| - 1;
      FetchedFromListing(jobs, statuses[..n]);
      assert WithinRetryBound(statuses[n]);
      var last := Repeat(RequestUrl(jobs[n].file.url), Attempts(statuses[n]));
      forall a | a in Fetched(jobs, statuses)
        ensures exists i :: 0 <= i < |statuses| && a == RequestUrl(jobs[i].file.url)
      {
        if a !in last {
          var i :| 0 <= i < n && a == RequestUrl(jobs[i].file.url);
          assert 0 <= i < |statuses|;
        }
      }
    }
  }

  /** A run requests at most MaxAttempts addresses per listed file, each a listed file's address. */
  lemma RunRequests(dir0: Dir, jobs: seq<Job>)
    ensures var f := Fetched(jobs, RunSpec(dir0, jobs).statuses);
      |f| <= MaxAttempts * |jobs| &&
      forall a :: a in f ==> exists i :: 0 <= i < |jobs| && a == RequestUrl(jobs[i].file.url)
  {
    RunRetryBound(dir0, jobs);
    FetchedFromListing(jobs, RunSpec(dir0, jobs).statuses);
  }

  /**
   * File i of a run was handled by the loop body on the directory the files
   * before it left behind: in particular it was skipped exactly when its
   * final path was present when it was reached.
   */
  lemma RunPrefix(dir0: Dir, jobs: seq<Job>, i: nat)
    requires i < |RunSpec(dir0, jobs).statuses|
    ensures var r := RunSpec(dir0, jobs);
      var before := RunSpec(dir0, jobs[..i]);
      before.result.Completed? && r.statuses[..i] == before.statuses &&
      r.statuses[i] == ReconcileSpec(before.dir, jobs[i].file.fileName, jobs[i].answers).status
  {
    var before := RunSpec(dir0, jobs[..i]);
    PrefixCompleted(dir0, jobs, i);
    RunSnoc(dir0, jobs, i);
    StatusesGrow(dir0, jobs, i + 1);
    var s := ReconcileSpec(before.dir, jobs[i].file.fileName, jobs[i].answers);
    assert RunSpec(dir0, jobs[..i + 1]).statuses == before.statuses + [s.status];
    PrefixAt(before.statuses, RunSpec(dir0, jobs).statuses, s.status);
  }

  /**
   * In a run that completes, file i was downloaded exactly when its final
   * path was absent from the directory the files before it left behind;
   * otherwise it was skipped.
   */
  lemma DownloadedIffAbsent(dir0: Dir, jobs: seq<Job>, i: nat)
    requires RunSpec(dir0, jobs).result.Completed? && i < |jobs|
    ensures RunSpec(dir0, jobs).statuses[i].Downloaded? <==>
      jobs[i].file.fileName !in RunSpec(dir0, jobs[..i]).dir
  {
    RunPrefix(dir0, jobs, i);
    RunAbortsLast(dir0, jobs);
  }

  /** A file the run reaches was reached by a run over the files before it that did not abort. */
  lemma PrefixCompleted(dir0: Dir, jobs: seq<Job>, i: nat)
    requires i < |RunSpec(dir0, jobs).statuses|
    ensures RunSpec(dir0, jobs[..i]).result.Completed?
  {
    if RunSpec(dir0, jobs[..i]).result.Aborted? {
      AbortedStays(dir0, jobs, i);
      assert false;
    }
  }

  lemma PrefixAt(a: seq<FileStatus>, b: seq<FileStatus>, x: FileStatus)
    requires a + [x] <= b
    ensures b[..|a|] == a && b[|a|] == x
  {
    assert b[..|a| + 1][..|a|] == b[..|a|];
  }

  /** Entries found in dir0 and not at a listed temp path are still there, unchanged. */
  ghost predicate KeepsExisting(dir0: Dir, r: Run, jobs: seq<Job>)
  {
    forall k :: k in dir0 && k !in TempNames(jobs) ==> k in r.dir && r.dir[k] == dir0[k]
  }

  lemma KeepsStep(dir0: Dir, prev: Run, jobs: seq<Job>)
    requires jobs != [] && KeepsExisting(dir0, prev, jobs[..|jobs| - 1])
    ensures KeepsExisting(dir0, RunStep(prev, jobs[|jobs| - 1]), jobs)
  {
    NamesSnoc(jobs);
  }

  /** Every entry the run finds, other than a temp path it may write, keeps its contents. */
  lemma {:induction false} RunKeepsExisting(dir0: Dir, jobs: seq<Job>)
    ensures KeepsExisting(dir0, RunSpec(dir0, jobs), jobs)
    decreases |jobs|
  {
    if jobs != [] {
      var n := |jobs| - 1;
      RunKeepsExisting(dir0, jobs[..n]);
      KeepsStep(dir0, RunSpec(dir0, jobs[..n]), jobs);
    }
  }

  /** Entry k was installed by a download or is the aborting file's temp file. */
  ghost predicate Explained(jobs: seq<Job>, r: Run, k: string)
  {
    (exists i :: InstalledAt(jobs, r, i, k)) || AbortTemp(jobs, r, k)
  }

  /** Every new entry of r is explained. */
  ghost predicate NewEntriesExplained(dir0: Dir, r: Run, jobs: seq<Job>)
  {
    forall k :: k in r.dir && k !in dir0 ==> Explained(jobs, r, k)
  }

  lemma NewEntryStep(dir0: Dir, prev: Run, jobs: seq<Job>, k: string)
    requires jobs != [] && Reached(prev, |jobs| - 1) && NewEntriesExplained(dir0, prev, jobs[..|jobs| - 1])
    requires var r := RunStep(prev, jobs[|jobs| - 1]); k in r.dir && k !in dir0
    ensures Explained(jobs, RunStep(prev, jobs[|jobs| - 1]), k)
  {
    var n := |jobs| - 1;
    if prev.result.Aborted? {
      NewEntryAfterAbort(dir0, prev, jobs, k);
    } else {
      var name := jobs[n].file.fileName;
      var s := ReconcileSpec(prev.dir, name, jobs[n].answers);
      var r := RunStep(prev, jobs[n]);
      if k == name && s.status.Downloaded? {
        assert InstalledAt(jobs, r, n, k);
      } else if s.status.Exhausted? && k == TempName(name) {
        assert AbortTemp(jobs, r, k);
      } else {
        NewEntryKept(dir0, prev, jobs, k);
      }
    }
  }

  /** After an abort nothing changes, so the explanation of each entry carries over. */
  lemma NewEntryAfterAbort(dir0: Dir, prev: Run, jobs: seq<Job>, k: string)
    requires jobs != [] && prev.result.Aborted? && |prev.statuses| <= |jobs| - 1
    requires Explained(jobs[..|jobs| - 1], prev, k)
    ensures Explained(jobs, prev, k)
  {
    var n := |jobs| - 1;
    if i :| InstalledAt(jobs[..n], prev, i, k) {
      assert jobs[..n][i] == jobs[i];
      assert InstalledAt(jobs, prev, i, k);
    } else {
      assert jobs[..n][|prev.statuses| - 1] == jobs[|prev.statuses| - 1];
    }
  }

  /** An entry the loop body for the last file left alone keeps its explanation. */
  lemma NewEntryKept(dir0: Dir, prev: Run, jobs: seq<Job>, k: string)
    requires jobs != [] && prev.result.Completed? && |prev.statuses| == |jobs| - 1
    requires NewEntriesExplained(dir0, prev, jobs[..|jobs| - 1])
    requires var s := ReconcileSpec(prev.dir, jobs[|jobs| - 1].file.fileName, jobs[|jobs| - 1].answers);
      k in s.dir && k !in dir0 && !(k == jobs[|jobs| - 1].file.fileName && s.status.Downloaded?) &&
      !(s.status.Exhausted? && k == TempName(jobs[|jobs| - 1].file.fileName))
    ensures Explained(jobs, RunStep(prev, jobs[|jobs| - 1]), k)
  {
    var n := |jobs| - 1;
    var r := RunStep(prev, jobs[n]);
    var s := ReconcileSpec(prev.dir, jobs[n].file.fileName, jobs[n].answers);
    assert r.dir == s.dir && r.statuses == prev.statuses + [s.status];
    assert k in prev.dir && r.dir[k] == prev.dir[k];
    var i :| InstalledAt(jobs[..n], prev, i, k);
    assert jobs[..n][i] == jobs[i];
    assert r.statuses[i] == prev.statuses[i];
    assert InstalledAt(jobs, r, i, k);
  }

  /**
   * Every entry a run adds is a listed final name installed by the rename of
   * a successful attempt, holding exactly that attempt's bytes, or, when the
   * run aborts, the temp file of the file that exhausted its attempts.
   */
  lemma {:induction false} RunNewEntries(dir0: Dir, jobs: seq<Job>)
    ensures NewEntriesExplained(dir0, RunSpec(dir0, jobs), jobs)
    decreases |jobs|
  {
    if jobs != [] {
      var n := |jobs| - 1;
      var prev := RunSpec(dir0, jobs[..n]);
      RunNewEntries(dir0, jobs[..n]);
      forall k | k in RunStep(prev, jobs[n]).dir && k !in dir0
        ensures Explained(jobs, RunStep(prev, jobs[n]), k)
      {
        NewEntryStep(dir0, prev, jobs, k);
      }
      assert RunSpec(dir0, jobs) == RunStep(prev, jobs[n]);
    }
  }

  /** Every listed name is present and the count is the number of those that were absent in dir0. */
  ghost predicate CountsNew(dir0: Dir, r: Run, jobs: seq<Job>)
  {
    r.result.Completed? && Names(jobs) <= r.dir.Keys && r.result.n == |Names(jobs) - dir0.Keys|
  }

  /** The inductive step of CompletedRunCounts. */
  lemma CountStep(dir0: Dir, prev: Run, jobs: seq<Job>)
    requires jobs != [] && NoClash(jobs) && Reached(prev, |jobs| - 1)
    requires RunStep(prev, jobs[|jobs| - 1]).result.Completed?
    requires CountsNew(dir0, prev, jobs[..|jobs| - 1])
    requires KeepsExisting(dir0, prev, jobs[..|jobs| - 1])
    requires NewEntriesExplained(dir0, prev, jobs[..|jobs| - 1])
    ensures CountsNew(dir0, RunStep(prev, jobs[|jobs| - 1]), jobs)
  {
    var n := |jobs| - 1;
    var name := jobs[n].file.fileName;
    var s := ReconcileSpec(prev.dir, name, jobs[n].answers);
    var before := Names(jobs[..n]);
    NamesSnoc(jobs);
    CompletedStep(prev, jobs[n]);
    if name in prev.dir {
      FoundOrListed(dir0, prev, jobs[..n], name);
    }
    NoClashLast(jobs);
    CountNames(dir0.Keys, prev.dir, before, name, prev.result.n, jobs[n].answers);
  }

  /** A loop body that leaves the run completed added one to the count exactly when it downloaded. */
  lemma CompletedStep(prev: Run, job: Job)
    requires prev.result.Completed? && prev.result.n == CountDownloaded(prev.statuses)
    requires RunStep(prev, job).result.Completed?
    ensures var s := ReconcileSpec(prev.dir, job.file.fileName, job.answers);
      !s.status.Exhausted? && RunStep(prev, job).dir == s.dir &&
      RunStep(prev, job).result.n == prev.result.n + (if s.status.Downloaded? then 1 else 0)
  {
    CountSnoc(prev.statuses, ReconcileSpec(prev.dir, job.file.fileName, job.answers).status);
  }

  /**
   * The set reasoning of CountStep: the loop body for a listed name that
   * does not abort keeps the earlier names, adds its own, and counts one
   * exactly when its name is new.
   */
  lemma CountNames(found: set<string>, dir: Dir, before: set<string>, name: string, count: nat, outs: Answers)
    requires before <= dir.Keys && count == |before - found| && TempName(name) !in before
    requires name in dir ==> name in found || name in before
    requires name in found ==> name in dir
    requires !ReconcileSpec(dir, name, outs).status.Exhausted?
    ensures var s := ReconcileSpec(dir, name, outs);
      before + {name} <= s.dir.Keys &&
      count + (if s.status.Downloaded? then 1 else 0) == |(before + {name}) - found|
  {
    AddName(before, found, name);
    KeptNames(dir, before, name, outs);
  }

  /** A present entry of a completed run was there from the start or is a listed name. */
  lemma FoundOrListed(dir0: Dir, r: Run, jobs: seq<Job>, k: string)
    requires r.result.Completed? && NewEntriesExplained(dir0, r, jobs) && k in r.dir
    ensures k in dir0 || k in Names(jobs)
  {
    if k !in dir0 {
      var i :| InstalledAt(jobs, r, i, k);
    }
  }

  lemma AddName(before: set<string>, found: set<string>, name: string)
    ensures name in before || name in found ==> (before + {name}) - found == before - found
    ensures name !in before && name !in found ==> |(before + {name}) - found| == |before - found| + 1
  {
    if name !in before && name !in found {
      assert (before + {name}) - found == (before - found) + {name};
    }
  }

  /**
   * Under NoClash the last file's temp name is none of the earlier final
   * names, and its final name is none of the earlier temp names.
   */
  lemma NoClashLast(jobs: seq<Job>)
    requires jobs != [] && NoClash(jobs)
    ensures TempName(jobs[|jobs| - 1].file.fileName) !in Names(jobs[..|jobs| - 1])
    ensures jobs[|jobs| - 1].file.fileName !in TempNames(jobs[..|jobs| - 1])
  {
    var n := |jobs| - 1;
    forall i | 0 <= i < n
      ensures jobs[..n][i].file.fileName != TempName(jobs[n].file.fileName)
      ensures TempName(jobs[..n][i].file.fileName) != jobs[n].file.fileName
    {
      assert jobs[..n][i] == jobs[i];
    }
  }

  /** The loop body for a non-aborting file keeps the names already present and adds its own. */
  lemma KeptNames(dir: Dir, before: set<string>, name: string, outs: Answers)
    requires before <= dir.Keys && TempName(name) !in before
    requires !ReconcileSpec(dir, name, outs).status.Exhausted?
    ensures before + {name} <= ReconcileSpec(dir, name, outs).dir.Keys
  {
  }

  /**
   * A completed run over a listing without name clashes leaves every listed
   * name present, and its download count is the number of distinct listed
   * names that were absent before the run.
   */
  lemma {:induction false} CompletedRunCounts(dir0: Dir, jobs: seq<Job>)
    requires NoClash(jobs)
    requires RunSpec(dir0, jobs).result.Completed?
    ensures CountsNew(dir0, RunSpec(dir0, jobs), jobs)
    decreases |jobs|
  {
    if jobs == [] {
      assert Names(jobs) == {};
    } else {
      var n := |jobs| - 1;
      var prev := RunSpec(dir0, jobs[..n]);
      NoClashPrefix(jobs, n);
      CompletedRunCounts(dir0, jobs[..n]);
      RunKeepsExisting(dir0, jobs[..n]);
      RunNewEntries(dir0, jobs[..n]);
      CountStep(dir0, prev, jobs);
    }
  }

  /** When every listed name is present, a run downloads nothing and changes nothing. */
  lemma {:induction false} AllPresentSkips(dir: Dir, jobs: seq<Job>)
    requires Names(jobs) <= dir.Keys
    ensures var r := RunSpec(dir, jobs);
      r.result == Completed(0) && r.dir == dir && |r.statuses| == |jobs| &&
      forall i :: 0 <= i < |r.statuses| ==> r.statuses[i] == Skipped
    decreases |jobs|
  {
    if jobs != [] {
      var n := |jobs| - 1;
      NamesSnoc(jobs);
      AllPresentSkips(dir, jobs[..n]);
      var prev := RunSpec(dir, jobs[..n]);
      SkipStep(dir, prev, jobs[n]);
    }
  }

  lemma SkipStep(dir: Dir, prev: Run, job: Job)
    requires prev.result == Completed(0) && prev.dir == dir && job.file.fileName in dir
    requires forall i :: 0 <= i < |prev.statuses| ==> prev.statuses[i] == Skipped
    ensures var r := RunStep(prev, job);
      r.result == Completed(0) && r.dir == dir && r.statuses == prev.statuses + [Skipped]
  {
    CountSnoc(prev.statuses, Skipped);
  }

  /**
   * Rerunning over the same listing and the directory a completed run left
   * behind performs no download and changes nothing, whatever the network does.
   */
  lemma Idempotent(dir0: Dir, jobs: seq<Job>, again: seq<Job>)
    requires SameFiles(jobs, again) && NoClash(jobs)
    requires RunSpec(dir0, jobs).result.Completed?
    ensures var first := RunSpec(dir0, jobs);
      var second := RunSpec(first.dir, again);
      second.result == Completed(0) && second.dir == first.dir
  {
    CompletedRunCounts(dir0, jobs);
    forall x | x in Names(again) ensures x in Names(jobs) {
      var i :| 0 <= i < |again| && again[i].file.fileName == x;
      assert jobs[i].file.fileName == x;
    }
    AllPresentSkips(RunSpec(dir0, jobs).dir, again);
  }

  /** A name listed twice is skipped the second time, so it is downloaded at most once. */
  lemma LaterDuplicateSkipped(dir0: Dir, jobs: seq<Job>, i: nat, j: nat)
    requires NoClash(jobs)
    requires i < j < |RunSpec(dir0, jobs).statuses|
    requires jobs[i].file.fileName == jobs[j].file.fileName
    ensures RunSpec(dir0, jobs).statuses[j] == Skipped
  {
    RunPrefix(dir0, jobs, j);
    NoClashPrefix(jobs, j);
    CompletedRunCounts(dir0, jobs[..j]);
    assert jobs[..j][i] == jobs[i];
    assert jobs[i].file.fileName in Names(jobs[..j]);
  }

  /**
   * Without NoClash the rename can replace a listed file: a file listed under
   * the temp name of a later file is downloaded, then overwritten by that
   * file's temp write and renamed away, so a second run downloads it again.
   */
  lemma ClashBreaksIdempotence()
    ensures var ok: Answers := [Ok([1]), RequestFailed, RequestFailed, RequestFailed, RequestFailed];
      var jobs := [Job(Descriptor(TempName("a"), "/1"), ok), Job(Descriptor("a", "/2"), ok)];
      var first := RunSpec(map[], jobs);
      first.result == Completed(2) && TempName("a") !in first.dir &&
      RunSpec(first.dir, jobs).result == Completed(1)
  {
    var ok: Answers := [Ok([1]), RequestFailed, RequestFailed, RequestFailed, RequestFailed];
    var jobs := [Job(Descriptor(TempName("a"), "/1"), ok), Job(Descriptor("a", "/2"), ok)];
    ClashFirstRun(jobs);
    ClashSecondRun(RunSpec(map[], jobs).dir, jobs);
  }

  /** A run over two files is two loop bodies. */
  lemma {:induction false} TwoFiles(dir: Dir, jobs: seq<Job>)
    requires |jobs| == 2
    ensures RunSpec(dir, jobs) == RunStep(RunStep(Run(Completed(0), dir, []), jobs[0]), jobs[1])
  {
    assert jobs[..0] == [] && jobs[..2] == jobs;
    RunSnoc(dir, jobs, 0);
    RunSnoc(dir, jobs, 1);
  }

  /** A loop body whose first attempt succeeds on an absent file. */
  lemma StepDownloadsFirst(prev: Run, job: Job)
    requires prev.result.Completed? && prev.result.n == CountDownloaded(prev.statuses)
    requires job.file.fileName !in prev.dir && job.answers[0].Ok?
    ensures var r := RunStep(prev, job); var name := job.file.fileName;
      r.result == Completed(prev.result.n + 1) && r.result.n == CountDownloaded(r.statuses) &&
      name in r.dir && TempName(name) !in r.dir &&
      (forall k :: k in prev.dir && k != TempName(name) ==> k in r.dir) &&
      (forall k :: k in r.dir && k != name ==> k in prev.dir)
  {
    var s := ReconcileSpec(prev.dir, job.file.fileName, job.answers);
    assert s.status == Downloaded(1);
    CountSnoc(prev.statuses, s.status);
  }

  /** A loop body on a present file. */
  lemma StepSkips(prev: Run, job: Job)
    requires prev.result.Completed? && prev.result.n == CountDownloaded(prev.statuses)
    requires job.file.fileName in prev.dir
    ensures var r := RunStep(prev, job);
      r.result == prev.result && r.result.n == CountDownloaded(r.statuses) && r.dir == prev.dir
  {
    CountSnoc(prev.statuses, Skipped);
  }

  lemma {:induction false} ClashFirstRun(jobs: seq<Job>)
    requires |jobs| == 2 && jobs[0].file.fileName == TempName("a") && jobs[1].file.fileName == "a"
    requires jobs[0].answers[0].Ok? && jobs[1].answers[0].Ok?
    ensures var first := RunSpec(map[], jobs);
      first.result == Completed(2) && TempName("a") !in first.dir && "a" in first.dir
  {
    TwoFiles(map[], jobs);
    var r0 := Run(Completed(0), map[], []);
    StepDownloadsFirst(r0, jobs[0]);
    StepDownloadsFirst(RunStep(r0, jobs[0]), jobs[1]);
  }

  lemma {:induction false} ClashSecondRun(dir: Dir, jobs: seq<Job>)
    requires |jobs| == 2 && jobs[0].file.fileName == TempName("a") && jobs[1].file.fileName == "a"
    requires jobs[0].answers[0].Ok?
    requires TempName("a") !in dir && "a" in dir
    ensures RunSpec(dir, jobs).result == Completed(1)
  {
    TwoFiles(dir, jobs);
    var r0 := Run(Completed(0), dir, []);
    assert "a" != TempName(TempName("a"));
    StepDownloadsFirst(r0, jobs[0]);
    StepSkips(RunStep(r0, jobs[0]), jobs[1]);
  }
}
