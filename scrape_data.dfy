/**
 * The download-reconciliation loop of the PeMS scraper.
 *
 * The output directory is a map from file name to contents, the remote
 * listing is a flattened sequence of descriptors (district, then year, then
 * month, then file), and the network is an oracle giving, for every listed
 * file, the outcome of each of the five attempts the loop may make.
 */
module ScrapeData {

  newtype byte = x: int | 0 <= x < 256
  type Bytes = seq<byte>

  /** The flat output directory: file name to contents. */
  type Dir = map<string, Bytes>

  datatype Option<T> = None | Some(value: T)

  /** One entry of the remote listing. */
  datatype Descriptor = Descriptor(fileName: string, url: string)

  /** What one fetch attempt does. */
  datatype Outcome =
    | RequestFailed            // the GET or raise_for_status raised: the temp file was not opened
    | WriteFailed(partial: Bytes)  // the body arrived, the temp file was opened ("wb"), and a local write failed after these bytes
    | Ok(content: Bytes)       // the whole body was written to the temp file

  /** What the loop did with one listed file. */
  datatype FileStatus =
    | Skipped                  // the final path already existed
    | Downloaded(attempts: nat)  // attempt number `attempts` (1-based) succeeded and was renamed into place
    | Exhausted                // all attempts failed: the run exits with status 1

  /** The outcome of a whole run: the logged download count, or exit status 1. */
  datatype RunResult = Completed(n: nat) | Aborted

  const MaxAttempts: nat := 5

  /** The network's answers to the attempts the loop may make for one file, in order. */
  type Answers = s: seq<Outcome> | |s| == MaxAttempts
    witness [RequestFailed, RequestFailed, RequestFailed, RequestFailed, RequestFailed]

  /** A listed file together with what fetching it would do. */
  datatype Job = Job(file: Descriptor, answers: Answers)

  datatype Step = Step(status: FileStatus, dir: Dir)

  datatype Run = Run(result: RunResult, dir: Dir, statuses: seq<FileStatus>)

  const TempSuffix: string := ".download_in_progress"
  const Host: string := "https://pems.dot.ca.gov"

  /** The name a download is written under until it is complete. */
  function TempName(fileName: string): (t: string)
    ensures fileName < t
    ensures t[|fileName|..] == TempSuffix
  {
    fileName + TempSuffix
  }

  /** The address fetched for a listed url: the host followed by the url without its first character. */
  function RequestUrl(url: string): (r: string)
    ensures Host <= r
    ensures |r| == |Host| + (if url == [] then 0 else |url| - 1)
    ensures forall k :: 0 < k < |url| ==> r[|Host| + k - 1] == url[k]
  {
    if url == [] then Host else Host + url[1..]
  }

  /** The bytes an attempt leaves in the temp file, if it opened it. */
  function Written(o: Outcome): (w: Option<Bytes>)
    ensures w.None? <==> o.RequestFailed?
  {
    match o
    case RequestFailed => None
    case WriteFailed(p) => Some(p)
    case Ok(c) => Some(c)
  }

  /** The index of the first successful attempt, or |outs| if none succeeds. */
  function FirstSuccess(outs: seq<Outcome>): (k: nat)
    ensures k <= |outs|
    ensures forall j :: 0 <= j < k ==> !outs[j].Ok?
    ensures k < |outs| ==> outs[k].Ok?
  {
    if outs == [] then 0
    else if outs[0].Ok? then 0
    else 1 + FirstSuccess(outs[1..])
  }

  /** An attempt that succeeds after only failures is the first success. */
  lemma FirstSuccessAt(outs: seq<Outcome>, i: nat)
    requires i < |outs| && outs[i].Ok?
    requires forall j :: 0 <= j < i ==> !outs[j].Ok?
    ensures FirstSuccess(outs) == i
  {
  }

  /**
   * What the temp file holds after these attempts ran, one after the other:
   * the bytes of the last attempt that opened it (each open truncates), or
   * None when none of them did.
   */
  function LastWrite(outs: seq<Outcome>): (w: Option<Bytes>)
    ensures w.None? <==> forall j :: 0 <= j < |outs| ==> outs[j].RequestFailed?
    ensures w.Some? ==>
      exists j :: 0 <= j < |outs| && Written(outs[j]) == w &&
        forall m :: j < m < |outs| ==> outs[m].RequestFailed?
  {
    if outs == [] then None
    else
      var n := |outs| - 1;
      if Written(outs[n]).Some? then Written(outs[n])
      else
        var w := LastWrite(outs[..n]);
        LastWriteSkips(outs, w);
        w
  }

  /** A last attempt that never opened the temp file leaves what the earlier attempts wrote. */
  lemma LastWriteSkips(outs: seq<Outcome>, w: Option<Bytes>)
    requires outs != [] && outs[|outs| - 1].RequestFailed?
    requires var p := outs[..|outs| - 1];
      (w.None? <==> forall j :: 0 <= j < |p| ==> p[j].RequestFailed?) &&
      (w.Some? ==> exists j :: (0 <= j < |p| && Written(p[j]) == w &&
                                forall m :: j < m < |p| ==> p[m].RequestFailed?))
    ensures w.None? <==> forall j :: 0 <= j < |outs| ==> outs[j].RequestFailed?
    ensures w.Some? ==>
      exists j :: 0 <= j < |outs| && Written(outs[j]) == w &&
        forall m :: j < m < |outs| ==> outs[m].RequestFailed?
  {
    var n := |outs| - 1;
    var p := outs[..n];
    assert forall j :: 0 <= j < n ==> p[j] == outs[j];
    if w.Some? {
      var j :| 0 <= j < n && Written(p[j]) == w && forall m :: j < m < n ==> p[m].RequestFailed?;
      assert Written(outs[j]) == w;
      assert forall m :: j < m < |outs| ==> outs[m].RequestFailed?;
    }
  }

  /** The directory after an open-and-write of `path` that left `w` in it (None: no open). */
  function Overwrite(dir: Dir, path: string, w: Option<Bytes>): (r: Dir)
    ensures w.None? ==> r == dir
    ensures w.Some? ==> path in r && r[path] == w.value
    ensures forall k :: k != path ==> (k in r <==> k in dir) && (k in r ==> r[k] == dir[k])
  {
    match w
    case None => dir
    case Some(b) => dir[path := b]
  }

  /** One more attempt writes the temp file over what the earlier attempts left. */
  lemma OverwriteStep(dir: Dir, path: string, outs: seq<Outcome>, i: nat)
    requires i < |outs|
    ensures Overwrite(Overwrite(dir, path, LastWrite(outs[..i])), path, Written(outs[i])) ==
      Overwrite(dir, path, LastWrite(outs[..i + 1]))
  {
    assert outs[..i + 1][..i] == outs[..i];
  }

  /** os.rename: `to` takes the contents of `from`, which disappears. */
  function Renamed(dir: Dir, from: string, to: string): (r: Dir)
    requires from in dir
    ensures to in r && r[to] == dir[from]
    ensures from != to ==> from !in r
    ensures forall k :: k != from && k != to ==> (k in r <==> k in dir) && (k in r ==> r[k] == dir[k])
  {
    (dir - {from})[to := dir[from]]
  }

  /** n copies of an address. */
  function Repeat(a: string, n: nat): (s: seq<string>)
    ensures |s| == n && forall i :: 0 <= i < n ==> s[i] == a
  {
    seq(n, _ => a)
  }

  /** How many attempts the loop made for a file with this status. */
  function Attempts(st: FileStatus): nat
  {
    match st
    case Skipped => 0
    case Downloaded(a) => a
    case Exhausted => MaxAttempts
  }

  predicate WithinRetryBound(st: FileStatus)
  {
    Attempts(st) <= MaxAttempts && (st.Downloaded? ==> 1 <= st.attempts)
  }

  /**
   * The loop body for one listed file: skip it if its final path exists,
   * otherwise try up to MaxAttempts times, writing only the temp path, and
   * rename the temp file onto the final path after the first success.
   */
  function ReconcileSpec(dir: Dir, name: string, outs: Answers): (s: Step)
    // an existing final path short-circuits, leaving the directory alone
    ensures s.status.Skipped? <==> name in dir
    ensures name in dir ==> s.dir == dir
    ensures WithinRetryBound(s.status)
    // a download stops at the first successful attempt and installs exactly its bytes
    ensures s.status.Downloaded? ==>
      var a := s.status.attempts;
      outs[a - 1].Ok? && (forall j :: 0 <= j < a - 1 ==> !outs[j].Ok?) &&
      name in s.dir && s.dir[name] == outs[a - 1].content && TempName(name) !in s.dir
    // the run aborts exactly when the file is absent and every attempt fails
    ensures s.status.Exhausted? <==> name !in dir && forall j :: 0 <= j < |outs| ==> !outs[j].Ok?
    ensures s.status.Exhausted? ==>
      name !in s.dir && s.dir == Overwrite(dir, TempName(name), LastWrite(outs))
    // every existing entry except the temp path is kept
    ensures forall k :: k in dir && k != TempName(name) ==> k in s.dir && s.dir[k] == dir[k]
    // besides an abort's temp file, the only entry that can appear is the final path
    ensures !s.status.Exhausted? ==>
      forall k :: k in s.dir && k != name ==> k in dir && s.dir[k] == dir[k]
  {
    if name in dir then Step(Skipped, dir)
    else
      var tmp := TempName(name);
      var k := FirstSuccess(outs);
      var failed := Overwrite(dir, tmp, LastWrite(outs[..k]));
      if k < |outs| then
        Step(Downloaded(k + 1), Renamed(failed[tmp := outs[k].content], tmp, name))
      else
        assert outs[..k] == outs;
        Step(Exhausted, failed)
  }

  /** The loop body when attempt i is the first to succeed. */
  lemma ReconcileDownloadsAt(dir: Dir, name: string, outs: Answers, i: nat)
    requires name !in dir && i < |outs| && outs[i].Ok?
    requires forall j :: 0 <= j < i ==> !outs[j].Ok?
    ensures var tmp := TempName(name);
      ReconcileSpec(dir, name, outs) ==
        Step(Downloaded(i + 1), Renamed(Overwrite(dir, tmp, LastWrite(outs[..i]))[tmp := outs[i].content], tmp, name))
  {
    FirstSuccessAt(outs, i);
  }

  /** The loop body when every attempt fails. */
  lemma ReconcileExhausts(dir: Dir, name: string, outs: Answers)
    requires name !in dir
    requires forall j :: 0 <= j < |outs| ==> !outs[j].Ok?
    ensures ReconcileSpec(dir, name, outs) == Step(Exhausted, Overwrite(dir, TempName(name), LastWrite(outs)))
  {
    assert FirstSuccess(outs) == |outs|;
  }

  function CountDownloaded(statuses: seq<FileStatus>): (c: nat)
    ensures c <= |statuses|
    ensures c == 0 <==> forall i :: 0 <= i < |statuses| ==> !statuses[i].Downloaded?
  {
    if statuses == [] then 0
    else
      var n := |statuses| - 1;
      CountDownloaded(statuses[..n]) + (if statuses[n].Downloaded? then 1 else 0)
  }

  lemma CountSnoc(statuses: seq<FileStatus>, st: FileStatus)
    ensures CountDownloaded(statuses + [st]) == CountDownloaded(statuses) + (if st.Downloaded? then 1 else 0)
  {
    assert (statuses + [st])[..|statuses|] == statuses;
  }

  /**
   * The loop body applied to the state a run has reached: nothing happens
   * once the run has aborted.
   */
  function RunStep(prev: Run, job: Job): (r: Run)
    ensures prev.result.Aborted? ==> r == prev
    ensures prev.result.Completed? ==>
      var s := ReconcileSpec(prev.dir, job.file.fileName, job.answers);
      r.dir == s.dir && r.statuses == prev.statuses + [s.status] &&
      (r.result.Aborted? <==> s.status.Exhausted?)
    ensures r.result.Completed? ==> r.result.n == CountDownloaded(r.statuses)
  {
    if prev.result.Aborted? then prev
    else
      var s := ReconcileSpec(prev.dir, job.file.fileName, job.answers);
      var statuses := prev.statuses + [s.status];
      if s.status.Exhausted? then Run(Aborted, s.dir, statuses)
      else Run(Completed(CountDownloaded(statuses)), s.dir, statuses)
  }

  /**
   * The whole loop over the listing, one file after the other; an exhausted
   * file ends the run, and later files are never reached.
   */
  function RunSpec(dir0: Dir, jobs: seq<Job>): (r: Run)
    ensures |r.statuses| <= |jobs|
    ensures r.result.Completed? ==>
      |r.statuses| == |jobs| && r.result.n == CountDownloaded(r.statuses)
  {
    if jobs == [] then Run(Completed(0), dir0, [])
    else
      var n := |jobs| - 1;
      var prev := RunSpec(dir0, jobs[..n]);
      CountSnoc(prev.statuses, ReconcileSpec(prev.dir, jobs[n].file.fileName, jobs[n].answers).status);
      RunStep(prev, jobs[n])
  }

  /**
   * The addresses a run requests, in order: each file reached is fetched
   * once per attempt the loop made for it.
   */
  function Fetched(jobs: seq<Job>, statuses: seq<FileStatus>): (f: seq<string>)
    requires |statuses| <= |jobs|
    // nothing is requested exactly when no file reached made an attempt
    ensures f == [] <==> forall j :: 0 <= j < |statuses| ==> Attempts(statuses[j]) == 0
  {
    if statuses == [] then []
    else
      var n := |statuses| - 1;
      var p := Fetched(jobs, statuses[..n]);
      var last := Repeat(RequestUrl(jobs[n].file.url), Attempts(statuses[n]));
      NoAttempts(statuses, p == [], |last|);
      p + last
  }

  /** No attempt among all the files exactly when none before the last and none for the last. */
  lemma NoAttempts(statuses: seq<FileStatus>, before: bool, lastLength: nat)
    requires 0 < |statuses|
    requires var q := statuses[..|statuses| - 1];
      before <==> forall j :: 0 <= j < |q| ==> Attempts(q[j]) == 0
    requires lastLength == Attempts(statuses[|statuses| - 1])
    ensures (before && lastLength == 0) <==> forall j :: 0 <= j < |statuses| ==> Attempts(statuses[j]) == 0
  {
    var q := statuses[..|statuses| - 1];
    assert forall j :: 0 <= j < |q| ==> q[j] == statuses[j];
  }

  /** What the loop over the listing requested, after one more file. */
  lemma FetchedSnoc(jobs: seq<Job>, statuses: seq<FileStatus>, st: FileStatus, f0: seq<string>, f: seq<string>)
    requires |statuses| < |jobs| && f == f0 + Fetched(jobs, statuses)
    ensures f + Repeat(RequestUrl(jobs[|statuses|].file.url), Attempts(st)) == f0 + Fetched(jobs, statuses + [st])
  {
    var s := statuses + [st];
    assert s[..|statuses|] == statuses;
    SnocAssoc(f0, Fetched(jobs, statuses), Repeat(RequestUrl(jobs[|statuses|].file.url), Attempts(st)), f, Fetched(jobs, s));
  }

  lemma SnocAssoc<T>(f0: seq<T>, p: seq<T>, r: seq<T>, f: seq<T>, g: seq<T>)
    requires f == f0 + p && g == p + r
    ensures f + r == f0 + g
  {
  }

  /** A run over one more file is one more loop body. */
  lemma RunSnoc(dir0: Dir, jobs: seq<Job>, i: nat)
    requires i < |jobs|
    ensures RunSpec(dir0, jobs[..i + 1]) == RunStep(RunSpec(dir0, jobs[..i]), jobs[i])
  {
    assert jobs[..i + 1][..i] == jobs[..i];
  }

  /** Once a prefix of the listing aborts, the rest of the listing changes nothing. */
  lemma {:induction false} AbortedStays(dir0: Dir, jobs: seq<Job>, m: nat)
    requires m <= |jobs|
    requires RunSpec(dir0, jobs[..m]).result.Aborted?
    ensures RunSpec(dir0, jobs) == RunSpec(dir0, jobs[..m])
    decreases |jobs|
  {
    if m < |jobs| {
      var n := |jobs| - 1;
      assert jobs[..n][..m] == jobs[..m];
      AbortedStays(dir0, jobs[..n], m);
    } else {
      assert jobs[..m] == jobs;
    }
  }

  /** What one iteration of the loop over the listing does to the run so far. */
  lemma RunAllStep(dir0: Dir, jobs: seq<Job>, i: nat, st: Step, f0: seq<string>, fBefore: seq<string>, fAfter: seq<string>)
    requires i < |jobs|
    requires RunSpec(dir0, jobs[..i]).result.Completed?
    requires st == ReconcileSpec(RunSpec(dir0, jobs[..i]).dir, jobs[i].file.fileName, jobs[i].answers)
    requires fBefore == f0 + Fetched(jobs, RunSpec(dir0, jobs[..i]).statuses)
    requires fAfter == fBefore + Repeat(RequestUrl(jobs[i].file.url), Attempts(st.status))
    ensures var before := RunSpec(dir0, jobs[..i]);
      var after := RunSpec(dir0, jobs[..i + 1]);
      after.dir == st.dir && fAfter == f0 + Fetched(jobs, after.statuses) &&
      CountDownloaded(after.statuses) == CountDownloaded(before.statuses) + (if st.status.Downloaded? then 1 else 0) &&
      (st.status.Exhausted? ==> RunSpec(dir0, jobs) == after && after.result.Aborted?) &&
      (!st.status.Exhausted? ==> after.result == Completed(CountDownloaded(after.statuses)))
  {
    var before := RunSpec(dir0, jobs[..i]);
    RunSnoc(dir0, jobs, i);
    CountSnoc(before.statuses, st.status);
    FetchedSnoc(jobs, before.statuses, st.status, f0, fBefore);
    if st.status.Exhausted? {
      AbortedStays(dir0, jobs, i + 1);
    }
  }

  /**
   * The run's mutable state: the output directory and the n_downloads
   * counter, with a ghost record of the addresses requested so far.
   */
  class Reconciler {
    var dir: Dir
    var nDownloads: nat
    ghost var fetched: seq<string>

    constructor (dir0: Dir)
      ensures dir == dir0 && nDownloads == 0 && fetched == []
    {
      dir := dir0;
      nDownloads := 0;
      fetched := [];
    }

    /** One fetch of `address`, answered by `o`; it touches nothing but the temp path. */
    method Attempt(address: string, tmp: string, o: Outcome) returns (ok: bool)
      modifies this`dir, this`fetched
      ensures ok == o.Ok?
      ensures dir == Overwrite(old(dir), tmp, Written(o))
      ensures fetched == old(fetched) + [address]
    {
      fetched := fetched + [address];
      match o
      case RequestFailed =>
        ok := false;
      case WriteFailed(p) =>
        dir := dir[tmp := p];
        ok := false;
      case Ok(c) =>
        dir := dir[tmp := c];
        ok := true;
    }

    method Rename(from: string, to: string)
      requires from in dir
      modifies this`dir
      ensures dir == Renamed(old(dir), from, to)
    {
      dir := (dir - {from})[to := dir[from]];
    }

    /** The loop body for one listed file. */
    method Reconcile(d: Descriptor, outs: Answers) returns (status: FileStatus)
      modifies this
      ensures Step(status, dir) == ReconcileSpec(old(dir), d.fileName, outs)
      ensures nDownloads == old(nDownloads) + (if status.Downloaded? then 1 else 0)
      ensures fetched == old(fetched) + Repeat(RequestUrl(d.url), Attempts(status))
    {
      if d.fileName in dir {
        assert ReconcileSpec(dir, d.fileName, outs) == Step(Skipped, dir);
        return Skipped;
      }
      status := Download(d, outs);
    }

    /** The retry loop for a file whose final path does not exist. */
    method Download(d: Descriptor, outs: Answers) returns (status: FileStatus)
      requires d.fileName !in dir
      modifies this
      ensures Step(status, dir) == ReconcileSpec(old(dir), d.fileName, outs)
      ensures nDownloads == old(nDownloads) + (if status.Downloaded? then 1 else 0)
      ensures fetched == old(fetched) + Repeat(RequestUrl(d.url), Attempts(status))
    {
      var finalName := d.fileName;
      var tmp := TempName(finalName);
      var address := RequestUrl(d.url);
      var i := 0;
      while i < MaxAttempts
        invariant 0 <= i <= MaxAttempts
        invariant forall j :: 0 <= j < i ==> !outs[j].Ok?
        invariant dir == Overwrite(old(dir), tmp, LastWrite(outs[..i]))
        invariant nDownloads == old(nDownloads)
        invariant fetched == old(fetched) + Repeat(address, i)
      {
        OverwriteStep(old(dir), tmp, outs, i);
        assert Repeat(address, i + 1) == Repeat(address, i) + [address];
        var ok := Attempt(address, tmp, outs[i]);
        if ok {
          ReconcileDownloadsAt(old(dir), finalName, outs, i);
          nDownloads := nDownloads + 1;
          Rename(tmp, finalName);
          return Downloaded(i + 1);
        }
        // a failure before the last attempt is retried
        i := i + 1;
      }
      // the last attempt failed: the source exits with status 1 here
      assert outs[..i] == outs;
      ReconcileExhausts(old(dir), finalName, outs);
      return Exhausted;
    }

    /** The loop over the whole listing. */
    method RunAll(jobs: seq<Job>) returns (r: RunResult)
      modifies this
      ensures var spec := RunSpec(old(dir), jobs);
        dir == spec.dir &&
        nDownloads == old(nDownloads) + CountDownloaded(spec.statuses) &&
        fetched == old(fetched) + Fetched(jobs, spec.statuses) &&
        r == (if spec.result.Completed? then Completed(nDownloads) else Aborted)
    {
      ghost var dir0, n0, f0 := dir, nDownloads, fetched;
      var i := 0;
      while i < |jobs|
        invariant 0 <= i <= |jobs|
        invariant n0 <= nDownloads
        invariant var s := RunSpec(dir0, jobs[..i]);
          s.result == Completed(nDownloads - n0) && s.dir == dir &&
          fetched == f0 + Fetched(jobs, s.statuses)
      {
        ghost var fBefore := fetched;
        var status := Reconcile(jobs[i].file, jobs[i].answers);
        RunAllStep(dir0, jobs, i, Step(status, dir), f0, fBefore, fetched);
        if status.Exhausted? {
          ghost var spec := RunSpec(dir0, jobs);
          assert spec.result.Aborted? && spec.dir == dir && nDownloads == n0 + CountDownloaded(spec.statuses);
          return Aborted;
        }
        i := i + 1;
      }
      assert jobs[..i] == jobs;
      return Completed(nDownloads);
    }
  }

  /**
   * A whole run of the script from n_downloads = 0: the result it logs or
   * exits with, and the directory it leaves behind.
   */
  method Scrape(dir0: Dir, jobs: seq<Job>) returns (r: RunResult, dirOut: Dir, ghost requested: seq<string>)
    ensures r == RunSpec(dir0, jobs).result && dirOut == RunSpec(dir0, jobs).dir
    ensures requested == Fetched(jobs, RunSpec(dir0, jobs).statuses)
  {
    var rec := new Reconciler(dir0);
    r := rec.RunAll(jobs);
    dirOut := rec.dir;
    requested := rec.fetched;
  }
}
