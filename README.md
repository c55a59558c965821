# PeMS clearinghouse scraper: the download-reconciliation loop

This project models the core of the PeMS scraper: the loop that visits every
file the clearinghouse lists and downloads it into a flat output directory
only when it is missing. It then proves properties of that loop.

For each listed file the loop does the following:

- It computes the final path. If something already exists there, it skips the
  file and leaves the directory alone.
- Otherwise it makes up to five attempts. Each attempt requests
  `https://pems.dot.ca.gov` followed by the listed url without its first
  character. `requests.get` is called without `stream=True`, so the whole
  body is read before the call returns. Only then is
  `<name>.download_in_progress` opened and the body written into it, 8192
  bytes at a time.
- After the first attempt that completes, it increments the download counter
  and renames the temp file onto the final path.
- If the fifth attempt fails, the whole process exits with status 1.
- A run that finishes logs how many files it downloaded.

How the pieces are modelled:

- **Output directory.** A `map<string, Bytes>` from file name to contents
  (`ScrapeData.Dir`). Existence is map membership. `open(..., "wb")` is
  `Overwrite`. `os.rename` is `Renamed`.
- **Network.** An oracle. Every listed file comes as a `Job`: its `Descriptor`
  (file name and url) paired with `Answers`, the five outcomes its attempts
  would have, in order. An outcome is one of:
  - `RequestFailed`: the GET or `raise_for_status` raised, so the temp file was never opened. A
    connection that breaks while the body is read is this case too.
  - `WriteFailed(partial)`: the body arrived and the temp file was opened and truncated, then a
    local write failed (a full disk, say) after `partial` reached the file.
  - `Ok(content)`: the whole body was written.
- **Listing.** The sequence of jobs, flattened in district, year, month, file
  order.
- **Mutable state.** The class `ScrapeData.Reconciler` holds the directory,
  the counter `n_downloads`, and a ghost record of the addresses requested.
  - `Attempt` is one request to the address `RequestUrl` built, and the write that follows it.
  - `Reconcile` is the per-file body. `Download` is its `else` branch, the retry `while` loop.
  - `RunAll` is the loop over the listing.
  - `Scrape` is a whole run starting from `n_downloads = 0`.
- **Specification functions.** Each method is proved equal to a function:
  - `ReconcileSpec` for one file.
  - `RunSpec` for a run: a left fold of the loop body `RunStep` over the listing.

  The module `ScrapeDataProperties` proves what a run does in terms of these
  functions:
  - the retry bound;
  - an abort ends the run;
  - existing entries are kept;
  - every new entry comes from a rename of a successful download, or is the temp file left by an abort;
  - what the counter counts;
  - the second run does nothing (idempotence), when no listed name is another listed name's temp name;
  - a name listed twice is downloaded at most once, under the same condition.

What the script does not do:

- It does not validate file names, filter files by date, or compare the size
  of an existing file with the listed size. An existing final path is enough
  to skip a file.
- It does not tolerate a listing that comes back as an empty JSON list:
  `file_dir["data"]` at line 92 raises for a list. The listing is not part of
  this model: it is the input sequence of jobs.

## Model

| member | source | states |
|---|---|---|
| `ScrapeData.TempName` | scrape_data/scrape_data.py:103-105 | the temp name extends the final name and ends in `.download_in_progress` |
| `ScrapeData.RequestUrl` | scrape_data/scrape_data.py:111 | the fetched address starts with the host, followed character by character by the url after its first character |
| `ScrapeData.Written` | scrape_data/scrape_data.py:109-117 | an attempt leaves bytes in the temp file exactly when it got past the request and opened the file |
| `ScrapeData.FirstSuccess` | scrape_data/scrape_data.py:107-131 | the attempt index where the loop breaks: every earlier attempt failed and this one succeeded, or no attempt succeeded |
| `ScrapeData.LastWrite` | scrape_data/scrape_data.py:115-117 | after several attempts the temp file holds what the last attempt that opened it wrote, and it is untouched if no attempt opened it |
| `ScrapeData.Overwrite` | scrape_data/scrape_data.py:115-117 | an attempt that never opened the temp file leaves the directory as it was; one that did leaves the temp path holding exactly the bytes written, and every other entry unchanged |
| `ScrapeData.Renamed` | scrape_data/scrape_data.py:130 | after the rename the target holds the source's bytes, the source is gone, and every other entry is unchanged |
| `ScrapeData.ReconcileSpec` | scrape_data/scrape_data.py:96-131 | the file is skipped iff its final path exists, and a skip changes nothing; at most five attempts are made; a download is the first successful attempt, installs exactly its bytes, and leaves no temp file; the run aborts iff the file is absent and every attempt fails, and then the final path is absent; nothing except the temp path is overwritten; unless the run aborts, nothing but the final path is added, and on an abort the directory is the failed attempts' temp write |
| `ScrapeData.ReconcileDownloadsAt` | scrape_data/scrape_data.py:128-131 | proof helper that unfolds `ReconcileSpec`: when attempt i is the first success, the body downloads with i+1 attempts and renames the temp file written by attempt i |
| `ScrapeData.ReconcileExhausts` | scrape_data/scrape_data.py:118-127 | proof helper that unfolds `ReconcileSpec`: when all five attempts fail, the body aborts and leaves only what the failed attempts wrote to the temp path |
| `ScrapeData.CountDownloaded` | scrape_data/scrape_data.py:129 | the number of downloaded files is at most the number of files reached, and it is zero iff none was downloaded |
| `ScrapeData.RunSpec` | scrape_data/scrape_data.py:72-131 | a run that does not abort reaches every listed file, and its count is the number of files it downloaded |
| `ScrapeData.RunStep` | scrape_data/scrape_data.py:95-131 | after the `sys.exit(1)` at line 127 nothing changes; otherwise the loop body leaves `ReconcileSpec`'s directory, records its status, aborts exactly when that status is exhausted, and a run that goes on counts its downloads |
| `ScrapeData.Fetched` | scrape_data/scrape_data.py:107-113 | the addresses requested for the files reached, one per attempt; nothing is requested exactly when no file reached made an attempt |
| `ScrapeData.RunSnoc` | scrape_data/scrape_data.py:95-131 | proof helper that unfolds `RunSpec`: a run over one more file is the loop body applied to the run so far |
| `ScrapeData.AbortedStays` | scrape_data/scrape_data.py:127 | once a file exhausts its attempts, the later files change nothing |
| `ScrapeData.Reconciler.constructor` | scrape_data/scrape_data.py:70 | a run starts from the given directory with a counter of zero and no requests made |
| `ScrapeData.Reconciler.Attempt` | scrape_data/scrape_data.py:109-118 | one attempt requests exactly the given address once, touches only the temp path, and reports success exactly for a complete body |
| `ScrapeData.Reconciler.Rename` | scrape_data/scrape_data.py:130 | the directory after the rename is `Renamed` of the one before |
| `ScrapeData.Reconciler.Reconcile` | scrape_data/scrape_data.py:96-131 | the loop body leaves the status and directory `ReconcileSpec` gives, the counter grows by one exactly on a download, and the address `RequestUrl` of the file's url is requested once per attempt made |
| `ScrapeData.Reconciler.Download` | scrape_data/scrape_data.py:102-131 | for an absent file, the retry loop leaves the status and directory `ReconcileSpec` gives, the counter grows by one exactly on a download, and the file's address is requested once per attempt made |
| `ScrapeData.Reconciler.RunAll` | scrape_data/scrape_data.py:72-134 | the loop over the listing leaves the directory `RunSpec` gives, adds the number of downloads to the counter, records the requests `Fetched` gives for the files reached, and returns the logged count or the abort |
| `ScrapeData.Scrape` | scrape_data/scrape_data.py:70-134 | a whole run's exit, final directory and requested addresses are those of `RunSpec` and `Fetched` |
| `ScrapeDataProperties.TempNameInjective` | scrape_data/scrape_data.py:103-105 | distinct final names have distinct temp names |
| `ScrapeDataProperties.RequestUrlRooted` | scrape_data/scrape_data.py:111 | a url `/p` is fetched as the host followed by `p` |
| `ScrapeDataProperties.FetchedFromListing` | scrape_data/scrape_data.py:107-113 | files handled within the retry bound cause at most five times as many requests as there are files, every one for the address of one of those files |
| `ScrapeDataProperties.RunRequests` | scrape_data/scrape_data.py:72-131 | a run makes at most five times as many requests as there are listed files, each for the address of a listed file |
| `ScrapeDataProperties.RetryBound` | scrape_data/scrape_data.py:107-127 | four failures then a success download on the fifth attempt with its bytes; five failures abort with the final path absent |
| `ScrapeDataProperties.StaleTempIgnored` | scrape_data/scrape_data.py:115 | a temp file left by an aborted run changes neither the outcome of the next attempt at that file nor, after a download, the directory |
| `ScrapeDataProperties.RunRetryBound` | scrape_data/scrape_data.py:107 | every file a run reaches gets at most five attempts, and a download took at least one |
| `ScrapeDataProperties.RunAbortsLast` | scrape_data/scrape_data.py:123-127 | only the last file reached can be exhausted; it is exhausted iff the run aborts, and its final path is then absent |
| `ScrapeDataProperties.StatusesGrow` | scrape_data/scrape_data.py:72-95 | the files a run over a prefix of the listing handled are handled the same way by the whole run |
| `ScrapeDataProperties.RunPrefix` | scrape_data/scrape_data.py:95-101 | each file is handled by the loop body on the directory the earlier files left; in particular it is skipped iff its name existed by then |
| `ScrapeDataProperties.RunKeepsExisting` | scrape_data/scrape_data.py:98-131 | every entry present before the run, other than a listed temp path, keeps its contents |
| `ScrapeDataProperties.RunNewEntries` | scrape_data/scrape_data.py:115-130 | every entry a run adds is either a listed name installed by a rename after a successful attempt, holding exactly that attempt's bytes, or the temp file of the file that aborted the run |
| `ScrapeDataProperties.DownloadedIffAbsent` | scrape_data/scrape_data.py:98-131 | in a run that does not abort, a file is downloaded iff its name was absent when the loop reached it, with no condition on name clashes |
| `ScrapeDataProperties.CompletedRunCounts` | scrape_data/scrape_data.py:129-134 | when no name clashes with a temp name, a completed run leaves every listed name present, and its logged count is the number of distinct listed names that were absent before |
| `ScrapeDataProperties.AllPresentSkips` | scrape_data/scrape_data.py:98-101 | when every listed name is present, a run skips every file, downloads nothing and changes nothing |
| `ScrapeDataProperties.Idempotent` | scrape_data/scrape_data.py:96-101 | rerunning the same listing on the directory a completed run left downloads nothing and changes nothing, whatever the network answers |
| `ScrapeDataProperties.LaterDuplicateSkipped` | scrape_data/scrape_data.py:95-101 | a name listed twice is skipped the second time it is reached |
| `ScrapeDataProperties.ClashBreaksIdempotence` | scrape_data/scrape_data.py:103-105 | without the no-clash hypothesis idempotence fails: a file listed under another listed file's temp name is renamed away, so a second run downloads it again |

## Left out

- Environment checks, login and the session cookies (lines 46-68) are not
  modelled. If the login fails, line 65 reads `login.status`, which a response
  object does not have. That error path raises instead of logging, and it is
  outside the loop.
- The listing query, `raise_for_status` on it, and JSON decoding (lines 74-93)
  are not modelled. The listing is the input sequence of jobs, already
  flattened in district, year, month order, with `file["file_name"]` and
  `file["url"]` as the `Descriptor` fields. A malformed or empty-list listing,
  which the code does not handle, is outside the model.
- The network is an oracle with exactly five answers per listed file. The
  oracle is indexed by position in the listing, not by url. So a file listed
  twice may get different answers the two times.
- The chunked write (8192-byte slices of a body already in memory) is folded
  into one write per attempt. A local write error is `WriteFailed` with the
  bytes that reached the file.
- An exception raised by `open` itself is not distinguished from one raised
  by the request. In both cases the model leaves the temp path unchanged.
- The random sleep before each attempt, logging, argument parsing, and the
  DISTRICTS and YEARS constants are left out. They do not affect the directory
  or the counter.
- `os.path.join(data_folder, name)` is modelled as the key `name` in a flat
  directory. Path separators and `..` in names are not interpreted. The names
  `""` and `"."` are keys like any other, whereas for the script they name the
  output folder itself, which exists, so it skips them. A case-insensitive
  file system, where `os.path.exists` at line 98 matches a name that differs
  only in case, is not modelled either: keys are compared exactly.
- `requests.get` at lines 110-113 has no timeout, so an attempt can block
  forever. The oracle assumes every attempt ends with one of the three
  outcomes, so `RunSpec` and `Scrape` describe only runs in which every
  request returns or raises.
- ScrapeData.Reconciler.Rename always succeeds: rename errors are not
  modelled. In the script `os.rename` at line 130 sits in the `else:` of the
  `try` (line 128), so an `OSError` from it escapes the `except:` at line 118.
  It is not retried, and it ends the run with a traceback and status 1 after
  `n_downloads` was incremented, leaving the complete temp file behind.
  ScrapeDataProperties.RunAbortsLast ("an aborted run ends at an exhausted
  file") and `Scrape` ("the exit is `RunSpec`'s") hold only because this path
  is left out.
- The write at line 115 is indented one level too deep. As written, the
  module does not parse. The model follows the evident intent: the write
  happens inside the `with requests.get(...)` block, after
  `raise_for_status`.
- The Python loop calls `sys.exit(1)` inside the fifth failure's handler.
  `Reconciler.Download` lets the retry loop run out instead, then reports
  `Exhausted`, and `RunAll` returns `Aborted` at once. The directory is the
  same. On an abort the counter's value is never used, because the process
  exits.
- ScrapeDataProperties.CompletedRunCounts, ScrapeDataProperties.Idempotent and
  ScrapeDataProperties.LaterDuplicateSkipped assume that no listed name is the
  temp name of a listed name. Real PeMS names end in `.txt` or `.txt.gz`.
  `ClashBreaksIdempotence` shows that the assumption is needed.
- The Python loop records no per-file statuses. `FileStatus` is a real value:
  `Reconcile` and `Download` return it, and `RunAll` branches on it. Its
  `Exhausted` case stands in for the control transfer of `sys.exit(1)` at
  line 127. Only the `statuses` of a `Run` are bookkeeping, a record of which
  branch the loop took for each file.
