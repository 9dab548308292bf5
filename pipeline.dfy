/**
  The incremental sync of swimstats/pipeline.py: walk a WebDAV category for PDFs, skip
  the ones whose etag and size the store already holds, and for the others download,
  classify, record the file and, for result sheets, replace their result rows.

  Everything outside the process is a parameter bundled in `Env`: the directory
  listing, the download, the PDF text extraction, the (not modelled) results parser of
  `swimstats.parse`, and the RFC 2822 date parser. A listing, download or parse that
  fails stands for the exception that aborts the Python sync; the store keeps what was
  written before it.
 */
module Pipeline {
  import opened Wrappers
  import opened Text
  import opened Webdav
  import opened Detect
  import opened Db
  import opened Normalize

  type Bytes = seq<bv8>

  datatype Env = Env(
    list: string -> Option<seq<DavEntry>>,
    download: string -> Option<Bytes>,
    extract: Bytes -> Option<seq<Option<string>>>,
    parse: (Bytes, string) -> Option<seq<RowDict>>,
    httpDate: string -> Option<string>)

  /** One call of `progress_cb(done, total, path, stage)`. */
  datatype Progress = Progress(done: nat, total: nat, path: string, stage: string)

  /** The dictionary `sync_category` returns. */
  datatype SyncStats = SyncStats(
    found: nat, processed: nat, skipped: nat, resultsFiles: nat, nonResults: nat, zeroRows: nat)

  /** What happened to one listed PDF. */
  datatype Outcome = Skipped | NotResults | ResultsFile(rows: nat)

  /** The relations between the counters that every completed sync keeps. */
  predicate Consistent(s: SyncStats) {
    s.processed + s.skipped == s.found
    && s.resultsFiles + s.nonResults == s.processed
    && s.zeroRows <= s.resultsFiles
  }

  /** The counter updates of one iteration of the loop of `sync_category`. */
  function CountOutcome(t: SyncStats, o: Outcome): SyncStats {
    match o
    case Skipped => t.(found := t.found + 1, skipped := t.skipped + 1)
    case NotResults => t.(found := t.found + 1, processed := t.processed + 1, nonResults := t.nonResults + 1)
    case ResultsFile(n) =>
      t.(found := t.found + 1, processed := t.processed + 1, resultsFiles := t.resultsFiles + 1,
         zeroRows := if n == 0 then t.zeroRows + 1 else t.zeroRows)
  }

  /** The counters of a list of outcomes. */
  function Tally(os: seq<Outcome>): (r: SyncStats)
    ensures r.found == |os|
  {
    if os == [] then SyncStats(0, 0, 0, 0, 0, 0) else CountOutcome(Tally(os[..|os| - 1]), os[|os| - 1])
  }

  /** Counting one more outcome updates the counters as one iteration of the loop does. */
  lemma TallySnoc(os: seq<Outcome>, o: Outcome)
    ensures Tally(os + [o]) == CountOutcome(Tally(os), o)
  {
    assert (os + [o])[..|os|] == os;
  }

  /** Counting outcomes keeps the counter relations and counts every outcome once. */
  lemma {:induction false} TallyConsistent(os: seq<Outcome>)
    ensures Consistent(Tally(os)) && Tally(os).found == |os|
  {
    if os != [] {
      TallyConsistent(os[..|os| - 1]);
      match os[|os| - 1]
      case Skipped =>
      case NotResults =>
      case ResultsFile(n) =>
    }
  }

  /**
    What each counter counts: `skipped` the skipped files, `processed` the others,
    `non_results` the files below the threshold, `results_files` the result sheets and
    `zero_rows` the result sheets that gave no rows.
   */
  lemma {:induction false} TallyCounts(os: seq<Outcome>)
    ensures Tally(os).skipped == multiset(os)[Skipped]
    ensures Tally(os).processed == |os| - multiset(os)[Skipped]
    ensures Tally(os).nonResults == multiset(os)[NotResults]
    ensures Tally(os).resultsFiles == |os| - multiset(os)[Skipped] - multiset(os)[NotResults]
    ensures Tally(os).zeroRows == multiset(os)[ResultsFile(0)]
  {
    if os != [] {
      var init, o := os[..|os| - 1], os[|os| - 1];
      TallyCounts(init);
      assert os == init + [o];
      assert multiset(os) == multiset(init) + multiset{o};
      TallyConsistent(init);
    }
  }

  /** A sync in which every listed file was skipped processed nothing. */
  lemma {:induction false} TallyAllSkipped(os: seq<Outcome>)
    requires forall k :: 0 <= k < |os| ==> os[k] == Skipped
    ensures Tally(os).processed == 0 && Tally(os).skipped == |os|
  {
    if os != [] {
      TallyAllSkipped(os[..|os| - 1]);
    }
  }

  /** The row dictionaries after `r["dataset_tag"] = dataset_tag` on each. */
  function WithTag(rows: seq<RowDict>, tag: string): seq<RowDict> {
    seq(|rows|, k requires 0 <= k < |rows| => rows[k].(datasetTag := Some(tag)))
  }

  /** `for r in rows: r["dataset_tag"] = dataset_tag` */
  method TagRows(rows: seq<RowDict>, tag: string) returns (tagged: seq<RowDict>)
    ensures tagged == WithTag(rows, tag)
  {
    tagged := rows;
    for k := 0 to |rows|
      invariant |tagged| == |rows|
      invariant forall j :: 0 <= j < k ==> tagged[j] == rows[j].(datasetTag := Some(tag))
      invariant forall j :: k <= j < |rows| ==> tagged[j] == rows[j]
    {
      tagged := tagged[k := tagged[k].(datasetTag := Some(tag))];
    }
  }

  /**
    Every row stored for a result sheet carries the dataset tag of the sync, and otherwise
    what the parser produced, with the swimmer key of its swimmer.
   */
  lemma StoredRowsCarryTag(path: string, rows: seq<RowDict>, tag: string, id: nat)
    ensures var stored := RowsFor(path, WithTag(rows, tag), id, NormKey);
      |stored| == |rows|
      && forall k :: 0 <= k < |rows| ==>
        stored[k].datasetTag == tag && stored[k].filePath == path
        && stored[k].swimmer == rows[k].swimmer && stored[k].event == rows[k].event
        && stored[k].swimmerKey == NormKey(rows[k].swimmer.GetOr(""))
  {
  }

  predicate HasPath(es: seq<DavEntry>, p: string) {
    exists j :: 0 <= j < |es| && es[j].path == p
  }

  predicate DistinctPaths(es: seq<DavEntry>) {
    forall j, k :: 0 <= j < k < |es| ==> es[j].path != es[k].path
  }

  /** The stored row of `p` is as it was in `before`. */
  predicate SameFile(files: map<string, FileRow>, before: map<string, FileRow>, p: string) {
    (p in files <==> p in before) && (p in files ==> files[p] == before[p])
  }

  /** The `files` row `upsert_file` writes for `e`. */
  function FileRowFor(e: DavEntry, isResults: bool, score: nat, tag: string, httpDate: string -> Option<string>): FileRow {
    FileRow(e.etag, e.size, e.lastModified, NormalizeIso(e.lastModified, httpDate), if isResults then 1 else 0, score, tag)
  }

  /**
    The body of the loop of `sync_category` for one listed entry `e`. Returns `None` when
    the download fails (nothing written) or the parser fails (the file row is already
    upserted), either of which aborts the sync.
   */
  method SyncFile(db: Store, e: DavEntry, categoryPath: string, tag: string, env: Env)
    returns (outcome: Option<Outcome>)
    requires db.Valid()
    modifies db
    ensures db.Valid() && db.included == old(db.included)
    ensures !old(db.FileIsNewOrChanged(e)) ==>
      outcome == Some(Skipped) && db.files == old(db.files) && db.results == old(db.results) && db.nextId == old(db.nextId)
    ensures old(db.FileIsNewOrChanged(e)) && env.download(e.path).None? ==>
      outcome == None && db.files == old(db.files) && db.results == old(db.results) && db.nextId == old(db.nextId)
    ensures old(db.FileIsNewOrChanged(e)) && env.download(e.path).Some? ==>
      var b := env.download(e.path).value;
      var score := Score(env.extract(b), DefaultMaxPages);
      var isRes := score >= DefaultThreshold;
      var parsed := env.parse(b, categoryPath);
      db.files == old(db.files)[e.path := FileRowFor(e, isRes, score, tag, env.httpDate)]
      && (isRes && parsed.Some? ==>
            var rows := WithTag(parsed.value, tag);
            outcome == Some(ResultsFile(|rows|))
            && db.results == Without(old(db.results), e.path) + RowsFor(e.path, rows, old(db.nextId), NormKey))
      && (isRes && parsed.None? ==> outcome == None && db.results == old(db.results) && db.nextId == old(db.nextId))
      && (!isRes ==> outcome == Some(NotResults) && db.results == old(db.results) && db.nextId == old(db.nextId))
    ensures outcome.Some? ==> Known(db.files, e)
    ensures outcome.Some? ==> Handled(e, outcome.value, categoryPath, tag, env, old(db.files), old(db.results), db.files, db.results)
    ensures outcome.None? ==> old(db.FileIsNewOrChanged(e)) && db.results == old(db.results)
    ensures forall p :: p != e.path ==> SameFile(db.files, old(db.files), p)
    ensures forall p :: p != e.path ==> ResultsOf(db.results, p) == ResultsOf(old(db.results), p)
  {
    if !db.FileIsNewOrChanged(e) {
      return Some(Skipped);
    }
    var bytes := env.download(e.path);
    if bytes.None? {
      return None;
    }
    var pages := env.extract(bytes.value);
    var isRes, score := IsResultsPdf(pages, DefaultThreshold);
    db.UpsertFile(e, if isRes then 1 else 0, score, tag, env.httpDate);
    if isRes {
      var parsed := env.parse(bytes.value, categoryPath);
      if parsed.None? {
        return None;
      }
      var rows := TagRows(parsed.value, tag);
      ghost var before := db.results;
      db.ReplaceResultsForFile(e.path, rows);
      forall p | p != e.path ensures ResultsOf(db.results, p) == ResultsOf(before, p) {
        ReplaceResultsSpec(before, e.path, rows, old(db.nextId), NormKey, p);
      }
      ReplaceResultsSpec(before, e.path, rows, old(db.nextId), NormKey, e.path);
      outcome := Some(ResultsFile(|rows|));
    } else {
      outcome := Some(NotResults);
    }
  }

  /** `files` already holds the etag and size of `e`, so `file_is_new_or_changed(e)` is false. */
  predicate Known(files: map<string, FileRow>, e: DavEntry) {
    e.path in files && files[e.path].etag == e.etag && files[e.path].size == e.size
  }

  /** `files` already holds the etag and size of every entry. */
  predicate UpToDate(files: map<string, FileRow>, es: seq<DavEntry>) {
    forall j :: 0 <= j < |es| ==> Known(files, es[j])
  }

  /**
    What handling entry `e` with outcome `o` left on its own path, from the tables
    `files0` and `results0` to `files` and `results`. The entry was skipped exactly when
    the store already held its etag and size, and then its file row and result rows are
    unchanged. Otherwise it was downloaded and scored, and its file row is the one
    `upsert_file` writes for that score; a file below the threshold keeps its result rows,
    and a result sheet has exactly the parsed rows, tagged, as its result rows.
   */
  ghost predicate Handled(e: DavEntry, o: Outcome, categoryPath: string, tag: string, env: Env,
                          files0: map<string, FileRow>, results0: seq<ResultRow>,
                          files: map<string, FileRow>, results: seq<ResultRow>) {
    var p := e.path;
    (o.Skipped? <==> Known(files0, e))
    && (o.Skipped? ==> SameFile(files, files0, p) && ResultsOf(results, p) == ResultsOf(results0, p))
    && (!o.Skipped? ==>
          env.download(p).Some?
          && (var b := env.download(p).value;
              var score := Score(env.extract(b), DefaultMaxPages);
              p in files && files[p] == FileRowFor(e, o.ResultsFile?, score, tag, env.httpDate)
              && (o.NotResults? ==> score < DefaultThreshold && ResultsOf(results, p) == ResultsOf(results0, p))
              && (o.ResultsFile? ==>
                    score >= DefaultThreshold && env.parse(b, categoryPath).Some?
                    && o.rows == |env.parse(b, categoryPath).value|
                    && exists id: nat :: ResultsOf(results, p) == RowsFor(p, WithTag(env.parse(b, categoryPath).value, tag), id, NormKey))))
  }

  /** `Handled` depends only on the file row and the result rows of the entry's own path. */
  lemma HandledFrame(e: DavEntry, o: Outcome, categoryPath: string, tag: string, env: Env,
                     files0: map<string, FileRow>, results0: seq<ResultRow>, files: map<string, FileRow>, results: seq<ResultRow>,
                     files0': map<string, FileRow>, results0': seq<ResultRow>, files': map<string, FileRow>, results': seq<ResultRow>)
    requires Handled(e, o, categoryPath, tag, env, files0, results0, files, results)
    requires SameFile(files0', files0, e.path) && ResultsOf(results0', e.path) == ResultsOf(results0, e.path)
    requires SameFile(files', files, e.path) && ResultsOf(results', e.path) == ResultsOf(results, e.path)
    ensures Handled(e, o, categoryPath, tag, env, files0', results0', files', results')
  {
  }

  /**
    What holds after the first `i` entries were handled, starting from the tables
    `files0` and `results0`: one outcome per entry; paths outside the listing keep their
    file row and result rows; with distinct paths, the handled entries are up to date and
    each left on its path what `Handled` says; and when everything was up to date at the
    start, nothing changed and every entry was skipped.
   */
  ghost predicate SyncInv(entries: seq<DavEntry>, i: nat, categoryPath: string, tag: string, env: Env,
                          files0: map<string, FileRow>, results0: seq<ResultRow>,
                          files: map<string, FileRow>, results: seq<ResultRow>, outcomes: seq<Outcome>) {
    i <= |entries| && |outcomes| == i
    && (forall p :: !HasPath(entries, p) ==> SameFile(files, files0, p))
    && (forall p :: !HasPath(entries, p) ==> ResultsOf(results, p) == ResultsOf(results0, p))
    && (DistinctPaths(entries) ==> UpToDate(files, entries[..i]))
    && (DistinctPaths(entries) ==>
          forall k :: 0 <= k < i ==> Handled(entries[k], outcomes[k], categoryPath, tag, env, files0, results0, files, results))
    && (UpToDate(files0, entries) ==>
          files == files0 && results == results0 && forall k :: 0 <= k < i ==> outcomes[k] == Skipped)
  }

  /** With distinct paths, the entries from `i` on still have the file row and result rows they started with. */
  ghost predicate Pending(entries: seq<DavEntry>, i: nat, files0: map<string, FileRow>, results0: seq<ResultRow>,
                          files: map<string, FileRow>, results: seq<ResultRow>) {
    DistinctPaths(entries) ==>
      forall k :: i <= k < |entries| ==>
        SameFile(files, files0, entries[k].path) && ResultsOf(results, entries[k].path) == ResultsOf(results0, entries[k].path)
  }

  /** A file the store has never seen is not counted as skipped. */
  lemma NewFileNotSkipped(e: DavEntry, categoryPath: string, tag: string, env: Env,
                          files: map<string, FileRow>, results: seq<ResultRow>)
    requires e.path !in files
    ensures !SyncInv([e], 1, categoryPath, tag, env, files, results, files, results, [Skipped])
  {
    assert DistinctPaths([e]) && !Known(files, [e][0]);
  }

  /** Handling entry `i` as `SyncFile` does keeps `SyncInv` and `Pending`. */
  lemma SyncStep(entries: seq<DavEntry>, i: nat, categoryPath: string, tag: string, env: Env,
                 files0: map<string, FileRow>, results0: seq<ResultRow>,
                 files: map<string, FileRow>, results: seq<ResultRow>, outcomes: seq<Outcome>,
                 files': map<string, FileRow>, results': seq<ResultRow>, o: Outcome)
    requires i < |entries| && SyncInv(entries, i, categoryPath, tag, env, files0, results0, files, results, outcomes)
    requires Pending(entries, i, files0, results0, files, results)
    requires Known(files, entries[i]) ==> o == Skipped && files' == files && results' == results
    requires Known(files', entries[i])
    requires Handled(entries[i], o, categoryPath, tag, env, files, results, files', results')
    requires forall p :: p != entries[i].path ==> SameFile(files', files, p)
    requires forall p :: p != entries[i].path ==> ResultsOf(results', p) == ResultsOf(results, p)
    ensures SyncInv(entries, i + 1, categoryPath, tag, env, files0, results0, files', results', outcomes + [o])
    ensures Pending(entries, i + 1, files0, results0, files', results')
  {
    assert HasPath(entries, entries[i].path);
    forall p | !HasPath(entries, p)
      ensures SameFile(files', files0, p) && ResultsOf(results', p) == ResultsOf(results0, p)
    {
      assert p != entries[i].path;
      assert SameFile(files', files, p) && SameFile(files, files0, p);
    }
    if DistinctPaths(entries) {
      StillUpToDate(files, files', entries, i);
      var outcomes' := outcomes + [o];
      forall k | 0 <= k < i + 1
        ensures Handled(entries[k], outcomes'[k], categoryPath, tag, env, files0, results0, files', results')
      {
        var p := entries[k].path;
        if k < i {
          assert p != entries[i].path;
          HandledFrame(entries[k], outcomes[k], categoryPath, tag, env, files0, results0, files, results,
                       files0, results0, files', results');
        } else {
          HandledFrame(entries[i], o, categoryPath, tag, env, files, results, files', results',
                       files0, results0, files', results');
        }
      }
      forall k | i + 1 <= k < |entries|
        ensures SameFile(files', files0, entries[k].path)
        ensures ResultsOf(results', entries[k].path) == ResultsOf(results0, entries[k].path)
      {
        assert entries[k].path != entries[i].path;
        assert SameFile(files', files, entries[k].path);
      }
    }
    if UpToDate(files0, entries) {
      assert Known(files0, entries[i]);
    }
  }

  /**
    A failure on entry `i`, which was not yet known and whose handling changed at most its
    own file row, keeps `SyncInv` for the `i` entries before it, and shows that the
    listing was not up to date at the start.
   */
  lemma SyncFail(entries: seq<DavEntry>, i: nat, categoryPath: string, tag: string, env: Env,
                 files0: map<string, FileRow>, results0: seq<ResultRow>,
                 files: map<string, FileRow>, results: seq<ResultRow>, outcomes: seq<Outcome>,
                 files': map<string, FileRow>)
    requires i < |entries| && SyncInv(entries, i, categoryPath, tag, env, files0, results0, files, results, outcomes)
    requires !Known(files, entries[i])
    requires forall p :: p != entries[i].path ==> SameFile(files', files, p)
    ensures SyncInv(entries, i, categoryPath, tag, env, files0, results0, files', results, outcomes)
    ensures !UpToDate(files0, entries)
  {
    assert HasPath(entries, entries[i].path);
    forall p | !HasPath(entries, p) ensures SameFile(files', files0, p) {
      assert p != entries[i].path;
      assert SameFile(files', files, p) && SameFile(files, files0, p);
    }
    if DistinctPaths(entries) {
      forall j | 0 <= j < i ensures Known(files', entries[..i][j]) {
        assert entries[..i][j] == entries[j];
        assert entries[j].path != entries[i].path;
        assert SameFile(files', files, entries[j].path);
      }
      forall k | 0 <= k < i
        ensures Handled(entries[k], outcomes[k], categoryPath, tag, env, files0, results0, files', results)
      {
        assert entries[k].path != entries[i].path;
        HandledFrame(entries[k], outcomes[k], categoryPath, tag, env, files0, results0, files, results,
                     files0, results0, files', results);
      }
    }
    var e := entries[i];
    assert UpToDate(files0, entries) ==> Known(files0, e);
  }

  /** Entry `i` of the loop in `sync_category`, handled by `SyncFile`, extends `SyncInv` by its outcome. */
  method SyncNext(db: Store, entries: seq<DavEntry>, i: nat, categoryPath: string, tag: string, env: Env,
                  ghost files0: map<string, FileRow>, ghost results0: seq<ResultRow>, ghost outcomes: seq<Outcome>)
    returns (o: Option<Outcome>)
    requires db.Valid() && i < |entries|
    requires SyncInv(entries, i, categoryPath, tag, env, files0, results0, db.files, db.results, outcomes)
    requires Pending(entries, i, files0, results0, db.files, db.results)
    modifies db
    ensures db.Valid() && db.included == old(db.included)
    ensures o.Some? ==>
      SyncInv(entries, i + 1, categoryPath, tag, env, files0, results0, db.files, db.results, outcomes + [o.value])
      && Pending(entries, i + 1, files0, results0, db.files, db.results)
    ensures o.None? ==>
      SyncInv(entries, i, categoryPath, tag, env, files0, results0, db.files, db.results, outcomes)
      && db.results == old(db.results) && !UpToDate(files0, entries)
  {
    o := SyncFile(db, entries[i], categoryPath, tag, env);
    if o.None? {
      SyncFail(entries, i, categoryPath, tag, env, files0, results0, old(db.files), old(db.results), outcomes, db.files);
    } else {
      SyncStep(entries, i, categoryPath, tag, env, files0, results0, old(db.files), old(db.results), outcomes,
               db.files, db.results, o.value);
    }
  }

  /**
    `sync_category` once the PDFs are listed (lines 25 to 80): the start call of the
    progress callback, then the loop over the entries. Returns the counters (`None` when
    a download or parse failed), the progress calls and, as a ghost value, one outcome per
    entry handled before the end or the failure.
   */
  method SyncEntries(db: Store, entries: seq<DavEntry>, categoryPath: string, tag: string, env: Env)
    returns (stats: Option<SyncStats>, progress: seq<Progress>, ghost outcomes: seq<Outcome>)
    requires db.Valid()
    modifies db
    ensures db.Valid() && db.included == old(db.included)
    ensures stats.Some? ==> |outcomes| == |entries| && stats.value == Tally(outcomes)
    ensures stats.None? ==> |outcomes| < |entries| && !old(UpToDate(db.files, entries))
    ensures stats.Some? ==> Consistent(stats.value) && stats.value.found == |entries|
    ensures ProgressTrace(progress, |outcomes|, |entries|, categoryPath)
    ensures SyncInv(entries, |outcomes|, categoryPath, tag, env, old(db.files), old(db.results), db.files, db.results, outcomes)
    ensures stats.Some? && DistinctPaths(entries) ==> UpToDate(db.files, entries)
    ensures old(UpToDate(db.files, entries)) ==>
      stats.Some? && stats.value.processed == 0 && stats.value.skipped == |entries|
  {
    var total := |entries|;
    var processed, skipped, nonResults, resultsFiles, zeroRows := 0, 0, 0, 0, 0;
    var done := 0;
    progress := [Progress(done, total, categoryPath, "scan")];
    outcomes := [];
    for i := 0 to |entries|
      invariant db.Valid() && db.included == old(db.included)
      invariant done == i
      invariant processed == Tally(outcomes).processed && skipped == Tally(outcomes).skipped
      invariant resultsFiles == Tally(outcomes).resultsFiles && nonResults == Tally(outcomes).nonResults
      invariant zeroRows == Tally(outcomes).zeroRows
      invariant ProgressTrace(progress, i, total, categoryPath)
      invariant SyncInv(entries, i, categoryPath, tag, env, old(db.files), old(db.results), db.files, db.results, outcomes)
      invariant Pending(entries, i, old(db.files), old(db.results), db.files, db.results)
    {
      var e := entries[i];
      var o := SyncNext(db, entries, i, categoryPath, tag, env, old(db.files), old(db.results), outcomes);
      if o.None? {
        stats := None;
        return;
      }
      match o.value {
        case Skipped =>
          skipped := skipped + 1;
        case NotResults =>
          nonResults := nonResults + 1;
          processed := processed + 1;
        case ResultsFile(n) =>
          if n == 0 {
            zeroRows := zeroRows + 1;
          }
          resultsFiles := resultsFiles + 1;
          processed := processed + 1;
      }
      done := done + 1;
      TallySnoc(outcomes, o.value);
      outcomes := outcomes + [o.value];
      var event := Progress(done, total, e.path, if o.value.Skipped? then "skip_unchanged" else "done");
      ProgressTraceSnoc(progress, i, total, categoryPath, event);
      progress := progress + [event];
    }
    assert entries[..|entries|] == entries;
    TallyConsistent(outcomes);
    if old(UpToDate(db.files, entries)) {
      TallyAllSkipped(outcomes);
    }
    stats := Some(SyncStats(total, processed, skipped, resultsFiles, nonResults, zeroRows));
  }

  /**
    The progress calls of a category after `n` entries: the start call with `done` 0,
    then one call per entry, the `k`-th reporting `done == k` out of `total`.
   */
  predicate ProgressTrace(progress: seq<Progress>, n: nat, total: nat, categoryPath: string) {
    |progress| == n + 1 && progress[0] == Progress(0, total, categoryPath, "scan")
    && forall k :: 0 <= k <= n ==> progress[k].done == k <= progress[k].total == total
  }

  /** Reporting entry `n + 1` of `total` extends the trace by one call. */
  lemma ProgressTraceSnoc(progress: seq<Progress>, n: nat, total: nat, categoryPath: string, event: Progress)
    requires ProgressTrace(progress, n, total, categoryPath)
    requires event.done == n + 1 <= event.total == total
    ensures ProgressTrace(progress + [event], n + 1, total, categoryPath)
  {
  }

  /** Storing entry `i` leaves the earlier entries up to date when all paths differ. */
  lemma StillUpToDate(before: map<string, FileRow>, after: map<string, FileRow>, entries: seq<DavEntry>, i: nat)
    requires i < |entries| && DistinctPaths(entries)
    requires UpToDate(before, entries[..i])
    requires Known(after, entries[i])
    requires forall p :: p != entries[i].path ==> SameFile(after, before, p)
    ensures UpToDate(after, entries[..i + 1])
  {
    forall j | 0 <= j < i + 1 ensures Known(after, entries[j]) {
      if j < i {
        assert entries[..i][j] == entries[j];
        assert SameFile(after, before, entries[j].path);
      }
    }
  }

  /**
    One call of `sync_category`, as seen from outside: the directories the walk listed
    and its result, the outcomes of the entries handled, the counters returned (`None`
    when the sync failed), the progress calls, and the `files` and `results` tables
    before and after.
   */
  datatype CategoryRun = CategoryRun(
    listed: seq<string>, walk: Option<seq<DavEntry>>, outcomes: seq<Outcome>,
    stats: Option<SyncStats>, trace: seq<Progress>,
    filesBefore: map<string, FileRow>, resultsBefore: seq<ResultRow>,
    filesAfter: map<string, FileRow>, resultsAfter: seq<ResultRow>)

  /**
    `run` is a sync of `categoryPath` with dataset tag `tag` under `env`: the PDFs are the walk of the category;
    a failed listing ends the sync before the first progress call with the tables as they
    were; otherwise the entry loop ran, over all PDFs when it returned counters and over
    a proper prefix when a download or parse failed.
   */
  ghost predicate SyncedCategory(categoryPath: string, env: Env, tag: string, run: CategoryRun) {
    IsWalk(categoryPath, env.list, run.listed, run.walk)
    && ((run.walk.None?
         && run.stats.None? && run.trace == [] && run.outcomes == []
         && run.filesAfter == run.filesBefore && run.resultsAfter == run.resultsBefore)
        || (run.walk.Some? &&
          var pdfs := run.walk.value;
          ProgressTrace(run.trace, |run.outcomes|, |pdfs|, categoryPath)
          && SyncInv(pdfs, |run.outcomes|, categoryPath, tag, env,
                     run.filesBefore, run.resultsBefore, run.filesAfter, run.resultsAfter, run.outcomes)
          && (run.stats.Some? ==> |run.outcomes| == |pdfs| && run.stats.value == Tally(run.outcomes))
          && (run.stats.None? ==> |run.outcomes| < |pdfs| && !UpToDate(run.filesBefore, pdfs))
          && (run.stats.Some? && DistinctPaths(pdfs) ==> UpToDate(run.filesAfter, pdfs))
          && (UpToDate(run.filesBefore, pdfs) ==>
                run.stats.Some? && run.stats.value.processed == 0 && run.stats.value.skipped == |pdfs|)))
  }

  /**
    In a sync of a listing with distinct paths, each PDF handled left on its path what
    `Handled` says, compared with the tables before the sync.
   */
  lemma SyncedCategoryHandled(categoryPath: string, env: Env, tag: string, run: CategoryRun, k: nat)
    requires SyncedCategory(categoryPath, env, tag, run) && run.walk.Some? && DistinctPaths(run.walk.value)
    requires k < |run.outcomes|
    ensures k < |run.walk.value|
    ensures Handled(run.walk.value[k], run.outcomes[k], categoryPath, tag, env,
                    run.filesBefore, run.resultsBefore, run.filesAfter, run.resultsAfter)
  {
  }

  /** The counters of a completed sync are consistent and count every PDF the walk found. */
  lemma SyncedCategoryConsistent(categoryPath: string, env: Env, tag: string, run: CategoryRun)
    requires SyncedCategory(categoryPath, env, tag, run) && run.stats.Some?
    ensures run.walk.Some? && Consistent(run.stats.value) && run.stats.value.found == |run.walk.value|
  {
    TallyConsistent(run.outcomes);
  }

  /**
    Each run is a sync of the category path at its position, and every run but the last
    returned its counters (the loop goes on to the next path only then).
   */
  ghost predicate AllSynced(paths: seq<string>, env: Env, tag: string, runs: seq<CategoryRun>)
    decreases |runs|
  {
    |runs| <= |paths|
    && (runs != [] ==>
          var k := |runs| - 1;
          AllSynced(paths, env, tag, runs[..k]) && SyncedCategory(paths[k], env, tag, runs[k])
          && (k > 0 ==> runs[k - 1].stats.Some?))
  }

  /** The run at position `k` is a sync of the `k`-th path, and it returned unless it is the last. */
  lemma {:induction false} AllSyncedAt(paths: seq<string>, env: Env, tag: string, runs: seq<CategoryRun>, k: nat)
    requires AllSynced(paths, env, tag, runs) && k < |runs|
    ensures SyncedCategory(paths[k], env, tag, runs[k])
    ensures k < |runs| - 1 ==> runs[k].stats.Some?
  {
    AllSyncedPrefix(paths, env, tag, runs, k + 1);
    var prefix := runs[..k + 1];
    SyncedCategoryOfEqual(paths[k], env, tag, prefix[k], runs[k]);
    if k < |runs| - 1 {
      AllSyncedPrefix(paths, env, tag, runs, k + 2);
      assert runs[..k + 2][k] == runs[k];
    }
  }

  /** Every prefix of synced runs is itself synced. */
  lemma {:induction false} AllSyncedPrefix(paths: seq<string>, env: Env, tag: string, runs: seq<CategoryRun>, j: nat)
    requires AllSynced(paths, env, tag, runs) && j <= |runs|
    ensures AllSynced(paths, env, tag, runs[..j])
    decreases |runs| - j
  {
    if j < |runs| {
      var prefix := runs[..|runs| - 1];
      AllSyncedPrefix(paths, env, tag, prefix, j);
      assert prefix[..j] == runs[..j];
    } else {
      assert runs[..j] == runs;
    }
  }

  lemma SyncedCategoryOfEqual(categoryPath: string, env: Env, tag: string, run: CategoryRun, same: CategoryRun)
    requires SyncedCategory(categoryPath, env, tag, run) && run == same
    ensures SyncedCategory(categoryPath, env, tag, same)
  {
  }

  /** A sync of the next path extends the runs when the last one returned. */
  lemma AllSyncedSnoc(paths: seq<string>, env: Env, tag: string, runs: seq<CategoryRun>, run: CategoryRun)
    requires AllSynced(paths, env, tag, runs) && |runs| < |paths|
    requires runs == [] || runs[|runs| - 1].stats.Some?
    requires SyncedCategory(paths[|runs|], env, tag, run)
    ensures AllSynced(paths, env, tag, runs + [run])
  {
    assert (runs + [run])[..|runs|] == runs;
  }

  /**
    `sync_category(category_path, dataset_tag)`: walk the category for PDFs, then handle
    them in the order found. Returns the counters (`None` when the listing, a download or
    a parse failed), the progress calls, and, as a ghost value, the whole run.
   */
  method SyncCategory(db: Store, categoryPath: string, tag: string, env: Env, ghost universe: set<string>)
    returns (stats: Option<SyncStats>, progress: seq<Progress>, ghost run: CategoryRun)
    requires db.Valid()
    requires StripChar(categoryPath, '/') in universe
    requires DirsIn(env.list, universe)
    modifies db
    ensures db.Valid() && db.included == old(db.included)
    ensures SyncedCategory(categoryPath, env, tag, run)
    ensures run.stats == stats && run.trace == progress
    ensures run.filesBefore == old(db.files) && run.resultsBefore == old(db.results)
    ensures run.filesAfter == db.files && run.resultsAfter == db.results
  {
    var walk, listed := WalkPdfs(categoryPath, env.list, universe);
    if walk.None? {
      stats, progress := None, [];
      run := CategoryRun(listed, walk, [], None, [], db.files, db.results, db.files, db.results);
      return;
    }
    ghost var outcomes;
    stats, progress, outcomes := SyncEntries(db, walk.value, categoryPath, tag, env);
    run := CategoryRun(listed, walk, outcomes, stats, progress, old(db.files), old(db.results), db.files, db.results);
  }

  /** The dictionary `sync_multiple_categories` returns: the number of directories and the summed counters. */
  datatype Totals = Totals(dirs: nat, sum: SyncStats)

  function Add(a: SyncStats, b: SyncStats): SyncStats {
    SyncStats(a.found + b.found, a.processed + b.processed, a.skipped + b.skipped,
              a.resultsFiles + b.resultsFiles, a.nonResults + b.nonResults, a.zeroRows + b.zeroRows)
  }

  /** The counters of several syncs added up. */
  function SumStats(ss: seq<SyncStats>): SyncStats {
    if ss == [] then SyncStats(0, 0, 0, 0, 0, 0) else Add(SumStats(ss[..|ss| - 1]), ss[|ss| - 1])
  }

  /** Adding two consistent sets of counters gives consistent counters. */
  lemma AddConsistent(a: SyncStats, b: SyncStats)
    requires Consistent(a) && Consistent(b)
    ensures Consistent(Add(a, b))
  {
  }

  /** Adding up consistent counters keeps them consistent. */
  lemma {:induction false} SumStatsConsistent(ss: seq<SyncStats>)
    requires forall k :: 0 <= k < |ss| ==> Consistent(ss[k])
    ensures Consistent(SumStats(ss))
  {
    if ss != [] {
      SumStatsConsistent(ss[..|ss| - 1]);
    }
  }

  /** When every run returned, each run's counters are consistent. */
  lemma AllSyncedReturned(paths: seq<string>, env: Env, tag: string, runs: seq<CategoryRun>)
    requires AllSynced(paths, env, tag, runs) && (runs == [] || runs[|runs| - 1].stats.Some?)
    ensures forall k :: 0 <= k < |runs| ==> runs[k].stats.Some? && Consistent(runs[k].stats.value)
  {
    forall k | 0 <= k < |runs| ensures runs[k].stats.Some? && Consistent(runs[k].stats.value) {
      AllSyncedAt(paths, env, tag, runs, k);
      SyncedCategoryConsistent(paths[k], env, tag, runs[k]);
    }
  }

  /** When every run returned, the summed counters are consistent. */
  lemma AllSyncedConsistent(paths: seq<string>, env: Env, tag: string, runs: seq<CategoryRun>)
    requires AllSynced(paths, env, tag, runs) && (runs == [] || runs[|runs| - 1].stats.Some?)
    ensures Consistent(SumStats(StatsOf(runs)))
  {
    AllSyncedCounted(paths, env, tag, runs);
    SumStatsTally(runs);
    TallyConsistent(AllOutcomes(runs));
  }

  /** When every run returned, each run returned the counters of its own outcomes. */
  lemma AllSyncedCounted(paths: seq<string>, env: Env, tag: string, runs: seq<CategoryRun>)
    requires AllSynced(paths, env, tag, runs) && (runs == [] || runs[|runs| - 1].stats.Some?)
    ensures forall k :: 0 <= k < |runs| ==> runs[k].stats.Some? && runs[k].stats.value == Tally(runs[k].outcomes)
  {
    forall k | 0 <= k < |runs| ensures runs[k].stats.Some? && runs[k].stats.value == Tally(runs[k].outcomes) {
      AllSyncedAt(paths, env, tag, runs, k);
      SyncedCategoryTally(paths[k], env, tag, runs[k]);
    }
  }

  /** The counters a completed sync returns are the counters of its outcomes. */
  lemma SyncedCategoryTally(categoryPath: string, env: Env, tag: string, run: CategoryRun)
    requires SyncedCategory(categoryPath, env, tag, run) && run.stats.Some?
    ensures run.stats.value == Tally(run.outcomes)
  {
  }

  /** The outcomes of all runs, run after run. */
  ghost function AllOutcomes(runs: seq<CategoryRun>): seq<Outcome> {
    if runs == [] then [] else AllOutcomes(runs[..|runs| - 1]) + runs[|runs| - 1].outcomes
  }

  /** Adding no counters changes nothing. */
  lemma AddNothing(t: SyncStats)
    ensures Add(t, Tally([])) == t
  {
  }

  /** Counting one more outcome after a sum counts it in the second summand. */
  lemma CountOutcomeAdd(x: SyncStats, y: SyncStats, o: Outcome)
    ensures CountOutcome(Add(x, y), o) == Add(x, CountOutcome(y, o))
  {
  }

  /** The outcomes of all runs end with the outcomes of the last one. */
  lemma AllOutcomesLast(runs: seq<CategoryRun>)
    requires runs != []
    ensures AllOutcomes(runs) == AllOutcomes(runs[..|runs| - 1]) + runs[|runs| - 1].outcomes
  {
  }

  /** Counting two lists of outcomes one after the other is adding their counters. */
  lemma {:induction false} TallyAppend(a: seq<Outcome>, b: seq<Outcome>)
    ensures Tally(a + b) == Add(Tally(a), Tally(b))
    decreases |b|
  {
    if b == [] {
      assert a + b == a;
      AddNothing(Tally(a));
    } else {
      var init, o := b[..|b| - 1], b[|b| - 1];
      TallyAppend(a, init);
      assert (a + b)[..|a + b| - 1] == a + init;
      CountOutcomeAdd(Tally(a), Tally(init), o);
    }
  }

  /**
    When every run returned, the summed counters are the counters of all the PDFs the
    runs handled, in order.
   */
  lemma {:induction false} SumStatsTally(runs: seq<CategoryRun>)
    requires forall k :: 0 <= k < |runs| ==> runs[k].stats.Some? && runs[k].stats.value == Tally(runs[k].outcomes)
    ensures SumStats(StatsOf(runs)) == Tally(AllOutcomes(runs))
  {
    if runs != [] {
      var prefix, last := runs[..|runs| - 1], runs[|runs| - 1];
      SumStatsTally(prefix);
      AllOutcomesLast(runs);
      SumStatsLast(runs);
      TallyAppend(AllOutcomes(prefix), last.outcomes);
    }
  }

  /** The sum over runs is the sum over all but the last, plus the last run's counters. */
  lemma SumStatsLast(runs: seq<CategoryRun>)
    requires runs != [] && runs[|runs| - 1].stats.Some?
    ensures SumStats(StatsOf(runs)) == Add(SumStats(StatsOf(runs[..|runs| - 1])), runs[|runs| - 1].stats.value)
  {
    var ss := StatsOf(runs);
    assert ss[..|ss| - 1] == StatsOf(runs[..|runs| - 1]);
  }

  /** The counters of each run, all-zero for a run that returned none. */
  function StatsOf(runs: seq<CategoryRun>): (ss: seq<SyncStats>)
    ensures |ss| == |runs|
    ensures forall k :: 0 <= k < |runs| && runs[k].stats.Some? ==> ss[k] == runs[k].stats.value
  {
    if runs == [] then []
    else StatsOf(runs[..|runs| - 1]) + [runs[|runs| - 1].stats.GetOr(SyncStats(0, 0, 0, 0, 0, 0))]
  }

  /** One more run that returned counters adds them to the sum. */
  lemma SumStatsSnoc(runs: seq<CategoryRun>, run: CategoryRun)
    requires run.stats.Some?
    ensures SumStats(StatsOf(runs + [run])) == Add(SumStats(StatsOf(runs)), run.stats.value)
  {
    assert (runs + [run])[..|runs|] == runs;
    var ss := StatsOf(runs + [run]);
    assert ss[..|ss| - 1] == StatsOf(runs);
  }

  /**
    The progress calls of `sync_multiple_categories` after the runs so far: for the
    `k`-th path (from 0), a `dir_start` call reporting `k` of the total, the calls of its
    sync, and, when that sync returned, a `dir_done` call reporting `k + 1`.
   */
  function DirsTrace(paths: seq<string>, runs: seq<CategoryRun>): seq<Progress>
    requires |runs| <= |paths|
  {
    if runs == [] then []
    else
      var k := |runs| - 1;
      DirsTrace(paths, runs[..k]) + [Progress(k, |paths|, paths[k], "dir_start")] + runs[k].trace
        + (if runs[k].stats.Some? then [Progress(k + 1, |paths|, paths[k], "dir_done")] else [])
  }

  /** One more run adds its `dir_start` call, its own calls and, when it returned, its `dir_done` call. */
  lemma DirsTraceSnoc(paths: seq<string>, runs: seq<CategoryRun>, run: CategoryRun)
    requires |runs| < |paths|
    ensures DirsTrace(paths, runs + [run])
      == DirsTrace(paths, runs) + [Progress(|runs|, |paths|, paths[|runs|], "dir_start")] + run.trace
         + (if run.stats.Some? then [Progress(|runs| + 1, |paths|, paths[|runs|], "dir_done")] else [])
  {
    var runs' := runs + [run];
    assert runs'[..|runs|] == runs && runs'[|runs|] == run;
  }

  /** The runs follow each other on the same store: each starts with the tables the previous one left. */
  ghost predicate Chained(files0: map<string, FileRow>, results0: seq<ResultRow>, runs: seq<CategoryRun>,
                          files: map<string, FileRow>, results: seq<ResultRow>) {
    if runs == [] then files == files0 && results == results0
    else
      runs[0].filesBefore == files0 && runs[0].resultsBefore == results0
      && (forall k :: 0 < k < |runs| ==>
            runs[k].filesBefore == runs[k - 1].filesAfter && runs[k].resultsBefore == runs[k - 1].resultsAfter)
      && runs[|runs| - 1].filesAfter == files && runs[|runs| - 1].resultsAfter == results
  }

  /** A run that starts from the tables the earlier runs left extends the chain to its own end tables. */
  lemma ChainedSnoc(files0: map<string, FileRow>, results0: seq<ResultRow>, runs: seq<CategoryRun>,
                    files: map<string, FileRow>, results: seq<ResultRow>, run: CategoryRun)
    requires Chained(files0, results0, runs, files, results)
    requires run.filesBefore == files && run.resultsBefore == results
    ensures Chained(files0, results0, runs + [run], run.filesAfter, run.resultsAfter)
  {
    var runs' := runs + [run];
    forall k | 0 < k < |runs'|
      ensures runs'[k].filesBefore == runs'[k - 1].filesAfter && runs'[k].resultsBefore == runs'[k - 1].resultsAfter
    {
      if k < |runs| {
        assert runs'[k] == runs[k] && runs'[k - 1] == runs[k - 1];
      }
    }
  }

  /**
    One iteration of the loop of `sync_multiple_categories` on the `i`-th path: the
    `dir_start` call, `sync_category` with its calls, and, when it returned, the
    `dir_done` call. The run is added to the runs so far, on the tables they left, and
    its counters to the running sum `agg`.
   */
  method SyncNextCategory(db: Store, paths: seq<string>, i: nat, tag: string, env: Env, ghost universe: set<string>,
                          progress: seq<Progress>, ghost files0: map<string, FileRow>, ghost results0: seq<ResultRow>,
                          ghost runs: seq<CategoryRun>, agg: SyncStats)
    returns (stats: Option<SyncStats>, progress': seq<Progress>, ghost runs': seq<CategoryRun>, agg': SyncStats)
    requires db.Valid() && i == |runs| < |paths|
    requires StripChar(paths[i], '/') in universe
    requires DirsIn(env.list, universe)
    requires AllSynced(paths, env, tag, runs) && (runs == [] || runs[i - 1].stats.Some?)
    requires Chained(files0, results0, runs, db.files, db.results)
    requires progress == DirsTrace(paths, runs)
    requires agg == SumStats(StatsOf(runs))
    modifies db
    ensures db.Valid() && db.included == old(db.included)
    ensures |runs'| == i + 1 && runs'[i].stats == stats
    ensures AllSynced(paths, env, tag, runs') && Chained(files0, results0, runs', db.files, db.results)
    ensures progress' == DirsTrace(paths, runs')
    ensures stats.Some? ==> agg' == SumStats(StatsOf(runs'))
  {
    var cat := paths[i];
    var p;
    ghost var run;
    stats, p, run := SyncCategory(db, cat, tag, env, universe);
    ChainedSnoc(files0, results0, runs, run.filesBefore, run.resultsBefore, run);
    DirsTraceSnoc(paths, runs, run);
    agg' := agg;
    if stats.Some? {
      SumStatsSnoc(runs, run);
      agg' := Add(agg, stats.value);
    }
    AllSyncedSnoc(paths, env, tag, runs, run);
    runs' := runs + [run];
    progress' := progress + [Progress(i, |paths|, cat, "dir_start")] + p
      + (if stats.Some? then [Progress(i + 1, |paths|, cat, "dir_done")] else []);
  }

  /**
    The loop of `sync_multiple_categories` over `paths`: one sync per path, in order, each
    on the tables the previous one left, stopping at the first that returned no counters.
    Returns the summed counters when every sync returned them.
   */
  method SyncPaths(db: Store, paths: seq<string>, tag: string, env: Env, ghost universe: set<string>)
    returns (sum: Option<SyncStats>, progress: seq<Progress>, ghost runs: seq<CategoryRun>)
    requires db.Valid()
    requires forall k :: 0 <= k < |paths| ==> StripChar(paths[k], '/') in universe
    requires DirsIn(env.list, universe)
    modifies db
    ensures db.Valid() && db.included == old(db.included)
    ensures AllSynced(paths, env, tag, runs)
    ensures Chained(old(db.files), old(db.results), runs, db.files, db.results)
    ensures progress == DirsTrace(paths, runs)
    ensures sum.Some? <==> |runs| == |paths| && (runs == [] || runs[|runs| - 1].stats.Some?)
    ensures sum.Some? ==> sum.value == SumStats(StatsOf(runs))
  {
    var agg := SumStats([]);
    progress := [];
    runs := [];
    for i := 0 to |paths|
      invariant db.Valid() && db.included == old(db.included)
      invariant |runs| == i
      invariant AllSynced(paths, env, tag, runs) && (runs == [] || runs[i - 1].stats.Some?)
      invariant Chained(old(db.files), old(db.results), runs, db.files, db.results)
      invariant progress == DirsTrace(paths, runs)
      invariant agg == SumStats(StatsOf(runs))
    {
      var s;
      s, progress, runs, agg := SyncNextCategory(db, paths, i, tag, env, universe, progress, old(db.files), old(db.results), runs, agg);
      if s.None? {
        sum := None;
        return;
      }
    }
    sum := Some(agg);
  }

  /**
    `sync_multiple_categories(category_paths, dataset_tag)`: the paths in order (none when
    they are None), then the totals: the number of directories and the summed counters.
    `None` when a sync stopped on a failure. `AllSyncedConsistent` shows that the summed
    counters keep the relations of `Consistent`.
   */
  method SyncMultipleCategories(db: Store, categoryPaths: Option<seq<string>>, tag: string, env: Env,
                                ghost universe: set<string>)
    returns (totals: Option<Totals>, progress: seq<Progress>, ghost runs: seq<CategoryRun>)
    requires db.Valid()
    requires forall k :: 0 <= k < |categoryPaths.GetOr([])| ==> StripChar(categoryPaths.GetOr([])[k], '/') in universe
    requires DirsIn(env.list, universe)
    modifies db
    ensures db.Valid() && db.included == old(db.included)
    ensures AllSynced(categoryPaths.GetOr([]), env, tag, runs)
    ensures Chained(old(db.files), old(db.results), runs, db.files, db.results)
    ensures progress == DirsTrace(categoryPaths.GetOr([]), runs)
    ensures totals.Some? <==> |runs| == |categoryPaths.GetOr([])| && (runs == [] || runs[|runs| - 1].stats.Some?)
    ensures totals.Some? ==>
      totals.value == Totals(|runs|, SumStats(StatsOf(runs)))
  {
    var sum;
    sum, progress, runs := SyncPaths(db, categoryPaths.GetOr([]), tag, env, universe);
    if sum.Some? {
      totals := Some(Totals(|categoryPaths.GetOr([])|, sum.value));
    } else {
      totals := None;
    }
  }
}
