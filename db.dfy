/**
  The SQLite store of swimstats/db.py as an object in memory: the `files` table keyed
  by path, the `results` table in id order, and the `included_categories` table keyed
  by category path. SQL execution, connections, schema creation and migrations are not
  modelled; each function of db.py becomes a method that changes the tables as its
  statements would.
 */
module Db {
  import opened Wrappers
  import opened Text
  import opened Ordering
  import opened Normalize
  import opened Webdav

  // ---------------------------------------------------------------------------
  // _normalize_iso
  // ---------------------------------------------------------------------------

  /** The ISO test of `_normalize_iso`: at least ten characters, with '-' at indices 4 and 7. */
  predicate IsIsoLike(v: string) {
    |v| >= 10 && v[4] == '-' && v[7] == '-'
  }

  /**
    `_normalize_iso(value)`: None for a missing or empty value, the first ten characters
    of an ISO-like stripped value, and otherwise whatever the RFC 2822 date parser gives
    (`httpDate`: the date as YYYY-MM-DD, or None when the parser raises).
   */
  function NormalizeIso(value: Option<string>, httpDate: string -> Option<string>): (r: Option<string>)
    ensures value.None? || value == Some("") ==> r == None
    ensures value.Some? && IsIsoLike(Strip(value.value)) ==> r == Some(Strip(value.value)[..10])
    ensures value.Some? && value != Some("") && !IsIsoLike(Strip(value.value)) ==> r == httpDate(Strip(value.value))
  {
    if value.None? || value.value == "" then None
    else
      var v := Strip(value.value);
      if IsIsoLike(v) then Some(v[..10]) else httpDate(v)
  }

  /** A date already in ISO form (YYYY-MM-DD, no surrounding whitespace) is kept as it is. */
  lemma NormalizeIsoOfIso(d: string, httpDate: string -> Option<string>)
    requires |d| == 10 && d[4] == '-' && d[7] == '-' && !IsSpace(d[0]) && !IsSpace(d[9])
    ensures NormalizeIso(Some(d), httpDate) == Some(d)
  {
    StrippedIsFixed(d);
  }

  /**
    Normalising again keeps an ISO result, provided its tenth character is not
    whitespace (a blank there would be stripped the second time).
   */
  lemma NormalizeIsoIdempotent(value: Option<string>, httpDate: string -> Option<string>)
    requires value.Some? && IsIsoLike(Strip(value.value)) && !IsSpace(Strip(value.value)[9])
    ensures NormalizeIso(NormalizeIso(value, httpDate), httpDate) == NormalizeIso(value, httpDate)
  {
    var d := Strip(value.value)[..10];
    NormalizeIsoOfIso(d, httpDate);
  }

  // ---------------------------------------------------------------------------
  // The rows of the tables
  // ---------------------------------------------------------------------------

  /** A row of `files`, without its key. */
  datatype FileRow = FileRow(
    etag: Option<string>, size: Option<nat>, lastModified: Option<string>, lastModifiedIso: Option<string>,
    isResults: int, resultsScore: int, datasetTag: string)

  /**
    A row dictionary handed to `replace_results_for_file`. Each field is `None` when the
    key is absent (or holds `None`).
   */
  datatype RowDict = RowDict(
    category: Option<string>, event: Option<string>, swimmer: Option<string>, sex: Option<string>,
    age: Option<nat>, datasetTag: Option<string>, timeCentis: Option<nat>, rawLine: Option<string>,
    meetDateIso: Option<string>)

  /** A row of `results`. */
  datatype ResultRow = ResultRow(
    id: nat, filePath: string, category: string, event: Option<string>, swimmer: Option<string>,
    swimmerKey: string, sex: Option<string>, age: Option<nat>, datasetTag: string,
    timeCentis: Option<nat>, rawLine: Option<string>, meetDateIso: Option<string>)

  /** The row `replace_results_for_file` inserts for `r`: category and tag default to "", and the key is `norm_key` of the swimmer. */
  function RowFor(path: string, r: RowDict, id: nat, key: string -> string): (row: ResultRow)
    ensures row.filePath == path && row.id == id
    ensures row.swimmerKey == key(r.swimmer.GetOr(""))
    ensures r.category.None? ==> row.category == ""
    ensures r.datasetTag.None? ==> row.datasetTag == ""
  {
    ResultRow(id, path, r.category.GetOr(""), r.event, r.swimmer, key(r.swimmer.GetOr("")),
              r.sex, r.age, r.datasetTag.GetOr(""), r.timeCentis, r.rawLine, r.meetDateIso)
  }

  /** The rows inserted for `rows`, with ids counting up from `id`. */
  function RowsFor(path: string, rows: seq<RowDict>, id: nat, key: string -> string): (r: seq<ResultRow>)
    ensures |r| == |rows|
    ensures forall k :: 0 <= k < |rows| ==> r[k] == RowFor(path, rows[k], id + k, key)
  {
    seq(|rows|, k requires 0 <= k < |rows| => RowFor(path, rows[k], id + k, key))
  }

  /** Inserting one more dictionary appends its row. */
  lemma RowsForSnoc(path: string, rows: seq<RowDict>, id: nat, key: string -> string)
    requires rows != []
    ensures RowsFor(path, rows, id, key)
         == RowsFor(path, rows[..|rows| - 1], id, key) + [RowFor(path, rows[|rows| - 1], id + |rows| - 1, key)]
  {
  }

  /** The rows of `rs` that belong to `path`, in order (`SELECT … WHERE file_path = ?`). */
  function ResultsOf(rs: seq<ResultRow>, path: string): (r: seq<ResultRow>)
    ensures |r| <= |rs|
  {
    if rs == [] then []
    else
      var last := rs[|rs| - 1];
      var init := rs[..|rs| - 1];
      ResultsOf(init, path) + (if last.filePath == path then [last] else [])
  }

  /** The rows of `rs` that do not belong to `path`, in order (what `DELETE … WHERE file_path = ?` leaves). */
  function Without(rs: seq<ResultRow>, path: string): (r: seq<ResultRow>)
    ensures |r| <= |rs|
  {
    if rs == [] then []
    else
      var last := rs[|rs| - 1];
      var init := rs[..|rs| - 1];
      Without(init, path) + (if last.filePath != path then [last] else [])
  }

  /** Ids increase along the table and stay below the next id to hand out (AUTOINCREMENT). */
  predicate IdsBelow(rs: seq<ResultRow>, next: nat) {
    (forall i :: 0 <= i < |rs| ==> rs[i].id < next)
    && (forall i, j :: 0 <= i < j < |rs| ==> rs[i].id < rs[j].id)
  }

  lemma {:induction false} ResultsOfAppend(a: seq<ResultRow>, b: seq<ResultRow>, path: string)
    ensures ResultsOf(a + b, path) == ResultsOf(a, path) + ResultsOf(b, path)
    decreases |b|
  {
    if b == [] {
      assert a + b == a;
    } else {
      var init := b[..|b| - 1];
      assert (a + b)[..|a + b| - 1] == a + init;
      ResultsOfAppend(a, init, path);
    }
  }

  lemma {:induction false} ResultsOfWithout(rs: seq<ResultRow>, path: string, other: string)
    ensures ResultsOf(Without(rs, path), path) == []
    ensures other != path ==> ResultsOf(Without(rs, path), other) == ResultsOf(rs, other)
    decreases |rs|
  {
    if rs != [] {
      var init := rs[..|rs| - 1];
      var last := rs[|rs| - 1];
      ResultsOfWithout(init, path, other);
      var tail := if last.filePath != path then [last] else [];
      ResultsOfAppend(Without(init, path), tail, path);
      ResultsOfAppend(Without(init, path), tail, other);
    }
  }

  lemma {:induction false} ResultsOfRowsFor(path: string, rows: seq<RowDict>, id: nat, key: string -> string, other: string)
    ensures ResultsOf(RowsFor(path, rows, id, key), path) == RowsFor(path, rows, id, key)
    ensures other != path ==> ResultsOf(RowsFor(path, rows, id, key), other) == []
    decreases |rows|
  {
    if rows != [] {
      var init := rows[..|rows| - 1];
      ResultsOfRowsFor(path, init, id, key, other);
      var last := RowFor(path, rows[|rows| - 1], id + |rows| - 1, key);
      RowsForSnoc(path, rows, id, key);
      ResultsOfAppend(RowsFor(path, init, id, key), [last], path);
      ResultsOfAppend(RowsFor(path, init, id, key), [last], other);
    }
  }

  /**
    What `replace_results_for_file(path, rows)` leaves: the rows of `path` are exactly the
    new ones in the given order, and the rows of every other path are as before.
   */
  lemma ReplaceResultsSpec(rs: seq<ResultRow>, path: string, rows: seq<RowDict>, id: nat, key: string -> string, other: string)
    ensures ResultsOf(Without(rs, path) + RowsFor(path, rows, id, key), path) == RowsFor(path, rows, id, key)
    ensures other != path ==> ResultsOf(Without(rs, path) + RowsFor(path, rows, id, key), other) == ResultsOf(rs, other)
  {
    ResultsOfAppend(Without(rs, path), RowsFor(path, rows, id, key), path);
    ResultsOfAppend(Without(rs, path), RowsFor(path, rows, id, key), other);
    ResultsOfWithout(rs, path, other);
    ResultsOfRowsFor(path, rows, id, key, other);
  }

  // ---------------------------------------------------------------------------
  // Category paths
  // ---------------------------------------------------------------------------

  /** `p and str(p).strip()`: present, non-empty and not only whitespace. */
  predicate IsBlank(p: Option<string>) {
    p.None? || Strip(p.value) == []
  }

  /** `[p.strip("/") for p in (category_paths or []) if p and str(p).strip()]` */
  function CleanPaths(ps: seq<Option<string>>): (r: seq<string>)
    ensures |r| <= |ps|
  {
    if ps == [] then []
    else
      var last := ps[|ps| - 1];
      CleanPaths(ps[..|ps| - 1]) + (if IsBlank(last) then [] else [StripChar(last.value, '/')])
  }

  /** The cleaned paths are exactly the slash-stripped non-blank entries. */
  lemma {:induction false} CleanPathsMembers(ps: seq<Option<string>>)
    ensures forall x :: x in CleanPaths(ps) <==> exists p :: p in ps && !IsBlank(p) && x == StripChar(p.value, '/')
  {
    if ps != [] {
      var init := ps[..|ps| - 1];
      CleanPathsMembers(init);
      assert forall p :: p in ps <==> p in init || p == ps[|ps| - 1];
    }
  }

  // ---------------------------------------------------------------------------
  // The store
  // ---------------------------------------------------------------------------

  class Store {
    /** `files`, keyed by path. */
    var files: map<string, FileRow>
    /** `results`, in id order. */
    var results: seq<ResultRow>
    /** The id the next inserted result row gets. */
    var nextId: nat
    /** `included_categories`: category path to `enabled`. */
    var included: map<string, bool>

    ghost predicate Valid()
      reads this
    {
      IdsBelow(results, nextId)
    }

    /** A freshly created database: every table empty. */
    constructor()
      ensures Valid()
      ensures files == map[] && results == [] && included == map[] && nextId == 1
    {
      files := map[];
      results := [];
      nextId := 1;
      included := map[];
    }

    /** `file_is_new_or_changed(e)`: the path is unknown, or its stored etag or size differs. */
    predicate FileIsNewOrChanged(e: DavEntry): (b: bool)
      reads this
      ensures e.path !in files ==> b
      ensures !b ==> files[e.path].etag == e.etag && files[e.path].size == e.size
    {
      e.path !in files || files[e.path].etag != e.etag || files[e.path].size != e.size
    }

    /**
      `upsert_file(e, is_results, results_score, dataset_tag)`: the row of `e.path` now
      holds the entry's etag, size and dates and the given flags, whether or not it
      existed; nothing else changes. `httpDate` is the RFC 2822 parser of `_normalize_iso`.
     */
    method UpsertFile(e: DavEntry, isResults: int, resultsScore: int, datasetTag: string, httpDate: string -> Option<string>)
      modifies this
      ensures files == old(files)[e.path := FileRow(e.etag, e.size, e.lastModified,
                                                    NormalizeIso(e.lastModified, httpDate), isResults, resultsScore, datasetTag)]
      ensures results == old(results) && nextId == old(nextId) && included == old(included)
      ensures !FileIsNewOrChanged(e)
    {
      var iso := NormalizeIso(e.lastModified, httpDate);
      files := files[e.path := FileRow(e.etag, e.size, e.lastModified, iso, isResults, resultsScore, datasetTag)];
    }

    /**
      `replace_results_for_file(path, rows)`: delete the rows of `path`, then insert one
      row per dictionary, in order, with fresh increasing ids.
     */
    method ReplaceResultsForFile(path: string, rows: seq<RowDict>)
      requires Valid()
      modifies this
      ensures Valid()
      ensures results == Without(old(results), path) + RowsFor(path, rows, old(nextId), NormKey)
      ensures nextId == old(nextId) + |rows|
      ensures files == old(files) && included == old(included)
    {
      WithoutKeepsIds(results, path, nextId);
      results := Without(results, path);
      InsertRows(path, rows, NormKey);
    }

    /** The insert loop of `replace_results_for_file`, with the swimmer-key function `key`. */
    method InsertRows(path: string, rows: seq<RowDict>, key: string -> string)
      requires Valid()
      modifies this
      ensures Valid()
      ensures results == old(results) + RowsFor(path, rows, old(nextId), key)
      ensures nextId == old(nextId) + |rows|
      ensures files == old(files) && included == old(included)
    {
      ghost var id0 := nextId;
      assert rows[..0] == [];
      for k := 0 to |rows|
        invariant results == old(results) + RowsFor(path, rows[..k], id0, key)
        invariant nextId == id0 + k
        invariant IdsBelow(results, nextId)
        invariant files == old(files) && included == old(included)
      {
        RowsForSnoc(path, rows[..k + 1], id0, key);
        assert rows[..k + 1][..k] == rows[..k];
        results := results + [RowFor(path, rows[k], nextId, key)];
        nextId := nextId + 1;
      }
      assert rows[..|rows|] == rows;
    }

    /**
      `list_included_categories(enabled_only)`: the category paths in sorted order,
      only the enabled ones when `enabledOnly`.
     */
    method ListIncludedCategories(enabledOnly: bool) returns (r: seq<string>)
      ensures StrictlySorted(r)
      ensures forall p :: p in r <==> p in included && (!enabledOnly || included[p])
    {
      r := [];
      var left := included.Keys;
      while left != {}
        invariant left <= included.Keys
        invariant StrictlySorted(r)
        invariant forall p :: p in r <==> p in included && p !in left && (!enabledOnly || included[p])
        decreases |left|
      {
        var p :| p in left;
        left := left - {p};
        if !enabledOnly || included[p] {
          r := Insert(r, p);
        }
      }
    }

    /** `add_included_categories(paths)`: each cleaned path is inserted, or re-enabled when present. */
    method AddIncludedCategories(paths: seq<Option<string>>)
      modifies this
      ensures included == EnableAll(old(included), CleanPaths(paths))
      ensures files == old(files) && results == old(results) && nextId == old(nextId)
    {
      var ps := CleanPaths(paths);
      ghost var before := included;
      for i := 0 to |ps|
        invariant included == EnableAll(before, ps[..i])
        invariant files == old(files) && results == old(results) && nextId == old(nextId)
      {
        assert ps[..i + 1][..i] == ps[..i];
        included := included[ps[i] := true];
      }
      assert ps[..|ps|] == ps;
    }

    /** `remove_included_categories(paths)`: each cleaned path is deleted. */
    method RemoveIncludedCategories(paths: seq<Option<string>>)
      modifies this
      ensures included == RemoveAll(old(included), CleanPaths(paths))
      ensures files == old(files) && results == old(results) && nextId == old(nextId)
    {
      var ps := CleanPaths(paths);
      ghost var before := included;
      for i := 0 to |ps|
        invariant included == RemoveAll(before, ps[..i])
        invariant files == old(files) && results == old(results) && nextId == old(nextId)
      {
        assert ps[..i + 1][..i] == ps[..i];
        included := included - {ps[i]};
      }
      assert ps[..|ps|] == ps;
    }

    /** `set_category_enabled(path, enabled)`: updates the row of the slash-stripped path if there is one; never inserts. */
    method SetCategoryEnabled(path: string, enabled: bool)
      modifies this
      ensures var p := StripChar(path, '/');
        included == if p in old(included) then old(included)[p := enabled] else old(included)
      ensures included.Keys == old(included).Keys
      ensures files == old(files) && results == old(results) && nextId == old(nextId)
    {
      var p := StripChar(path, '/');
      if p in included {
        included := included[p := enabled];
      }
    }
  }

  /** Deleting rows keeps the ids increasing and below the next id. */
  lemma {:induction false} WithoutKeepsIds(rs: seq<ResultRow>, path: string, next: nat)
    requires IdsBelow(rs, next)
    ensures IdsBelow(Without(rs, path), next)
    decreases |rs|
  {
    if rs != [] {
      var init := rs[..|rs| - 1];
      var last := rs[|rs| - 1];
      assert IdsBelow(init, last.id);
      WithoutKeepsIds(init, path, last.id);
    }
  }

  /** `included` after inserting or re-enabling each of `ps` in turn. */
  function EnableAll(m: map<string, bool>, ps: seq<string>): (r: map<string, bool>)
    ensures r.Keys == m.Keys + set p | p in ps
  {
    if ps == [] then m
    else
      var init := ps[..|ps| - 1];
      var r := EnableAll(m, init)[ps[|ps| - 1] := true];
      assert (set p | p in ps) == (set p | p in init) + {ps[|ps| - 1]};
      r
  }

  /** Every added path is present and enabled; every other path keeps its row. */
  lemma {:induction false} EnableAllSpec(m: map<string, bool>, ps: seq<string>)
    ensures forall p :: p in ps ==> EnableAll(m, ps)[p]
    ensures forall p :: p !in ps && p in m ==> EnableAll(m, ps)[p] == m[p]
  {
    if ps != [] {
      var init := ps[..|ps| - 1];
      EnableAllSpec(m, init);
      assert forall p :: p in ps <==> p in init || p == ps[|ps| - 1];
    }
  }

  /** Adding the same paths a second time changes nothing. */
  lemma EnableAllIdempotent(m: map<string, bool>, ps: seq<string>)
    ensures EnableAll(EnableAll(m, ps), ps) == EnableAll(m, ps)
  {
    var once := EnableAll(m, ps);
    var twice := EnableAll(once, ps);
    EnableAllSpec(m, ps);
    EnableAllSpec(once, ps);
    assert twice.Keys == once.Keys;
    forall p | p in twice ensures twice[p] == once[p] {
      if p !in ps {
        assert twice[p] == once[p];
      }
    }
  }
  /** `included` after deleting each of `ps` in turn. */
  function RemoveAll(m: map<string, bool>, ps: seq<string>): (r: map<string, bool>)
    ensures r.Keys <= m.Keys
  {
    if ps == [] then m else RemoveAll(m, ps[..|ps| - 1]) - {ps[|ps| - 1]}
  }

  /** Exactly the listed paths are gone; every other path keeps its row. */
  lemma {:induction false} RemoveAllSpec(m: map<string, bool>, ps: seq<string>)
    ensures forall p :: p in RemoveAll(m, ps) <==> p in m && p !in ps
    ensures forall p :: p in RemoveAll(m, ps) ==> RemoveAll(m, ps)[p] == m[p]
  {
    if ps != [] {
      var init := ps[..|ps| - 1];
      RemoveAllSpec(m, init);
      assert forall p :: p in ps <==> p in init || p == ps[|ps| - 1];
    }
  }

}
